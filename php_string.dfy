/**
 * The PHP string built-ins that the helpers rest on, over strings as
 * sequences of characters: explode, implode, trim with a character list,
 * str_replace for one needle, ASCII case mapping, integer formatting and the
 * integer prefix parse that intval performs on strings.
 */
module PhpString {

  /** The characters PHP's trim() strips when no character list is given. */
  const Whitespace: set<char> := {' ', '\t', '\n', '\r', '\0', '\U{0B}'}

  /** The characters PHP's numeric-string parser skips before a number. */
  const NumericWhitespace: set<char> := {' ', '\t', '\n', '\r', '\U{0B}', '\U{0C}'}

  const PhpIntMax: int := 0x7FFF_FFFF_FFFF_FFFF
  const PhpIntMin: int := -0x8000_0000_0000_0000

  predicate IsSuffix(suffix: string, s: string) {
    |suffix| <= |s| && s[|s| - |suffix|..] == suffix
  }

  // ---------------------------------------------------------------------
  // explode / implode

  /**
   * explode(sep, s): the pieces between the leftmost non-overlapping
   * occurrences of `sep`. PHP refuses an empty separator.
   */
  function Split(s: string, sep: string): (r: seq<string>)
    requires sep != ""
    ensures |r| >= 1
    ensures r[0] <= s
    ensures |r| == 1 ==> r[0] == s
    decreases |s|
  {
    if s == "" then [""]
    else if sep <= s then [""] + Split(s[|sep|..], sep)
    else
      var rest := Split(s[1..], sep);
      var r := [[s[0]] + rest[0]] + rest[1..];
      assert s == [s[0]] + s[1..];
      r
  }

  /** implode(sep, pieces): the first piece starts it. */
  function Join(sep: string, pieces: seq<string>): (r: string)
    ensures pieces != [] ==> pieces[0] <= r
    decreases |pieces|
  {
    if pieces == [] then ""
    else if |pieces| == 1 then pieces[0]
    else pieces[0] + sep + Join(sep, pieces[1..])
  }

  lemma {:induction false} JoinCons(sep: string, p: string, pieces: seq<string>)
    requires pieces != []
    ensures Join(sep, [p] + pieces) == p + sep + Join(sep, pieces)
  {
    assert ([p] + pieces)[1..] == pieces;
  }

  lemma {:induction false} JoinSnoc(sep: string, pieces: seq<string>, p: string)
    requires pieces != []
    ensures Join(sep, pieces + [p]) == Join(sep, pieces) + sep + p
    decreases |pieces|
  {
    if |pieces| == 1 {
      assert pieces + [p] == [pieces[0]] + [p];
    } else {
      assert pieces + [p] == [pieces[0]] + (pieces[1..] + [p]);
      JoinCons(sep, pieces[0], pieces[1..] + [p]);
      JoinSnoc(sep, pieces[1..], p);
      JoinCons(sep, pieces[0], pieces[1..]);
      assert [pieces[0]] + pieces[1..] == pieces;
    }
  }

  lemma {:induction false} SplitAtSep(s: string, sep: string)
    requires sep != "" && s != "" && sep <= s
    ensures Split(s, sep) == [""] + Split(s[|sep|..], sep)
  {
  }

  lemma {:induction false} SplitAtChar(s: string, sep: string)
    requires sep != "" && s != "" && !(sep <= s)
    ensures Split(s, sep) == [[s[0]] + Split(s[1..], sep)[0]] + Split(s[1..], sep)[1..]
  {
  }

  /** implode(sep, explode(sep, s)) == s. */
  lemma {:induction false} JoinSplit(s: string, sep: string)
    requires sep != ""
    ensures Join(sep, Split(s, sep)) == s
    decreases |s|
  {
    if s == "" {
    } else if sep <= s {
      JoinSplit(s[|sep|..], sep);
      JoinSplitAtSep(s, sep);
    } else {
      JoinSplit(s[1..], sep);
      JoinSplitAtChar(s, sep);
    }
  }

  lemma {:induction false} JoinSplitAtSep(s: string, sep: string)
    requires sep != "" && s != "" && sep <= s
    requires Join(sep, Split(s[|sep|..], sep)) == s[|sep|..]
    ensures Join(sep, Split(s, sep)) == s
  {
    SplitAtSep(s, sep);
    JoinEmptyFirst(sep, Split(s[|sep|..], sep), s[|sep|..]);
    PrefixAndRest(s, sep);
  }

  lemma {:induction false} JoinEmptyFirst(sep: string, pieces: seq<string>, joined: string)
    requires pieces != [] && Join(sep, pieces) == joined
    ensures Join(sep, [""] + pieces) == sep + joined
  {
    JoinCons(sep, "", pieces);
    assert "" + sep == sep;
  }

  lemma {:induction false} PrefixAndRest(s: string, p: string)
    requires p <= s
    ensures s == p + s[|p|..]
  {
  }

  lemma {:induction false} JoinSplitAtChar(s: string, sep: string)
    requires sep != "" && s != "" && !(sep <= s)
    requires Join(sep, Split(s[1..], sep)) == s[1..]
    ensures Join(sep, Split(s, sep)) == s
  {
    SplitAtChar(s, sep);
    JoinFirstChar(sep, s[0], Split(s[1..], sep));
    assert s == [s[0]] + s[1..];
  }

  /** A character put in front of the first piece goes in front of the joined string. */
  lemma {:induction false} JoinFirstChar(sep: string, c: char, pieces: seq<string>)
    requires pieces != []
    ensures Join(sep, [[c] + pieces[0]] + pieces[1..]) == [c] + Join(sep, pieces)
  {
    if |pieces| > 1 {
      JoinCons(sep, pieces[0], pieces[1..]);
      assert [pieces[0]] + pieces[1..] == pieces;
      JoinCons(sep, [c] + pieces[0], pieces[1..]);
    }
  }

  /** With a one-character separator, no piece of explode contains it. */
  lemma {:induction false} SplitPiecesFree(s: string, sep: string)
    requires |sep| == 1
    ensures forall p | p in Split(s, sep) :: sep[0] !in p
    decreases |s|
  {
    if s == "" {
    } else if sep <= s {
      SplitPiecesFree(s[|sep|..], sep);
    } else {
      SplitPiecesFree(s[1..], sep);
      var rest := Split(s[1..], sep);
      assert s[0] != sep[0] by { assert sep == [sep[0]]; assert !(sep <= s); }
      forall p | p in Split(s, sep) ensures sep[0] !in p {
        if p != [s[0]] + rest[0] {
          assert p in rest[1..];
        }
      }
    }
  }

  lemma {:induction false} SplitOfFree(p: string, sep: string)
    requires |sep| == 1 && sep[0] !in p
    ensures Split(p, sep) == [p]
    decreases |p|
  {
    if p != "" {
      assert !(sep <= p);
      SplitOfFree(p[1..], sep);
      assert [p[0]] + p[1..] == p;
    }
  }

  lemma {:induction false} SplitPrefixSep(p: string, sep: string, rest: string)
    requires |sep| == 1 && sep[0] !in p
    ensures Split(p + sep + rest, sep) == [p] + Split(rest, sep)
    decreases |p|
  {
    if p == "" {
      assert p + sep + rest == sep + rest;
      assert sep <= sep + rest;
      assert (sep + rest)[|sep|..] == rest;
    } else {
      var s := p + sep + rest;
      assert s[0] == p[0];
      assert !(sep <= s);
      assert s[1..] == p[1..] + sep + rest;
      SplitPrefixSep(p[1..], sep, rest);
      assert [p[0]] + p[1..] == p;
    }
  }

  /**
   * explode(sep, implode(sep, pieces)) == pieces for a one-character
   * separator that no piece contains.
   */
  lemma {:induction false} SplitJoin(pieces: seq<string>, sep: string)
    requires |sep| == 1 && pieces != []
    requires forall p | p in pieces :: sep[0] !in p
    ensures Split(Join(sep, pieces), sep) == pieces
    decreases |pieces|
  {
    if |pieces| == 1 {
      SplitOfFree(pieces[0], sep);
    } else {
      JoinCons(sep, pieces[0], pieces[1..]);
      assert [pieces[0]] + pieces[1..] == pieces;
      SplitPrefixSep(pieces[0], sep, Join(sep, pieces[1..]));
      SplitJoin(pieces[1..], sep);
    }
  }

  lemma {:induction false} JoinAppend(sep: string, a: seq<string>, b: seq<string>)
    requires a != [] && b != []
    ensures Join(sep, a + b) == Join(sep, a) + sep + Join(sep, b)
    decreases |a|
  {
    if |a| == 1 {
      assert a + b == [a[0]] + b;
      JoinCons(sep, a[0], b);
    } else {
      assert a + b == [a[0]] + (a[1..] + b);
      JoinCons(sep, a[0], a[1..] + b);
      JoinAppend(sep, a[1..], b);
      JoinCons(sep, a[0], a[1..]);
      assert [a[0]] + a[1..] == a;
    }
  }

  /** implode of a non-empty list of pieces is empty only for [""]. */
  lemma {:induction false} JoinEmpty(sep: string, pieces: seq<string>)
    requires |sep| == 1
    ensures Join(sep, pieces) == "" <==> pieces == [] || pieces == [""]
  {
    if |pieces| >= 2 {
      JoinCons(sep, pieces[0], pieces[1..]);
      assert [pieces[0]] + pieces[1..] == pieces;
      assert |Join(sep, pieces)| >= 1;
    }
  }

  // ---------------------------------------------------------------------
  // trim

  function TrimLeft(s: string, chars: set<char>): (r: string)
    ensures IsSuffix(r, s)
    ensures r == "" || r[0] !in chars
    ensures forall i | 0 <= i < |s| - |r| :: s[i] in chars
    decreases |s|
  {
    if s != [] && s[0] in chars then TrimLeft(s[1..], chars) else s
  }

  function TrimRight(s: string, chars: set<char>): (r: string)
    ensures r <= s
    ensures r == "" || r[|r| - 1] !in chars
    ensures forall i | |r| <= i < |s| :: s[i] in chars
    decreases |s|
  {
    if s != [] && s[|s| - 1] in chars then TrimRight(s[..|s| - 1], chars) else s
  }

  /** trim(s, chars): strip the given characters at both ends. */
  function Trim(s: string, chars: set<char>): (r: string)
  {
    TrimLeft(TrimRight(s, chars), chars)
  }

  /** trim removes exactly the padding around a string whose ends are not trimmed characters. */
  lemma {:induction false} TrimPadded(pre: string, x: string, post: string, chars: set<char>)
    requires x != "" && x[0] !in chars && x[|x| - 1] !in chars
    requires forall i | 0 <= i < |pre| :: pre[i] in chars
    requires forall i | 0 <= i < |post| :: post[i] in chars
    ensures Trim(pre + x + post, chars) == x
  {
    var s := pre + x + post;
    var r := TrimRight(s, chars);
    assert s[|pre| + |x| - 1] == x[|x| - 1];
    assert forall i | |pre| + |x| <= i < |s| :: s[i] == post[i - |pre| - |x|];
    assert r == s[..|r|];
    assert r == pre + x;
    var l := TrimLeft(r, chars);
    assert r[|pre|] == x[0];
    assert forall i | 0 <= i < |pre| :: r[i] == pre[i];
    assert l == r[|r| - |l|..];
  }

  /** A string whose ends are not trimmed characters is left as it is. */
  lemma {:induction false} TrimFixed(x: string, chars: set<char>)
    requires x == "" || (x[0] !in chars && x[|x| - 1] !in chars)
    ensures Trim(x, chars) == x
  {
    if x != "" {
      TrimPadded("", x, "", chars);
      assert "" + x + "" == x;
    }
  }

  /** The set of characters of a character-list argument such as trim's second one. */
  function CharSet(list: string): set<char> {
    set c | c in list
  }

  // ---------------------------------------------------------------------
  // ASCII case

  predicate IsUpper(c: char) { 'A' <= c <= 'Z' }
  predicate IsLower(c: char) { 'a' <= c <= 'z' }

  function ToUpper(c: char): (r: char)
    ensures !IsLower(r)
    ensures !IsLower(c) ==> r == c
  {
    if IsLower(c) then (c as int - 32) as char else c
  }

  function ToLower(c: char): (r: char)
    ensures !IsUpper(r)
    ensures !IsUpper(c) ==> r == c
  {
    if IsUpper(c) then (c as int + 32) as char else c
  }

  /** strtolower on ASCII letters. */
  function Lower(s: string): (r: string)
    ensures |r| == |s|
    ensures forall i | 0 <= i < |s| :: r[i] == ToLower(s[i])
    decreases |s|
  {
    if s == "" then "" else [ToLower(s[0])] + Lower(s[1..])
  }

  // ---------------------------------------------------------------------
  // str_replace with one needle

  /** str_replace(needle, rep, s): left-to-right, non-overlapping. */
  function ReplaceAll(s: string, needle: string, rep: string): string
    requires needle != ""
    decreases |s|
  {
    if s == "" then ""
    else if needle <= s then rep + ReplaceAll(s[|needle|..], needle, rep)
    else [s[0]] + ReplaceAll(s[1..], needle, rep)
  }

  /** str_replace agrees with implode(rep, explode(needle, s)). */
  lemma {:induction false} ReplaceAllIsJoinSplit(s: string, needle: string, rep: string)
    requires needle != ""
    ensures ReplaceAll(s, needle, rep) == Join(rep, Split(s, needle))
    decreases |s|
  {
    if s == "" {
    } else if needle <= s {
      ReplaceAllIsJoinSplit(s[|needle|..], needle, rep);
      SplitAtSep(s, needle);
      JoinEmptyFirst(rep, Split(s[|needle|..], needle), ReplaceAll(s[|needle|..], needle, rep));
    } else {
      ReplaceAllIsJoinSplit(s[1..], needle, rep);
      SplitAtChar(s, needle);
      JoinFirstChar(rep, s[0], Split(s[1..], needle));
    }
  }

  /** A string in which the needle does not start anywhere is left unchanged. */
  lemma {:induction false} ReplaceAllAbsent(s: string, needle: string, rep: string)
    requires needle != ""
    requires forall i | 0 <= i < |s| :: !(needle <= s[i..])
    ensures ReplaceAll(s, needle, rep) == s
    decreases |s|
  {
    if s != "" {
      assert s[0..] == s;
      forall i | 0 <= i < |s| - 1 ensures !(needle <= s[1..][i..]) {
        assert s[1..][i..] == s[i + 1..];
      }
      ReplaceAllAbsent(s[1..], needle, rep);
      assert [s[0]] + s[1..] == s;
    }
  }

  /** Removing every occurrence of one character (str_replace of a single character by ''). */
  function RemoveChar(s: string, c: char): (r: string)
    ensures c !in r
    ensures forall x | x in r :: x in s
    ensures |r| <= |s|
    decreases |s|
  {
    if s == "" then ""
    else if s[0] == c then RemoveChar(s[1..], c)
    else [s[0]] + RemoveChar(s[1..], c)
  }

  lemma {:induction false} RemoveCharAppend(a: string, b: string, c: char)
    ensures RemoveChar(a + b, c) == RemoveChar(a, c) + RemoveChar(b, c)
    decreases |a|
  {
    if a != "" {
      assert (a + b)[0] == a[0] && (a + b)[1..] == a[1..] + b;
      RemoveCharAppend(a[1..], b, c);
      if a[0] != c {
        assert RemoveChar(a + b, c) == [a[0]] + RemoveChar(a[1..] + b, c);
      }
    } else {
      assert a + b == b;
    }
  }

  lemma {:induction false} RemoveCharAbsent(s: string, c: char)
    requires c !in s
    ensures RemoveChar(s, c) == s
    decreases |s|
  {
    if s != "" {
      assert s[1..] == s[1..];
      assert c !in s[1..] by { forall i | 0 <= i < |s[1..]| ensures s[1..][i] != c { assert s[1..][i] == s[i + 1]; } }
      RemoveCharAbsent(s[1..], c);
      assert s == [s[0]] + s[1..];
    }
  }

  // ---------------------------------------------------------------------
  // Decimal integers

  predicate IsDigit(c: char) { '0' <= c <= '9' }

  function DigitChar(d: nat): (c: char)
    requires d < 10
    ensures IsDigit(c)
  {
    ('0' as int + d) as char
  }

  function DigitValue(c: char): (d: nat)
    requires IsDigit(c)
    ensures d < 10
  {
    c as int - '0' as int
  }

  /** The decimal representation PHP prints for a non-negative integer. */
  function NatToString(n: nat): (r: string)
    ensures |r| >= 1
    ensures forall i | 0 <= i < |r| :: IsDigit(r[i])
    ensures n > 0 ==> r[0] != '0'
    ensures n == 0 ==> r == "0"
    decreases n
  {
    if n < 10 then [DigitChar(n)] else NatToString(n / 10) + [DigitChar(n % 10)]
  }

  /** (string)$i for an integer. */
  function IntToString(i: int): string {
    if i < 0 then "-" + NatToString(-i) else NatToString(i)
  }

  /** The value of a run of decimal digits, most significant first. */
  function DigitsValue(ds: string): nat
    requires forall i | 0 <= i < |ds| :: IsDigit(ds[i])
    decreases |ds|
  {
    if ds == "" then 0 else DigitsValue(ds[..|ds| - 1]) * 10 + DigitValue(ds[|ds| - 1])
  }

  lemma {:induction false} DigitsOfNat(n: nat)
    ensures DigitsValue(NatToString(n)) == n
    decreases n
  {
    var r := NatToString(n);
    if n >= 10 {
      DigitsOfNat(n / 10);
      assert r[..|r| - 1] == NatToString(n / 10);
      assert DigitValue(r[|r| - 1]) == n % 10;
    } else {
      assert r[..0] == "";
    }
  }

  lemma {:induction false} NatToStringInjective(m: nat, n: nat)
    requires NatToString(m) == NatToString(n)
    ensures m == n
  {
    DigitsOfNat(m);
    DigitsOfNat(n);
  }

  /** The longest prefix of `s` made of decimal digits. */
  function DigitPrefix(s: string): (r: string)
    ensures r <= s
    ensures forall i | 0 <= i < |r| :: IsDigit(r[i])
    ensures |r| == |s| || !IsDigit(s[|r|])
    decreases |s|
  {
    if s != "" && IsDigit(s[0]) then [s[0]] + DigitPrefix(s[1..]) else ""
  }

  lemma {:induction false} DigitPrefixOfDigits(s: string)
    requires forall i | 0 <= i < |s| :: IsDigit(s[i])
    ensures DigitPrefix(s) == s
  {
  }

  function Clamp(i: int): (r: int)
    ensures PhpIntMin <= r <= PhpIntMax
    ensures PhpIntMin <= i <= PhpIntMax ==> r == i
  {
    if i > PhpIntMax then PhpIntMax else if i < PhpIntMin then PhpIntMin else i
  }

  /** The signed value of the digits at the start of a string that has no leading whitespace. */
  function SignedDigits(t: string): int {
    if t != "" && (t[0] == '-' || t[0] == '+') then
      var magnitude: int := DigitsValue(DigitPrefix(t[1..]));
      if t[0] == '-' then -magnitude else magnitude
    else
      DigitsValue(DigitPrefix(t))
  }

  /**
   * intval() on a string: leading whitespace, an optional sign and the
   * longest run of digits; anything after it is ignored, no digits give 0,
   * and values beyond the 64-bit range saturate.
   */
  function ParseIntPrefix(s: string): (r: int)
    ensures PhpIntMin <= r <= PhpIntMax
  {
    Clamp(SignedDigits(TrimLeft(s, NumericWhitespace)))
  }

  /** intval() of a string without any digit is 0, whatever its sign and padding. */
  lemma {:induction false} DigitFreeParsesZero(s: string)
    ensures (forall i | 0 <= i < |s| :: !IsDigit(s[i])) ==> ParseIntPrefix(s) == 0
  {
    if forall i | 0 <= i < |s| :: !IsDigit(s[i]) {
      var t := TrimLeft(s, NumericWhitespace);
      assert forall i | 0 <= i < |t| :: t[i] == s[|s| - |t| + i];
      if t != "" && (t[0] == '-' || t[0] == '+') {
        assert t[1..] == "" || !IsDigit(t[1..][0]);
        assert DigitPrefix(t[1..]) == "";
      } else {
        assert t == "" || !IsDigit(t[0]);
        assert DigitPrefix(t) == "";
      }
    }
  }

  lemma {:induction false} TrimLeftStops(s: string, chars: set<char>)
    requires s == "" || s[0] !in chars
    ensures TrimLeft(s, chars) == s
  {
  }

  /** Without leading whitespace, intval parses the signed digits at the start. */
  lemma {:induction false} ParseUnpadded(s: string)
    requires s == "" || s[0] !in NumericWhitespace
    ensures ParseIntPrefix(s) == Clamp(SignedDigits(s))
  {
    TrimLeftStops(s, NumericWhitespace);
  }

  /** The digits PHP prints for an integer read back, sign included, as that integer. */
  lemma {:induction false} SignedDigitsRoundTrip(i: int)
    ensures SignedDigits(IntToString(i)) == i
  {
    if i < 0 {
      var d := NatToString(-i);
      var s := "-" + d;
      assert s[1..] == d;
      DigitPrefixOfDigits(d);
      DigitsOfNat(-i);
    } else {
      var d := NatToString(i);
      assert d[0] != '-' && d[0] != '+';
      DigitPrefixOfDigits(d);
      DigitsOfNat(i);
    }
  }

  /** Printing a 64-bit integer and parsing it back gives the same integer. */
  lemma {:induction false} IntToStringRoundTrip(i: int)
    requires PhpIntMin <= i <= PhpIntMax
    ensures ParseIntPrefix(IntToString(i)) == i
  {
    var s := IntToString(i);
    assert s[0] !in NumericWhitespace;
    ParseUnpadded(s);
    SignedDigitsRoundTrip(i);
  }
}
