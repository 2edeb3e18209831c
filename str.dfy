/**
 * The string helpers of the library that are plain sequence manipulation:
 * prefixes and suffixes, separator segments, key/value splitting, explode
 * and implode with an item function, padding, word wrapping, token
 * replacement and the ASCII pascal/camel case conversions.
 */
module Str {
  import opened PhpString
  import opened PhpArray

  // ---------------------------------------------------------------------
  // Prefixes and suffixes. A non-empty separator is a character list that
  // is trimmed away first.

  /** The string the affix checks look at. */
  function Trimmed(data: string, separator: string): string {
    if separator != "" then Trim(data, CharSet(separator)) else data
  }

  /**
   * mb_substr(data, -mb_strlen(suffix)) === suffix: for an empty suffix this
   * asks whether `data` itself is empty.
   */
  predicate EndsWith(data: string, suffix: string) {
    if suffix == "" then data == "" else IsSuffix(suffix, data)
  }

  /** A prefix that starts with a trimmed character can never match. */
  predicate IsPrefixed(data: string, prefix: string, separator: string)
    ensures prefix == "" ==> IsPrefixed(data, prefix, separator)
    ensures IsPrefixed(data, prefix, separator) && separator != "" && prefix != "" ==>
      prefix[0] !in CharSet(separator)
  {
    prefix <= Trimmed(data, separator)
  }

  /** A suffix that ends with a trimmed character can never match. */
  predicate IsSuffixed(data: string, suffix: string, separator: string)
    ensures IsSuffixed(data, suffix, separator) && separator != "" && suffix != "" ==>
      suffix[|suffix| - 1] !in CharSet(separator)
  {
    var t := Trimmed(data, separator);
    assert separator != "" && t != "" ==> t[|t| - 1] == TrimRight(data, CharSet(separator))[|TrimRight(data, CharSet(separator))| - 1];
    EndsWith(t, suffix)
  }

  /** isSuffixed with an empty suffix holds only for a string that trims to nothing. */
  lemma {:induction false} IsSuffixedEmpty(data: string, separator: string)
    ensures IsSuffixed(data, "", separator) <==> Trimmed(data, separator) == ""
  {
  }

  function StripPrefix(data: string, prefix: string, separator: string): (r: string)
    ensures data == "" ==> r == ""
    ensures separator == "" && data != "" && prefix <= data ==> prefix + r == data
    ensures separator == "" && !(prefix <= data) ==> r == data
    ensures separator != "" && r != "" ==> r[0] !in CharSet(separator)
  {
    if data == "" then data
    else
      var cs := CharSet(separator);
      var d := if separator != "" then TrimLeft(data, cs) else data;
      var d' := if prefix <= d then d[|prefix|..] else d;
      var r := if separator != "" then TrimLeft(d', cs) else d';
      assert separator == "" && prefix <= data ==> data == prefix + d';
      r
  }

  function ForcePrefix(data: string, prefix: string, separator: string): (r: string)
    ensures data == "" ==> r == ""
    ensures data != "" ==> prefix <= r
    ensures separator == "" && prefix <= data ==> r == data
  {
    if data == "" then data
    else
      var d := Trimmed(data, separator);
      if prefix <= d then d else prefix + separator + d
  }

  /** Without a separator, forcing a prefix twice is forcing it once. */
  lemma {:induction false} ForcePrefixIdempotent(data: string, prefix: string)
    ensures ForcePrefix(ForcePrefix(data, prefix, ""), prefix, "") == ForcePrefix(data, prefix, "")
  {
  }

  function StripSuffix(data: string, suffix: string, separator: string): (r: string)
    ensures data == "" ==> r == ""
    ensures separator == "" && data != "" && IsSuffix(suffix, data) ==> r + suffix == data
    ensures separator == "" && !IsSuffix(suffix, data) ==> r == data
    ensures separator != "" && r != "" ==> r[|r| - 1] !in CharSet(separator)
  {
    if data == "" then data
    else
      var cs := CharSet(separator);
      var d := if separator != "" then TrimRight(data, cs) else data;
      var d' := if EndsWith(d, suffix) then d[..|d| - |suffix|] else d;
      var r := if separator != "" then TrimRight(d', cs) else d';
      assert separator == "" && suffix != "" && IsSuffix(suffix, data) ==> data == d' + suffix;
      r
  }

  function ForceSuffix(data: string, suffix: string, separator: string): (r: string)
    ensures data == "" ==> r == ""
    ensures data != "" ==> IsSuffix(suffix, r)
    ensures separator == "" && IsSuffix(suffix, data) && suffix != "" ==> r == data
  {
    if data == "" then data
    else
      var d := Trimmed(data, separator);
      if EndsWith(d, suffix) then d else d + separator + suffix
  }

  /** Without a separator, forcing a suffix twice is forcing it once. */
  lemma {:induction false} ForceSuffixIdempotent(data: string, suffix: string)
    ensures ForceSuffix(ForceSuffix(data, suffix, ""), suffix, "") == ForceSuffix(data, suffix, "")
  {
  }

  /** An empty suffix never matches a non-empty string, so the separator is appended anyway. */
  lemma {:induction false} ForceSuffixEmptySuffix()
    ensures ForceSuffix("ab", "", ".") == "ab."
  {
    var cs := CharSet(".");
    assert 'a' !in cs && 'b' !in cs;
    TrimFixed("ab", cs);
    assert !EndsWith("ab", "");
  }

  // ---------------------------------------------------------------------
  // Segments between separators.

  function First(s: string, separator: string): (r: string)
    requires separator != ""
    ensures r <= s
    ensures |separator| == 1 ==> separator[0] !in r
  {
    EndPiecesFree(s, separator);
    Split(s, separator)[0]
  }

  function Last(s: string, separator: string): (r: string)
    requires separator != ""
    ensures |Split(s, separator)| == 1 ==> r == s
    ensures |separator| == 1 ==> separator[0] !in r
  {
    EndPiecesFree(s, separator);
    var pieces := Split(s, separator);
    pieces[|pieces| - 1]
  }

  /** With a one-character separator the first and last pieces do not contain it. */
  lemma {:induction false} EndPiecesFree(s: string, separator: string)
    requires separator != ""
    ensures var pieces := Split(s, separator);
      |separator| == 1 ==> separator[0] !in pieces[0] && separator[0] !in pieces[|pieces| - 1]
  {
    if |separator| == 1 {
      SplitPiecesFree(s, separator);
      var pieces := Split(s, separator);
      assert pieces[0] in pieces && pieces[|pieces| - 1] in pieces;
    }
  }

  function RemoveFirst(s: string, separator: string): (r: string)
    requires separator != ""
    ensures |Split(s, separator)| == 1 ==> r == ""
    ensures |Split(s, separator)| > 1 ==> Split(s, separator)[1] <= r
  {
    Join(separator, Split(s, separator)[1..])
  }

  function RemoveLast(s: string, separator: string): (r: string)
    requires separator != ""
    ensures |Split(s, separator)| == 1 ==> r == ""
    ensures r <= s
  {
    var pieces := Split(s, separator);
    JoinSplit(s, separator);
    if |pieces| > 1 then
      JoinSnoc(separator, pieces[..|pieces| - 1], pieces[|pieces| - 1]);
      assert pieces[..|pieces| - 1] + [pieces[|pieces| - 1]] == pieces;
      Join(separator, pieces[..|pieces| - 1])
    else Join(separator, pieces[..|pieces| - 1])
  }

  /** The first segment, the separator and the rest give back the string. */
  lemma {:induction false} FirstAndRemoveFirst(s: string, separator: string)
    requires separator != ""
    ensures |Split(s, separator)| > 1 ==> First(s, separator) + separator + RemoveFirst(s, separator) == s
    ensures |Split(s, separator)| == 1 ==> First(s, separator) == s && RemoveFirst(s, separator) == ""
  {
    var pieces := Split(s, separator);
    JoinSplit(s, separator);
    if |pieces| > 1 {
      JoinCons(separator, pieces[0], pieces[1..]);
      assert [pieces[0]] + pieces[1..] == pieces;
    }
  }

  /** Everything before the last segment, the separator and the last segment give back the string. */
  lemma {:induction false} RemoveLastAndLast(s: string, separator: string)
    requires separator != ""
    ensures |Split(s, separator)| > 1 ==> RemoveLast(s, separator) + separator + Last(s, separator) == s
    ensures |Split(s, separator)| == 1 ==> Last(s, separator) == s && RemoveLast(s, separator) == ""
  {
    var pieces := Split(s, separator);
    JoinSplit(s, separator);
    if |pieces| > 1 {
      JoinSnoc(separator, pieces[..|pieces| - 1], pieces[|pieces| - 1]);
      assert pieces[..|pieces| - 1] + [pieces[|pieces| - 1]] == pieces;
    }
  }

  function Part(s: string, separator: string, index: int, default: string): (r: string)
    requires separator != ""
    ensures s == "" ==> r == default
    ensures s != "" && (index < 0 || index >= |Split(s, separator)|) ==> r == default
    ensures s != "" && 0 <= index < |Split(s, separator)| ==> r == Split(s, separator)[index]
  {
    if s != "" then
      var pieces := Split(s, separator);
      if 0 <= index < |pieces| then pieces[index] else default
    else default
  }

  /** part at index 0 and at the last index are first and last. */
  lemma {:induction false} PartEnds(s: string, separator: string, default: string)
    requires separator != "" && s != ""
    ensures Part(s, separator, 0, default) == First(s, separator)
    ensures Part(s, separator, |Split(s, separator)| - 1, default) == Last(s, separator)
  {
  }

  /** With a one-character separator, an in-range part holds no separator. */
  lemma {:induction false} PartFree(s: string, separator: string, index: int, default: string)
    requires |separator| == 1 && s != "" && 0 <= index < |Split(s, separator)|
    ensures separator[0] !in Part(s, separator, index, default)
  {
    SplitPiecesFree(s, separator);
    assert Split(s, separator)[index] in Split(s, separator);
  }

  // ---------------------------------------------------------------------
  // Key/value splitting

  /** The pairs (ks[i], vs[i]): what array_combine gives for distinct keys. */
  function Zip(ks: seq<string>, vs: seq<string>): (r: seq<(string, string)>)
    requires |ks| == |vs|
    ensures |r| == |ks|
    ensures forall i | 0 <= i < |ks| :: r[i] == (ks[i], vs[i])
  {
    seq(|ks|, i requires 0 <= i < |ks| => (ks[i], vs[i]))
  }

  /** array_combine(ks, vs): each key in turn is assigned its value. */
  function Combine(ks: seq<string>, vs: seq<string>): (r: seq<(string, string)>)
    requires |ks| == |vs|
    ensures forall k :: HasKey(r, k) <==> k in ks
    ensures |r| <= |ks|
    decreases |ks|
  {
    if ks == [] then []
    else
      var n := |ks| - 1;
      var rest := Combine(ks[..n], vs[..n]);
      assert ks == ks[..n] + [ks[n]];
      Put(rest, ks[n], vs[n])
  }

  lemma {:induction false} CombineDistinct(ks: seq<string>, vs: seq<string>)
    requires |ks| == |vs|
    requires forall i, j | 0 <= i < j < |ks| :: ks[i] != ks[j]
    ensures Combine(ks, vs) == Zip(ks, vs)
    decreases |ks|
  {
    if ks != [] {
      var n := |ks| - 1;
      var rest := Combine(ks[..n], vs[..n]);
      CombineDistinct(ks[..n], vs[..n]);
      assert ks[n] !in ks[..n];
      assert !HasKey(rest, ks[n]);
      ZipSnoc(ks, vs);
    }
  }

  lemma {:induction false} ZipSnoc(ks: seq<string>, vs: seq<string>)
    requires |ks| == |vs| && ks != []
    ensures Zip(ks, vs) == Zip(ks[..|ks| - 1], vs[..|ks| - 1]) + [(ks[|ks| - 1], vs[|ks| - 1])]
  {
  }

  function Min(a: int, b: int): int { if a < b then a else b }

  function SplitIntoKeyValue(s: string, separator: string, keys: seq<string>): (r: seq<(string, string)>)
    requires separator != ""
    ensures keys == [] ==> r == []
    ensures |r| <= Min(|keys|, |Split(s, separator)|)
    ensures forall k :: HasKey(r, k) <==> k in keys[..Min(|keys|, |Split(s, separator)|)]
  {
    var parts := Split(s, separator);
    if keys == [] then []
    else
      var n := Min(|keys|, |parts|);
      Combine(keys[..n], parts[..n])
  }

  /** With distinct keys, entry i pairs keys[i] with segment i, for as many as both have. */
  lemma {:induction false} SplitIntoKeyValueDistinct(s: string, separator: string, keys: seq<string>)
    requires separator != ""
    requires forall i, j | 0 <= i < j < |keys| :: keys[i] != keys[j]
    ensures var n := Min(|keys|, |Split(s, separator)|);
      SplitIntoKeyValue(s, separator, keys) == Zip(keys[..n], Split(s, separator)[..n])
  {
    var n := Min(|keys|, |Split(s, separator)|);
    if keys != [] {
      CombineDistinct(keys[..n], Split(s, separator)[..n]);
    }
  }

  // ---------------------------------------------------------------------
  // explode / implode with an item function

  datatype Option<T> = None | Some(value: T)

  function Apply(f: Option<string -> string>, x: string): string {
    match f
    case None => x
    case Some(g) => g(x)
  }

  /** The content explode splits: carriage returns go when the separator is a newline. */
  function ExplodeInput(separator: string, content: string): string {
    if separator == "\n" then RemoveChar(content, '\r') else content
  }

  method Explode(separator: string, content: string, itemFunction: Option<string -> string>)
    returns (items: seq<string>)
    requires separator != ""
    ensures var pieces := Split(ExplodeInput(separator, content), separator);
      |items| == |pieces| && forall i | 0 <= i < |items| :: items[i] == Apply(itemFunction, pieces[i])
    ensures itemFunction.None? ==> Join(separator, items) == ExplodeInput(separator, content)
    ensures itemFunction.None? && separator != "\n" ==> Join(separator, items) == content
  {
    var input := content;
    if separator == "\n" {
      input := RemoveChar(content, '\r');
    }
    items := Split(input, separator);
    JoinSplit(input, separator);
    if itemFunction.Some? {
      var f := itemFunction.value;
      var pieces := items;
      for index := 0 to |items|
        invariant |items| == |pieces|
        invariant forall i | 0 <= i < index :: items[i] == f(pieces[i])
        invariant forall i | index <= i < |items| :: items[i] == pieces[i]
      {
        items := items[index := f(items[index])];
      }
    }
  }

  method Implode(separator: string, items: seq<string>, itemFunction: Option<string -> string>)
    returns (r: string)
    ensures itemFunction.None? ==> r == Join(separator, items)
    ensures itemFunction.Some? ==> exists mapped: seq<string> ::
      |mapped| == |items| && (forall i | 0 <= i < |items| :: mapped[i] == Apply(itemFunction, items[i])) &&
      r == Join(separator, mapped)
    ensures itemFunction.None? && |separator| == 1 && items != [] && (forall p | p in items :: separator[0] !in p) ==>
      Split(r, separator) == items
  {
    var mapped := items;
    if itemFunction.Some? {
      var f := itemFunction.value;
      for index := 0 to |mapped|
        invariant |mapped| == |items|
        invariant forall i | 0 <= i < index :: mapped[i] == f(items[i])
        invariant forall i | index <= i < |mapped| :: mapped[i] == items[i]
      {
        mapped := mapped[index := f(mapped[index])];
      }
    }
    r := Join(separator, mapped);
    if itemFunction.None? && |separator| == 1 && items != [] && (forall p | p in items :: separator[0] !in p) {
      SplitJoin(items, separator);
    }
  }

  // ---------------------------------------------------------------------
  // Token replacement

  function Token(key: string): (t: string)
    ensures t != ""
  {
    "{" + key + "}"
  }

  /** Each {key} replaced by its value, one key after the other, in the array's order. */
  function ReplaceTokens(s: string, data: seq<(string, string)>): string
    decreases |data|
  {
    if data == [] then s
    else ReplaceTokens(ReplaceAll(s, Token(data[0].0), data[0].1), data[1..])
  }

  method ReplaceToken(s: string, data: seq<(string, string)>) returns (r: string)
    ensures r == ReplaceTokens(s, data)
  {
    r := s;
    if |data| > 0 {
      for i := 0 to |data|
        invariant ReplaceTokens(r, data[i..]) == ReplaceTokens(s, data)
      {
        assert data[i..][1..] == data[i + 1..];
        r := ReplaceAll(r, Token(data[i].0), data[i].1);
      }
    }
  }

  /** One token: every occurrence of {key} is replaced, which is explode on the token then implode with the value. */
  lemma {:induction false} ReplaceOneToken(s: string, key: string, value: string)
    ensures ReplaceTokens(s, [(key, value)]) == Join(value, Split(s, Token(key)))
  {
    ReplaceAllIsJoinSplit(s, Token(key), value);
    assert [(key, value)][1..] == [];
  }

  /** A string without any '{' is left as it is, whatever the tokens. */
  lemma {:induction false} ReplaceTokensNoBrace(s: string, data: seq<(string, string)>)
    requires '{' !in s
    ensures ReplaceTokens(s, data) == s
    decreases |data|
  {
    if data != [] {
      var t := Token(data[0].0);
      forall i | 0 <= i < |s| ensures !(t <= s[i..]) {
        assert s[i] != '{';
      }
      ReplaceAllAbsent(s, t, data[0].1);
      ReplaceTokensNoBrace(s, data[1..]);
    }
  }

  // ---------------------------------------------------------------------
  // Padding

  /** `x` is zero or more copies of `filler`. */
  predicate IsRepeatOf(x: string, filler: string)
    decreases |x|
  {
    x == "" || (filler != "" && filler <= x && IsRepeatOf(x[|filler|..], filler))
  }

  lemma {:induction false} RepeatOfSnoc(x: string, filler: string)
    requires IsRepeatOf(x, filler) && filler != ""
    ensures IsRepeatOf(x + filler, filler)
    decreases |x|
  {
    if x == "" {
      assert (x + filler)[|filler|..] == "";
    } else {
      RepeatOfSnoc(x[|filler|..], filler);
      assert (x + filler)[|filler|..] == x[|filler|..] + filler;
    }
  }

  /**
   * Prepend the filler while the string is no longer than length - |filler|.
   * With an empty filler that never ends unless the string is already longer
   * than `length`.
   */
  method PadLeft(s: string, length: int, filler: string) returns (r: string)
    requires filler != "" || |s| > length
    ensures |r| > length - |filler|
    ensures IsSuffix(s, r) && IsRepeatOf(r[..|r| - |s|], filler)
    ensures r != s ==> |r| <= length
  {
    r := s;
    while |r| <= length - |filler|
      invariant IsSuffix(s, r) && IsRepeatOf(r[..|r| - |s|], filler)
      invariant r != s ==> |r| <= length
      decreases length - |r|
    {
      var prefix := r[..|r| - |s|];
      r := filler + r;
      assert r[..|r| - |s|] == filler + prefix;
      assert (filler + prefix)[|filler|..] == prefix;
    }
  }

  method PadRight(s: string, length: int, filler: string) returns (r: string)
    requires filler != "" || |s| > length
    ensures |r| > length - |filler|
    ensures s <= r && IsRepeatOf(r[|s|..], filler)
    ensures r != s ==> |r| <= length
  {
    r := s;
    while |r| <= length - |filler|
      invariant s <= r && IsRepeatOf(r[|s|..], filler)
      invariant r != s ==> |r| <= length
      decreases length - |r|
    {
      var suffix := r[|s|..];
      RepeatOfSnoc(suffix, filler);
      r := r + filler;
      assert r[|s|..] == suffix + filler;
    }
  }

  // ---------------------------------------------------------------------
  // Word wrapping

  /** The words wrap works on: line breaks dropped, then split on single spaces. */
  function Words(text: string): seq<string> {
    Split(RemoveChar(RemoveChar(text, '\r'), '\n'), " ")
  }

  /**
   * One word of wrap: open a new line when the current line's length plus
   * the word's reaches `length`, then append the word to the current line,
   * after a space unless the line is empty. With `breakEmpty` false a new
   * line is opened only when the current one is not empty.
   */
  function Place(lines: seq<string>, word: string, length: int, breakEmpty: bool): (r: seq<string>)
    requires lines != []
    ensures r != []
  {
    var cur := lines[|lines| - 1];
    if |cur| + |word| >= length && (breakEmpty || cur != "") then lines + [word]
    else lines[..|lines| - 1] + [cur + (if cur != "" then " " else "") + word]
  }

  function PlaceAll(lines: seq<string>, words: seq<string>, length: int, breakEmpty: bool): (r: seq<string>)
    requires lines != []
    ensures r != []
    decreases |words|
  {
    if words == [] then lines
    else PlaceAll(Place(lines, words[0], length, breakEmpty), words[1..], length, breakEmpty)
  }

  /** The lines wrap builds, as written: line 0 is opened by the first word. */
  function WrapLines(words: seq<string>, length: int): seq<string> {
    if words == [] then [] else PlaceAll([""], words, length, true)
  }

  /** The lines wrap evidently intends: a new line is never opened after an empty one. */
  function WrapLinesIntended(words: seq<string>, length: int): seq<string> {
    if words == [] then [] else PlaceAll([""], words, length, false)
  }

  function Wrapped(text: string, length: int, separator: string): (r: string)
    ensures text == "" || |text| == length ==> r == text
    ensures text != "" && text[|text| - 1] == '\n' ==> IsSuffix("\n", r)
  {
    if text == "" || |text| == length then text
    else Join(separator, WrapLines(Words(text), length)) + (if text[|text| - 1] == '\n' then "\n" else "")
  }

  /** One pass of wrap's loop: the lines and line number after placing `word`. */
  method WrapStep(result: seq<string>, lineNo: int, word: string, length: int)
    returns (result': seq<string>, lineNo': int)
    requires (result == [] && lineNo == 0) || (result != [] && lineNo == |result| - 1)
    ensures result' == Place(if result == [] then [""] else result, word, length, true)
    ensures lineNo' == |result'| - 1
  {
    result' := result;
    lineNo' := lineNo;
    if lineNo' >= |result'| {
      result' := result' + [""];
    }
    ghost var before := result';
    ghost var cur := before[|before| - 1];
    var lastLineNo := |result'| - 1;
    if |result'[lastLineNo]| + |word| >= length {
      lineNo' := lineNo' + 1;
      if lineNo' >= |result'| {
        result' := result' + [""];
      }
      lastLineNo := |result'| - 1;
    }
    result' := result'[lastLineNo := result'[lastLineNo] + (if result'[lastLineNo] != "" then " " else "") + word];
    if |cur| + |word| >= length {
      assert "" + "" + word == word;
      assert result' == before + [word];
    } else {
      assert result' == before[..|before| - 1] + [cur + (if cur != "" then " " else "") + word];
    }
  }

  method Wrap(text: string, length: int, separator: string) returns (r: string)
    ensures r == Wrapped(text, length, separator)
  {
    if text == "" || |text| == length {
      return text;
    }
    var endedWithLinebreak := text[|text| - 1] == '\n';
    var words := Words(text);
    var result: seq<string> := [];
    var lineNo := 0;
    for i := 0 to |words|
      invariant i == 0 ==> result == [] && lineNo == 0
      invariant i > 0 ==> result != [] && lineNo == |result| - 1
      invariant i > 0 ==> PlaceAll(result, words[i..], length, true) == PlaceAll([""], words, length, true)
    {
      ghost var before := if result == [] then [""] else result;
      result, lineNo := WrapStep(result, lineNo, words[i], length);
      assert words[i..][1..] == words[i + 1..];
      assert PlaceAll(before, words[i..], length, true) == PlaceAll(result, words[i + 1..], length, true);
    }
    r := Join(separator, result);
    if endedWithLinebreak {
      r := r + "\n";
    }
  }

  /** A line of wrap's output is either within `length` or a single word. */
  predicate LineFits(line: string, length: int) {
    |line| <= length || ' ' !in line
  }

  lemma {:induction false} PlaceAllFits(lines: seq<string>, words: seq<string>, length: int, breakEmpty: bool)
    requires lines != []
    requires forall l | l in lines :: LineFits(l, length)
    requires forall w | w in words :: ' ' !in w
    ensures forall l | l in PlaceAll(lines, words, length, breakEmpty) :: LineFits(l, length)
    decreases |words|
  {
    if words != [] {
      var next := Place(lines, words[0], length, breakEmpty);
      assert forall l | l in next :: LineFits(l, length) by {
        var cur := lines[|lines| - 1];
        var lines' := if |cur| + |words[0]| >= length && (breakEmpty || cur != "") then lines + [""] else lines;
        assert words[0] in words;
        forall l | l in next ensures LineFits(l, length) {
          if l !in lines'[..|lines'| - 1] {
            assert l == next[|next| - 1];
          }
        }
      }
      PlaceAllFits(next, words[1..], length, breakEmpty);
    }
  }

  /** Every line wrap builds is within the wrap length or holds one word. */
  lemma {:induction false} WrapLinesFit(text: string, length: int)
    ensures forall l | l in WrapLines(Words(text), length) :: LineFits(l, length)
  {
    var words := Words(text);
    SplitPiecesFree(RemoveChar(RemoveChar(text, '\r'), '\n'), " ");
    PlaceAllFits([""], words, length, true);
  }

  /** As written, a first word at least `length` long opens with an empty line. */
  lemma {:induction false} WrapLeadingEmptyLine()
    ensures Wrapped("abc", 2, "\n") == "\nabc"
  {
    assert RemoveChar("abc", '\r') == "abc";
    assert RemoveChar("abc", '\n') == "abc";
    assert Words("abc") == ["abc"];
    assert WrapLines(["abc"], 2) == ["", "abc"];
  }

  lemma {:induction false} PlaceAfterPrefix(pre: seq<string>, lines: seq<string>, word: string, length: int, breakEmpty: bool)
    requires lines != []
    ensures Place(pre + lines, word, length, breakEmpty) == pre + Place(lines, word, length, breakEmpty)
  {
    var all := pre + lines;
    assert all[|all| - 1] == lines[|lines| - 1];
    assert all[..|all| - 1] == pre + lines[..|lines| - 1];
  }

  lemma {:induction false} TailIn(ws: seq<string>)
    requires ws != []
    ensures forall x | x in ws[1..] :: x in ws
  {
  }

  lemma {:induction false} PlaceOnEmpty(w: string, length: int)
    ensures Place([""], w, length, false) == [w]
    ensures Place([""], w, length, true) == if |w| >= length then ["", w] else [w]
  {
    assert "" + "" + w == w;
    assert [""][..0] == [];
  }

  lemma {:induction false} PlaceAllAfterPrefix(pre: seq<string>, lines: seq<string>, words: seq<string>, length: int)
    requires lines != [] && lines[|lines| - 1] != ""
    requires forall w | w in words :: w != ""
    ensures PlaceAll(pre + lines, words, length, true) == pre + PlaceAll(lines, words, length, false)
    decreases |words|
  {
    if words != [] {
      PlaceAfterPrefix(pre, lines, words[0], length, true);
      var next := Place(lines, words[0], length, true);
      assert next == Place(lines, words[0], length, false);
      assert words[0] in words;
      TailIn(words);
      assert next[|next| - 1] != "" by {
        var cur := lines[|lines| - 1];
        if !(|cur| + |words[0]| >= length) {
          assert next[|next| - 1] == cur + " " + words[0];
        }
      }
      PlaceAllAfterPrefix(pre, next, words[1..], length);
    }
  }

  /**
   * The code as written differs from the intended wrapping exactly by an
   * empty first line, which it emits when the first word reaches `length`.
   */
  lemma {:induction false} WrapLinesVersusIntended(words: seq<string>, length: int)
    requires words != [] && forall w | w in words :: w != ""
    ensures WrapLines(words, length) ==
      (if |words[0]| >= length then [""] else []) + WrapLinesIntended(words, length)
  {
    var w := words[0];
    assert w in words;
    TailIn(words);
    PlaceOnEmpty(w, length);
    if |w| >= length {
      assert Place([""], w, length, true) == [""] + [w];
      PlaceAllAfterPrefix([""], [w], words[1..], length);
    } else {
      assert Place([""], w, length, true) == [w];
      PlaceAllAfterPrefix([], [w], words[1..], length);
      assert [] + [w] == [w];
    }
  }

  /** Placing a word after non-empty lines joins like appending it. */
  lemma {:induction false} PlaceIntendedJoin(lines: seq<string>, w: string, length: int)
    requires lines != [] && lines[|lines| - 1] != ""
    ensures Join(" ", Place(lines, w, length, false)) == Join(" ", lines + [w])
  {
    var n := |lines|;
    var cur := lines[n - 1];
    var next := Place(lines, w, length, false);
    if |cur| + |w| >= length {
      assert next == lines + [w];
    } else {
      assert next == lines[..n - 1] + [cur + " " + w];
      assert lines == lines[..n - 1] + [cur];
      if n == 1 {
        assert next == [cur + " " + w];
        JoinCons(" ", cur, [w]);
      } else {
        JoinSnoc(" ", lines[..n - 1], cur + " " + w);
        JoinSnoc(" ", lines[..n - 1], cur);
        JoinSnoc(" ", lines, w);
      }
    }
  }

  /** Placing a non-empty word after non-empty lines leaves no line empty. */
  lemma {:induction false} PlaceIntendedNonEmpty(lines: seq<string>, w: string, length: int)
    requires lines != [] && (forall l | l in lines :: l != "") && w != ""
    ensures forall l | l in Place(lines, w, length, false) :: l != ""
  {
    var n := |lines|;
    var cur := lines[n - 1];
    var next := Place(lines, w, length, false);
    assert cur in lines;
    assert next[|next| - 1] != "" by {
      if !(|cur| + |w| >= length) {
        assert next[|next| - 1] == cur + " " + w;
      }
    }
    forall l | l in next ensures l != "" {
      if l != next[|next| - 1] {
        var j :| 0 <= j < |next| && next[j] == l;
        assert j < |next| - 1;
        assert next[j] == lines[j] && lines[j] in lines;
      }
    }
  }

  /** Joining the lines after the first word is joining the lines and all the words. */
  lemma {:induction false} JoinAfterFirstWord(lines: seq<string>, next: seq<string>, w: string, rest: seq<string>, result: seq<string>)
    requires lines != [] && next != []
    requires Join(" ", next) == Join(" ", lines + [w])
    requires Join(" ", result) == Join(" ", next + rest)
    ensures Join(" ", result) == Join(" ", lines + ([w] + rest))
  {
    if rest != [] {
      JoinAppend(" ", next, rest);
      assert Join(" ", result) == Join(" ", next) + " " + Join(" ", rest);
      JoinAppend(" ", lines + [w], rest);
      assert lines + [w] + rest == lines + ([w] + rest);
    } else {
      assert next + rest == next;
      assert lines + ([w] + rest) == lines + [w];
    }
  }

  lemma {:induction false} PlaceAllIntendedWords(lines: seq<string>, words: seq<string>, length: int)
    requires lines != [] && forall l | l in lines :: l != ""
    requires forall w | w in words :: w != ""
    ensures forall l | l in PlaceAll(lines, words, length, false) :: l != ""
    ensures Join(" ", PlaceAll(lines, words, length, false)) == Join(" ", lines + words)
    decreases |words|
  {
    if words == [] {
      assert lines + words == lines;
    } else {
      var w := words[0];
      assert w in words;
      assert lines[|lines| - 1] in lines;
      var next := Place(lines, w, length, false);
      PlaceIntendedJoin(lines, w, length);
      PlaceIntendedNonEmpty(lines, w, length);
      TailIn(words);
      PlaceAllIntendedWords(next, words[1..], length);
      assert words == [w] + words[1..];
      JoinAfterFirstWord(lines, next, w, words[1..], PlaceAll(lines, words, length, false));
    }
  }

  /**
   * Wrapping as intended loses no word and adds none: its lines are never
   * empty, and re-joined with single spaces they give back the words.
   */
  lemma {:induction false} WrapLinesIntendedKeepsWords(words: seq<string>, length: int)
    requires words != [] && forall w | w in words :: w != ""
    ensures forall l | l in WrapLinesIntended(words, length) :: l != ""
    ensures Join(" ", WrapLinesIntended(words, length)) == Join(" ", words)
  {
    var w := words[0];
    assert w in words;
    TailIn(words);
    PlaceOnEmpty(w, length);
    PlaceAllIntendedWords([w], words[1..], length);
    assert [w] + words[1..] == words;
  }

  // ---------------------------------------------------------------------
  // Pascal and camel case (ASCII letters only)

  /** The characters after which ucwords upper-cases a letter. */
  const WordDelimiters: set<char> := {' ', '\t', '\r', '\n', '\U{0C}', '\U{0B}'}

  /** ucwords from some position on; `atStart` says whether s[0] begins a word. */
  function UcWordsFrom(s: string, atStart: bool): (r: string)
    ensures |r| == |s|
    decreases |s|
  {
    if s == "" then ""
    else [if atStart then ToUpper(s[0]) else s[0]] + UcWordsFrom(s[1..], s[0] in WordDelimiters)
  }

  /** ucwords(s). */
  function UcWords(s: string): string {
    UcWordsFrom(s, true)
  }

  /** str_replace(['-', '_'], ' ', s). */
  function DashesToSpaces(s: string): (r: string)
    ensures '-' !in r && '_' !in r
    ensures forall c | c in r :: c in s || c == ' '
    decreases |s|
  {
    if s == "" then ""
    else [if s[0] == '-' || s[0] == '_' then ' ' else s[0]] + DashesToSpaces(s[1..])
  }

  /** ucwords works on each piece of a concatenation on its own. */
  lemma {:induction false} UcWordsFromAppend(a: string, b: string, atStart: bool)
    requires a != ""
    ensures UcWordsFrom(a + b, atStart) == UcWordsFrom(a, atStart) + UcWordsFrom(b, a[|a| - 1] in WordDelimiters)
    decreases |a|
  {
    assert (a + b)[0] == a[0] && (a + b)[1..] == a[1..] + b;
    if |a| > 1 {
      UcWordsFromAppend(a[1..], b, a[0] in WordDelimiters);
    }
  }

  lemma {:induction false} DashesToSpacesAppend(a: string, b: string)
    ensures DashesToSpaces(a + b) == DashesToSpaces(a) + DashesToSpaces(b)
    decreases |a|
  {
    if a != "" {
      assert (a + b)[0] == a[0] && (a + b)[1..] == a[1..] + b;
      DashesToSpacesAppend(a[1..], b);
      assert DashesToSpaces(a + b) == DashesToSpaces([a[0]]) + DashesToSpaces(a[1..] + b);
    } else {
      assert a + b == b;
    }
  }

  /** ucwords only changes lower-case letters, so it brings in no dash or underscore. */
  lemma {:induction false} UcWordsKeepsOut(s: string, atStart: bool, c: char)
    requires c !in s && !IsLower(c) && !IsUpper(c)
    ensures c !in UcWordsFrom(s, atStart)
    decreases |s|
  {
    if s != "" {
      UcWordsKeepsOut(s[1..], s[0] in WordDelimiters, c);
      assert s[0] != c;
    }
  }

  function PascalCase(value: string): (r: string)
    ensures ' ' !in r && '-' !in r && '_' !in r
  {
    var d := DashesToSpaces(value);
    UcWordsKeepsOut(d, true, '-');
    UcWordsKeepsOut(d, true, '_');
    RemoveChar(UcWords(d), ' ')
  }

  /** PHP's lcfirst: the first character lower-cased. */
  function LcFirst(s: string): (r: string)
    ensures |r| == |s|
  {
    if s == "" then "" else [ToLower(s[0])] + s[1..]
  }

  function CamelCase(value: string): (r: string)
    ensures ' ' !in r && '-' !in r && '_' !in r
    ensures r == "" || !IsUpper(r[0])
  {
    var p := PascalCase(value);
    var r := LcFirst(p);
    assert ' ' !in r && '-' !in r && '_' !in r by {
      forall c | c in r ensures c == ToLower(p[0]) || c in p {
        if c != ToLower(p[0]) {
          assert c in p[1..];
        }
      }
      if p != "" {
        assert p[0] in p;
      }
    }
    r
  }

  /** No word of `s` begins with a lower-case letter; `atStart` says whether s[0] begins one. */
  predicate WordStartsUpper(s: string, atStart: bool)
    decreases |s|
  {
    s == "" || ((atStart ==> !IsLower(s[0])) && WordStartsUpper(s[1..], s[0] in WordDelimiters))
  }

  lemma {:induction false} WordStartsUpperWeaken(s: string, atStart: bool)
    requires WordStartsUpper(s, true)
    ensures WordStartsUpper(s, atStart)
  {
  }

  /** ucwords leaves a string alone exactly when no word of it begins with a lower-case letter. */
  lemma {:induction false} UcWordsFixed(s: string, atStart: bool)
    ensures UcWordsFrom(s, atStart) == s <==> WordStartsUpper(s, atStart)
    decreases |s|
  {
    if s != "" {
      UcWordsFixed(s[1..], s[0] in WordDelimiters);
      var r := UcWordsFrom(s, atStart);
      assert r == [r[0]] + UcWordsFrom(s[1..], s[0] in WordDelimiters);
      assert s == [s[0]] + s[1..];
      if r == s {
        assert r[1..] == s[1..];
      }
    }
  }

  lemma {:induction false} UcWordsStartsUpper(s: string, atStart: bool)
    ensures WordStartsUpper(UcWordsFrom(s, atStart), atStart)
    decreases |s|
  {
    if s != "" {
      var r := UcWordsFrom(s, atStart);
      UcWordsStartsUpper(s[1..], s[0] in WordDelimiters);
      assert r[1..] == UcWordsFrom(s[1..], s[0] in WordDelimiters);
      assert r[0] in WordDelimiters <==> s[0] in WordDelimiters;
    }
  }

  lemma {:induction false} RemoveSpacesStartsUpper(s: string, atStart: bool)
    requires WordStartsUpper(s, atStart)
    ensures WordStartsUpper(RemoveChar(s, ' '), atStart)
    decreases |s|
  {
    if s != "" {
      if s[0] == ' ' {
        assert WordStartsUpper(s[1..], true);
        RemoveSpacesStartsUpper(s[1..], true);
        WordStartsUpperWeaken(RemoveChar(s[1..], ' '), atStart);
      } else {
        RemoveSpacesStartsUpper(s[1..], s[0] in WordDelimiters);
        var r := RemoveChar(s, ' ');
        assert r == [s[0]] + RemoveChar(s[1..], ' ');
        assert r[1..] == RemoveChar(s[1..], ' ');
      }
    }
  }

  lemma {:induction false} DashesToSpacesNone(s: string)
    requires '-' !in s && '_' !in s
    ensures DashesToSpaces(s) == s
    decreases |s|
  {
    if s != "" {
      assert s[0] in s;
      assert forall c | c in s[1..] :: c in s;
      DashesToSpacesNone(s[1..]);
      assert s == [s[0]] + s[1..];
    }
  }

  /** What pascalCase produces: no spaces, dashes or underscores, and every word capitalised. */
  lemma {:induction false} PascalCaseShape(value: string)
    ensures WordStartsUpper(PascalCase(value), true)
  {
    var u := UcWords(DashesToSpaces(value));
    UcWordsStartsUpper(DashesToSpaces(value), true);
    RemoveSpacesStartsUpper(u, true);
  }

  /** pascalCase leaves a string alone exactly when it already has that shape. */
  lemma {:induction false} PascalCaseFixed(value: string)
    ensures PascalCase(value) == value <==>
      ' ' !in value && '-' !in value && '_' !in value && WordStartsUpper(value, true)
  {
    if PascalCase(value) == value {
      PascalCaseShape(value);
    }
    if ' ' !in value && '-' !in value && '_' !in value && WordStartsUpper(value, true) {
      DashesToSpacesNone(value);
      UcWordsFixed(value, true);
      RemoveCharAbsent(value, ' ');
    }
  }

  lemma {:induction false} PascalCaseIdempotent(value: string)
    ensures PascalCase(PascalCase(value)) == PascalCase(value)
  {
    PascalCaseShape(value);
    PascalCaseFixed(PascalCase(value));
  }

  /** Lower-casing the first character of a pascal-cased string can be undone by pascalCase. */
  lemma {:induction false} PascalCaseOfCamelCase(value: string)
    ensures PascalCase(CamelCase(value)) == PascalCase(value)
  {
    var p := PascalCase(value);
    var c := CamelCase(value);
    PascalCaseShape(value);
    if p != "" {
      assert c == [ToLower(p[0])] + p[1..];
      assert ' ' !in c && '-' !in c && '_' !in c by {
        assert p == [p[0]] + p[1..];
        assert p[0] in p;
        assert forall x | x in p[1..] :: x in p;
      }
      DashesToSpacesNone(c);
      assert WordStartsUpper(p[1..], p[0] in WordDelimiters);
      UcWordsFixed(p[1..], p[0] in WordDelimiters);
      assert c[1..] == p[1..];
      assert UcWords(c) == [ToUpper(c[0])] + UcWordsFrom(c[1..], c[0] in WordDelimiters);
      assert ToUpper(c[0]) == p[0];
      assert UcWords(c) == p;
      RemoveCharAbsent(p, ' ');
    }
  }

  lemma {:induction false} CamelCaseIdempotent(value: string)
    ensures CamelCase(CamelCase(value)) == CamelCase(value)
  {
    PascalCaseOfCamelCase(value);
    PascalCaseIdempotent(value);
  }

  lemma {:induction false} LowerWords()
    ensures DashesToSpaces("test") == "test" && DashesToSpaces("class") == "class"
  {
  }

  lemma {:induction false} SeparatorsToSpace()
    ensures DashesToSpaces("_") == " " && DashesToSpaces("-") == " "
  {
  }

  /** str_replace turns "test_class" and "test-class" into "test class". */
  lemma {:induction false} SeparatedToSpaced()
    ensures DashesToSpaces("test_class") == "test class"
    ensures DashesToSpaces("test-class") == "test class"
  {
    SeparatorToSpaced("_");
    assert "test" + "_" + "class" == "test_class";
    SeparatorToSpaced("-");
    assert "test" + "-" + "class" == "test-class";
  }

  lemma {:induction false} SeparatorToSpaced(sep: string)
    requires sep == "_" || sep == "-"
    ensures DashesToSpaces("test" + sep + "class") == "test class"
  {
    LowerWords();
    SeparatorsToSpace();
    DashesToSpacesAppend("test" + sep, "class");
    DashesToSpacesAppend("test", sep);
    assert "test" + " " + "class" == "test class";
  }

  lemma {:induction false} UpperWords()
    ensures UcWordsFrom("test", true) == "Test" && UcWordsFrom("class", true) == "Class"
    ensures UcWordsFrom(" ", false) == " "
  {
    UpperTest();
    UpperClass();
  }

  lemma {:induction false} UpperTest()
    ensures UcWordsFrom("test", true) == "Test"
  {
  }

  lemma {:induction false} UpperClass()
    ensures UcWordsFrom("class", true) == "Class"
  {
  }

  /** ucwords("test class") upper-cases both words. */
  lemma {:induction false} SpacedToUpper()
    ensures UcWords("test class") == "Test Class"
  {
    UpperWords();
    TestClassJoin();
    UcWordsFromAppend("test" + " ", "class", true);
    UcWordsFromAppend("test", " ", true);
  }

  lemma {:induction false} TestClassJoin()
    ensures "test class" == "test" + " " + "class"
    ensures "Test Class" == "Test" + " " + "Class"
    ensures "Test" + "" + "Class" == "TestClass"
  {
  }

  lemma {:induction false} SpaceRemoved()
    ensures RemoveChar(" ", ' ') == ""
  {
  }

  /** Removing the space joins the words. */
  lemma {:induction false} UpperToJoined()
    ensures RemoveChar("Test Class", ' ') == "TestClass"
  {
    SpaceRemoved();
    RemoveCharAbsent("Test", ' ');
    RemoveCharAbsent("Class", ' ');
    TestClassJoin();
    RemoveCharAppend("Test" + " ", "Class", ' ');
    RemoveCharAppend("Test", " ", ' ');
  }

  /** The snake and kebab spellings of a two-word name give TestClass. */
  lemma {:induction false} PascalCaseOfSeparated()
    ensures PascalCase("test_class") == "TestClass"
    ensures PascalCase("test-class") == "TestClass"
  {
    SeparatedToSpaced();
    SpacedToUpper();
    UpperToJoined();
  }

  lemma {:induction false} WordStartsUpperAppend(a: string, b: string, atStart: bool)
    requires a != ""
    requires WordStartsUpper(a, atStart) && WordStartsUpper(b, a[|a| - 1] in WordDelimiters)
    ensures WordStartsUpper(a + b, atStart)
    decreases |a|
  {
    assert (a + b)[0] == a[0] && (a + b)[1..] == a[1..] + b;
    if |a| > 1 {
      WordStartsUpperAppend(a[1..], b, a[0] in WordDelimiters);
    }
  }

  lemma {:induction false} PascalWordParts()
    ensures WordStartsUpper("Test", true) && WordStartsUpper("Class", false)
    ensures WordStartsUpper("Id", true)
  {
  }

  lemma {:induction false} NoSeparators()
    ensures ' ' !in "TestClass" && '-' !in "TestClass" && '_' !in "TestClass"
    ensures ' ' !in "Id" && '-' !in "Id" && '_' !in "Id"
  {
  }

  lemma {:induction false} PascalWords()
    ensures WordStartsUpper("TestClass", true) && WordStartsUpper("Id", true)
  {
    PascalWordParts();
    WordStartsUpperAppend("Test", "Class", true);
    assert "Test" + "Class" == "TestClass";
  }

  /** A name already in pascal case is left alone. */
  lemma {:induction false} PascalCaseOfPascal()
    ensures PascalCase("TestClass") == "TestClass"
    ensures PascalCase("Id") == "Id"
  {
    PascalWords();
    NoSeparators();
    PascalCaseFixed("TestClass");
    PascalCaseFixed("Id");
  }

  lemma {:induction false} LowerFirstExamples()
    ensures LcFirst("TestClass") == "testClass"
    ensures LcFirst("Id") == "id"
  {
  }

  /** The camel spelling goes through pascal case and back. */
  lemma {:induction false} PascalCaseOfCamel()
    ensures CamelCase("TestClass") == "testClass"
    ensures PascalCase("testClass") == "TestClass"
    ensures CamelCase("Id") == "id"
    ensures PascalCase("id") == "Id"
  {
    PascalCaseOfPascal();
    LowerFirstExamples();
    PascalCaseOfCamelCase("TestClass");
    PascalCaseOfCamelCase("Id");
  }

  /** All four spellings of the same two-word name give testClass, and "id" stays "id". */
  lemma {:induction false} CamelCaseExamples()
    ensures CamelCase("TestClass") == "testClass" && CamelCase("testClass") == "testClass"
    ensures CamelCase("test_class") == "testClass" && CamelCase("test-class") == "testClass"
    ensures CamelCase("id") == "id" && CamelCase("Id") == "id"
  {
    PascalCaseOfSeparated();
    PascalCaseOfCamel();
    LowerFirstExamples();
  }
}
