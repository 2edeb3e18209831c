/**
 * The format checks: fixed layouts of digits and punctuation, and the case
 * checks that compare a string with its own pascal or camel case form.
 */
module Is {
  import opened PhpString
  import Str

  // ---------------------------------------------------------------------
  // Fixed layouts, as the anchored patterns /^...$/ match them

  /** One position of a layout: \d or a literal character. */
  datatype Token = Digit | Char(c: char)

  predicate Fits(c: char, t: Token) {
    match t
    case Digit => IsDigit(c)
    case Char(x) => c == x
  }

  /** The whole of `s` matches the layout, one character per token. */
  predicate Matches(s: string, layout: seq<Token>)
    decreases |layout|
  {
    if layout == [] then s == []
    else s != [] && Fits(s[0], layout[0]) && Matches(s[1..], layout[1..])
  }

  /** Matching a layout is fitting it position by position. */
  lemma {:induction false} MatchesIff(s: string, layout: seq<Token>)
    ensures Matches(s, layout) <==> |s| == |layout| && forall i | 0 <= i < |s| :: Fits(s[i], layout[i])
    decreases |layout|
  {
    if layout != [] && s != [] {
      MatchesIff(s[1..], layout[1..]);
      if |s| == |layout| {
        assert forall i | 0 <= i < |s| - 1 :: s[1..][i] == s[i + 1] && layout[1..][i] == layout[i + 1];
        assert (forall i | 0 <= i < |s| :: Fits(s[i], layout[i])) <==>
          Fits(s[0], layout[0]) && forall i | 0 <= i < |s| - 1 :: Fits(s[1..][i], layout[1..][i]);
      }
    }
  }

  /**
   * preg_match of /^layout$/: `$` without the D modifier also matches
   * before one newline that ends the subject.
   */
  predicate Anchored(s: string, layout: seq<Token>) {
    Matches(s, layout) || (|s| == |layout| + 1 && s[|layout|] == '\n' && Matches(s[..|layout|], layout))
  }

  /** \d{n}. */
  function Digits(n: nat): (r: seq<Token>)
    ensures |r| == n && forall i | 0 <= i < n :: r[i] == Digit
  {
    seq(n, i => Digit)
  }

  /** (\d{4})-(\d{2})-(\d{2}). */
  function DateLayout(): seq<Token> {
    Digits(4) + [Char('-')] + Digits(2) + [Char('-')] + Digits(2)
  }

  /** (\d{2}):(\d{2}):(\d{2}). */
  function TimeLayout(): seq<Token> {
    Digits(2) + [Char(':')] + Digits(2) + [Char(':')] + Digits(2)
  }

  /** The date layout, a space and the time layout. */
  function DatetimeLayout(): seq<Token> {
    DateLayout() + [Char(' ')] + TimeLayout()
  }

  /** Is::date: ten characters, or eleven ending in a newline. */
  predicate Date(value: string)
    ensures Date(value) ==> |value| == 10 || (|value| == 11 && value[10] == '\n')
  {
    MatchesIff(value, DateLayout());
    Anchored(value, DateLayout())
  }

  /** Is::time: eight characters, or nine ending in a newline. */
  predicate Time(value: string)
    ensures Time(value) ==> |value| == 8 || (|value| == 9 && value[8] == '\n')
  {
    MatchesIff(value, TimeLayout());
    Anchored(value, TimeLayout())
  }

  /** Is::datetime: 19 characters, or 20 ending in a newline. */
  predicate Datetime(value: string)
    ensures Datetime(value) ==> |value| == 19 || (|value| == 20 && value[19] == '\n')
  {
    MatchesIff(value, DatetimeLayout());
    Anchored(value, DatetimeLayout())
  }

  /** YYYY-MM-DD spelled out position by position. */
  predicate DateShape(s: string) {
    |s| == 10 && s[4] == '-' && s[7] == '-' &&
    forall i | 0 <= i < 10 && i != 4 && i != 7 :: IsDigit(s[i])
  }

  /** HH:MM:SS spelled out position by position. */
  predicate TimeShape(s: string) {
    |s| == 8 && s[2] == ':' && s[5] == ':' &&
    forall i | 0 <= i < 8 && i != 2 && i != 5 :: IsDigit(s[i])
  }


  lemma {:induction false} DateLayoutShape(s: string)
    ensures Matches(s, DateLayout()) <==> DateShape(s)
  {
    MatchesIff(s, DateLayout());
    var l := DateLayout();
    assert |l| == 10 && l[4] == Char('-') && l[7] == Char('-');
    assert forall i | 0 <= i < 10 && i != 4 && i != 7 :: l[i] == Digit;
  }

  lemma {:induction false} TimeLayoutShape(s: string)
    ensures Matches(s, TimeLayout()) <==> TimeShape(s)
  {
    MatchesIff(s, TimeLayout());
    var l := TimeLayout();
    assert |l| == 8 && l[2] == Char(':') && l[5] == Char(':');
    assert forall i | 0 <= i < 8 && i != 2 && i != 5 :: l[i] == Digit;
  }

  /** date holds exactly for YYYY-MM-DD, optionally followed by one newline. */
  lemma {:induction false} DateIff(value: string)
    ensures Date(value) <==> DateShape(value) || (|value| == 11 && value[10] == '\n' && DateShape(value[..10]))
  {
    DateLayoutShape(value);
    if |value| == 11 {
      DateLayoutShape(value[..10]);
    }
  }

  /** time holds exactly for HH:MM:SS, optionally followed by one newline. */
  lemma {:induction false} TimeIff(value: string)
    ensures Time(value) <==> TimeShape(value) || (|value| == 9 && value[8] == '\n' && TimeShape(value[..8]))
  {
    TimeLayoutShape(value);
    if |value| == 9 {
      TimeLayoutShape(value[..8]);
    }
  }

  /** Matching a layout followed by another is matching each on its part. */
  lemma {:induction false} MatchesAppend(s: string, t: string, a: seq<Token>, b: seq<Token>)
    requires |s| == |a|
    ensures Matches(s + t, a + b) <==> Matches(s, a) && Matches(t, b)
    decreases |a|
  {
    if a == [] {
      assert s + t == t && a + b == b;
    } else {
      assert (s + t)[0] == s[0] && (s + t)[1..] == s[1..] + t;
      assert (a + b)[0] == a[0] && (a + b)[1..] == a[1..] + b;
      MatchesAppend(s[1..], t, a[1..], b);
    }
  }

  /** A datetime without a trailing newline is a date and a time joined by one space. */
  lemma {:induction false} DatetimeParts(d: string, t: string)
    requires |d| == 10
    ensures Matches(d + " " + t, DatetimeLayout()) <==> DateShape(d) && TimeShape(t)
  {
    MatchesAppend(d + " ", t, DateLayout() + [Char(' ')], TimeLayout());
    MatchesAppend(d, " ", DateLayout(), [Char(' ')]);
    assert Matches(" ", [Char(' ')]) by {
      assert " "[1..] == [];
    }
    DateLayoutShape(d);
    TimeLayoutShape(t);
  }

  /** A date is a date, also with one newline after it, and a time is not. */
  lemma {:induction false} DateExamples()
    ensures Date("2020-01-31") && Date("2020-01-31\n") && !Date("12:34:56")
  {
    DateIff("2020-01-31");
    DateIff("2020-01-31\n");
    assert "2020-01-31\n"[..10] == "2020-01-31";
    DateIff("12:34:56");
  }

  /** A time is a time and a date is not. */
  lemma {:induction false} TimeExamples()
    ensures Time("12:34:56") && !Time("2020-01-31")
  {
    TimeIff("12:34:56");
    TimeIff("2020-01-31");
  }

  /** Date then time is a datetime. */
  lemma {:induction false} DatetimeExample()
    ensures Datetime("2020-01-31 12:34:56")
  {
    var d, t := "2020-01-31", "12:34:56";
    ExampleShapes();
    DatetimeParts(d, t);
    ExampleJoin();
  }

  lemma {:induction false} ExampleShapes()
    ensures DateShape("2020-01-31") && TimeShape("12:34:56")
  {
  }

  lemma {:induction false} ExampleJoin()
    ensures "2020-01-31" + " " + "12:34:56" == "2020-01-31 12:34:56"
  {
  }

  /** Time then date is not a datetime. */
  lemma {:induction false} ReversedNotDatetime()
    ensures !Datetime("12:34:56 2020-01-31")
  {
    var w := "12:34:56 2020-01-31";
    MatchesIff(w, DatetimeLayout());
    assert DatetimeLayout()[2] == Digit;
    assert w[2] == ':';
  }

  // ---------------------------------------------------------------------
  // Case checks

  /** Is::pascalCase: a pascal-case string has no space, '-' or '_'. */
  predicate PascalCase(value: string)
    ensures PascalCase(value) ==> ' ' !in value && '-' !in value && '_' !in value
  {
    value == Str.PascalCase(value)
  }

  /** Is::camelCase: a camel-case string has no separators and does not start upper-case. */
  predicate CamelCase(value: string)
    ensures CamelCase(value) ==> ' ' !in value && '-' !in value && '_' !in value
    ensures CamelCase(value) ==> value == "" || !IsUpper(value[0])
  {
    value == Str.CamelCase(value)
  }

  /** pascalCase holds exactly for a string without separators whose every word starts upper-case. */
  lemma {:induction false} PascalCaseIff(value: string)
    ensures PascalCase(value) <==>
      ' ' !in value && '-' !in value && '_' !in value && Str.WordStartsUpper(value, true)
  {
    Str.PascalCaseFixed(value);
  }

  /** Whatever Str::pascalCase and Str::camelCase produce passes the matching check. */
  lemma {:induction false} CasesPass(value: string)
    ensures PascalCase(Str.PascalCase(value))
    ensures CamelCase(Str.CamelCase(value))
  {
    Str.PascalCaseIdempotent(value);
    Str.CamelCaseIdempotent(value);
  }

  /** Of TestClass, testClass, test_class and test-class only the first is pascal case and only the second camel case. */
  lemma {:induction false} CaseExamples()
    ensures PascalCase("TestClass") && !PascalCase("testClass") && !PascalCase("test_class") && !PascalCase("test-class")
    ensures !CamelCase("TestClass") && CamelCase("testClass") && !CamelCase("test_class") && !CamelCase("test-class")
  {
    Str.PascalCaseOfPascal();
    Str.PascalCaseOfCamel();
    Str.PascalCaseOfSeparated();
    Str.CamelCaseExamples();
  }
}
