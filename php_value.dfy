/**
 * PHP values as the helpers see them: null, booleans, integers, strings and
 * ordered arrays whose keys are strings (an integer key is kept as its
 * canonical decimal string, which is how PHP itself normalises "1" and 1).
 */
module PhpValue {
  import opened PhpString
  import opened PhpArray

  datatype Value =
    | Null
    | Bool(b: bool)
    | Int(i: int)
    | Str(s: string)
    | Map(entries: seq<(string, Value)>)

  type Entries = seq<(string, Value)>

  /** A key PHP stores as an integer: the canonical decimal form of a 64-bit integer. */
  predicate IsIntKey(k: string) {
    k == IntToString(ParseIntPrefix(k))
  }

  lemma {:induction false} NatKeyIsIntKey(n: nat)
    requires n <= PhpIntMax
    ensures IsIntKey(NatToString(n))
  {
    IntToStringRoundTrip(n);
  }

  /** The PHP list [vs[0], vs[1], ...]: keys 0, 1, ... in order. */
  function ListOf(vs: seq<Value>): (r: Entries)
    ensures |r| == |vs|
    ensures forall i | 0 <= i < |vs| :: r[i] == (NatToString(i), vs[i])
  {
    seq(|vs|, i requires 0 <= i < |vs| => (NatToString(i), vs[i]))
  }

  /** array_values(es). */
  function Values(es: Entries): (r: seq<Value>)
    ensures |r| == |es|
    ensures forall i | 0 <= i < |es| :: r[i] == es[i].1
  {
    seq(|es|, i requires 0 <= i < |es| => es[i].1)
  }

  lemma {:induction false} ListOfDropLast(vs: seq<Value>)
    requires vs != []
    ensures ListOf(vs)[..|vs| - 1] == ListOf(vs[..|vs| - 1])
  {
  }

  lemma {:induction false} ListOfUnique(vs: seq<Value>)
    ensures UniqueKeys(ListOf(vs))
  {
    forall i, j | 0 <= i < j < |vs| ensures NatToString(i) != NatToString(j) {
      if NatToString(i) == NatToString(j) {
        NatToStringInjective(i, j);
      }
    }
  }

  lemma {:induction false} ValuesOfList(vs: seq<Value>)
    ensures Values(ListOf(vs)) == vs
  {
  }

  /** The strings of a list of strings, as PHP string values. */
  function Strs(ss: seq<string>): (r: seq<Value>)
    ensures |r| == |ss|
    ensures forall i | 0 <= i < |ss| :: r[i] == Str(ss[i])
  {
    seq(|ss|, i requires 0 <= i < |ss| => Str(ss[i]))
  }

  /** (string)$v. */
  function StringCast(v: Value): string {
    match v
    case Null => ""
    case Bool(b) => if b then "1" else ""
    case Int(i) => IntToString(i)
    case Str(s) => s
    case Map(_) => "Array"
  }

  /** intval($v). */
  function IntVal(v: Value): (r: int)
    ensures v.Str? ==> r == ParseIntPrefix(v.s)
    ensures v.Int? ==> r == v.i
    ensures !v.Int? ==> PhpIntMin <= r <= PhpIntMax
    ensures v.Str? && (forall i | 0 <= i < |v.s| :: !IsDigit(v.s[i])) ==> r == 0
  {
    match v
    case Null => 0
    case Bool(b) => if b then 1 else 0
    case Int(i) => i
    case Str(s) => DigitFreeParsesZero(s); ParseIntPrefix(s)
    case Map(es) => if es == [] then 0 else 1
  }

  /** Casting a 64-bit integer to a string and back with intval gives it back. */
  lemma {:induction false} IntValStringCast(i: int)
    requires PhpIntMin <= i <= PhpIntMax
    ensures IntVal(Str(StringCast(Int(i)))) == i
  {
    IntToStringRoundTrip(i);
  }
}
