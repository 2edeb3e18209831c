/**
 * The key/value store the data traits give a class: one array field, the
 * keyed operations going through the dot-path helpers, typed getters and
 * setters that coerce, and a public facade whose mutators return the store.
 */
module DataTrait {
  import opened PhpString
  import opened PhpArray
  import opened PhpValue
  import Arr

  // ---------------------------------------------------------------------
  // toArray's two loops

  /**
   * The first loop: the keys of `order` that data has, in that order, each
   * once. Writing a key picked before stores the value it already holds, so
   * only a new key changes the result (PickOrderedPut).
   */
  function PickOrdered(data: Entries, order: seq<string>): Entries
    decreases |order|
  {
    if order == [] then []
    else
      var r := PickOrdered(data, order[..|order| - 1]);
      var k := order[|order| - 1];
      if HasKey(data, k) && !HasKey(r, k) then r + [(k, Lookup(data, k).value)] else r
  }

  /** The second loop: every entry of data whose key the result lacks is appended (a new key goes last). */
  function AddRest(result: Entries, data: Entries): Entries
    decreases |data|
  {
    if data == [] then result
    else
      var r := AddRest(result, data[..|data| - 1]);
      var e := data[|data| - 1];
      if !HasKey(r, e.0) then r + [e] else r
  }

  /** The array toArray(order) returns. */
  function Ordered(data: Entries, order: seq<string>): Entries {
    AddRest(PickOrdered(data, order), data)
  }

  /** The first occurrence of `x` in a prefix holding it is its first occurrence in the whole. */
  lemma {:induction false} IndexOfPrefix(s: seq<string>, m: int, x: string)
    requires 0 <= m <= |s| && x in s[..m]
    ensures IndexOf(s[..m], x) == IndexOf(s, x)
  {
    var r := IndexOf(s, x);
    var r' := IndexOf(s[..m], x);
    assert s[..m][r'] == s[r'];
  }

  /** The first loop picks exactly the order keys data has, with data's values. */
  lemma {:induction false} PickOrderedLookup(data: Entries, order: seq<string>)
    ensures var p := PickOrdered(data, order);
      (forall k :: HasKey(p, k) <==> k in order && HasKey(data, k)) &&
      (forall k | HasKey(p, k) :: Lookup(p, k) == Lookup(data, k))
    decreases |order|
  {
    if order != [] {
      var pre := order[..|order| - 1];
      var k := order[|order| - 1];
      var r := PickOrdered(data, pre);
      PickOrderedLookup(data, pre);
      assert order == pre + [k];
      assert forall x :: x in order <==> x in pre || x == k;
      if HasKey(data, k) && !HasKey(r, k) {
        forall x ensures HasKey(r + [(k, Lookup(data, k).value)], x) == (HasKey(r, x) || x == k) &&
          Lookup(r + [(k, Lookup(data, k).value)], x) == if HasKey(r, x) then Lookup(r, x) else if x == k then Lookup(data, k) else None
        {
          LookupSnoc(r, (k, Lookup(data, k).value), x);
        }
      }
    }
  }

  /** Keys listed in the order of their first occurrence in `order`. */
  predicate InOrderOf(ks: seq<string>, order: seq<string>) {
    forall i, j | 0 <= i < j < |ks| :: IndexOf(order, ks[i]) < IndexOf(order, ks[j])
  }

  /** Keys that all occur in a prefix of `order` are ordered the same way by the whole. */
  lemma {:induction false} InOrderOfPrefix(ks: seq<string>, order: seq<string>, m: int)
    requires 0 <= m <= |order| && (forall x | x in ks :: x in order[..m])
    requires InOrderOf(ks, order[..m])
    ensures InOrderOf(ks, order)
  {
    forall i | 0 <= i < |ks| ensures IndexOf(order[..m], ks[i]) == IndexOf(order, ks[i]) {
      IndexOfPrefix(order, m, ks[i]);
    }
  }

  /** One step of the first loop keeps the keys or appends the new one. */
  lemma {:induction false} PickOrderedStep(data: Entries, order: seq<string>)
    requires order != []
    ensures var r := PickOrdered(data, order[..|order| - 1]); var k := order[|order| - 1];
      Keys(PickOrdered(data, order)) == if HasKey(data, k) && !HasKey(r, k) then Keys(r) + [k] else Keys(r)
  {
    var r := PickOrdered(data, order[..|order| - 1]);
    var k := order[|order| - 1];
    if HasKey(data, k) && !HasKey(r, k) {
      assert Keys(r + [(k, Lookup(data, k).value)]) == Keys(r) + [k];
    }
  }

  /** The first loop keeps the keys it picks in the order of their first mention. */
  lemma {:induction false} PickOrderedOrder(data: Entries, order: seq<string>)
    ensures InOrderOf(Keys(PickOrdered(data, order)), order)
    decreases |order|
  {
    if order != [] {
      var n := |order|;
      var pre := order[..n - 1];
      var k := order[n - 1];
      assert order == pre + [k];
      var r := PickOrdered(data, pre);
      PickOrderedOrder(data, pre);
      PickOrderedStep(data, order);
      PickOrderedLookup(data, pre);
      InOrderOfPrefix(Keys(r), order, n - 1);
      if HasKey(data, k) && !HasKey(r, k) {
        InOrderOfSnoc(Keys(r), pre, k);
      }
    }
  }

  /** A key new to `order` keeps the order when it is appended last. */
  lemma {:induction false} InOrderOfSnoc(ks: seq<string>, pre: seq<string>, k: string)
    requires InOrderOf(ks, pre + [k]) && k !in pre && (forall x | x in ks :: x in pre)
    ensures InOrderOf(ks + [k], pre + [k])
  {
    var order := pre + [k];
    assert IndexOf(order, k) == |pre|;
    var ks' := ks + [k];
    forall i, j | 0 <= i < j < |ks'| ensures IndexOf(order, ks'[i]) < IndexOf(order, ks'[j]) {
      if j < |ks| {
        assert ks'[i] == ks[i] && ks'[j] == ks[j];
      } else {
        assert ks'[i] == ks[i] && ks[i] in pre;
        assert order[..|pre|] == pre;
        IndexOfPrefix(order, |pre|, ks[i]);
      }
    }
  }

  /** Two keys whose first positions differ are different keys. */
  lemma {:induction false} OrderedKeysUnique(es: Entries, pos: string -> int)
    requires forall i, j | 0 <= i < j < |es| :: pos(es[i].0) < pos(es[j].0)
    ensures UniqueKeys(es)
  {
  }

  /** One step of the second loop: the entry is appended when its key is new. */
  lemma {:induction false} AddRestStep(result: Entries, data: Entries)
    requires data != []
    ensures var r := AddRest(result, data[..|data| - 1]); var e := data[|data| - 1];
      AddRest(result, data) == if HasKey(r, e.0) then r else r + [e]
  {
  }

  /** The second loop only appends. */
  lemma {:induction false} AddRestPrefix(result: Entries, data: Entries)
    ensures var r := AddRest(result, data); |result| <= |r| && r[..|result|] == result
    decreases |data|
  {
    if data != [] {
      AddRestPrefix(result, data[..|data| - 1]);
      AddRestStep(result, data);
      var r := AddRest(result, data[..|data| - 1]);
      assert (r + [data[|data| - 1]])[..|result|] == r[..|result|];
    }
  }

  /** After the second loop every key is there, with the result's value or else data's first one. */
  lemma {:induction false} AddRestLookup(result: Entries, data: Entries)
    ensures var r := AddRest(result, data);
      (forall k :: HasKey(r, k) <==> HasKey(result, k) || HasKey(data, k)) &&
      (forall k :: Lookup(r, k) == if HasKey(result, k) then Lookup(result, k) else Lookup(data, k))
    decreases |data|
  {
    if data != [] {
      var pre := data[..|data| - 1];
      var e := data[|data| - 1];
      AddRestLookup(result, pre);
      AddRestStep(result, data);
      var r := AddRest(result, pre);
      assert data == pre + [e];
      forall k ensures HasKey(data, k) == (HasKey(pre, k) || e.0 == k) &&
        Lookup(data, k) == if HasKey(pre, k) then Lookup(pre, k) else if e.0 == k then Some(e.1) else None
      {
        LookupSnoc(pre, e, k);
      }
      if !HasKey(r, e.0) {
        forall k ensures HasKey(r + [e], k) == (HasKey(r, k) || e.0 == k) &&
          Lookup(r + [e], k) == if HasKey(r, k) then Lookup(r, k) else if e.0 == k then Some(e.1) else None
        {
          LookupSnoc(r, e, k);
        }
      }
    }
  }

  lemma {:induction false} AddRestHas(result: Entries, data: Entries, k: string)
    ensures HasKey(AddRest(result, data), k) <==> HasKey(result, k) || HasKey(data, k)
  {
    AddRestLookup(result, data);
  }

  /** The entries of `r` after `result` are keys of `data` that `result` lacks, in data's order. */
  predicate RestInOrder(result: Entries, r: Entries, data: Entries) {
    (forall i | |result| <= i < |r| :: !HasKey(result, r[i].0) && 0 <= IndexOfKey(data, r[i].0)) &&
    (forall i, j | |result| <= i < j < |r| :: IndexOfKey(data, r[i].0) < IndexOfKey(data, r[j].0))
  }

  /** The entries the second loop appends are data's keys the result lacked, in data's order. */
  lemma {:induction false} AddRestOrder(result: Entries, data: Entries)
    ensures RestInOrder(result, AddRest(result, data), data)
    decreases |data|
  {
    if data != [] {
      var pre := data[..|data| - 1];
      var e := data[|data| - 1];
      AddRestOrder(result, pre);
      AddRestStep(result, data);
      var r := AddRest(result, pre);
      assert data == pre + [e];
      RestInOrderLonger(result, r, pre, e);
      if !HasKey(r, e.0) {
        AddRestHas(result, pre, e.0);
        AddRestPrefix(result, pre);
        RestInOrderSnoc(result, r, pre, e);
      }
    }
  }

  /** Data getting one more entry at the end keeps the positions of the keys already there. */
  lemma {:induction false} RestInOrderLonger(result: Entries, r: Entries, pre: Entries, e: (string, Value))
    requires RestInOrder(result, r, pre)
    ensures RestInOrder(result, r, pre + [e])
  {
    forall i | |result| <= i < |r| ensures IndexOfKey(pre + [e], r[i].0) == IndexOfKey(pre, r[i].0) {
      LookupSnoc(pre, e, r[i].0);
    }
  }

  /** Appending data's new last entry, whose key nobody has yet, keeps the order. */
  lemma {:induction false} RestInOrderSnoc(result: Entries, r: Entries, pre: Entries, e: (string, Value))
    requires RestInOrder(result, r, pre + [e]) && |result| <= |r|
    requires !HasKey(r, e.0) && !HasKey(result, e.0) && !HasKey(pre, e.0)
    ensures RestInOrder(result, r + [e], pre + [e])
  {
    var data := pre + [e];
    LookupSnoc(pre, e, e.0);
    var r' := r + [e];
    forall i | |result| <= i < |r| ensures IndexOfKey(data, r'[i].0) < |pre| {
      assert r'[i] == r[i];
      assert Keys(r)[i] == r[i].0;
      assert r[i].0 != e.0;
    }
    assert r'[|r|] == e;
  }

  /**
   * toArray(order) holds exactly data's top-level pairs: each key once, the
   * order keys data has first, in the order of their first mention, and the
   * rest after them in data's order.
   */
  lemma {:induction false} OrderedContents(data: Entries, order: seq<string>)
    ensures var r := Ordered(data, order); var p := PickOrdered(data, order);
      UniqueKeys(r) &&
      (forall k :: HasKey(r, k) <==> HasKey(data, k)) &&
      (forall k :: Lookup(r, k) == Lookup(data, k)) &&
      |p| <= |r| && r[..|p|] == p &&
      (forall k :: HasKey(p, k) <==> k in order && HasKey(data, k)) &&
      (forall i, j | 0 <= i < j < |p| :: IndexOf(order, r[i].0) < IndexOf(order, r[j].0)) &&
      (forall i, j | |p| <= i < j < |r| :: IndexOfKey(data, r[i].0) < IndexOfKey(data, r[j].0))
  {
    var p := PickOrdered(data, order);
    var r := Ordered(data, order);
    PickOrderedLookup(data, order);
    PickOrderedOrder(data, order);
    AddRestPrefix(p, data);
    AddRestLookup(p, data);
    AddRestOrder(p, data);
    assert forall i | 0 <= i < |p| :: r[i] == p[i] by {
      forall i | 0 <= i < |p| ensures r[i] == p[i] {
        assert r[..|p|][i] == r[i];
      }
    }
    forall i, j | 0 <= i < j < |p| ensures IndexOf(order, r[i].0) < IndexOf(order, r[j].0) {
      assert Keys(p)[i] == r[i].0 && Keys(p)[j] == r[j].0;
    }
    OrderedKeysUnique(p, k => IndexOf(order, k));
    forall i, j | 0 <= i < j < |r| ensures r[i].0 != r[j].0 {
      if j < |p| {
      } else if i < |p| {
        assert HasKey(p, r[i].0) by { assert Keys(p)[i] == p[i].0; }
      } else {
        assert IndexOfKey(data, r[i].0) < IndexOfKey(data, r[j].0);
      }
    }
  }

  /** toArray on an empty store is empty, whatever the order. */
  lemma {:induction false} OrderedEmpty(order: seq<string>)
    ensures Ordered([], order) == []
  {
    PickOrderedLookup([], order);
    var p := PickOrdered([], order);
    if p != [] {
      assert HasKey(p, p[0].0);
    }
  }

  /** The first loop's assignment $result[$key] = $this->data[$key] is one step of PickOrdered. */
  lemma {:induction false} PickOrderedPut(data: Entries, order: seq<string>, k: string)
    requires HasKey(data, k)
    ensures Put(PickOrdered(data, order), k, Lookup(data, k).value) == PickOrdered(data, order + [k])
  {
    assert (order + [k])[..|order|] == order;
    var r := PickOrdered(data, order);
    if HasKey(r, k) {
      PickOrderedLookup(data, order);
      PutSame(r, k);
    }
  }

  /** Without a key order, toArray returns the data as it is. */
  lemma {:induction false} OrderedNoOrder(data: Entries)
    requires UniqueKeys(data)
    ensures Ordered(data, []) == data
  {
    AddRestOwn(data);
  }

  lemma {:induction false} AddRestOwn(data: Entries)
    requires UniqueKeys(data)
    ensures AddRest([], data) == data
    decreases |data|
  {
    if data != [] {
      var pre := data[..|data| - 1];
      var e := data[|data| - 1];
      AddRestOwn(pre);
      assert forall i | 0 <= i < |pre| :: Keys(pre)[i] != e.0;
      assert e.0 !in Keys(pre);
      assert data == pre + [e];
    }
  }

  // ---------------------------------------------------------------------
  // Coercions of the typed getters and setters

  /** The values in_array(..., true) accepts as true. */
  const TrueTokens: seq<Value> := [Int(1), Bool(true), Str("1"), Str("true"), Str("yes"), Str("on")]

  /** A string is lower-cased with strtolower before the lookup; other values are kept. */
  function Lowered(v: Value): Value {
    if v.Str? then Str(Lower(v.s)) else v
  }

  /** The boolean dataGetBool, dataGetBoolNull and dataSetBool make of a value. */
  predicate IsTrue(v: Value) {
    Lowered(v) in TrueTokens
  }

  /**
   * Exactly the integer 1, true and the strings "1", "true", "yes" and "on"
   * in any letter case are true; every other value is false.
   */
  lemma {:induction false} IsTrueIff(v: Value)
    ensures IsTrue(v) <==>
      (v == Int(1) || v == Bool(true) || (v.Str? && Lower(v.s) in ["1", "true", "yes", "on"]))
  {
  }

  /** The true half of the truth table the tests spell out. */
  lemma {:induction false} TrueTokensTrue()
    ensures IsTrue(Int(1)) && IsTrue(Bool(true)) && IsTrue(Str("1"))
    ensures IsTrue(Str("true")) && IsTrue(Str("yes")) && IsTrue(Str("on"))
  {
    assert Lower("1") == "1";
    assert Lower("true") == "true";
    assert Lower("yes") == "yes";
    assert Lower("on") == "on";
  }

  /** Letter case does not matter. */
  lemma {:induction false} TrueTokensAnyCase()
    ensures IsTrue(Str("TRUE")) && IsTrue(Str("Yes")) && IsTrue(Str("On"))
  {
    assert Lower("TRUE") == "true";
    assert Lower("Yes") == "yes";
    assert Lower("On") == "on";
  }

  /** The false half of the truth table. */
  lemma {:induction false} OtherValuesFalse()
    ensures !IsTrue(Int(0)) && !IsTrue(Int(2)) && !IsTrue(Bool(false)) && !IsTrue(Null)
  {
  }

  /** The strings the tests expect to read as false. */
  lemma {:induction false} FalseStringsFalse()
    ensures !IsTrue(Str("0")) && !IsTrue(Str("false")) && !IsTrue(Str("no")) && !IsTrue(Str("off"))
  {
    assert Lower("0") == "0";
    assert Lower("false") == "false";
    assert Lower("no") == "no";
    assert Lower("off") == "off";
  }

  /** A boolean coerces to itself: getBool after setBool reads back what setBool stored. */
  lemma {:induction false} IsTrueOfBool(b: bool)
    ensures IsTrue(Bool(b)) == b
  {
  }

  // ---------------------------------------------------------------------
  // dataSetArray's merge

  /** Every dataSet the merge performs, in order, is allowed. */
  predicate MergeAllowed(data: Entries, d: Entries)
    decreases |d|
  {
    d == [] ||
    (Arr.SetAllowed(data, d[0].0, true) && MergeAllowed(Arr.Assigned(data, d[0].0, d[0].1, true), d[1..]))
  }

  /** The store after dataSet(key, value) for each entry of `d` in turn. */
  function Merged(data: Entries, d: Entries): Entries
    requires MergeAllowed(data, d)
    decreases |d|
  {
    if d == [] then data else Merged(Arr.Assigned(data, d[0].0, d[0].1, true), d[1..])
  }

  /** No key of `d` holds a dot: each is a top-level key. */
  predicate FlatKeys(d: Entries) {
    forall i | 0 <= i < |d| :: '.' !in d[i].0
  }

  /**
   * Merging top-level keys keeps every key the store had and adds the new
   * ones: a key `d` has reads d's value, any other key keeps its old one.
   */
  lemma {:induction false} MergeFlat(data: Entries, d: Entries)
    requires FlatKeys(d) && UniqueKeys(d)
    ensures MergeAllowed(data, d)
    ensures forall k :: HasKey(Merged(data, d), k) <==> HasKey(data, k) || HasKey(d, k)
    ensures forall k :: Lookup(Merged(data, d), k) == if HasKey(d, k) then Lookup(d, k) else Lookup(data, k)
    decreases |d|
  {
    if d != [] {
      var e := d[0];
      var data' := Put(data, e.0, e.1);
      FlatTail(d);
      UniqueTail(d);
      MergeFlat(data', d[1..]);
      MergeFlatStep(data, d);
      forall k ensures Lookup(d, k) == (if e.0 == k then Some(e.1) else Lookup(d[1..], k)) &&
        HasKey(d, k) == (e.0 == k || HasKey(d[1..], k))
      {
        LookupCons(e, d[1..], k);
        assert [e] + d[1..] == d;
      }
    }
  }

  lemma {:induction false} FlatTail(d: Entries)
    requires FlatKeys(d) && d != []
    ensures '.' !in d[0].0 && FlatKeys(d[1..])
  {
    assert forall i | 0 <= i < |d[1..]| :: d[1..][i] == d[i + 1];
  }

  /** Merging a top-level key first is putting it into the store. */
  lemma {:induction false} MergeFlatStep(data: Entries, d: Entries)
    requires d != [] && '.' !in d[0].0
    ensures MergeAllowed(data, d) <==> MergeAllowed(Put(data, d[0].0, d[0].1), d[1..])
    ensures MergeAllowed(data, d) ==> Merged(data, d) == Merged(Put(data, d[0].0, d[0].1), d[1..])
  {
    Arr.TopLevelKey(data, d[0].0, d[0].1, true);
  }

  // ---------------------------------------------------------------------
  // What the getters and setters promise

  /** On an empty store every non-empty path is missing: get gives the default and has is false. */
  lemma {:induction false} EmptyStoreDefaults(key: string, default: Value)
    requires key != ""
    ensures Arr.Get([], key, default) == default && !Arr.Has([], key)
  {
    assert Split(key, ".") != [];
  }

  /** getBool(key, default) reads back the boolean setBool(key, value) stored. */
  lemma {:induction false} SetBoolThenGetBool(data: Entries, key: string, value: Value, default: bool)
    requires Arr.ValidPath(key) && Arr.SetAllowed(data, key, true)
    ensures IsTrue(Arr.Get(Arr.Assigned(data, key, Bool(IsTrue(value)), true), key, Bool(default))) == IsTrue(value)
  {
    Arr.GetAfterSet(data, key, Bool(IsTrue(value)), Bool(default));
  }

  /** getString(key, default) reads back the string setString(key, value) stored. */
  lemma {:induction false} SetStringThenGetString(data: Entries, key: string, value: Value, default: string)
    requires Arr.ValidPath(key) && Arr.SetAllowed(data, key, true)
    ensures StringCast(Arr.Get(Arr.Assigned(data, key, Str(StringCast(value)), true), key, Str(default))) == StringCast(value)
  {
    Arr.GetAfterSet(data, key, Str(StringCast(value)), Str(default));
  }

  /** getInt(key, default) reads back the integer setInt(key, value) stored. */
  lemma {:induction false} SetIntThenGetInt(data: Entries, key: string, value: int, default: int)
    requires Arr.ValidPath(key) && Arr.SetAllowed(data, key, true)
    ensures IntVal(Arr.Get(Arr.Assigned(data, key, Int(value), true), key, Int(default))) == value
  {
    Arr.GetAfterSet(data, key, Int(value), Int(default));
  }

  /** After setNull(key), has(key) holds while get(key, default) gives the default. */
  lemma {:induction false} SetNullThenHas(data: Entries, key: string, default: Value)
    requires Arr.ValidPath(key) && Arr.SetAllowed(data, key, true)
    ensures Arr.Has(Arr.Assigned(data, key, Null, true), key)
    ensures Arr.Get(Arr.Assigned(data, key, Null, true), key, default) == default
  {
    Arr.PathParts(key);
    Arr.SetResolves(data, key, Null);
  }

  /** A one-segment key is a valid path. */
  lemma {:induction false} PlainKeyValid(key: string)
    requires key != "" && '.' !in key
    ensures Arr.ValidPath(key) && Split(key, ".") == [key]
  {
    assert "."[0] == '.';
    SplitOfFree(key, ".");
  }

  /** set('test', 'something') then setNull('test'): toArray() is ['test' => null] and has('test') holds. */
  lemma {:induction false} SetNullExample()
    ensures Arr.SetAllowed([("test", Str("something"))], "test", true)
    ensures var d := Arr.Assigned([("test", Str("something"))], "test", Null, true);
      d == [("test", Null)] && Ordered(d, []) == d && Arr.Has(d, "test")
  {
    PlainKeyValid("test");
    Arr.TopLevelKey([("test", Str("something"))], "test", Null, true);
    var d := Arr.Assigned([("test", Str("something"))], "test", Null, true);
    assert d == [("test", Null)];
    OrderedNoOrder(d);
    SetNullThenHas([("test", Str("something"))], "test", Null);
  }

  /** set('test', 'something') then remove('test'): toArray() is empty. */
  lemma {:induction false} RemoveExample()
    ensures Arr.RemoveAllowed([("test", Str("something"))], "test")
    ensures var d := Arr.Removed([("test", Str("something"))], "test"); d == [] && Ordered(d, []) == []
  {
    PlainKeyValid("test");
    Arr.TopLevelKey([("test", Str("something"))], "test", Null, true);
    OrderedEmpty([]);
  }

  /** The store of the key-order test: set 'mixed', 'value' and 'bool' in that order. */
  function OrderTestData(): Entries {
    [("mixed", Str("something")), ("value", Int(7)), ("bool", Bool(true))]
  }

  lemma {:induction false} OrderTestPickBool()
    ensures PickOrdered(OrderTestData(), ["bool"]) == [("bool", Bool(true))]
  {
    assert ["bool"][..0] == [];
  }

  lemma {:induction false} OrderTestPickValue()
    ensures PickOrdered(OrderTestData(), ["bool", "value"]) == [("bool", Bool(true)), ("value", Int(7))]
  {
    assert ["bool", "value"][..1] == ["bool"];
    OrderTestPickBool();
  }

  /** The first loop of the key-order test picks bool and value and skips the missing 'test'. */
  lemma {:induction false} OrderTestPick()
    ensures PickOrdered(OrderTestData(), ["bool", "value", "test"]) == [("bool", Bool(true)), ("value", Int(7))]
  {
    assert ["bool", "value", "test"][..2] == ["bool", "value"];
    OrderTestPickValue();
  }

  /** The second loop of the key-order test appends only 'mixed'. */
  lemma {:induction false} OrderTestRest(p: Entries)
    requires p == [("bool", Bool(true)), ("value", Int(7))]
    ensures AddRest(p, OrderTestData()) == p + [("mixed", Str("something"))]
  {
    var data := OrderTestData();
    var r := p + [("mixed", Str("something"))];
    assert data[..1] == [data[0]] && data[..1][..0] == [];
    assert AddRest(p, data[..0]) == p;
    assert Keys(p) == ["bool", "value"];
    assert !HasKey(p, "mixed");
    assert AddRest(p, data[..1]) == r;
    assert data[..2] == data[..1] + [data[1]] && data[..2][..1] == data[..1];
    assert HasKey(r, "value") by { assert r[1].0 == "value"; }
    assert AddRest(p, data[..2]) == r;
    assert data[..3][..2] == data[..2] && data[..3] == data;
    assert HasKey(r, "bool") by { assert r[0].0 == "bool"; }
  }

  /** toArray(['bool', 'value', 'test']) on {mixed, value, bool}: bool, value, mixed. */
  lemma {:induction false} ToArrayOrderExample()
    ensures Ordered(OrderTestData(), ["bool", "value", "test"])
      == [("bool", Bool(true)), ("value", Int(7)), ("mixed", Str("something"))]
  {
    OrderTestPick();
    OrderTestRest(PickOrdered(OrderTestData(), ["bool", "value", "test"]));
  }

  // ---------------------------------------------------------------------
  // The store

  /** A class using DataPrivateTrait and DataPublicTrait: its private $data array. */
  class Data {
    var data: Entries

    constructor ()
      ensures data == []
    {
      data := [];
    }

    /** dataClear. */
    method DataClear()
      modifies this
      ensures data == []
    {
      data := [];
    }

    /** dataGet. */
    method DataGet(key: string, default: Value) returns (r: Value)
      ensures r == Arr.Get(data, key, default)
    {
      r := Arr.Get(data, key, default);
    }

    /** dataSet: Arr::set with `create`. */
    method DataSet(key: string, value: Value)
      requires Arr.SetAllowed(data, key, true)
      modifies this
      ensures data == Arr.Assigned(old(data), key, value, true)
    {
      data := Arr.Set(data, key, value, true);
    }

    /**
     * dataSetArray: a merge is dataSet on each entry in turn, otherwise the
     * array replaces the data. The keys go to dataSet(string $key) under
     * strict types, so a merged array has no integer keys.
     */
    method DataSetArray(d: Entries, merge: bool)
      requires merge ==> (forall i | 0 <= i < |d| :: !IsIntKey(d[i].0)) && MergeAllowed(data, d)
      modifies this
      ensures merge ==> data == Merged(old(data), d)
      ensures !merge ==> data == d
    {
      if merge {
        for i := 0 to |d|
          invariant MergeAllowed(data, d[i..])
          invariant Merged(data, d[i..]) == Merged(old(data), d)
        {
          assert d[i..][1..] == d[i + 1..];
          var (key, value) := d[i];
          DataSet(key, value);
        }
      } else {
        data := d;
      }
    }

    /** dataGetString: (string) of the value, the default when missing or null. */
    method DataGetString(key: string, default: string) returns (r: string)
      ensures r == StringCast(Arr.Get(data, key, Str(default)))
    {
      var v := DataGet(key, Str(default));
      r := StringCast(v);
    }

    /** dataGetStringNull: the default exactly when the value is missing or null. */
    method DataGetStringNull(key: string, default: Option<string>) returns (r: Option<string>)
      ensures var v := Arr.Get(data, key, Null); r == if v != Null then Some(StringCast(v)) else default
    {
      var v := DataGet(key, Null);
      if v != Null {
        return Some(StringCast(v));
      }
      r := default;
    }

    /** dataSetString. */
    method DataSetString(key: string, value: Value)
      requires Arr.SetAllowed(data, key, true)
      modifies this
      ensures data == Arr.Assigned(old(data), key, Str(StringCast(value)), true)
    {
      DataSet(key, Str(StringCast(value)));
    }

    /** dataGetInt: intval of the value, the default when missing or null. */
    method DataGetInt(key: string, default: int) returns (r: int)
      ensures r == IntVal(Arr.Get(data, key, Int(default)))
    {
      var v := DataGet(key, Int(default));
      r := IntVal(v);
    }

    /** dataGetIntNull. */
    method DataGetIntNull(key: string, default: Option<int>) returns (r: Option<int>)
      ensures var v := Arr.Get(data, key, Null); r == if v != Null then Some(IntVal(v)) else default
    {
      var v := DataGet(key, Null);
      if v != Null {
        return Some(IntVal(v));
      }
      r := default;
    }

    /** dataSetInt. */
    method DataSetInt(key: string, value: Value)
      requires Arr.SetAllowed(data, key, true)
      modifies this
      ensures data == Arr.Assigned(old(data), key, Int(IntVal(value)), true)
    {
      DataSet(key, Int(IntVal(value)));
    }

    /** dataGetBool: the token table applied to the value, or to the default when missing or null. */
    method DataGetBool(key: string, default: bool) returns (r: bool)
      ensures r == IsTrue(Arr.Get(data, key, Bool(default)))
    {
      var v := DataGet(key, Bool(default));
      if v.Str? {
        v := Str(Lower(v.s));
      }
      r := v in TrueTokens;
    }

    /** dataGetBoolNull. */
    method DataGetBoolNull(key: string, default: Option<bool>) returns (r: Option<bool>)
      ensures var v := Arr.Get(data, key, Null); r == if v != Null then Some(IsTrue(v)) else default
    {
      var v := DataGet(key, Null);
      if v != Null {
        if v.Str? {
          v := Str(Lower(v.s));
        }
        return Some(v in TrueTokens);
      }
      r := default;
    }

    /** dataSetBool: stores the boolean the token table gives. */
    method DataSetBool(key: string, value: Value)
      requires Arr.SetAllowed(data, key, true)
      modifies this
      ensures data == Arr.Assigned(old(data), key, Bool(IsTrue(value)), true)
    {
      var v := value;
      if v.Str? {
        v := Str(Lower(v.s));
      }
      DataSet(key, Bool(v in TrueTokens));
    }

    /** dataSetNull. */
    method DataSetNull(key: string)
      requires Arr.SetAllowed(data, key, true)
      modifies this
      ensures data == Arr.Assigned(old(data), key, Null, true)
    {
      DataSet(key, Null);
    }

    /** dataRemove. */
    method DataRemove(key: string)
      requires Arr.RemoveAllowed(data, key)
      modifies this
      ensures data == Arr.Removed(old(data), key)
    {
      data := Arr.Remove(data, key);
    }

    /** dataHas. */
    method DataHas(key: string) returns (r: bool)
      ensures r == Arr.Has(data, key)
    {
      r := Arr.Has(data, key);
    }

    /** dataToArray: the keys of `keyOrder` data has, then the rest of data. */
    method DataToArray(keyOrder: seq<string>) returns (r: Entries)
      ensures r == Ordered(data, keyOrder)
    {
      r := [];
      if |keyOrder| > 0 {
        for i := 0 to |keyOrder|
          invariant r == PickOrdered(data, keyOrder[..i])
        {
          var key := keyOrder[i];
          assert keyOrder[..i + 1] == keyOrder[..i] + [key];
          if HasKey(data, key) {
            PickOrderedPut(data, keyOrder[..i], key);
            r := Put(r, key, Lookup(data, key).value);
          }
        }
      }
      assert keyOrder[..|keyOrder|] == keyOrder;
      ghost var picked := r;
      for i := 0 to |data|
        invariant r == AddRest(picked, data[..i])
      {
        var (key, value) := data[i];
        assert data[..i + 1][..i] == data[..i];
        if !HasKey(r, key) {
          r := Put(r, key, value);
        }
      }
      assert data[..|data|] == data;
    }

    // The public facade: each method forwards to its data* counterpart,
    // and every mutator but clear returns the store itself.

    method Clear()
      modifies this
      ensures data == []
    {
      DataClear();
    }

    method Get(key: string, default: Value) returns (r: Value)
      ensures r == Arr.Get(data, key, default)
    {
      r := DataGet(key, default);
    }

    method Set(key: string, value: Value) returns (self: Data)
      requires Arr.SetAllowed(data, key, true)
      modifies this
      ensures self == this && data == Arr.Assigned(old(data), key, value, true)
    {
      DataSet(key, value);
      self := this;
    }

    method SetArray(d: Entries, merge: bool) returns (self: Data)
      requires merge ==> (forall i | 0 <= i < |d| :: !IsIntKey(d[i].0)) && MergeAllowed(data, d)
      modifies this
      ensures self == this
      ensures merge ==> data == Merged(old(data), d)
      ensures !merge ==> data == d
    {
      DataSetArray(d, merge);
      self := this;
    }

    method GetString(key: string, default: string) returns (r: string)
      ensures r == StringCast(Arr.Get(data, key, Str(default)))
    {
      r := DataGetString(key, default);
    }

    method GetStringNull(key: string, default: Option<string>) returns (r: Option<string>)
      ensures var v := Arr.Get(data, key, Null); r == if v != Null then Some(StringCast(v)) else default
    {
      r := DataGetStringNull(key, default);
    }

    method SetString(key: string, value: Value) returns (self: Data)
      requires Arr.SetAllowed(data, key, true)
      modifies this
      ensures self == this && data == Arr.Assigned(old(data), key, Str(StringCast(value)), true)
    {
      DataSetString(key, value);
      self := this;
    }

    method GetInt(key: string, default: int) returns (r: int)
      ensures r == IntVal(Arr.Get(data, key, Int(default)))
    {
      r := DataGetInt(key, default);
    }

    method GetIntNull(key: string, default: Option<int>) returns (r: Option<int>)
      ensures var v := Arr.Get(data, key, Null); r == if v != Null then Some(IntVal(v)) else default
    {
      r := DataGetIntNull(key, default);
    }

    /** setInt takes an int, so the stored value is that integer. */
    method SetInt(key: string, value: int) returns (self: Data)
      requires Arr.SetAllowed(data, key, true)
      modifies this
      ensures self == this && data == Arr.Assigned(old(data), key, Int(value), true)
    {
      DataSetInt(key, Int(value));
      self := this;
    }

    method GetBool(key: string, default: bool) returns (r: bool)
      ensures r == IsTrue(Arr.Get(data, key, Bool(default)))
    {
      r := DataGetBool(key, default);
    }

    method GetBoolNull(key: string, default: Option<bool>) returns (r: Option<bool>)
      ensures var v := Arr.Get(data, key, Null); r == if v != Null then Some(IsTrue(v)) else default
    {
      r := DataGetBoolNull(key, default);
    }

    method SetBool(key: string, value: Value) returns (self: Data)
      requires Arr.SetAllowed(data, key, true)
      modifies this
      ensures self == this && data == Arr.Assigned(old(data), key, Bool(IsTrue(value)), true)
    {
      DataSetBool(key, value);
      self := this;
    }

    method SetNull(key: string) returns (self: Data)
      requires Arr.SetAllowed(data, key, true)
      modifies this
      ensures self == this && data == Arr.Assigned(old(data), key, Null, true)
    {
      DataSetNull(key);
      self := this;
    }

    method Remove(key: string) returns (self: Data)
      requires Arr.RemoveAllowed(data, key)
      modifies this
      ensures self == this && data == Arr.Removed(old(data), key)
    {
      DataRemove(key);
      self := this;
    }

    method Has(key: string) returns (r: bool)
      ensures r == Arr.Has(data, key)
    {
      r := DataHas(key);
    }

    method ToArray(keyOrder: seq<string>) returns (r: Entries)
      ensures r == Ordered(data, keyOrder)
    {
      r := DataToArray(keyOrder);
    }
  }
}
