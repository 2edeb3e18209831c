/**
 * Lists encoded as one string, the items joined by a separator. The empty
 * string is the empty list; any other string is its explode on the separator.
 */
module StrList {
  import opened PhpString
  import opened PhpArray

  /** StrList's private explode: '' is the empty list. */
  function Items(separator: string, list: string): (r: seq<string>)
    requires list != "" ==> separator != ""
    ensures list == "" <==> r == []
  {
    if list != "" then Split(list, separator) else []
  }

  /** The form in which an item is stored: wrapped in the tag on both sides. */
  function Tagged(item: string, tag: string): string {
    tag + item + tag
  }

  /** Putting the items back together gives the list string again. */
  lemma {:induction false} JoinItems(separator: string, list: string)
    requires list != "" ==> separator != ""
    ensures Join(separator, Items(separator, list)) == list
  {
    if list != "" {
      JoinSplit(list, separator);
    }
  }

  /**
   * With a one-character separator that no item contains, exploding the
   * imploded items gives them back, except that [""] implodes to the
   * empty list.
   */
  lemma {:induction false} ItemsOfJoin(separator: string, items: seq<string>)
    requires |separator| == 1
    requires forall p | p in items :: separator[0] !in p
    requires items != [""]
    ensures Items(separator, Join(separator, items)) == items
  {
    JoinEmpty(separator, items);
    if items != [] {
      SplitJoin(items, separator);
    }
  }

  // ---------------------------------------------------------------------
  // count, get, pos, exist

  /** StrList::count. */
  function Count(list: string, separator: string): (r: nat)
    requires list != "" ==> separator != ""
    ensures r == |Items(separator, list)|
    ensures list == "" <==> r == 0
  {
    |Items(separator, list)|
  }

  /** substr($item, 1, -1): the item without its first and last character ('' when that leaves nothing). */
  function Inner(item: string): (r: string)
    ensures |item| >= 2 ==> [item[0]] + r + [item[|item| - 1]] == item
    ensures |item| < 2 ==> r == ""
  {
    if |item| >= 2 then item[1..|item| - 1] else ""
  }

  /** substr($s, 0, 1). */
  function Head(s: string): string {
    if s == "" then "" else s[..1]
  }

  /** substr($s, -1). */
  function Tail(s: string): string {
    if s == "" then "" else s[|s| - 1..]
  }

  /**
   * StrList::get: the item at `index`, with the tag cut off both ends when
   * it is a single character found at both ends; '' when there is no such item.
   */
  function Get(list: string, index: int, separator: string, tag: string): (r: string)
    requires list != "" ==> separator != ""
    ensures !(0 <= index < |Items(separator, list)|) ==> r == ""
    ensures 0 <= index < |Items(separator, list)| ==> var item := Items(separator, list)[index];
      r == (if |tag| == 1 && item != "" && item[0] == tag[0] && item[|item| - 1] == tag[0] then Inner(item) else item)
  {
    var items := Items(separator, list);
    if 0 <= index < |items| then
      var item := items[index];
      if tag != "" && Head(item) == tag && Tail(item) == tag then
        Inner(item)
      else item
    else ""
  }

  /** A tagged item comes back without its tag. */
  lemma {:induction false} GetUntags(list: string, index: int, separator: string, c: char, item: string)
    requires list != "" ==> separator != ""
    requires 0 <= index < |Items(separator, list)| && Items(separator, list)[index] == Tagged(item, [c])
    ensures Get(list, index, separator, [c]) == item
  {
    var t := Tagged(item, [c]);
    assert t[0] == c && t[|t| - 1] == c;
    assert t[1..|t| - 1] == item;
  }

  /** StrList::pos: the index of the first item equal to the tagged item, or -1. */
  function Pos(list: string, item: string, separator: string, tag: string): (r: int)
    requires list != "" ==> separator != ""
    ensures var items := Items(separator, list);
      -1 <= r < |items| &&
      (r == -1 <==> Tagged(item, tag) !in items) &&
      (r >= 0 ==> items[r] == Tagged(item, tag) && forall i | 0 <= i < r :: items[i] != Tagged(item, tag))
  {
    IndexOf(Items(separator, list), Tagged(item, tag))
  }

  /** StrList::exist. */
  function Exist(list: string, item: string, separator: string, tag: string): (r: bool)
    requires list != "" ==> separator != ""
    ensures r <==> Pos(list, item, separator, tag) >= 0
  {
    Tagged(item, tag) in Items(separator, list)
  }

  /** The empty string is the empty list. */
  lemma {:induction false} EmptyList(separator: string, index: int, item: string, tag: string)
    ensures Count("", separator) == 0
    ensures Get("", index, separator, tag) == ""
    ensures Pos("", item, separator, tag) == -1
    ensures !Exist("", item, separator, tag)
  {
  }

  // ---------------------------------------------------------------------
  // add, remove, removeIndex

  /** StrList::add: the tagged item is appended unless it is already there. */
  function Add(list: string, item: string, separator: string, tag: string): (r: string)
    requires list != "" ==> separator != ""
    ensures Exist(list, item, separator, tag) ==> r == list
    ensures !Exist(list, item, separator, tag) ==> r == Join(separator, Items(separator, list) + [Tagged(item, tag)])
  {
    var items := Items(separator, list);
    var items' := if Tagged(item, tag) !in items then items + [Tagged(item, tag)] else items;
    JoinItems(separator, list);
    Join(separator, items')
  }

  /** A new item lands at the end, after one separator. */
  lemma {:induction false} AddAppends(list: string, item: string, separator: string, tag: string)
    requires list != "" && separator != ""
    requires !Exist(list, item, separator, tag)
    ensures Add(list, item, separator, tag) == list + separator + Tagged(item, tag)
  {
    JoinItems(separator, list);
    JoinSnoc(separator, Items(separator, list), Tagged(item, tag));
  }

  /**
   * With a one-character separator the tagged item does not contain, add
   * leaves the item in the list, after the old items, and adding it again
   * changes nothing. The empty item is the exception: added to the empty
   * list it implodes to '', which is the empty list again.
   */
  lemma {:induction false} AddIdempotent(list: string, item: string, separator: string, tag: string)
    requires |separator| == 1 && separator[0] !in Tagged(item, tag)
    ensures Tagged(item, tag) != "" ==> Exist(Add(list, item, separator, tag), item, separator, tag)
    ensures !Exist(list, item, separator, tag) && Tagged(item, tag) != "" ==>
      Items(separator, Add(list, item, separator, tag)) == Items(separator, list) + [Tagged(item, tag)]
    ensures Add(Add(list, item, separator, tag), item, separator, tag) == Add(list, item, separator, tag)
  {
    var items := Items(separator, list);
    var t := Tagged(item, tag);
    if t !in items {
      var items' := items + [t];
      if list != "" {
        SplitPiecesFree(list, separator);
      }
      assert forall p | p in items' :: p in items || p == t;
      if items' == [""] {
        assert |items| == 0 && items'[0] == t;
        assert Add(list, item, separator, tag) == "";
      } else {
        ItemsOfJoin(separator, items');
        assert items'[|items|] == t;
      }
    }
  }

  /** The items without the one at position `i`. */
  function Without(items: seq<string>, i: int): (r: seq<string>)
    requires 0 <= i < |items|
    ensures |r| == |items| - 1
    ensures forall j | 0 <= j < i :: r[j] == items[j]
    ensures forall j | i <= j < |r| :: r[j] == items[j + 1]
  {
    items[..i] + items[i + 1..]
  }

  /** StrList::remove: the first occurrence of the tagged item goes. */
  function Remove(list: string, item: string, separator: string, tag: string): (r: string)
    requires list != "" ==> separator != ""
    ensures Pos(list, item, separator, tag) < 0 ==> r == list
    ensures Pos(list, item, separator, tag) >= 0 ==>
      r == Join(separator, Without(Items(separator, list), Pos(list, item, separator, tag)))
  {
    var items := Items(separator, list);
    var pos := Pos(list, item, separator, tag);
    JoinItems(separator, list);
    if pos > -1 && 0 <= pos < |items| then Join(separator, Without(items, pos)) else Join(separator, items)
  }

  /** StrList::removeIndex: the item at an index inside the list goes; any other index changes nothing. */
  function RemoveIndex(list: string, index: int, separator: string): (r: string)
    requires list != "" ==> separator != ""
    ensures !(0 <= index < Count(list, separator)) ==> r == list
    ensures 0 <= index < Count(list, separator) ==> r == Join(separator, Without(Items(separator, list), index))
  {
    var items := Items(separator, list);
    JoinItems(separator, list);
    if 0 <= index < |items| then Join(separator, Without(items, index)) else Join(separator, items)
  }

  /** What is left once an item is removed, read back as a list. */
  lemma {:induction false} ItemsWithout(list: string, separator: string, i: int)
    requires |separator| == 1 && list != ""
    requires 0 <= i < |Items(separator, list)|
    ensures var rest := Without(Items(separator, list), i);
      rest != [""] ==> Items(separator, Join(separator, rest)) == rest
  {
    var items := Items(separator, list);
    SplitPiecesFree(list, separator);
    var rest := Without(items, i);
    assert forall p | p in rest :: p in items by {
      forall p | p in rest ensures p in items {
        var j :| 0 <= j < |rest| && rest[j] == p;
        if j < i { assert items[j] == p; } else { assert items[j + 1] == p; }
      }
    }
    if rest != [""] {
      ItemsOfJoin(separator, rest);
    }
  }

  /**
   * remove drops only the first occurrence: the items before it and after it
   * stay, in order.
   */
  lemma {:induction false} RemoveFirstOccurrence(list: string, item: string, separator: string, tag: string)
    requires |separator| == 1 && list != ""
    requires Exist(list, item, separator, tag)
    ensures var items := Items(separator, list); var p := Pos(list, item, separator, tag);
      var rest := Without(items, p);
      rest != [""] ==> Items(separator, Remove(list, item, separator, tag)) == items[..p] + items[p + 1..]
  {
    var items := Items(separator, list);
    var p := Pos(list, item, separator, tag);
    assert p >= 0;
    ItemsWithout(list, separator, p);
    assert Without(items, p) == items[..p] + items[p + 1..];
  }

  /** removeIndex drops exactly the item at an index inside the list. */
  lemma {:induction false} RemoveIndexDrops(list: string, index: int, separator: string)
    requires |separator| == 1 && list != ""
    requires 0 <= index < Count(list, separator)
    ensures var rest := Without(Items(separator, list), index);
      rest != [""] ==> Items(separator, RemoveIndex(list, index, separator)) == rest
  {
    ItemsWithout(list, separator, index);
  }

  // ---------------------------------------------------------------------
  // merge and sort

  /** The loop of merge: each item of `b` not yet present is appended, in order. */
  function MergeItems(a: seq<string>, b: seq<string>): (r: seq<string>)
    decreases |b|
  {
    if b == [] then a
    else
      var m := MergeItems(a, b[..|b| - 1]);
      if b[|b| - 1] in m then m else m + [b[|b| - 1]]
  }

  /** No item occurs twice. */
  predicate Distinct(s: seq<string>) {
    forall i, j | 0 <= i < j < |s| :: s[i] != s[j]
  }

  /**
   * merge keeps the first list as it is and appends only items of the
   * second that are not yet there, each once: the result holds the items of
   * both, and every item after the first list's is new and distinct.
   */
  lemma {:induction false} MergeItemsShape(a: seq<string>, b: seq<string>)
    ensures var r := MergeItems(a, b);
      |a| <= |r| && r[..|a|] == a &&
      (forall x :: x in r <==> x in a || x in b) &&
      (forall i | |a| <= i < |r| :: r[i] !in r[..i])
    decreases |b|
  {
    if b != [] {
      var b' := b[..|b| - 1];
      MergeItemsShape(a, b');
      var m := MergeItems(a, b');
      var x := b[|b| - 1];
      assert b == b' + [x];
      assert forall y :: y in b <==> y in b' || y == x;
      if x !in m {
        var r := m + [x];
        assert r[..|m|] == m;
        assert r[..|a|] == m[..|a|];
        forall i | |a| <= i < |r| ensures r[i] !in r[..i] {
          if i < |m| {
            assert r[..i] == m[..i];
          }
        }
      }
    }
  }

  /** Merging into a list without repeats gives a list without repeats. */
  lemma {:induction false} MergeItemsDistinct(a: seq<string>, b: seq<string>)
    requires Distinct(a)
    ensures Distinct(MergeItems(a, b))
  {
    MergeItemsShape(a, b);
    var r := MergeItems(a, b);
    forall i, j | 0 <= i < j < |r| ensures r[i] != r[j] {
      if j < |a| {
        assert r[i] == a[i] && r[j] == a[j];
      } else {
        assert r[i] in r[..j];
      }
    }
  }

  /** strcmp's order on strings: by the first differing character, a prefix first. */
  predicate LexLe(a: string, b: string)
    decreases |a|
  {
    a == [] || (b != [] && (a[0] < b[0] || (a[0] == b[0] && LexLe(a[1..], b[1..]))))
  }

  lemma {:induction false} LexTotal(a: string, b: string)
    ensures LexLe(a, b) || LexLe(b, a)
    decreases |a|
  {
    if a != [] && b != [] && a[0] == b[0] {
      LexTotal(a[1..], b[1..]);
    }
  }

  lemma {:induction false} LexTrans(a: string, b: string, c: string)
    requires LexLe(a, b) && LexLe(b, c)
    ensures LexLe(a, c)
    decreases |a|
  {
    if a != [] && a[0] == b[0] && b[0] == c[0] {
      LexTrans(a[1..], b[1..], c[1..]);
    }
  }

  /** Each item is at most the next one. */
  predicate Sorted(s: seq<string>) {
    forall i | 0 < i < |s| :: LexLe(s[i - 1], s[i])
  }

  /** In a sorted list every item is at most every later one. */
  lemma {:induction false} SortedAll(s: seq<string>, i: int, j: int)
    requires Sorted(s) && 0 <= i <= j < |s|
    ensures LexLe(s[i], s[j])
    decreases j - i
  {
    if i == j {
      LexRefl(s[i]);
    } else {
      SortedAll(s, i, j - 1);
      LexTrans(s[i], s[j - 1], s[j]);
    }
  }

  lemma {:induction false} LexRefl(a: string)
    ensures LexLe(a, a)
    decreases |a|
  {
    if a != [] {
      LexRefl(a[1..]);
    }
  }

  /** `x` put into the sorted list `s` before the first item it is at most. */
  function Insert(s: seq<string>, x: string): (r: seq<string>)
    requires Sorted(s)
    ensures Sorted(r)
    ensures multiset(r) == multiset(s) + multiset{x}
    ensures |r| == |s| + 1
    ensures r[0] == x || (s != [] && r[0] == s[0])
    decreases |s|
  {
    if s == [] then [x]
    else if LexLe(x, s[0]) then [x] + s
    else
      LexTotal(x, s[0]);
      var rest := Insert(s[1..], x);
      assert s == [s[0]] + s[1..];
      [s[0]] + rest
  }

  /** sort($items) on strings: the sorted permutation. */
  function SortItems(s: seq<string>): (r: seq<string>)
    ensures Sorted(r)
    ensures multiset(r) == multiset(s)
    decreases |s|
  {
    if s == [] then []
    else
      var r := Insert(SortItems(s[1..]), s[0]);
      assert s == [s[0]] + s[1..];
      r
  }

  /** StrList::merge. */
  method Merge(list1: string, list2: string, sort: bool, separator: string, tag: string) returns (r: string)
    requires (list1 != "" || list2 != "") ==> separator != ""
    ensures var merged := MergeItems(Items(separator, list1), Items(separator, list2));
      r == Join(separator, if sort then SortItems(merged) else merged)
  {
    var items1 := Items(separator, list1);
    var items2 := Items(separator, list2);
    if |items2| > 0 {
      for i := 0 to |items2|
        invariant items1 == MergeItems(Items(separator, list1), items2[..i])
      {
        assert items2[..i + 1][..i] == items2[..i];
        var item := items2[i];
        if item !in items1 {
          items1 := items1 + [item];
        }
      }
      assert items2[..|items2|] == items2;
    }
    if sort {
      items1 := SortItems(items1);
    }
    r := Join(separator, items1);
  }

  /** merge of two lists: the first list's items, then the new ones of the second. */
  lemma {:induction false} MergeKeepsFirst(list1: string, list2: string, separator: string)
    requires (list1 != "" || list2 != "") ==> separator != ""
    ensures var a := Items(separator, list1); var r := MergeItems(a, Items(separator, list2));
      |a| <= |r| && r[..|a|] == a && forall x :: x in r <==> x in a || x in Items(separator, list2)
  {
    MergeItemsShape(Items(separator, list1), Items(separator, list2));
  }

  /** The test lists' shape: "b|a" merged with "d|c" keeps the order of arrival. */
  lemma {:induction false} MergeExample()
    ensures MergeItems(["b", "a"], ["d", "c"]) == ["b", "a", "d", "c"]
  {
    assert ["d", "c"][..1] == ["d"];
    assert ["d"][..0] == [];
    assert ["b", "a"] + ["d"] == ["b", "a", "d"];
    assert ["b", "a", "d"] + ["c"] == ["b", "a", "d", "c"];
  }

  lemma {:induction false} LexExamples()
    ensures LexLe("a", "b") && LexLe("b", "c") && LexLe("c", "d")
    ensures !LexLe("d", "c") && !LexLe("c", "a") && !LexLe("b", "a")
  {
    assert "a"[1..] == [];
  }

  /** ... and sorting puts it in order. */
  lemma {:induction false} SortExample()
    ensures SortItems(["b", "a", "d", "c"]) == ["a", "b", "c", "d"]
  {
    var s := ["b", "a", "d", "c"];
    assert s[1..] == ["a", "d", "c"] && s[1..][1..] == ["d", "c"] && s[1..][1..][1..] == ["c"];
    LexExamples();
    InsertFirstExamples();
    InsertLaterExample();
  }

  lemma {:induction false} InsertFirstExamples()
    ensures SortItems(["c"]) == ["c"]
    ensures Insert(["c"], "d") == ["c", "d"]
    ensures Insert(["c", "d"], "a") == ["a", "c", "d"]
  {
    assert ["c"][1..] == [];
    LexExamples();
  }

  lemma {:induction false} InsertLaterExample()
    ensures Insert(["a", "c", "d"], "b") == ["a", "b", "c", "d"]
  {
    LexExamples();
    assert ["a", "c", "d"][1..] == ["c", "d"];
  }
}
