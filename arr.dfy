/**
 * The dot-path accessor on nested PHP arrays and the array helpers beside it.
 *
 * dataByPath walks a reference down a nested array, one key per dot-separated
 * segment. The walk is modelled as a zipper: the frames it passed through
 * (the entries before and after the key it followed) and the node the
 * reference points at. Whatever the walk changed is in the frames and the
 * node, so plugging the node back into the frames gives the caller's array
 * after the call.
 */
module Arr {
  import opened PhpString
  import opened PhpArray
  import opened PhpValue
  import Str

  // ---------------------------------------------------------------------
  // The walk

  /** The entries of an array node; the walk overwrites any other node with []. */
  function EntriesOf(v: Value): (r: Entries)
    ensures v.Map? ==> r == v.entries
    ensures !v.Map? ==> r == []
  {
    if v.Map? then v.entries else []
  }

  /** One level the walk went down through: the key it followed and the entries around it. */
  datatype Frame = Frame(before: Entries, key: string, after: Entries)

  function Fill(f: Frame, x: Value): Value {
    Map(f.before + [(f.key, x)] + f.after)
  }

  /** The outermost value, once `x` is put back at the bottom of the frames. */
  function Plug(ctx: seq<Frame>, x: Value): Value
    decreases |ctx|
  {
    if ctx == [] then x else Fill(ctx[0], Plug(ctx[1..], x))
  }

  /**
   * Where dataByPath stops: the frames walked through, the node the reference
   * points at and whether the whole path was there. When a segment is missing
   * (and nothing is created) the node is the array in which it was missing.
   */
  datatype Zipper = Zipper(ctx: seq<Frame>, focus: Value, found: bool)

  /** The keys the frames were entered by. */
  function FrameKeys(ctx: seq<Frame>): (r: seq<string>)
    ensures |r| == |ctx|
    ensures forall i | 0 <= i < |ctx| :: r[i] == ctx[i].key
  {
    seq(|ctx|, i requires 0 <= i < |ctx| => ctx[i].key)
  }

  /**
   * The foreach of dataByPath from node `v` on: a non-array node becomes [],
   * an existing key is followed, a missing key is created as null when
   * `create` is set and otherwise ends the walk.
   */
  function Walk(v: Value, segs: seq<string>, create: bool): (z: Zipper)
    ensures |z.ctx| <= |segs|
    ensures !z.found ==> !create
    decreases |segs|
  {
    if segs == [] then Zipper([], v, true)
    else
      var m := EntriesOf(v);
      var k := segs[0];
      if HasKey(m, k) then
        var j := IndexOfKey(m, k);
        var z := Walk(m[j].1, segs[1..], create);
        Zipper([Frame(m[..j], k, m[j + 1..])] + z.ctx, z.focus, z.found)
      else if create then
        var z := Walk(Null, segs[1..], create);
        Zipper([Frame(m, k, [])] + z.ctx, z.focus, z.found)
      else
        Zipper([], Map(m), false)
  }

  /**
   * The frames of a walk are entered by the path's segments in order, and the
   * entries before each followed key do not hold that key. A walk that stops
   * early stops at an array that lacks the next segment.
   */
  lemma {:induction false} WalkShape(v: Value, segs: seq<string>, create: bool)
    ensures var z := Walk(v, segs, create);
      && (z.found ==> |z.ctx| == |segs|)
      && FrameKeys(z.ctx) == segs[..|z.ctx|]
      && (forall i | 0 <= i < |z.ctx| :: !HasKey(z.ctx[i].before, z.ctx[i].key))
      && (!z.found ==> |z.ctx| < |segs| && z.focus.Map? && !HasKey(z.focus.entries, segs[|z.ctx|]))
    decreases |segs|, 1
  {
    if segs != [] {
      var m := EntriesOf(v);
      var k := segs[0];
      if HasKey(m, k) {
        var j := IndexOfKey(m, k);
        WalkShapeStep(v, segs, create, Frame(m[..j], k, m[j + 1..]), m[j].1);
      } else if create {
        WalkShapeStep(v, segs, create, Frame(m, k, []), Null);
      } else {
        WalkStops(v, segs, create);
      }
    }
  }

  /** WalkShape for a walk that goes a level down, from WalkShape one level below. */
  lemma {:induction false} WalkShapeStep(v: Value, segs: seq<string>, create: bool, frame: Frame, child: Value)
    requires segs != []
    requires StepsTo(v, segs[0], create, frame, child)
    ensures var z := Walk(v, segs, create);
      && (z.found ==> |z.ctx| == |segs|)
      && FrameKeys(z.ctx) == segs[..|z.ctx|]
      && (forall i | 0 <= i < |z.ctx| :: !HasKey(z.ctx[i].before, z.ctx[i].key))
      && (!z.found ==> |z.ctx| < |segs| && z.focus.Map? && !HasKey(z.focus.entries, segs[|z.ctx|]))
    decreases |segs|, 0
  {
    var below := Walk(child, segs[1..], create);
    WalkDescend(v, segs, create, frame, child);
    WalkShape(child, segs[1..], create);
    if HasKey(EntriesOf(v), segs[0]) {
      PrefixLacksKey(EntriesOf(v), segs[0]);
    }
    FramesCons(frame, below.ctx, segs);
    FramesStop(below, segs);
  }

  /** A walk below that stopped early stops early one level up too. */
  lemma {:induction false} FramesStop(below: Zipper, segs: seq<string>)
    requires segs != [] && |below.ctx| <= |segs| - 1
    requires !below.found ==> |below.ctx| < |segs[1..]| && below.focus.Map? && !HasKey(below.focus.entries, segs[1..][|below.ctx|])
    ensures !below.found ==> |below.ctx| + 1 < |segs| && !HasKey(below.focus.entries, segs[|below.ctx| + 1])
  {
  }

  lemma {:induction false} FramesCons(frame: Frame, ctx: seq<Frame>, segs: seq<string>)
    requires segs != [] && frame.key == segs[0] && !HasKey(frame.before, frame.key)
    requires |ctx| <= |segs| - 1 && FrameKeys(ctx) == segs[1..][..|ctx|]
    requires forall i | 0 <= i < |ctx| :: !HasKey(ctx[i].before, ctx[i].key)
    ensures FrameKeys([frame] + ctx) == segs[..|ctx| + 1]
    ensures forall i | 0 <= i < |ctx| + 1 :: !HasKey(([frame] + ctx)[i].before, ([frame] + ctx)[i].key)
  {
    var all := [frame] + ctx;
    forall i | 0 <= i < |all| ensures FrameKeys(all)[i] == segs[..|ctx| + 1][i] {
      if i > 0 {
        assert all[i] == ctx[i - 1];
        assert FrameKeys(ctx)[i - 1] == segs[1..][..|ctx|][i - 1];
      }
    }
    forall i | 0 <= i < |all| ensures !HasKey(all[i].before, all[i].key) {
      if i > 0 {
        assert all[i] == ctx[i - 1];
      }
    }
  }

  /** Nothing before the first occurrence of a key holds that key. */
  lemma {:induction false} PrefixLacksKey(m: Entries, k: string)
    requires HasKey(m, k)
    ensures !HasKey(m[..IndexOfKey(m, k)], k)
  {
    var j := IndexOfKey(m, k);
    forall i | 0 <= i < j ensures Keys(m[..j])[i] != k {
      assert Keys(m[..j])[i] == m[i].0;
    }
    assert k !in Keys(m[..j]);
  }

  /** dataByPath($data, $key, $create) on the root array `data`; the empty key is the root. */
  function PathWalk(data: Entries, key: string, create: bool): Zipper {
    if key == "" then Zipper([], Map(data), true) else Walk(Map(data), Split(key, "."), create)
  }

  /** The array the caller holds once the walk is over. */
  function Root(z: Zipper): Value {
    Plug(z.ctx, z.focus)
  }

  /** The walk from a node part-way down, with the frames above it put in front. */
  function Prepend(ctx: seq<Frame>, z: Zipper): Zipper {
    Zipper(ctx + z.ctx, z.focus, z.found)
  }

  lemma {:induction false} PrependTwice(a: seq<Frame>, b: seq<Frame>, z: Zipper)
    ensures Prepend(a, Prepend(b, z)) == Prepend(a + b, z)
  {
    assert a + (b + z.ctx) == a + b + z.ctx;
  }

  /** dataByPath: the empty key is the root itself; any other key is walked segment by segment. */
  method DataByPath(data: Entries, key: string, create: bool) returns (ctx: seq<Frame>, node: Value, found: bool)
    ensures Zipper(ctx, node, found) == PathWalk(data, key, create)
  {
    if key == "" {
      return [], Map(data), true;
    }
    ctx, node, found := WalkSegments(Map(data), Split(key, "."), create);
  }

  /**
   * dataByPath's foreach: keeps a reference (the frames above it and the node
   * it points at) and moves it one segment down per iteration.
   */
  method WalkSegments(root: Value, segs: seq<string>, create: bool) returns (ctx: seq<Frame>, node: Value, found: bool)
    ensures Zipper(ctx, node, found) == Walk(root, segs, create)
  {
    ctx, node, found := [], root, true;
    assert segs[0..] == segs;
    var i := 0;
    while i < |segs|
      invariant 0 <= i <= |segs|
      invariant Walk(root, segs, create) == Prepend(ctx, Walk(node, segs[i..], create))
    {
      ghost var rest := segs[i..];
      assert rest[0] == segs[i] && rest[1..] == segs[i + 1..];
      var frame, child, ok := Descend(node, segs[i], create);
      if !ok {
        WalkStopsUnder(ctx, node, rest, create);
        node, found := Map(EntriesOf(node)), false;
        return;
      }
      WalkDescendUnder(ctx, node, rest, create, frame, child);
      ctx, node := ctx + [frame], child;
      i := i + 1;
    }
    assert segs[i..] == [];
    assert ctx + [] == ctx;
  }

  /** The loop's early exit: the walk below the reference stops at once. */
  lemma {:induction false} WalkStopsUnder(ctx: seq<Frame>, node: Value, rest: seq<string>, create: bool)
    requires rest != [] && !HasKey(EntriesOf(node), rest[0]) && !create
    ensures Prepend(ctx, Walk(node, rest, create)) == Zipper(ctx, Map(EntriesOf(node)), false)
  {
    WalkStops(node, rest, create);
    assert ctx + [] == ctx;
  }

  /** The loop's step: moving the reference one frame down keeps the whole walk. */
  lemma {:induction false} WalkDescendUnder(ctx: seq<Frame>, node: Value, rest: seq<string>, create: bool,
                                            frame: Frame, child: Value)
    requires rest != []
    requires StepsTo(node, rest[0], create, frame, child)
    ensures Prepend(ctx, Walk(node, rest, create)) == Prepend(ctx + [frame], Walk(child, rest[1..], create))
  {
    WalkDescend(node, rest, create, frame, child);
    PrependTwice(ctx, [frame], Walk(child, rest[1..], create));
  }

  /**
   * One level of the walk: an existing key is entered where it stands, and a
   * missing one, with `create`, as a fresh null child at the end.
   */
  predicate StepsTo(v: Value, seg: string, create: bool, frame: Frame, child: Value) {
    var m := EntriesOf(v);
    if HasKey(m, seg) then
      var j := IndexOfKey(m, seg);
      frame == Frame(m[..j], seg, m[j + 1..]) && child == m[j].1
    else create && frame == Frame(m, seg, []) && child == Null
  }

  /** One iteration of dataByPath's foreach: the frame entered and the child reached, if any. */
  method Descend(node: Value, seg: string, create: bool) returns (frame: Frame, child: Value, ok: bool)
    ensures ok == (HasKey(EntriesOf(node), seg) || create)
    ensures ok ==> StepsTo(node, seg, create, frame, child)
  {
    var m := EntriesOf(node);
    if HasKey(m, seg) {
      var j := IndexOfKey(m, seg);
      frame, child, ok := Frame(m[..j], seg, m[j + 1..]), m[j].1, true;
    } else {
      frame, child, ok := Frame(m, seg, []), Null, create;
    }
  }

  /** One iteration of the walk that goes a level down. */
  lemma {:induction false} WalkDescend(v: Value, segs: seq<string>, create: bool, frame: Frame, child: Value)
    requires segs != []
    requires StepsTo(v, segs[0], create, frame, child)
    ensures Walk(v, segs, create) == Prepend([frame], Walk(child, segs[1..], create))
  {
  }

  /** One iteration of the walk that stops at a missing key. */
  lemma {:induction false} WalkStops(v: Value, segs: seq<string>, create: bool)
    requires segs != [] && !HasKey(EntriesOf(v), segs[0]) && !create
    ensures Walk(v, segs, create) == Zipper([], Map(EntriesOf(v)), false)
  {
  }

  // ---------------------------------------------------------------------
  // A reference lookup to measure the walk against

  /** The value at the end of `segs`, following only array nodes and existing keys. */
  function Resolve(v: Value, segs: seq<string>): Option<Value>
    decreases |segs|
  {
    if segs == [] then Some(v)
    else if !v.Map? then None
    else
      match Lookup(v.entries, segs[0])
      case None => None
      case Some(child) => Resolve(child, segs[1..])
  }

  /** Without `create`, the walk reaches exactly the value the reference lookup finds. */
  lemma {:induction false} WalkResolve(v: Value, segs: seq<string>)
    ensures Walk(v, segs, false).found <==> Resolve(v, segs).Some?
    ensures Walk(v, segs, false).found ==> Walk(v, segs, false).focus == Resolve(v, segs).value
    decreases |segs|
  {
    if segs != [] {
      var m := EntriesOf(v);
      if HasKey(m, segs[0]) {
        WalkResolve(m[IndexOfKey(m, segs[0])].1, segs[1..]);
      }
    }
  }

  /** A walk that finds its path went through array nodes only and so changed nothing. */
  lemma {:induction false} FoundWalkKeepsRoot(v: Value, segs: seq<string>, create: bool)
    requires Walk(v, segs, create).found
    requires !create
    ensures Root(Walk(v, segs, create)) == v
    decreases |segs|
  {
    if segs != [] {
      var m := EntriesOf(v);
      var k := segs[0];
      var j := IndexOfKey(m, k);
      FoundWalkKeepsRoot(m[j].1, segs[1..], create);
      FillSplit(m, j);
    }
  }

  /** Putting an entry's own value back where it came from gives the array back. */
  lemma {:induction false} FillSplit(m: Entries, j: int)
    requires 0 <= j < |m|
    ensures m[..j] + [(m[j].0, m[j].1)] + m[j + 1..] == m
  {
    assert m == m[..j] + [m[j]] + m[j + 1..];
  }

  /** A key before which no equal key occurs is found with its own value. */
  lemma {:induction false} LookupAt(before: Entries, k: string, x: Value, after: Entries)
    requires !HasKey(before, k)
    ensures Lookup(before + [(k, x)] + after, k) == Some(x)
    decreases |before|
  {
    if before != [] {
      var all := before + [(k, x)] + after;
      assert all[0] == before[0] && all[1..] == before[1..] + [(k, x)] + after;
      LookupAt(before[1..], k, x, after);
    } else {
      assert before + [(k, x)] + after == [(k, x)] + after;
    }
  }

  /** Looking a path up in a plugged value goes down through the frames first. */
  lemma {:induction false} ResolvePlug(ctx: seq<Frame>, x: Value, rest: seq<string>)
    requires forall i | 0 <= i < |ctx| :: !HasKey(ctx[i].before, ctx[i].key)
    ensures Resolve(Plug(ctx, x), FrameKeys(ctx) + rest) == Resolve(x, rest)
    decreases |ctx|
  {
    if ctx != [] {
      var f := ctx[0];
      var path := FrameKeys(ctx) + rest;
      assert path[0] == f.key;
      assert path[1..] == FrameKeys(ctx[1..]) + rest;
      LookupAt(f.before, f.key, Plug(ctx[1..], x), f.after);
      assert forall i | 0 <= i < |ctx[1..]| :: ctx[1..][i] == ctx[i + 1];
      ResolvePlug(ctx[1..], x, rest);
    } else {
      assert FrameKeys(ctx) + rest == rest;
    }
  }

  /** Looking up a path in two parts. */
  lemma {:induction false} ResolveAppend(v: Value, a: seq<string>, b: seq<string>)
    ensures Resolve(v, a + b) == match Resolve(v, a) case None => None case Some(w) => Resolve(w, b)
    decreases |a|
  {
    if a == [] {
      assert a + b == b;
    } else {
      assert (a + b)[0] == a[0] && (a + b)[1..] == a[1..] + b;
      if v.Map? && Lookup(v.entries, a[0]).Some? {
        ResolveAppend(Lookup(v.entries, a[0]).value, a[1..], b);
      }
    }
  }

  /**
   * After any walk, the caller's array holds the node the walk reached at the
   * end of the path, with whatever the node has been replaced by; a walk that
   * stopped early left the path missing.
   */
  lemma {:induction false} WalkRootResolve(v: Value, segs: seq<string>, create: bool, x: Value)
    ensures var z := Walk(v, segs, create);
      Resolve(Plug(z.ctx, if z.found then x else z.focus), segs) == if z.found then Some(x) else None
  {
    var z := Walk(v, segs, create);
    WalkShape(v, segs, create);
    var i := |z.ctx|;
    var rest := segs[i..];
    assert segs == segs[..i] + rest;
    if z.found {
      assert rest == [];
      ResolvePlug(z.ctx, x, rest);
    } else {
      ResolvePlug(z.ctx, z.focus, rest);
      assert rest[0] == segs[i];
      assert Lookup(z.focus.entries, rest[0]).None?;
    }
  }

  /** Plugging anything into at least one frame gives an array. */
  lemma {:induction false} PlugMap(ctx: seq<Frame>, x: Value)
    requires ctx != [] || x.Map?
    ensures Plug(ctx, x).Map?
  {
  }

  // ---------------------------------------------------------------------
  // get, has, set and remove

  /** The value has() takes for "not there". */
  const NotFound: Value := Str("not.found")

  /** Arr::get: the value at the path, or the default when it is missing or null. */
  function Get(data: Entries, key: string, default: Value): (r: Value)
    ensures key == "" ==> r == Map(data)
    ensures key != "" ==> r == match Resolve(Map(data), Split(key, "."))
      case None => default
      case Some(x) => if x == Null then default else x
  {
    var z := PathWalk(data, key, false);
    WalkResolve(Map(data), Split(key, "."));
    var found := if z.found then z.focus else Null;
    if found == Null then default else found
  }

  /** Arr::has: the walk with the sentinel 'not.found' as its default. */
  function Has(data: Entries, key: string): (r: bool)
    ensures key == "" ==> r
    ensures key != "" ==> (r <==>
      Resolve(Map(data), Split(key, ".")).Some? && Resolve(Map(data), Split(key, ".")).value != NotFound)
  {
    var z := PathWalk(data, key, false);
    WalkResolve(Map(data), Split(key, "."));
    var check := if z.found then z.focus else NotFound;
    check != NotFound
  }

  /** What set() writes into: a null node becomes an array, an array gets the key assigned. */
  function Assign(node: Value, k: string, value: Value): (r: Value)
    requires node.Map? || node == Null
    ensures r.Map? && Lookup(r.entries, k) == Some(value)
  {
    Map(Put(EntriesOf(node), k, value))
  }

  /**
   * What set() demands: the parent it writes into, when the walk reaches it,
   * is an array or null (PHP refuses to index any other scalar).
   */
  predicate SetAllowed(data: Entries, key: string, create: bool) {
    var parent := Str.RemoveLast(key, ".");
    parent == "" || var z := PathWalk(data, parent, create); z.found ==> z.focus.Map? || z.focus == Null
  }

  /** The caller's array after Arr::set. */
  function Assigned(data: Entries, key: string, value: Value, create: bool): Entries
    requires SetAllowed(data, key, create)
  {
    var last := Str.Last(key, ".");
    var parent := Str.RemoveLast(key, ".");
    if parent == "" then Put(data, last, value)
    else
      var z := PathWalk(data, parent, create);
      var node := if z.found && (z.focus != Null || create) then Assign(z.focus, last, value) else z.focus;
      EntriesOf(Plug(z.ctx, node))
  }

  /** Arr::set, writing through the reference dataByPath returns. */
  method Set(data: Entries, key: string, value: Value, create: bool) returns (r: Entries)
    requires SetAllowed(data, key, create)
    ensures r == Assigned(data, key, value, create)
  {
    var keyLast := Str.Last(key, ".");
    var parent := Str.RemoveLast(key, ".");
    if parent == "" {
      return Put(data, keyLast, value);
    }
    var ctx, node, found := DataByPath(data, parent, create);
    if found && (node != Null || create) {
      node := Map(Put(EntriesOf(node), keyLast, value));
    }
    r := EntriesOf(Plug(ctx, node));
  }

  /** What remove() demands: a parent the walk reaches, other than the sentinel, is an array. */
  predicate RemoveAllowed(data: Entries, key: string) {
    var z := PathWalk(data, Str.RemoveLast(key, "."), false);
    z.found && z.focus != NotFound ==> z.focus.Map?
  }

  /** The array Arr::remove returns. */
  function Removed(data: Entries, key: string): Entries
    requires RemoveAllowed(data, key)
  {
    var last := Str.Last(key, ".");
    var z := PathWalk(data, Str.RemoveLast(key, "."), false);
    var node := if z.found && z.focus != NotFound then Map(Delete(z.focus.entries, last)) else z.focus;
    EntriesOf(Plug(z.ctx, node))
  }

  /** Arr::remove, unsetting through the reference dataByPath returns into a copy. */
  method Remove(data: Entries, key: string) returns (r: Entries)
    requires RemoveAllowed(data, key)
    ensures r == Removed(data, key)
  {
    var keyLast := Str.Last(key, ".");
    var parent := Str.RemoveLast(key, ".");
    var ctx, node, found := DataByPath(data, parent, false);
    if found && node != NotFound {
      if HasKey(node.entries, keyLast) {
        node := Map(Delete(node.entries, keyLast));
      }
    }
    r := EntriesOf(Plug(ctx, node));
  }

  // ---------------------------------------------------------------------
  // What get, has, set and remove promise

  /** A dot path without empty segments (no leading, trailing or doubled dot). */
  predicate ValidPath(key: string) {
    forall p | p in Split(key, ".") :: p != ""
  }

  /** The segments of the parent path set() and remove() walk. */
  function ParentSegs(key: string): seq<string> {
    var ps := Split(key, ".");
    ps[..|ps| - 1]
  }

  /** A valid path is its parent's segments followed by its last segment. */
  lemma {:induction false} PathParts(key: string)
    requires ValidPath(key)
    ensures key != ""
    ensures Split(key, ".") == ParentSegs(key) + [Str.Last(key, ".")]
    ensures PathWalk([], Str.RemoveLast(key, "."), false) == Walk(Map([]), ParentSegs(key), false)
    ensures forall data: Entries, create: bool ::
      PathWalk(data, Str.RemoveLast(key, "."), create) == Walk(Map(data), ParentSegs(key), create)
  {
    ParentSplit(key);
    var parent := Str.RemoveLast(key, ".");
    forall data: Entries, create: bool
      ensures PathWalk(data, parent, create) == Walk(Map(data), ParentSegs(key), create)
    {
      if parent != "" {
        assert PathWalk(data, parent, create) == Walk(Map(data), Split(parent, "."), create);
      } else {
        assert ParentSegs(key) == [];
      }
    }
  }

  /** The parent path of a valid path splits into the parent segments; it is empty when there are none. */
  lemma {:induction false} ParentSplit(key: string)
    requires ValidPath(key)
    ensures key != ""
    ensures Split(key, ".") == ParentSegs(key) + [Str.Last(key, ".")]
    ensures Str.RemoveLast(key, ".") == "" <==> ParentSegs(key) == []
    ensures Str.RemoveLast(key, ".") != "" ==> Split(Str.RemoveLast(key, "."), ".") == ParentSegs(key)
  {
    var ps := Split(key, ".");
    assert ps[0] in ps;
    assert ps == ParentSegs(key) + [ps[|ps| - 1]];
    ParentSegsFree(key);
    ParentJoin(key);
  }

  /** The parent segments of a valid path are non-empty and hold no dot. */
  lemma {:induction false} ParentSegsFree(key: string)
    requires ValidPath(key)
    ensures forall p | p in ParentSegs(key) :: p != "" && '.' !in p
  {
    var ps := Split(key, ".");
    SplitPiecesFree(key, ".");
    assert "."[0] == '.';
    forall p | p in ParentSegs(key) ensures p in ps {
    }
  }

  /** Joining the parent segments back gives the parent path, split again it gives them back. */
  lemma {:induction false} ParentJoin(key: string)
    requires forall p | p in ParentSegs(key) :: p != "" && '.' !in p
    ensures Str.RemoveLast(key, ".") == Join(".", ParentSegs(key))
    ensures Str.RemoveLast(key, ".") == "" <==> ParentSegs(key) == []
    ensures ParentSegs(key) != [] ==> Split(Str.RemoveLast(key, "."), ".") == ParentSegs(key)
  {
    var pre := ParentSegs(key);
    JoinEmpty(".", pre);
    if pre != [] {
      assert pre[0] in pre;
      assert "."[0] == '.';
      SplitJoin(pre, ".");
    }
  }

  /** The parent walk on a valid path. */
  function ParentWalk(data: Entries, key: string, create: bool): Zipper {
    Walk(Map(data), ParentSegs(key), create)
  }

  /** set() leaves the caller's array as the parent walk's frames around the node it wrote. */
  lemma {:induction false} AssignedIsPlug(data: Entries, key: string, value: Value, create: bool)
    requires ValidPath(key) && SetAllowed(data, key, create)
    ensures PathWalk(data, Str.RemoveLast(key, "."), create) == ParentWalk(data, key, create)
    ensures var z := ParentWalk(data, key, create);
      Map(Assigned(data, key, value, create)) ==
        Plug(z.ctx, if z.found && (z.focus != Null || create) then Assign(z.focus, Str.Last(key, "."), value) else z.focus)
  {
    ParentPathWalk(data, key, create);
    var z := ParentWalk(data, key, create);
    WalkEndsInMap(Map(data), ParentSegs(key), create);
    var node := if z.found && (z.focus != Null || create) then Assign(z.focus, Str.Last(key, "."), value) else z.focus;
    PlugMap(z.ctx, node);
  }

  /** The walk dataByPath does for the parent of a valid path. */
  lemma {:induction false} ParentPathWalk(data: Entries, key: string, create: bool)
    requires ValidPath(key)
    ensures Str.RemoveLast(key, ".") == "" <==> ParentSegs(key) == []
    ensures PathWalk(data, Str.RemoveLast(key, "."), create) == ParentWalk(data, key, create)
  {
    ParentSplit(key);
    if Str.RemoveLast(key, ".") == "" {
      assert ParentSegs(key) == [];
    }
  }

  /** A walk from an array either went down a level or stopped at an array. */
  lemma {:induction false} WalkEndsInMap(v: Value, segs: seq<string>, create: bool)
    requires v.Map?
    ensures var z := Walk(v, segs, create); z.ctx != [] || z.focus.Map?
  {
    if segs != [] && !HasKey(EntriesOf(v), segs[0]) && !create {
      WalkStops(v, segs, create);
    } else if segs != [] {
      var m := EntriesOf(v);
      if HasKey(m, segs[0]) {
        var j := IndexOfKey(m, segs[0]);
        WalkDescend(v, segs, create, Frame(m[..j], segs[0], m[j + 1..]), m[j].1);
      } else {
        WalkDescend(v, segs, create, Frame(m, segs[0], []), Null);
      }
    }
  }

  /**
   * After set with `create` of a non-null value, get finds that value at the
   * path and has holds for it (unless the value is the sentinel string).
   */
  lemma {:induction false} GetAfterSet(data: Entries, key: string, value: Value, default: Value)
    requires ValidPath(key) && SetAllowed(data, key, true) && value != Null
    ensures Get(Assigned(data, key, value, true), key, default) == value
    ensures value != NotFound ==> Has(Assigned(data, key, value, true), key)
  {
    PathParts(key);
    SetResolves(data, key, value);
  }

  /** After set with `create`, the path leads to the value written. */
  lemma {:induction false} SetResolves(data: Entries, key: string, value: Value)
    requires ValidPath(key) && SetAllowed(data, key, true)
    ensures Resolve(Map(Assigned(data, key, value, true)), Split(key, ".")) == Some(value)
  {
    PathParts(key);
    AssignedIsPlug(data, key, value, true);
    var z := ParentWalk(data, key, true);
    var last := Str.Last(key, ".");
    var x := Assign(z.focus, last, value);
    var root := Plug(z.ctx, x);
    assert Map(Assigned(data, key, value, true)) == root;
    WalkRootResolve(Map(data), ParentSegs(key), true, x);
    assert Resolve(root, ParentSegs(key)) == Some(x);
    ResolveAppend(root, ParentSegs(key), [last]);
    ResolveOne(x, last);
  }

  lemma {:induction false} ResolveOne(v: Value, k: string)
    ensures Resolve(v, [k]) == if v.Map? then Lookup(v.entries, k) else None
  {
    assert [k][1..] == [];
  }

  /** Along `segs`, every node reached is an array. */
  predicate MapsAlong(v: Value, segs: seq<string>)
    decreases |segs|
  {
    segs == [] ||
    (v.Map? && match Lookup(v.entries, segs[0]) case None => true case Some(c) => MapsAlong(c, segs[1..]))
  }

  /** A walk through arrays only changes nothing, whether or not it finds its path. */
  lemma {:induction false} WalkKeepsMaps(v: Value, segs: seq<string>)
    requires MapsAlong(v, segs)
    ensures Root(Walk(v, segs, false)) == v
    decreases |segs|
  {
    if segs != [] {
      var m := v.entries;
      if HasKey(m, segs[0]) {
        var j := IndexOfKey(m, segs[0]);
        WalkKeepsMaps(m[j].1, segs[1..]);
        FillSplit(m, j);
      }
    }
  }

  /**
   * set without `create` under a missing parent writes no value: get then
   * gives the default and has is false. If every node on the way is an
   * array the data is unchanged.
   */
  lemma {:induction false} SetWithoutCreate(data: Entries, key: string, value: Value, default: Value)
    requires ValidPath(key) && SetAllowed(data, key, false)
    requires Resolve(Map(data), ParentSegs(key)) == None
    ensures Get(Assigned(data, key, value, false), key, default) == default
    ensures !Has(Assigned(data, key, value, false), key)
    ensures MapsAlong(Map(data), ParentSegs(key)) ==> Assigned(data, key, value, false) == data
  {
    PathParts(key);
    AssignedIsPlug(data, key, value, false);
    var z := ParentWalk(data, key, false);
    WalkResolve(Map(data), ParentSegs(key));
    WalkRootResolve(Map(data), ParentSegs(key), false, z.focus);
    ResolveAppend(Plug(z.ctx, z.focus), ParentSegs(key), [Str.Last(key, ".")]);
    if MapsAlong(Map(data), ParentSegs(key)) {
      WalkKeepsMaps(Map(data), ParentSegs(key));
    }
  }

  /** The array remove() returns is the parent walk's frames around the node it unset in. */
  lemma {:induction false} RemovedIsPlug(data: Entries, key: string)
    requires ValidPath(key) && RemoveAllowed(data, key)
    ensures PathWalk(data, Str.RemoveLast(key, "."), false) == ParentWalk(data, key, false)
    ensures var z := ParentWalk(data, key, false);
      Map(Removed(data, key)) ==
        Plug(z.ctx, if z.found && z.focus != NotFound then Map(Delete(z.focus.entries, Str.Last(key, "."))) else z.focus)
  {
    ParentPathWalk(data, key, false);
    var z := ParentWalk(data, key, false);
    WalkEndsInMap(Map(data), ParentSegs(key), false);
    var node := if z.found && z.focus != NotFound then Map(Delete(z.focus.entries, Str.Last(key, "."))) else z.focus;
    PlugMap(z.ctx, node);
  }

  /** After remove, has no longer holds for the path. */
  lemma {:induction false} RemoveThenNotHas(data: Entries, key: string)
    requires ValidPath(key) && RemoveAllowed(data, key)
    ensures !Has(Removed(data, key), key)
  {
    PathParts(key);
    RemovedIsPlug(data, key);
    var z := ParentWalk(data, key, false);
    var last := Str.Last(key, ".");
    var node := if z.found && z.focus != NotFound then Map(Delete(z.focus.entries, last)) else z.focus;
    var root := Plug(z.ctx, node);
    WalkRootResolve(Map(data), ParentSegs(key), false, node);
    ResolveAppend(root, ParentSegs(key), [last]);
    ResolveOne(node, last);
    assert Resolve(root, Split(key, ".")) == None;
  }

  /**
   * remove unsets the last segment in the parent array and nothing else:
   * the other keys there keep their values and their order.
   */
  lemma {:induction false} RemoveKeepsSiblings(data: Entries, key: string, m: Entries)
    requires ValidPath(key) && RemoveAllowed(data, key)
    requires Resolve(Map(data), ParentSegs(key)) == Some(Map(m))
    ensures Resolve(Map(Removed(data, key)), ParentSegs(key)) == Some(Map(Delete(m, Str.Last(key, "."))))
  {
    RemovedIsPlug(data, key);
    WalkResolve(Map(data), ParentSegs(key));
    var z := ParentWalk(data, key, false);
    var node := Map(Delete(m, Str.Last(key, ".")));
    WalkRootResolve(Map(data), ParentSegs(key), false, node);
  }

  lemma {:induction false} MapsAlongAppend(v: Value, a: seq<string>, b: seq<string>)
    requires MapsAlong(v, a + b)
    ensures MapsAlong(v, a)
    ensures Resolve(v, a).Some? ==> MapsAlong(Resolve(v, a).value, b)
    decreases |a|
  {
    if a == [] {
      assert a + b == b;
    } else {
      assert (a + b)[0] == a[0] && (a + b)[1..] == a[1..] + b;
      if Lookup(v.entries, a[0]).Some? {
        MapsAlongAppend(Lookup(v.entries, a[0]).value, a[1..], b);
      }
    }
  }

  /** Removing a path that is absent, going through arrays only, returns the data unchanged. */
  lemma {:induction false} RemoveAbsentUnchanged(data: Entries, key: string)
    requires ValidPath(key) && MapsAlong(Map(data), Split(key, "."))
    requires Resolve(Map(data), Split(key, ".")) == None
    ensures RemoveAllowed(data, key) && Removed(data, key) == data
  {
    PathParts(key);
    var ps := ParentSegs(key);
    var last := Str.Last(key, ".");
    MapsAlongAppend(Map(data), ps, [last]);
    ResolveAppend(Map(data), ps, [last]);
    WalkResolve(Map(data), ps);
    var z := ParentWalk(data, key, false);
    if z.found {
      var w := z.focus;
      ResolveOne(w, last);
      assert w.Map? && w != NotFound;
      assert Delete(w.entries, last) == w.entries;
      RemovedIsPlug(data, key);
      FoundWalkKeepsRoot(Map(data), ps, false);
    } else {
      RemovedIsPlug(data, key);
      WalkKeepsMaps(Map(data), ps);
    }
  }

  /** A key without a dot names a top-level entry: set writes it, remove unsets it. */
  lemma {:induction false} TopLevelKey(data: Entries, key: string, value: Value, create: bool)
    requires '.' !in key
    ensures Str.Last(key, ".") == key && Str.RemoveLast(key, ".") == ""
    ensures SetAllowed(data, key, create) && Assigned(data, key, value, create) == Put(data, key, value)
    ensures RemoveAllowed(data, key) && Removed(data, key) == Delete(data, key)
  {
    assert "."[0] == '.';
    SplitOfFree(key, ".");
    assert [key][..0] == [];
  }

  lemma {:induction false} SplitABC()
    ensures Split("a.b.c", ".") == ["a", "b", "c"]
    ensures Split("a.b", ".") == ["a", "b"]
  {
    SplitPrefixSep("a", ".", "b.c");
    SplitPrefixSep("b", ".", "c");
    SplitOfFree("c", ".");
    SplitPrefixSep("a", ".", "b");
    SplitOfFree("b", ".");
    assert "a" + "." + "b.c" == "a.b.c";
    assert "b" + "." + "c" == "b.c";
    assert "a" + "." + "b" == "a.b";
  }

  lemma {:induction false} SegmentsABC()
    ensures Str.Last("a.b.c", ".") == "c" && Str.RemoveLast("a.b.c", ".") == "a.b"
  {
    SplitABC();
    assert ["a", "b", "c"][..2] == ["a", "b"];
    JoinCons(".", "a", ["b"]);
  }

  /**
   * A scalar met part-way down is replaced by an empty array even without
   * `create`: set(['a' => 'x'], 'a.b.c', 1) leaves ['a' => []] and writes nothing.
   */
  lemma {:induction false} SetOverwritesScalar()
    ensures SetAllowed([("a", Str("x"))], "a.b.c", false)
    ensures Assigned([("a", Str("x"))], "a.b.c", Int(1), false) == [("a", Map([]))]
  {
    SplitABC();
    SegmentsABC();
    var data := [("a", Str("x"))];
    var z := Walk(Map(data), ["a", "b"], false);
    assert Walk(Str("x"), ["b"], false) == Zipper([], Map([]), false);
    assert z == Zipper([Frame([], "a", [])], Map([]), false);
    assert [] + [("a", Map([]))] + [] == [("a", Map([]))];
  }

  // ---------------------------------------------------------------------
  // first, last, removeFirst, removeLast

  /** isset($es[$k]): the key is there and its value is not null. */
  predicate IsSet(es: Entries, k: string) {
    Lookup(es, k).Some? && Lookup(es, k).value != Null
  }

  /** The element, or its field `key` when it is an array in which that field is set. */
  function FieldOrSelf(element: Value, key: Option<string>): Value {
    if key.Some? && element.Map? && IsSet(element.entries, key.value) then Lookup(element.entries, key.value).value
    else element
  }

  /** Arr::first: null on an empty array; else the first element, or its field `key` when set. */
  function First(data: Entries, key: Option<string>): (r: Value)
    ensures data == [] ==> r == Null
    ensures data != [] && (key.None? || !data[0].1.Map?) ==> r == data[0].1
    ensures data != [] && r != data[0].1 ==>
      key.Some? && data[0].1.Map? && Lookup(data[0].1.entries, key.value) == Some(r) && r != Null
  {
    if |data| == 0 then Null else FieldOrSelf(data[0].1, key)
  }

  /** Arr::last: null on an empty array; else the last element, or its field `key` when set. */
  function Last(data: Entries, key: Option<string>): (r: Value)
    ensures data == [] ==> r == Null
    ensures data != [] && (key.None? || !data[|data| - 1].1.Map?) ==> r == data[|data| - 1].1
    ensures data != [] && r != data[|data| - 1].1 ==>
      key.Some? && data[|data| - 1].1.Map? && Lookup(data[|data| - 1].1.entries, key.value) == Some(r) && r != Null
  {
    if |data| == 0 then Null else FieldOrSelf(data[|data| - 1].1, key)
  }

  /** array_shift's renumbering: integer keys become 0, 1, ... in order; string keys stay. */
  function Renumber(es: Entries, next: nat): (r: Entries)
    ensures |r| == |es|
    ensures forall i | 0 <= i < |r| :: r[i].1 == es[i].1
    decreases |es|
  {
    if es == [] then []
    else
      var isInt := IsIntKey(es[0].0);
      var head := if isInt then (NatToString(next), es[0].1) else es[0];
      [head] + Renumber(es[1..], if isInt then next + 1 else next)
  }

  /** Arr::removeFirst: array_shift, which keeps the values after the first, in order. */
  function RemoveFirst(data: Entries): (r: Entries)
    ensures data == [] ==> r == []
    ensures data != [] ==> |r| == |data| - 1 && forall i | 0 <= i < |r| :: r[i].1 == data[i + 1].1
  {
    if |data| > 0 then Renumber(data[1..], 0) else data
  }

  /** Arr::removeLast: unset($data[count($data) - 1]), which is the last item only in a list. */
  function RemoveLast(data: Entries): (r: Entries)
    ensures data == [] ==> r == []
    ensures data != [] ==> !HasKey(r, NatToString(|data| - 1))
    ensures data != [] ==> forall k | k != NatToString(|data| - 1) :: Lookup(r, k) == Lookup(data, k)
  {
    if |data| > 0 then Delete(data, NatToString(|data| - 1)) else data
  }

  /** The entries of the list vs, with keys counted from `start`. */
  function Numbered(vs: seq<Value>, start: nat): (r: Entries)
    ensures |r| == |vs|
    ensures forall i | 0 <= i < |vs| :: r[i] == (NatToString(start + i), vs[i])
    decreases |vs|
  {
    if vs == [] then [] else [(NatToString(start), vs[0])] + Numbered(vs[1..], start + 1)
  }

  /** array_shift numbers the integer keys of a list afresh. */
  lemma {:induction false} RenumberList(vs: seq<Value>, start: nat, next: nat)
    requires start + |vs| <= PhpIntMax
    ensures Renumber(Numbered(vs, start), next) == Numbered(vs, next)
    decreases |vs|
  {
    if vs != [] {
      RenumberNumberedCons(vs, start, next);
      RenumberList(vs[1..], start + 1, next + 1);
      NumberedCons(vs, next);
    }
  }

  lemma {:induction false} RenumberNumberedCons(vs: seq<Value>, start: nat, next: nat)
    requires vs != [] && start + |vs| <= PhpIntMax
    ensures Renumber(Numbered(vs, start), next) ==
      [(NatToString(next), vs[0])] + Renumber(Numbered(vs[1..], start + 1), next + 1)
  {
    NumberedCons(vs, start);
    NatKeyIsIntKey(start);
    RenumberIntCons(Numbered(vs, start), next);
  }

  lemma {:induction false} NumberedCons(vs: seq<Value>, start: nat)
    requires vs != []
    ensures Numbered(vs, start) == [(NatToString(start), vs[0])] + Numbered(vs[1..], start + 1)
    ensures Numbered(vs, start)[0] == (NatToString(start), vs[0])
    ensures Numbered(vs, start)[1..] == Numbered(vs[1..], start + 1)
  {
  }

  /** An integer key at the front is numbered `next`. */
  lemma {:induction false} RenumberIntCons(es: Entries, next: nat)
    requires es != [] && IsIntKey(es[0].0)
    ensures Renumber(es, next) == [(NatToString(next), es[0].1)] + Renumber(es[1..], next + 1)
  {
  }

  /** A string key at the front is kept. */
  lemma {:induction false} RenumberStringCons(es: Entries, next: nat)
    requires es != [] && !IsIntKey(es[0].0)
    ensures Renumber(es, next) == [es[0]] + Renumber(es[1..], next)
  {
  }

  /** On a list, removeFirst drops exactly the first item and the rest are numbered from 0 again. */
  lemma {:induction false} RemoveFirstOfList(vs: seq<Value>)
    requires vs != [] && |vs| <= PhpIntMax
    ensures First(ListOf(vs), None) == vs[0]
    ensures RemoveFirst(ListOf(vs)) == ListOf(vs[1..])
  {
    var tail := vs[1..];
    assert ListOf(vs)[1..] == Numbered(tail, 1);
    RenumberList(tail, 1, 0);
    assert Numbered(tail, 0) == ListOf(tail);
  }

  /** On a list, removeLast drops exactly the last item. */
  lemma {:induction false} RemoveLastOfList(vs: seq<Value>)
    requires vs != []
    ensures Last(ListOf(vs), None) == vs[|vs| - 1]
    ensures RemoveLast(ListOf(vs)) == ListOf(vs[..|vs| - 1])
  {
    var es := ListOf(vs);
    var n := |vs|;
    ListOfUnique(vs);
    LookupUnique(es, n - 1);
    assert HasKey(es, NatToString(n - 1));
    DeleteAt(es, NatToString(n - 1));
    assert es[n..] == [];
    ListOfDropLast(vs);
    assert es[..n - 1] + [] == es[..n - 1];
  }

  /** Without integer keys, removeFirst keeps the keys of the rest as they are. */
  lemma {:induction false} RenumberStringKeys(es: Entries, next: nat)
    requires forall i | 0 <= i < |es| :: !IsIntKey(es[i].0)
    ensures Renumber(es, next) == es
    decreases |es|
  {
    if es != [] {
      var tail := es[1..];
      NoIntKeysTail(es);
      RenumberStringKeys(tail, next);
      RenumberStringCons(es, next);
      assert es == [es[0]] + tail;
    }
  }

  lemma {:induction false} NoIntKeysTail(es: Entries)
    requires es != [] && forall i | 0 <= i < |es| :: !IsIntKey(es[i].0)
    ensures !IsIntKey(es[0].0) && forall i | 0 <= i < |es[1..]| :: !IsIntKey(es[1..][i].0)
  {
    assert forall i | 0 <= i < |es[1..]| :: es[1..][i] == es[i + 1];
  }

  /** Str::last and Str::removeLast are Arr::last and Arr::removeLast on the exploded string. */
  lemma {:induction false} StrSegmentsThroughArr(s: string, separator: string)
    requires separator != ""
    ensures var pieces := Split(s, separator);
      Str.Last(s, separator) == StringCast(Last(ListOf(Strs(pieces)), None)) &&
      Str.RemoveLast(s, separator) == Join(separator, Texts(Values(RemoveLast(ListOf(Strs(pieces))))))
  {
    var pieces := Split(s, separator);
    RemoveLastOfList(Strs(pieces));
    ValuesOfList(Strs(pieces)[..|pieces| - 1]);
    assert Strs(pieces)[..|pieces| - 1] == Strs(pieces[..|pieces| - 1]);
    TextsOfStrs(pieces[..|pieces| - 1]);
  }

  /** The strings of a list of values, each cast with (string). */
  function Texts(vs: seq<Value>): (r: seq<string>)
    ensures |r| == |vs|
    ensures forall i | 0 <= i < |vs| :: r[i] == StringCast(vs[i])
  {
    seq(|vs|, i requires 0 <= i < |vs| => StringCast(vs[i]))
  }

  lemma {:induction false} TextsOfStrs(ss: seq<string>)
    ensures Texts(Strs(ss)) == ss
  {
  }

  // ---------------------------------------------------------------------
  // isList, indexOf, keysExist

  /** Each of 0 .. n-1 is set (present and not null). */
  predicate SetBelow(data: Entries, n: nat) {
    forall i: nat | i < n :: IsSet(data, NatToString(i))
  }

  /** What isList checks: each of 0 .. count-1 is set. */
  predicate Listed(data: Entries) {
    SetBelow(data, |data|)
  }

  lemma {:induction false} SetBelowStep(data: Entries, n: nat)
    ensures SetBelow(data, n + 1) == (SetBelow(data, n) && IsSet(data, NatToString(n)))
  {
  }

  /** Arr::isList: a loop over 0 .. count-1 that clears the flag at a missing index. */
  method IsList(data: Entries) returns (r: bool)
    ensures r == Listed(data)
  {
    r := true;
    for c := 0 to |data|
      invariant r == SetBelow(data, c)
    {
      SetBelowStep(data, c);
      if !IsSet(data, NatToString(c)) {
        r := false;
      }
    }
  }

  /** A list passes isList exactly when none of its items is null. */
  lemma {:induction false} ListOfListed(vs: seq<Value>)
    ensures Listed(ListOf(vs)) <==> forall i | 0 <= i < |vs| :: vs[i] != Null
  {
    ListOfUnique(vs);
    forall i | 0 <= i < |vs| ensures IsSet(ListOf(vs), NatToString(i)) <==> vs[i] != Null {
      LookupUnique(ListOf(vs), i);
    }
  }

  /** isset fails on a null, so [null] is not a list. */
  lemma {:induction false} NullItemNotListed()
    ensures !Listed(ListOf([Null]))
  {
    ListOfListed([Null]);
    assert [Null][0] == Null;
  }

  /**
   * The value indexOf compares: the item, or its field `key` when that is set.
   * On a string item an integer key is a character offset, counted from the
   * end when negative, and reads a one-character string.
   */
  function CheckValue(item: Value, key: Option<string>): Value {
    if key.None? then item
    else if item.Map? && IsSet(item.entries, key.value) then Lookup(item.entries, key.value).value
    else if item.Str? && IsIntKey(key.value) && -|item.s| <= ParseIntPrefix(key.value) < |item.s| then
      var n := ParseIntPrefix(key.value);
      Str([item.s[if n < 0 then |item.s| + n else n]])
    else Null
  }

  predicate Hit(item: Value, value: string, key: Option<string>) {
    CheckValue(item, key) != Null && CheckValue(item, key) == Str(value)
  }

  /** A key as PHP hands it back: an integer key as an int, any other as a string. */
  function KeyValue(k: string): (r: Value)
    ensures r.Int? || r == Str(k)
  {
    if IsIntKey(k) then Int(ParseIntPrefix(k)) else Str(k)
  }

  /** The position of the first entry that is a hit, or -1. */
  function FirstHit(data: Entries, value: string, key: Option<string>): (r: int)
    ensures -1 <= r < |data|
    ensures r >= 0 ==> Hit(data[r].1, value, key)
    ensures forall i | 0 <= i < |data| && (r < 0 || i < r) :: !Hit(data[i].1, value, key)
    decreases |data|
  {
    if data == [] then -1
    else if Hit(data[0].1, value, key) then 0
    else
      var r := FirstHit(data[1..], value, key);
      assert forall i | 1 <= i < |data| :: data[1..][i - 1] == data[i];
      if r < 0 then -1 else r + 1
  }

  /** Arr::indexOf: the key of the first entry whose value (or field) is the string `value`, or -1. */
  method IndexOf(data: Entries, value: string, key: Option<string>) returns (r: Value)
    ensures var h := FirstHit(data, value, key); r == if h < 0 then Int(-1) else KeyValue(data[h].0)
  {
    var i := 0;
    while i < |data|
      invariant 0 <= i <= |data|
      invariant forall j | 0 <= j < i :: !Hit(data[j].1, value, key)
    {
      var (index, item) := data[i];
      var checkValue := CheckValue(item, key);
      if checkValue != Null && checkValue == Str(value) {
        assert FirstHit(data, value, key) == i;
        return KeyValue(index);
      }
      i := i + 1;
    }
    return Int(-1);
  }

  /** indexOf(['abc'], 'a', '0') and indexOf(['abc'], 'c', '-1') both find the string's own position 0. */
  lemma {:induction false} IndexOfStringOffset()
    ensures FirstHit([("0", Str("abc"))], "a", Some("0")) == 0
    ensures FirstHit([("0", Str("abc"))], "c", Some("-1")) == 0
    ensures FirstHit([("0", Str("abc"))], "b", Some("3")) == -1
  {
    StringOffsetKeys();
    assert CheckValue(Str("abc"), Some("0")) == Str("a");
    assert CheckValue(Str("abc"), Some("-1")) == Str("c");
    assert CheckValue(Str("abc"), Some("3")) == Null;
  }

  /** The offsets used above are integer keys. */
  lemma {:induction false} StringOffsetKeys()
    ensures IsIntKey("0") && ParseIntPrefix("0") == 0
    ensures IsIntKey("-1") && ParseIntPrefix("-1") == -1
    ensures IsIntKey("3") && ParseIntPrefix("3") == 3
  {
    PrintedKey(0);
    PrintedKey(-1);
    PrintedKey(3);
    assert IntToString(0) == "0";
    assert IntToString(3) == "3";
    assert IntToString(-1) == "-" + NatToString(1) == "-1";
  }

  /** A printed 64-bit integer is an integer key that parses back to it. */
  lemma {:induction false} PrintedKey(i: int)
    requires PhpIntMin <= i <= PhpIntMax
    ensures IsIntKey(IntToString(i)) && ParseIntPrefix(IntToString(i)) == i
  {
    IntToStringRoundTrip(i);
  }

  /** On a list, the index found is the item's position. */
  lemma {:induction false} IndexOfList(vs: seq<Value>, value: string, key: Option<string>)
    requires |vs| <= PhpIntMax
    ensures var h := FirstHit(ListOf(vs), value, key); h >= 0 ==> KeyValue(ListOf(vs)[h].0) == Int(h)
  {
    var h := FirstHit(ListOf(vs), value, key);
    if h >= 0 {
      NatKeyIsIntKey(h);
      IntToStringRoundTrip(h);
    }
  }

  /** Arr::keysExist. */
  method KeysExist(data: Entries, keys: seq<string>) returns (r: bool)
    ensures r <==> forall k | k in keys :: HasKey(data, k)
  {
    for i := 0 to |keys|
      invariant forall j | 0 <= j < i :: HasKey(data, keys[j])
    {
      if !HasKey(data, keys[i]) {
        assert keys[i] in keys;
        return false;
      }
    }
    return true;
  }

  // ---------------------------------------------------------------------
  // pluck

  /**
   * The entries pluck runs through: the input array itself for a one-segment key,
   * otherwise the node at the key's parent path; nothing when the input is
   * not an array, the parent path is missing, or the node there is not an array.
   */
  function PluckItems(input: Value, key: string): Entries {
    if !input.Map? then []
    else
      var parent := Str.RemoveLast(key, ".");
      var z := PathWalk(input.entries, parent, false);
      if z.found then EntriesOf(z.focus) else []
  }

  /** What pluck takes from one item: its field when that is set, else the default. */
  function PluckValue(item: Value, field: string, default: Value): Value {
    if item.Map? && IsSet(item.entries, field) then Lookup(item.entries, field).value else default
  }

  /** Arr::pluck: the list of each item's last-segment field. */
  method Pluck(input: Value, key: string, default: Value) returns (r: Entries)
    ensures var items := PluckItems(input, key);
      |r| == |items| &&
      forall i | 0 <= i < |r| :: r[i] == (NatToString(i), PluckValue(items[i].1, Str.Last(key, "."), default))
  {
    r := [];
    if !input.Map? {
      return;
    }
    var keyLast := Str.Last(key, ".");
    var parent := Str.RemoveLast(key, ".");
    var node := input;
    if parent != "" {
      var ctx, n, found := DataByPath(input.entries, parent, false);
      node := if found then n else Map([]);
    }
    var items := EntriesOf(node);
    assert items == PluckItems(input, key);
    r := PluckFields(items, keyLast, default);
  }

  /** pluck's loop: each item's field `field`, or the default, numbered from 0. */
  method PluckFields(items: Entries, field: string, default: Value) returns (r: Entries)
    ensures |r| == |items|
    ensures forall i | 0 <= i < |r| :: r[i] == (NatToString(i), PluckValue(items[i].1, field, default))
  {
    r := [];
    for i := 0 to |items|
      invariant |r| == i
      invariant forall j | 0 <= j < i :: r[j] == (NatToString(j), PluckValue(items[j].1, field, default))
    {
      var item := items[i].1;
      var value := default;
      if item.Map? && IsSet(item.entries, field) {
        value := Lookup(item.entries, field).value;
      }
      ghost var before := r;
      r := r + [(NatToString(|r|), value)];
      assert forall j | 0 <= j < i :: r[j] == before[j];
    }
  }

  /**
   * The items pluck reads: the array for a key without a dot, otherwise the
   * array the reference lookup finds at the parent path.
   */
  lemma {:induction false} PluckItemsResolve(data: Entries, key: string)
    ensures '.' !in key ==> PluckItems(Map(data), key) == data
    ensures Str.RemoveLast(key, ".") != "" ==> (
      PluckItems(Map(data), key) == match Resolve(Map(data), Split(Str.RemoveLast(key, "."), "."))
        case None => []
        case Some(x) => EntriesOf(x))
  {
    var parent := Str.RemoveLast(key, ".");
    if '.' !in key {
      assert "."[0] == '.';
      SplitOfFree(key, ".");
      assert [key][..0] == [];
    }
    if parent != "" {
      WalkResolve(Map(data), Split(parent, "."));
    }
  }

  /** pluck on something that is not an array gives the empty list. */
  lemma {:induction false} PluckNotArray(v: Value, key: string)
    requires !v.Map?
    ensures PluckItems(v, key) == []
  {
  }

  // ---------------------------------------------------------------------
  // lineMatch

  /**
   * One line of lineMatch: a hit when the trimmed line starts with the prefix
   * and then ends with the suffix (both non-empty). With `remove` the prefix
   * and then the suffix are cut off the trimmed line; with `doTrim` the line
   * is trimmed at the end.
   */
  function MatchLine(line: string, prefix: string, suffix: string, doTrim: bool, remove: bool): (r: Option<string>)
    ensures r.Some? ==> prefix != "" && suffix != "" && prefix <= Trim(line, Whitespace)
    ensures !remove ==> (r.Some? <==>
      prefix != "" && suffix != "" && prefix <= Trim(line, Whitespace) && IsSuffix(suffix, Trim(line, Whitespace)))
    ensures r.Some? && !remove ==> r.value == if doTrim then Trim(line, Whitespace) else line
  {
    var prefixHit := prefix != "" && Str.IsPrefixed(Trim(line, Whitespace), prefix, "");
    var l1 := if prefixHit && remove then Trim(line, Whitespace)[|prefix|..] else line;
    var t1 := Trim(l1, Whitespace);
    var suffixHit := suffix != "" && Str.IsSuffixed(t1, suffix, "");
    var l2 := if suffixHit && remove then t1[..|t1| - |suffix|] else l1;
    if prefixHit && suffixHit then Some(if doTrim then Trim(l2, Whitespace) else l2) else None
  }

  /** The hits of lineMatch over `lines`, in order. */
  function LineMatches(lines: seq<string>, prefix: string, suffix: string, doTrim: bool, remove: bool): (r: seq<string>)
    ensures |r| <= |lines|
  {
    if lines == [] then []
    else
      var rest := LineMatches(lines[..|lines| - 1], prefix, suffix, doTrim, remove);
      match MatchLine(lines[|lines| - 1], prefix, suffix, doTrim, remove)
      case None => rest
      case Some(l) => rest + [l]
  }

  /** Arr::lineMatch. */
  method LineMatch(lines: seq<string>, prefix: string, suffix: string, doTrim: bool, remove: bool)
    returns (r: seq<string>)
    ensures r == LineMatches(lines, prefix, suffix, doTrim, remove)
  {
    r := [];
    for i := 0 to |lines|
      invariant r == LineMatches(lines[..i], prefix, suffix, doTrim, remove)
    {
      var isHit, line := MatchOne(lines[i], prefix, suffix, doTrim, remove);
      LineMatchesSnoc(lines, i, prefix, suffix, doTrim, remove);
      if isHit {
        r := r + [line];
      }
    }
    assert lines[..|lines|] == lines;
  }

  /** One iteration of lineMatch's foreach: whether the line is a hit, and what is kept of it. */
  method MatchOne(line0: string, prefix: string, suffix: string, doTrim: bool, remove: bool)
    returns (isHit: bool, line: string)
    ensures MatchLine(line0, prefix, suffix, doTrim, remove) == if isHit then Some(line) else None
  {
    line := line0;
    isHit := true;
    if prefix != "" && Str.IsPrefixed(Trim(line, Whitespace), prefix, "") {
      if remove {
        line := Trim(line, Whitespace)[|prefix|..];
      }
    } else {
      isHit := false;
    }
    if suffix != "" && Str.IsSuffixed(Trim(line, Whitespace), suffix, "") {
      if remove {
        var t := Trim(line, Whitespace);
        line := t[..|t| - |suffix|];
      }
    } else {
      isHit := false;
    }
    if isHit && doTrim {
      line := Trim(line, Whitespace);
    }
  }

  lemma {:induction false} LineMatchesSnoc(lines: seq<string>, i: int, prefix: string, suffix: string, doTrim: bool, remove: bool)
    requires 0 <= i < |lines|
    ensures LineMatches(lines[..i + 1], prefix, suffix, doTrim, remove) ==
      var rest := LineMatches(lines[..i], prefix, suffix, doTrim, remove);
      match MatchLine(lines[i], prefix, suffix, doTrim, remove)
      case None => rest
      case Some(l) => rest + [l]
  {
    assert lines[..i + 1][..i] == lines[..i];
    assert lines[..i + 1][i] == lines[i];
  }

  /** Without a prefix or without a suffix nothing matches. */
  lemma {:induction false} LineMatchNeedsAffixes(lines: seq<string>, prefix: string, suffix: string, doTrim: bool, remove: bool)
    requires prefix == "" || suffix == ""
    ensures LineMatches(lines, prefix, suffix, doTrim, remove) == []
    decreases |lines|
  {
    if lines != [] {
      LineMatchNeedsAffixes(lines[..|lines| - 1], prefix, suffix, doTrim, remove);
    }
  }

  /** Characters trim strips, all of them. */
  predicate Blank(s: string) {
    forall i | 0 <= i < |s| :: s[i] in Whitespace
  }

  /**
   * With removal, a line whose trimmed form is the prefix and then a rest
   * that trims to a middle and the suffix gives back that middle.
   */
  lemma {:induction false} MatchLineRemoving(line: string, prefix: string, suffix: string, doTrim: bool, rest: string, y: string)
    requires prefix != "" && suffix != ""
    requires Trim(line, Whitespace) == prefix + rest
    requires Trim(rest, Whitespace) == y + suffix
    ensures MatchLine(line, prefix, suffix, doTrim, true) == Some(if doTrim then Trim(y, Whitespace) else y)
  {
    var t := Trim(line, Whitespace);
    assert Str.IsPrefixed(t, prefix, "");
    assert t[|prefix|..] == rest;
    var t1 := Trim(rest, Whitespace);
    assert t1[|t1| - |suffix|..] == suffix;
    assert Str.IsSuffixed(t1, suffix, "");
    assert t1[..|t1| - |suffix|] == y;
  }

  /**
   * A line written as padding, the prefix, a middle, the suffix and padding
   * gives back its middle when lineMatch removes the prefix and suffix.
   */
  lemma {:induction false} MatchLineRecoversMiddle(pre: string, prefix: string, y: string, suffix: string, post: string, doTrim: bool)
    requires Blank(pre) && Blank(post)
    requires prefix != "" && prefix[0] !in Whitespace
    requires suffix != "" && suffix[|suffix| - 1] !in Whitespace
    requires y == "" || (y[0] !in Whitespace && y[|y| - 1] !in Whitespace)
    requires y == "" ==> suffix[0] !in Whitespace
    ensures MatchLine(pre + prefix + y + suffix + post, prefix, suffix, doTrim, true) == Some(y)
  {
    var rest := y + suffix;
    var line := pre + prefix + y + suffix + post;
    PaddedLineShape(pre, prefix, rest, post);
    RegroupFive(pre, prefix, y, suffix, post);
    MiddleTrimmed(y, suffix);
    MatchLineRemoving(line, prefix, suffix, doTrim, rest, y);
  }

  lemma {:induction false} RegroupFive<T>(a: seq<T>, b: seq<T>, c: seq<T>, d: seq<T>, e: seq<T>)
    ensures a + b + c + d + e == a + (b + (c + d)) + e
  {
    assert b + c + d == b + (c + d);
    assert a + b + c + d == a + (b + (c + d));
  }

  /** The padded line trims to the prefix and the rest. */
  lemma {:induction false} PaddedLineShape(pre: string, prefix: string, rest: string, post: string)
    requires Blank(pre) && Blank(post)
    requires prefix != "" && prefix[0] !in Whitespace
    requires rest != "" && rest[|rest| - 1] !in Whitespace
    ensures Trim(pre + (prefix + rest) + post, Whitespace) == prefix + rest
  {
    var core := prefix + rest;
    assert core[0] == prefix[0] && core[|core| - 1] == rest[|rest| - 1];
    TrimPadded(pre, core, post, Whitespace);
  }

  /** The middle and the suffix, and the middle alone, are already trimmed. */
  lemma {:induction false} MiddleTrimmed(y: string, suffix: string)
    requires suffix != "" && suffix[|suffix| - 1] !in Whitespace
    requires y == "" || (y[0] !in Whitespace && y[|y| - 1] !in Whitespace)
    requires y == "" ==> suffix[0] !in Whitespace
    ensures Trim(y + suffix, Whitespace) == y + suffix
    ensures Trim(y, Whitespace) == y
    ensures (y + suffix)[|y + suffix| - 1] !in Whitespace
  {
    var rest := y + suffix;
    assert rest[0] == if y == "" then suffix[0] else y[0];
    assert rest[|rest| - 1] == suffix[|suffix| - 1];
    TrimFixed(rest, Whitespace);
    TrimFixed(y, Whitespace);
  }

  // ---------------------------------------------------------------------
  // toArray

  /** Arr::toArray: a non-blank string is exploded, an array kept, anything else gives []. */
  function ToArray(v: Value, separator: string): (r: Entries)
    requires v.Str? && Trim(v.s, Whitespace) != "" ==> separator != ""
    ensures v.Map? ==> r == v.entries
    ensures v.Str? && Trim(v.s, Whitespace) != "" ==>
      |r| == |Split(v.s, separator)| &&
      (forall i | 0 <= i < |r| :: r[i] == (NatToString(i), Str(Split(v.s, separator)[i]))) &&
      Join(separator, Texts(Values(r))) == v.s
    ensures !v.Map? && !(v.Str? && Trim(v.s, Whitespace) != "") ==> r == []
  {
    if v.Str? && Trim(v.s, Whitespace) != "" then
      var pieces := Split(v.s, separator);
      JoinSplit(v.s, separator);
      ValuesOfList(Strs(pieces));
      TextsOfStrs(pieces);
      ListOf(Strs(pieces))
    else if v.Map? then v.entries
    else []
  }
}
