/**
 * PHP's ordered arrays with string keys, as a sequence of (key, value)
 * entries in insertion order. Writing to an existing key keeps its place;
 * writing to a new key appends it; unset removes it.
 */
module PhpArray {

  datatype Option<T> = None | Some(value: T)

  /** array_key_exists(k, es). */
  predicate HasKey<V>(es: seq<(string, V)>, k: string)
    decreases |es|
  {
    es != [] && (es[0].0 == k || HasKey(es[1..], k))
  }

  /** array_keys(es). */
  function Keys<V>(es: seq<(string, V)>): (r: seq<string>)
    ensures |r| == |es|
    ensures forall i | 0 <= i < |es| :: r[i] == es[i].0
    ensures forall k :: k in r <==> HasKey(es, k)
    decreases |es|
  {
    if es == [] then [] else [es[0].0] + Keys(es[1..])
  }

  /** No key occurs twice: what a PHP array always satisfies. */
  predicate UniqueKeys<V>(es: seq<(string, V)>) {
    forall i, j | 0 <= i < j < |es| :: es[i].0 != es[j].0
  }

  /** The position of the first entry with key `k`, or -1. */
  function IndexOfKey<V>(es: seq<(string, V)>, k: string): (r: int)
    ensures -1 <= r < |es|
    ensures r == -1 <==> !HasKey(es, k)
    ensures r >= 0 ==> es[r].0 == k && forall i | 0 <= i < r :: es[i].0 != k
    decreases |es|
  {
    if es == [] then -1
    else if es[0].0 == k then 0
    else
      var r := IndexOfKey(es[1..], k);
      if r == -1 then -1 else r + 1
  }

  /** es[k] where it exists: the value of the first entry with key `k`. */
  function Lookup<V>(es: seq<(string, V)>, k: string): (r: Option<V>)
    ensures r.Some? <==> HasKey(es, k)
    ensures r.Some? ==> es[IndexOfKey(es, k)].1 == r.value
    decreases |es|
  {
    if es == [] then None
    else if es[0].0 == k then Some(es[0].1)
    else Lookup(es[1..], k)
  }

  /** Unfolding Lookup and HasKey on an entry put in front. */
  lemma {:induction false} LookupCons<V>(e: (string, V), rest: seq<(string, V)>, k: string)
    ensures Lookup([e] + rest, k) == if e.0 == k then Some(e.1) else Lookup(rest, k)
    ensures HasKey([e] + rest, k) == (e.0 == k || HasKey(rest, k))
  {
    assert ([e] + rest)[1..] == rest;
  }

  /** es[k] = v. */
  function Put<V>(es: seq<(string, V)>, k: string, v: V): (r: seq<(string, V)>)
    ensures Lookup(r, k) == Some(v)
    ensures forall k' | k' != k :: Lookup(r, k') == Lookup(es, k')
    ensures forall k' :: HasKey(r, k') <==> HasKey(es, k') || k' == k
    ensures HasKey(es, k) ==> Keys(r) == Keys(es)
    ensures !HasKey(es, k) ==> r == es + [(k, v)]
    decreases |es|
  {
    if es == [] then [(k, v)]
    else if es[0].0 == k then
      var r := [(k, v)] + es[1..];
      assert r[1..] == es[1..];
      r
    else
      var rest := Put(es[1..], k, v);
      var r := [es[0]] + rest;
      assert r[1..] == rest;
      assert es == [es[0]] + es[1..];
      r
  }

  /** unset(es[k]). */
  function Delete<V>(es: seq<(string, V)>, k: string): (r: seq<(string, V)>)
    ensures !HasKey(r, k)
    ensures forall k' | k' != k :: Lookup(r, k') == Lookup(es, k')
    ensures forall k' :: HasKey(r, k') <==> HasKey(es, k') && k' != k
    ensures !HasKey(es, k) ==> r == es
    ensures |r| <= |es|
    decreases |es|
  {
    if es == [] then []
    else
      var rest := Delete(es[1..], k);
      if es[0].0 == k then rest
      else
        var r := [es[0]] + rest;
        assert r[1..] == rest;
        assert es == [es[0]] + es[1..];
        r
  }

  lemma {:induction false} PutUnique<V>(es: seq<(string, V)>, k: string, v: V)
    requires UniqueKeys(es)
    ensures UniqueKeys(Put(es, k, v))
  {
    var r := Put(es, k, v);
    if HasKey(es, k) {
      assert Keys(r) == Keys(es);
      forall i, j | 0 <= i < j < |r| ensures r[i].0 != r[j].0 {
        assert Keys(r)[i] == Keys(es)[i] && Keys(r)[j] == Keys(es)[j];
      }
    } else {
      assert r == es + [(k, v)];
      forall i | 0 <= i < |es| ensures es[i].0 != k {
        assert Keys(es)[i] == es[i].0;
      }
    }
  }

  /** In a PHP array the first key does not occur again further on. */
  lemma {:induction false} UniqueTail<V>(es: seq<(string, V)>)
    requires UniqueKeys(es) && es != []
    ensures UniqueKeys(es[1..]) && !HasKey(es[1..], es[0].0)
  {
    var j := IndexOfKey(es[1..], es[0].0);
  }

  lemma {:induction false} DeleteUnique<V>(es: seq<(string, V)>, k: string)
    requires UniqueKeys(es)
    ensures UniqueKeys(Delete(es, k))
    decreases |es|
  {
    if es != [] {
      DeleteUnique(es[1..], k);
      var rest := Delete(es[1..], k);
      if es[0].0 != k {
        UniqueTail(es);
        assert !HasKey(rest, es[0].0);
        var r := [es[0]] + rest;
        forall i, j | 0 <= i < j < |r| ensures r[i].0 != r[j].0 {
          if i == 0 {
            assert Keys(rest)[j - 1] == r[j].0;
          }
        }
      }
    }
  }

  /** With unique keys, unset removes exactly the one entry holding the key. */
  lemma {:induction false} DeleteAt<V>(es: seq<(string, V)>, k: string)
    requires UniqueKeys(es) && HasKey(es, k)
    ensures Delete(es, k) == es[..IndexOfKey(es, k)] + es[IndexOfKey(es, k) + 1..]
    decreases |es|
  {
    UniqueTail(es);
    if es[0].0 == k {
      assert Delete(es, k) == Delete(es[1..], k) == es[1..];
    } else {
      var j := IndexOfKey(es[1..], k);
      DeleteAt(es[1..], k);
      DeleteAtStep(es, k, j);
    }
  }

  lemma {:induction false} DeleteAtStep<V>(es: seq<(string, V)>, k: string, j: int)
    requires es != [] && es[0].0 != k && 0 <= j < |es| - 1
    requires Delete(es[1..], k) == es[1..][..j] + es[1..][j + 1..]
    ensures Delete(es, k) == es[..j + 1] + es[j + 2..]
  {
    assert Delete(es, k) == [es[0]] + Delete(es[1..], k);
    DropAroundShift(es, j);
  }

  /** Cutting out position j + 1 is keeping the head and cutting position j out of the tail. */
  lemma {:induction false} DropAroundShift<T>(s: seq<T>, j: int)
    requires 0 <= j < |s| - 1
    ensures [s[0]] + (s[1..][..j] + s[1..][j + 1..]) == s[..j + 1] + s[j + 2..]
  {
    assert s[..j + 1] == [s[0]] + s[1..][..j];
    assert s[j + 2..] == s[1..][j + 1..];
  }

  /** With unique keys, every entry is what a lookup of its key finds. */
  lemma {:induction false} LookupUnique<V>(es: seq<(string, V)>, i: int)
    requires UniqueKeys(es) && 0 <= i < |es|
    ensures Lookup(es, es[i].0) == Some(es[i].1)
  {
    assert Keys(es)[i] == es[i].0;
    assert es[i].0 in Keys(es);
  }

  /** array_search($x, $s, true) on a list: the index of the first element equal to `x`, or -1. */
  function IndexOf<T(==)>(s: seq<T>, x: T): (r: int)
    ensures -1 <= r < |s|
    ensures r == -1 <==> x !in s
    ensures r >= 0 ==> s[r] == x && forall i | 0 <= i < r :: s[i] != x
    decreases |s|
  {
    if s == [] then -1
    else if s[0] == x then 0
    else
      var r := IndexOf(s[1..], x);
      assert forall i | 1 <= i < |s| :: s[i] == s[1..][i - 1];
      if r == -1 then -1 else r + 1
  }

  /** Lookups in an array with one more entry at the end. */
  lemma {:induction false} LookupSnoc<V>(es: seq<(string, V)>, e: (string, V), k: string)
    ensures HasKey(es + [e], k) == (HasKey(es, k) || e.0 == k)
    ensures Lookup(es + [e], k) == if HasKey(es, k) then Lookup(es, k) else if e.0 == k then Some(e.1) else None
    ensures IndexOfKey(es + [e], k) == if HasKey(es, k) then IndexOfKey(es, k) else if e.0 == k then |es| else -1
    decreases |es|
  {
    if es != [] {
      assert (es + [e])[1..] == es[1..] + [e];
      LookupSnoc(es[1..], e, k);
    }
  }

  /** Writing back the value a key already holds changes nothing. */
  lemma {:induction false} PutSame<V>(es: seq<(string, V)>, k: string)
    requires HasKey(es, k)
    ensures Put(es, k, Lookup(es, k).value) == es
    decreases |es|
  {
    if es[0].0 != k {
      PutSame(es[1..], k);
      assert es == [es[0]] + es[1..];
    }
  }
}
