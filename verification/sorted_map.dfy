/**
 An ordered map from string keys to values, in two views.

 The concrete view is an association list whose keys strictly ascend, which
 is the order an ordered tree map hands its entries out in. The abstract view
 is a Dafny `map`. `Insert` works on the list and is proved to keep it
 strictly sorted and to behave as the map update `m[k := v]`.
 */
module SortedMap {
  import opened StringOrder

  /** Each key sorts strictly before the next one, so no key repeats. */
  predicate Sorted<V>(xs: seq<(string, V)>) {
    forall i :: 0 < i < |xs| ==> Less(xs[i - 1].0, xs[i].0)
  }

  /** The entries of an ordered map, in iteration order. */
  type Entries<V> = xs: seq<(string, V)> | Sorted(xs) witness []

  /** The map an association list stands for. */
  function ToMap<V>(xs: seq<(string, V)>): map<string, V> {
    if |xs| == 0 then map[] else ToMap(xs[1..])[xs[0].0 := xs[0].1]
  }

  /** Inserts `k` with value `v`, replacing the value of an existing `k`. */
  function Insert<V>(xs: seq<(string, V)>, k: string, v: V): (r: seq<(string, V)>)
    ensures ToMap(r) == ToMap(xs)[k := v]
    ensures Sorted(xs) ==> Sorted(r)
    // the smallest key afterwards is the new key or the previous smallest one
    ensures |r| > 0 && (r[0].0 == k || (|xs| > 0 && r[0].0 == xs[0].0))
    decreases |xs|
  {
    if |xs| == 0 then
      [(k, v)]
    else if xs[0].0 == k then
      assert ([(k, v)] + xs[1..])[1..] == xs[1..];
      [(k, v)] + xs[1..]
    else if Less(k, xs[0].0) then
      assert ([(k, v)] + xs)[1..] == xs;
      [(k, v)] + xs
    else
      LessTotal(k, xs[0].0);
      var rest := Insert(xs[1..], k, v);
      assert ([xs[0]] + rest)[1..] == rest;
      [xs[0]] + rest
  }

  /** In a sorted list every key sorts before every later key. */
  lemma {:induction false} Ascending<V>(xs: seq<(string, V)>, i: nat, j: nat)
    requires Sorted(xs) && i < j < |xs|
    ensures Less(xs[i].0, xs[j].0)
    decreases j - i
  {
    if i + 1 < j {
      Ascending(xs, i, j - 1);
      LessTransitive(xs[i].0, xs[j - 1].0, xs[j].0);
    }
  }

  /** Every key of the map comes from some entry of the list. */
  lemma {:induction false} IndexOfKey<V>(xs: seq<(string, V)>, k: string) returns (i: nat)
    requires k in ToMap(xs)
    ensures i < |xs| && xs[i].0 == k
  {
    if xs[0].0 == k {
      i := 0;
    } else {
      i := IndexOfKey(xs[1..], k);
      i := i + 1;
    }
  }

  /** Every entry of a sorted list is in the map with its own value. */
  lemma {:induction false} EntryInMap<V>(xs: seq<(string, V)>, i: nat)
    requires Sorted(xs) && i < |xs|
    ensures xs[i].0 in ToMap(xs) && ToMap(xs)[xs[i].0] == xs[i].1
  {
    if i > 0 {
      EntryInMap(xs[1..], i - 1);
      Ascending(xs, 0, i);
      LessIrreflexive(xs[0].0);
    }
  }

  /** The tail of a sorted list stands for the map without the smallest key. */
  lemma TailMap<V>(xs: seq<(string, V)>)
    requires Sorted(xs) && |xs| > 0
    ensures xs[0].0 !in ToMap(xs[1..])
    ensures ToMap(xs[1..]) == ToMap(xs) - {xs[0].0}
  {
    var k, tail := xs[0].0, ToMap(xs[1..]);
    if k in tail {
      var i := IndexOfKey(xs[1..], k);
      assert xs[i + 1].0 == k;
      Ascending(xs, 0, i + 1);
      LessIrreflexive(k);
      assert false;
    }
    assert ToMap(xs) == tail[k := xs[0].1];
    RemoveFresh(tail, k, xs[0].1);
  }

  /** Adding a fresh key and removing it again gives back the map. */
  lemma RemoveFresh<V>(m: map<string, V>, k: string, v: V)
    requires k !in m
    ensures m[k := v] - {k} == m
  {
  }

  /**
   A sorted list is determined by the map it stands for: whatever order the
   keys were inserted in, the entries are listed the same way.
   */
  lemma {:induction false} Canonical<V>(xs: seq<(string, V)>, ys: seq<(string, V)>)
    requires Sorted(xs) && Sorted(ys) && ToMap(xs) == ToMap(ys)
    ensures xs == ys
    decreases |xs|
  {
    if |xs| == 0 || |ys| == 0 {
      if |xs| > 0 {
        EntryInMap(xs, 0);
      } else if |ys| > 0 {
        EntryInMap(ys, 0);
      }
    } else {
      var a, b := xs[0].0, ys[0].0;
      if a != b {
        LessTotal(a, b);
        if Less(a, b) {
          EntryInMap(xs, 0);
          var j := IndexOfKey(ys, a);
          Ascending(ys, 0, j);
          LessAsymmetric(a, b);
        } else {
          EntryInMap(ys, 0);
          var j := IndexOfKey(xs, b);
          Ascending(xs, 0, j);
          LessAsymmetric(b, a);
        }
      }
      EntryInMap(xs, 0);
      EntryInMap(ys, 0);
      TailMap(xs);
      TailMap(ys);
      Canonical(xs[1..], ys[1..]);
      assert xs == [xs[0]] + xs[1..] && ys == [ys[0]] + ys[1..];
    }
  }

  /** Inserting the same key twice leaves only the second value. */
  lemma {:induction false} InsertOverwrites<V>(xs: seq<(string, V)>, k: string, v1: V, v2: V)
    ensures Insert(Insert(xs, k, v1), k, v2) == Insert(xs, k, v2)
    decreases |xs|
  {
    if |xs| > 0 && xs[0].0 != k && !Less(k, xs[0].0) {
      InsertOverwrites(xs[1..], k, v1, v2);
    }
  }

  lemma UpdatesCommute<V>(m: map<string, V>, a: string, x: V, b: string, y: V)
    requires a != b
    ensures m[a := x][b := y] == m[b := y][a := x]
  {
  }

  /** Inserting two distinct keys gives the same list in either order. */
  lemma InsertCommutes<V>(xs: seq<(string, V)>, a: string, x: V, b: string, y: V)
    requires Sorted(xs) && a != b
    ensures Insert(Insert(xs, a, x), b, y) == Insert(Insert(xs, b, y), a, x)
  {
    var xa, xb := Insert(xs, a, x), Insert(xs, b, y);
    var l, r := Insert(xa, b, y), Insert(xb, a, x);
    UpdatesCommute(ToMap(xs), a, x, b, y);
    Canonical(l, r);
  }

  /**
   Iterating a sorted list lists the keys of its map in strictly ascending
   order, each key once, each with the value the map holds for it.
   */
  lemma IterationOrder<V>(xs: Entries<V>)
    ensures forall i, j :: 0 <= i < j < |xs| ==> Less(xs[i].0, xs[j].0)
    ensures forall i :: 0 <= i < |xs| ==> xs[i].0 in ToMap(xs) && ToMap(xs)[xs[i].0] == xs[i].1
    ensures forall k :: k in ToMap(xs) ==> exists i :: 0 <= i < |xs| && xs[i].0 == k
  {
    forall i, j | 0 <= i < j < |xs| ensures Less(xs[i].0, xs[j].0) {
      Ascending(xs, i, j);
    }
    forall i | 0 <= i < |xs| ensures xs[i].0 in ToMap(xs) && ToMap(xs)[xs[i].0] == xs[i].1 {
      EntryInMap(xs, i);
    }
    forall k | k in ToMap(xs) ensures exists i :: 0 <= i < |xs| && xs[i].0 == k {
      var i := IndexOfKey(xs, k);
    }
  }
}
