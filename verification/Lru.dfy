/** The order in which a bounded cache forgets: least recently used first. */
module Lru {
  predicate Distinct(order: seq<string>) {
    forall i, j :: 0 <= i < j < |order| ==> order[i] != order[j]
  }

  /** `order` lists exactly these keys, each once. */
  predicate Tracks(order: seq<string>, keys: set<string>) {
    Distinct(order) && (forall k :: k in order ==> k in keys) && (forall k :: k in keys ==> k in order)
  }

  function Without(order: seq<string>, key: string): (r: seq<string>) {
    if order == [] then []
    else if order[0] == key then Without(order[1..], key)
    else [order[0]] + Without(order[1..], key)
  }

  /** A key moves to the recent end, or joins there. */
  function Touched(order: seq<string>, key: string): seq<string> {
    Without(order, key) + [key]
  }

  /** The use of a key; a new key pushes the least recently used one out of a full cache. */
  function Used(order: seq<string>, capacity: nat, key: string): seq<string> {
    if key !in order && |order| == capacity > 0 then Touched(order[1..], key) else Touched(order, key)
  }

  lemma {:induction false} WithoutKeeps(order: seq<string>, key: string)
    ensures forall k :: k in Without(order, key) <==> k in order && k != key
    ensures Distinct(order) ==> Distinct(Without(order, key))
    ensures Distinct(order) ==> |Without(order, key)| == |order| - if key in order then 1 else 0
  {
    if order != [] {
      assert order == [order[0]] + order[1..];
      WithoutKeeps(order[1..], key);
      assert Distinct(order) ==> Distinct(order[1..]) && order[0] !in order[1..];
    }
  }

  lemma {:induction false} WithoutNothing(order: seq<string>, key: string)
    requires key !in order
    ensures Without(order, key) == order
  {
    if order != [] {
      WithoutNothing(order[1..], key);
    }
  }

  lemma {:induction false} WithoutOfBoth(a: seq<string>, b: seq<string>, key: string)
    ensures Without(a + b, key) == Without(a, key) + Without(b, key)
  {
    if a == [] {
      assert a + b == b;
    } else {
      assert (a + b)[1..] == a[1..] + b;
      WithoutOfBoth(a[1..], b, key);
    }
  }

  lemma WithoutAround(a: seq<string>, k: string, b: seq<string>, key: string)
    requires k != key
    ensures Without(a + [k] + b, key) == Without(a, key) + [k] + Without(b, key)
  {
    WithoutOfBoth(a + [k], b, key);
    WithoutOfBoth(a, [k], key);
    WithoutNothing([k], key);
  }

  lemma TouchedTracks(order: seq<string>, keys: set<string>, key: string)
    requires Tracks(order, keys)
    ensures Tracks(Touched(order, key), keys + {key})
    ensures |Touched(order, key)| == |order| + if key in order then 0 else 1
  {
    WithoutKeeps(order, key);
  }

  lemma DroppedTracks(order: seq<string>, keys: set<string>)
    requires Tracks(order, keys) && order != []
    ensures order[0] in keys && Tracks(order[1..], keys - {order[0]})
  {
    forall k | k in order[1..]
      ensures k in keys - {order[0]}
    {
      var i :| 0 <= i < |order[1..]| && order[1..][i] == k;
      assert order[i + 1] == k;
    }
    forall k | k in keys - {order[0]}
      ensures k in order[1..]
    {
      var i :| 0 <= i < |order| && order[i] == k;
      assert order[1..][i - 1] == k;
    }
  }

  /** As many keys are tracked as are listed. */
  lemma {:induction false} TracksCounts(order: seq<string>, keys: set<string>)
    requires Tracks(order, keys)
    ensures |order| == |keys|
    decreases |order|
  {
    if order == [] {
      assert keys == {};
    } else {
      DroppedTracks(order, keys);
      TracksCounts(order[1..], keys - {order[0]});
    }
  }

  // ---------- a bounded map ----------

  /** The entries that make room for a key. */
  function Kept<T>(entries: map<string, T>, order: seq<string>, capacity: nat, key: string): map<string, T> {
    if key !in entries && |entries| == capacity && order != [] then entries - {order[0]} else entries
  }

  function PutInto<T>(entries: map<string, T>, order: seq<string>, capacity: nat, key: string, o: T): map<string, T> {
    Kept(entries, order, capacity, key)[key := o]
  }

  lemma KeysCount<T>(entries: map<string, T>)
    ensures |entries| == |entries.Keys|
  {
  }

  lemma KeptKeys<T>(entries: map<string, T>, order: seq<string>, capacity: nat, key: string)
    requires Tracks(order, entries.Keys) && |entries| <= capacity && capacity > 0
    ensures var kept := Kept(entries, order, capacity, key);
            var left := if key !in order && |order| == capacity then order[1..] else order;
            Tracks(left, kept.Keys) && (key !in kept ==> |left| < capacity) && |left| <= capacity
  {
    KeysCount(entries);
    TracksCounts(order, entries.Keys);
    if key !in entries && |entries| == capacity {
      DroppedTracks(order, entries.Keys);
      assert (entries - {order[0]}).Keys == entries.Keys - {order[0]};
    }
  }

  /** The map stays bounded, and its order stays that of its keys. */
  lemma PutKeepsOrder<T>(entries: map<string, T>, order: seq<string>, capacity: nat, key: string, o: T)
    requires Tracks(order, entries.Keys) && |entries| <= capacity && capacity > 0
    ensures var now := PutInto(entries, order, capacity, key, o);
            Tracks(Used(order, capacity, key), now.Keys) && |now| <= capacity
  {
    var kept, now := Kept(entries, order, capacity, key), PutInto(entries, order, capacity, key, o);
    var left := if key !in order && |order| == capacity then order[1..] else order;
    KeptKeys(entries, order, capacity, key);
    TouchedTracks(left, kept.Keys, key);
    assert now.Keys == kept.Keys + {key};
    TracksCounts(Touched(left, key), now.Keys);
    KeysCount(now);
  }

  // ---------- which keys survive ----------

  /** The order after a history of uses of a cache that was empty at first. */
  function After(uses: seq<string>, capacity: nat): seq<string> {
    if uses == [] then [] else Used(After(uses[..|uses| - 1], capacity), capacity, uses[|uses| - 1])
  }

  function Keys(uses: seq<string>): set<string> {
    set k | k in uses
  }

  lemma {:induction false} AlwaysDistinct(uses: seq<string>, capacity: nat)
    requires capacity > 0
    ensures Distinct(After(uses, capacity)) && |After(uses, capacity)| <= capacity
  {
    if uses != [] {
      var before, key := After(uses[..|uses| - 1], capacity), uses[|uses| - 1];
      AlwaysDistinct(uses[..|uses| - 1], capacity);
      var kept := if key !in before && |before| == capacity then before[1..] else before;
      WithoutKeeps(kept, key);
    }
  }

  lemma OneMoreUse(uses: seq<string>, capacity: nat, key: string)
    ensures After(uses + [key], capacity) == Used(After(uses, capacity), capacity, key)
  {
    assert (uses + [key])[..|uses|] == uses;
  }

  lemma TouchBehind(front: seq<string>, k: string, tail: seq<string>, keys: set<string>, x: string)
    returns (front': seq<string>, tail': seq<string>)
    requires x != k && Tracks(tail, keys) && k !in tail
    ensures Touched(front + [k] + tail, x) == front' + [k] + tail'
    ensures Tracks(tail', keys + {x}) && k !in tail'
  {
    front', tail' := Without(front, x), Touched(tail, x);
    WithoutAround(front, k, tail, x);
    TouchedTracks(tail, keys, x);
    WithoutKeeps(tail, x);
    assert (front' + [k] + Without(tail, x)) + [x] == front' + [k] + (Without(tail, x) + [x]);
  }

  lemma InTheWhole(a: seq<string>, b: seq<string>, x: string)
    ensures x in b ==> x in a + b
  {
  }

  /** A full cache has something to drop in front of `k`, if the keys behind it and one more still fit. */
  lemma RoomInFront(front: seq<string>, k: string, tail: seq<string>, keys: set<string>, capacity: nat, x: string)
    requires Tracks(tail, keys) && |front + [k] + tail| == capacity && |keys + {x}| < capacity && x !in keys
    ensures front != [] && (front + [k] + tail)[1..] == front[1..] + [k] + tail
  {
    TracksCounts(tail, keys);
    assert |keys + {x}| == |keys| + 1;
  }

  /** One use of another key leaves `k` where it is, with the key among those behind it, if there is room. */
  lemma UseBehind(front: seq<string>, k: string, tail: seq<string>, keys: set<string>, capacity: nat, x: string)
    returns (front': seq<string>, tail': seq<string>)
    requires x != k && Tracks(tail, keys) && k !in tail
    requires |front + [k] + tail| <= capacity && |keys + {x}| < capacity
    ensures Used(front + [k] + tail, capacity, x) == front' + [k] + tail'
    ensures Tracks(tail', keys + {x}) && k !in tail'
  {
    var order := front + [k] + tail;
    if x !in order && |order| == capacity {
      InTheWhole(front + [k], tail, x);
      RoomInFront(front, k, tail, keys, capacity, x);
      front', tail' := TouchBehind(front[1..], k, tail, keys, x);
    } else {
      front', tail' := TouchBehind(front, k, tail, keys, x);
    }
  }

  lemma {:induction false} StaysBehind(uses: seq<string>, k: string, later: seq<string>, capacity: nat)
    returns (front: seq<string>, tail: seq<string>)
    requires k !in later && |Keys(later)| < capacity
    ensures After(uses + [k] + later, capacity) == front + [k] + tail
    ensures Tracks(tail, Keys(later)) && k !in tail
    decreases |later|
  {
    if later == [] {
      OneMoreUse(uses, capacity, k);
      assert uses + [k] + later == uses + [k];
      var before := After(uses, capacity);
      var kept := if k !in before && |before| == capacity > 0 then before[1..] else before;
      front, tail := Without(kept, k), [];
      assert front + [k] + tail == Touched(kept, k);
    } else {
      var n := |later| - 1;
      var x := later[n];
      assert later == later[..n] + [x];
      assert Keys(later) == Keys(later[..n]) + {x};
      SubsetIsSmaller(Keys(later[..n]), Keys(later));
      var f, t := StaysBehind(uses, k, later[..n], capacity);
      AlwaysDistinct(uses + [k] + later[..n], capacity);
      assert uses + [k] + later == (uses + [k] + later[..n]) + [x];
      OneMoreUse(uses + [k] + later[..n], capacity, x);
      front, tail := UseBehind(f, k, t, Keys(later[..n]), capacity, x);
    }
  }

  lemma SubsetIsSmaller(a: set<string>, b: set<string>)
    requires a <= b
    ensures |a| <= |b|
  {
    assert b == a + (b - a);
  }

  /** The last use that is needed to push `k` out of a full cache. */
  lemma UseInstead(k: string, tail: seq<string>, keys: set<string>, capacity: nat, front: seq<string>, x: string)
    requires x != k && Tracks(tail, keys) && k !in tail && x !in keys && |keys| + 1 == capacity
    requires |front + [k] + tail| <= capacity
    ensures k !in Used(front + [k] + tail, capacity, x)
  {
    TracksCounts(tail, keys);
    assert front == [] && (front + [k] + tail)[1..] == tail;
    WithoutKeeps(tail, x);
  }

  lemma {:induction false} Goes(uses: seq<string>, k: string, later: seq<string>, capacity: nat)
    requires k !in later && |Keys(later)| >= capacity > 0
    ensures k !in After(uses + [k] + later, capacity)
    decreases |later|
  {
    assert Keys([]) == {};
    var n := |later| - 1;
    var x := later[n];
    assert later == later[..n] + [x];
    assert Keys(later) == Keys(later[..n]) + {x};
    assert uses + [k] + later == (uses + [k] + later[..n]) + [x];
    OneMoreUse(uses + [k] + later[..n], capacity, x);
    var before := After(uses + [k] + later[..n], capacity);
    if |Keys(later[..n])| >= capacity {
      Goes(uses, k, later[..n], capacity);
      WithoutKeeps(before, x);
      if before != [] {
        WithoutKeeps(before[1..], x);
      }
    } else {
      var front, tail := StaysBehind(uses, k, later[..n], capacity);
      AlwaysDistinct(uses + [k] + later[..n], capacity);
      UseInstead(k, tail, Keys(later[..n]), capacity, front, x);
    }
  }

  /** A key is still in the cache exactly if fewer than `capacity` other keys were used since its last use. */
  lemma SurvivesIffRecent(uses: seq<string>, k: string, later: seq<string>, capacity: nat)
    requires k !in later && capacity > 0
    ensures k in After(uses + [k] + later, capacity) <==> |Keys(later)| < capacity
  {
    if |Keys(later)| < capacity {
      var front, tail := StaysBehind(uses, k, later, capacity);
    } else {
      Goes(uses, k, later, capacity);
    }
  }
}
