/** Rendezvous hashing: which peer of a tier owns a key, and how little an edit of the peer
    list moves. MD5 is a parameter; only its first 32 bits matter. */
module Rendezvous {
  import opened Words
  import opened Sequences
  import opened Wrappers

  /** A configured server: its node id and where it listens. */
  datatype Backend = Backend(nodeId: string, address: string)

  type Hash = string -> Word32

  function HashOf(hash: Hash, key: string, b: Backend): Word32 {
    hash(b.nodeId + ":" + key)
  }

  /** The highest hash of a list; 0 if the list is empty. */
  function Top(hash: Hash, key: string, bs: seq<Backend>): Word32 {
    if bs == [] then 0
    else
      var t, h := Top(hash, key, bs[..|bs| - 1]), HashOf(hash, key, bs[|bs| - 1]);
      if t < h then h else t
  }

  /** The backend that owns `key`: the first with the highest hash, nobody if every hash is 0. */
  function Owner(hash: Hash, key: string, bs: seq<Backend>): Option<Backend> {
    if bs == [] then None
    else if Top(hash, key, bs[..|bs| - 1]) < HashOf(hash, key, bs[|bs| - 1]) then Some(bs[|bs| - 1])
    else Owner(hash, key, bs[..|bs| - 1])
  }

  datatype Selection = Fatal | Selected(owner: Option<Backend>)

  /** The loop of the source; an empty list ends the process. What is hashed is a node id, a colon
      and the key; the first of the highest hashes wins unless it is 0. */
  method RendezvousSelect(hash: Hash, key: string, backends: seq<Backend>) returns (r: Selection)
    ensures r == if backends == [] then Fatal else Selected(Owner(hash, key, backends))
    ensures r == Selected(None) <==> backends != [] && forall i :: 0 <= i < |backends| ==> hash(backends[i].nodeId + ":" + key) == 0
    ensures forall i :: 0 <= i < |backends| && 0 < hash(backends[i].nodeId + ":" + key)
              && (forall j :: 0 <= j < i ==> hash(backends[j].nodeId + ":" + key) < hash(backends[i].nodeId + ":" + key))
              && (forall j :: i < j < |backends| ==> hash(backends[j].nodeId + ":" + key) <= hash(backends[i].nodeId + ":" + key))
              ==> r == Selected(Some(backends[i]))
  {
    if |backends| == 0 {
      return Fatal;
    }
    var res: Option<Backend>, currentMax: nat := None, 0;
    for i := 0 to |backends|
      invariant res == Owner(hash, key, backends[..i]) && currentMax == Top(hash, key, backends[..i])
    {
      assert backends[..i + 1][..i] == backends[..i];
      var h := HashOf(hash, key, backends[i]);
      if currentMax < h {
        currentMax := h;
        res := Some(backends[i]);
      }
    }
    assert backends[..|backends|] == backends;
    NobodyIffAllZero(hash, key, backends);
    forall i: nat | WinsAt(hash, key, backends, i)
      ensures res == Some(backends[i])
    {
      WinnerOwns(hash, key, backends, i);
    }
    return Selected(res);
  }

  // ---------- what the owner is ----------

  /** The top hash bounds all hashes, and is one of them unless it is 0. */
  lemma {:induction false} TopBounds(hash: Hash, key: string, bs: seq<Backend>)
    ensures forall i :: 0 <= i < |bs| ==> HashOf(hash, key, bs[i]) <= Top(hash, key, bs)
    ensures Top(hash, key, bs) == 0 || exists i :: 0 <= i < |bs| && HashOf(hash, key, bs[i]) == Top(hash, key, bs)
  {
    var n := |bs| - 1;
    if n >= 0 {
      TopBounds(hash, key, bs[..n]);
      if Top(hash, key, bs) != 0 && Top(hash, key, bs) != HashOf(hash, key, bs[n]) {
        var i :| 0 <= i < n && HashOf(hash, key, bs[..n][i]) == Top(hash, key, bs[..n]);
        assert bs[i] == bs[..n][i];
      }
      forall i | 0 <= i < |bs|
        ensures HashOf(hash, key, bs[i]) <= Top(hash, key, bs)
      {
        assert i < n ==> bs[i] == bs[..n][i];
      }
    }
  }

  /** Position `i` holds the first of the highest hashes, and that hash is not 0. */
  predicate WinsAt(hash: Hash, key: string, bs: seq<Backend>, i: nat) {
    && i < |bs| && HashOf(hash, key, bs[i]) > 0
    && (forall j :: 0 <= j < i ==> HashOf(hash, key, bs[j]) < HashOf(hash, key, bs[i]))
    && (forall j :: i < j < |bs| ==> HashOf(hash, key, bs[j]) <= HashOf(hash, key, bs[i]))
  }

  lemma {:induction false} WinnerOwns(hash: Hash, key: string, bs: seq<Backend>, i: nat)
    requires WinsAt(hash, key, bs, i)
    ensures Owner(hash, key, bs) == Some(bs[i]) && Top(hash, key, bs) == HashOf(hash, key, bs[i])
  {
    var n := |bs| - 1;
    TopBounds(hash, key, bs[..n]);
    if i < n {
      assert forall j :: 0 <= j < n ==> bs[..n][j] == bs[j];
      WinnerOwns(hash, key, bs[..n], i);
    }
  }

  lemma {:induction false} OwnerWins(hash: Hash, key: string, bs: seq<Backend>) returns (i: nat)
    requires Owner(hash, key, bs).Some?
    ensures WinsAt(hash, key, bs, i) && Owner(hash, key, bs) == Some(bs[i])
  {
    var n := |bs| - 1;
    TopBounds(hash, key, bs[..n]);
    assert forall j :: 0 <= j < n ==> bs[..n][j] == bs[j];
    if Top(hash, key, bs[..n]) < HashOf(hash, key, bs[n]) {
      i := n;
    } else {
      i := OwnerWins(hash, key, bs[..n]);
      WinnerOwns(hash, key, bs[..n], i);
    }
  }

  /** Nobody is selected exactly when every hash is 0. */
  lemma {:induction false} NobodyIffAllZero(hash: Hash, key: string, bs: seq<Backend>)
    ensures Owner(hash, key, bs).None? <==> forall i :: 0 <= i < |bs| ==> HashOf(hash, key, bs[i]) == 0
  {
    if Owner(hash, key, bs).Some? {
      var i := OwnerWins(hash, key, bs);
    } else if bs != [] {
      var n := |bs| - 1;
      NobodyIffAllZero(hash, key, bs[..n]);
      assert forall j :: 0 <= j < n ==> bs[..n][j] == bs[j];
      TopBounds(hash, key, bs[..n]);
    }
  }

  // ---------- minimal disruption ----------

  /** The owner of a joined list is the owner of the half with the higher hash; the first half wins ties. */
  lemma {:induction false} OwnerOfBoth(hash: Hash, key: string, xs: seq<Backend>, ys: seq<Backend>)
    ensures var x, y := Top(hash, key, xs), Top(hash, key, ys);
            && Top(hash, key, xs + ys) == (if x < y then y else x)
            && Owner(hash, key, xs + ys) == if x < y then Owner(hash, key, ys) else Owner(hash, key, xs)
  {
    if ys == [] {
      assert xs + ys == xs;
    } else {
      assert (xs + ys)[..|xs + ys| - 1] == xs + ys[..|ys| - 1];
      OwnerOfBoth(hash, key, xs, ys[..|ys| - 1]);
    }
  }

  /** Exactly when an inserted backend takes a key; all other keys stay where they were. */
  lemma InsertionMovesKeysOnlyToTheInserted(hash: Hash, key: string, xs: seq<Backend>, b: Backend, ys: seq<Backend>)
    ensures var takes := Top(hash, key, xs) < HashOf(hash, key, b) && Top(hash, key, ys) <= HashOf(hash, key, b);
            Owner(hash, key, xs + [b] + ys) == if takes then Some(b) else Owner(hash, key, xs + ys)
  {
    OwnerOfBoth(hash, key, xs, [b]);
    OwnerOfBoth(hash, key, xs + [b], ys);
    OwnerOfBoth(hash, key, xs, ys);
  }

  /** The backends that stay when a set of them is taken out of the list. */
  function Without(bs: seq<Backend>, gone: set<Backend>): (r: seq<Backend>) {
    if bs == [] then []
    else
      var rest := Without(bs[..|bs| - 1], gone);
      if bs[|bs| - 1] in gone then rest else rest + [bs[|bs| - 1]]
  }

  /** One more backend at the end of a list. */
  lemma OneMore(hash: Hash, key: string, bs: seq<Backend>, b: Backend)
    ensures var t, h := Top(hash, key, bs), HashOf(hash, key, b);
            && Top(hash, key, bs + [b]) == (if t < h then h else t)
            && Owner(hash, key, bs + [b]) == if t < h then Some(b) else Owner(hash, key, bs)
  {
    assert (bs + [b])[..|bs|] == bs;
  }

  lemma {:induction false} TopWithout(hash: Hash, key: string, bs: seq<Backend>, gone: set<Backend>)
    ensures Top(hash, key, Without(bs, gone)) <= Top(hash, key, bs)
  {
    if bs != [] {
      var n := |bs| - 1;
      TopWithout(hash, key, bs[..n], gone);
      OneMore(hash, key, Without(bs[..n], gone), bs[n]);
    }
  }

  /** Taking any backends out moves only the keys that they owned. */
  lemma {:induction false} RemovalMovesOnlyOwnedKeys(hash: Hash, key: string, bs: seq<Backend>, gone: set<Backend>)
    requires Owner(hash, key, bs).Some? ==> Owner(hash, key, bs).value !in gone
    ensures Owner(hash, key, Without(bs, gone)) == Owner(hash, key, bs)
    ensures Top(hash, key, Without(bs, gone)) == Top(hash, key, bs)
  {
    var n := |bs| - 1;
    if n >= 0 {
      TopWithout(hash, key, bs[..n], gone);
      OneMore(hash, key, Without(bs[..n], gone), bs[n]);
      if Top(hash, key, bs[..n]) >= HashOf(hash, key, bs[n]) {
        RemovalMovesOnlyOwnedKeys(hash, key, bs[..n], gone);
      }
    }
  }

  // ---------- independence of order ----------

  /** No two different backends share the highest hash, unless it is 0. */
  predicate NoTie(hash: Hash, key: string, bs: seq<Backend>) {
    forall b, c :: b in bs && c in bs && 0 < HashOf(hash, key, b) == HashOf(hash, key, c) == Top(hash, key, bs) ==> b == c
  }

  predicate SameOwnerInAnyOrder(hash: Hash, key: string, bs: seq<Backend>, cs: seq<Backend>) {
    multiset(bs) == multiset(cs) ==> Owner(hash, key, bs) == Owner(hash, key, cs)
  }

  lemma NoTieMeansNoOrder(hash: Hash, key: string, bs: seq<Backend>, cs: seq<Backend>)
    requires NoTie(hash, key, bs) && multiset(bs) == multiset(cs)
    ensures Owner(hash, key, bs) == Owner(hash, key, cs)
  {
    forall b: Backend
      ensures b in bs <==> b in cs
    {
      SameElements(bs, cs, b);
    }
    TopBounds(hash, key, bs);
    NobodyIffAllZero(hash, key, bs);
    NobodyIffAllZero(hash, key, cs);
    if Owner(hash, key, bs).Some? {
      var i := OwnerWins(hash, key, bs);
      WinnerOwns(hash, key, bs, i);
      assert bs[i] in cs;
      var j := OwnerWins(hash, key, cs);
      assert cs[j] in bs;
      assert HashOf(hash, key, bs[i]) <= HashOf(hash, key, cs[j]);
    } else {
      forall j | 0 <= j < |cs|
        ensures HashOf(hash, key, cs[j]) == 0
      {
        assert cs[j] in bs;
      }
    }
  }

  /** Moving a backend with the highest hash to the front makes it the owner. */
  lemma FrontWins(hash: Hash, key: string, bs: seq<Backend>, i: nat) returns (cs: seq<Backend>)
    requires i < |bs| && 0 < HashOf(hash, key, bs[i]) == Top(hash, key, bs)
    ensures multiset(cs) == multiset(bs) && Owner(hash, key, cs) == Some(bs[i])
  {
    cs := [bs[i]] + bs[..i] + bs[i + 1..];
    assert bs == bs[..i] + [bs[i]] + bs[i + 1..];
    TopBounds(hash, key, bs);
    forall j | 0 < j < |cs|
      ensures HashOf(hash, key, cs[j]) <= HashOf(hash, key, cs[0])
    {
      assert cs[j] == if j <= i then bs[j - 1] else bs[j];
    }
    WinnerOwns(hash, key, cs, 0);
  }

  /** The owner depends on the order of the list exactly if the highest hash is shared. */
  lemma OrderMattersOnlyForTies(hash: Hash, key: string, bs: seq<Backend>)
    ensures NoTie(hash, key, bs) <==> forall cs :: SameOwnerInAnyOrder(hash, key, bs, cs)
  {
    if NoTie(hash, key, bs) {
      forall cs
        ensures SameOwnerInAnyOrder(hash, key, bs, cs)
      {
        if multiset(bs) == multiset(cs) {
          NoTieMeansNoOrder(hash, key, bs, cs);
        }
      }
    } else {
      var b, c :| b in bs && c in bs && 0 < HashOf(hash, key, b) == HashOf(hash, key, c) == Top(hash, key, bs) && b != c;
      var i :| 0 <= i < |bs| && bs[i] == b;
      var k :| 0 <= k < |bs| && bs[k] == c;
      var bFirst := FrontWins(hash, key, bs, i);
      var cFirst := FrontWins(hash, key, bs, k);
      assert !SameOwnerInAnyOrder(hash, key, bs, bFirst) || !SameOwnerInAnyOrder(hash, key, bs, cFirst);
    }
  }
}
