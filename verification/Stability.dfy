/** What a lookup table owes to each backend, without turns: the table that the game ends with is the
    only fair one in which every slot that a backend would rather have had went to somebody earlier. */
module Stability {
  import opened NumberTheory
  import opened Maglev

  /** How many of the `r` choices that a backend likes best it owns. */
  function OwnedBefore(m: nat, t: Table, p: Preference, i: nat, r: nat): (k: nat)
    requires Fits(m, p) && |t| == m
    ensures k <= r
  {
    if r == 0 then 0 else OwnedBefore(m, t, p, i, r - 1) + (if t[Slot(m, p, r - 1)] == i then 1 else 0)
  }

  /** Backend `i` takes its slot number `k` before backend `i'` takes its slot number `k'`. */
  predicate Earlier(k: nat, i: nat, k': nat, i': nat) {
    k < k' || (k == k' && i < i')
  }

  /** The slot that is choice `r'` of backend `i` belongs to somebody to whom it was due before
      choice `r` was due to `i`. */
  ghost predicate Justified(m: nat, prefs: seq<Preference>, t: Table, i: nat, r: nat, r': nat)
    requires AllFit(m, prefs) && |t| == m && i < |prefs|
  {
    var j := t[Slot(m, prefs[i], r')];
    && 0 <= j < |prefs|
    && forall s: nat :: s < m && Slot(m, prefs[j], s) == Slot(m, prefs[i], r') ==>
         Earlier(OwnedBefore(m, t, prefs[j], j, s), j, OwnedBefore(m, t, prefs[i], i, r), i)
  }

  ghost predicate Owns(m: nat, prefs: seq<Preference>, t: Table, i: nat, r: nat)
    requires AllFit(m, prefs) && |t| == m
  {
    i < |prefs| && r < m && t[Slot(m, prefs[i], r)] == i
  }

  /** Whatever a backend prefers to a slot that it owns was given away earlier. */
  ghost predicate Stable(m: nat, prefs: seq<Preference>, t: Table)
    requires AllFit(m, prefs) && |t| == m
  {
    forall i: nat, r: nat, r': nat :: Owns(m, prefs, t, i, r) && r' < r ==> Justified(m, prefs, t, i, r, r')
  }

  // ---------- counting owned choices ----------

  lemma {:induction false} CountMonotone(m: nat, t: Table, p: Preference, i: nat, r: nat, r': nat)
    requires Fits(m, p) && |t| == m && r <= r'
    ensures OwnedBefore(m, t, p, i, r) <= OwnedBefore(m, t, p, i, r')
    ensures r < r' && t[Slot(m, p, r)] == i ==> OwnedBefore(m, t, p, i, r) < OwnedBefore(m, t, p, i, r')
    decreases r'
  {
    if r < r' {
      CountMonotone(m, t, p, i, r, r' - 1);
    }
  }

  /** Nothing owned from `r` on. */
  lemma {:induction false} CountStops(m: nat, t: Table, p: Preference, i: nat, r: nat, r': nat)
    requires Fits(m, p) && |t| == m && r <= r' && forall s: nat :: r <= s < r' ==> t[Slot(m, p, s)] != i
    ensures OwnedBefore(m, t, p, i, r) == OwnedBefore(m, t, p, i, r')
    decreases r'
  {
    if r < r' {
      CountStops(m, t, p, i, r, r' - 1);
    }
  }

  /** The count passes every value below its last one at an owned choice. */
  lemma {:induction false} CountReaches(m: nat, t: Table, p: Preference, i: nat, n: nat, k: nat) returns (r: nat)
    requires Fits(m, p) && |t| == m && k < OwnedBefore(m, t, p, i, n)
    ensures r < n && t[Slot(m, p, r)] == i && OwnedBefore(m, t, p, i, r) == k
  {
    if OwnedBefore(m, t, p, i, n - 1) == k {
      r := n - 1;
    } else {
      r := CountReaches(m, t, p, i, n - 1, k);
    }
  }

  /** A claim of choice `f` counts for its owner behind that choice, and for nobody else. */
  lemma {:induction false} CountAfterClaim(m: nat, t: Table, q: Preference, f: nat, i: nat, p: Preference, j: nat, r: nat)
    requires Usable(m, p) && Fits(m, q) && |t| == m && f < m && r <= m && t[Slot(m, q, f)] < 0 && (j == i ==> p == q)
    ensures OwnedBefore(m, t[Slot(m, q, f) := i], p, j, r) == OwnedBefore(m, t, p, j, r) + if j == i && f < r then 1 else 0
  {
    if r > 0 {
      CountAfterClaim(m, t, q, f, i, p, j, r - 1);
      if j == i {
        ChoicesArePermutation(m, p, Slot(m, p, r - 1));
        assert Slot(m, p, f) == Slot(m, p, r - 1) ==> f == r - 1;
      }
    }
  }

  // ---------- the state of the game ----------

  /** After `n` turns each backend owns as many slots as it had turns. */
  lemma {:induction false} CountIsTurns(m: nat, prefs: seq<Preference>, dead: seq<bool>, n: nat, j: nat)
    requires Playable(m, prefs, dead) && n <= m && j < |prefs| && Fits(m, prefs[j])
    ensures OwnedBefore(m, Fill(m, prefs, dead, n), prefs[j], j, m) == TurnsTaken(dead, j, n)
  {
    if n == 0 {
      CountStops(m, Fill(m, prefs, dead, 0), prefs[j], j, 0, m);
    } else {
      CountIsTurns(m, prefs, dead, n - 1, j);
      var t, i := Fill(m, prefs, dead, n - 1), Player(dead, n - 1);
      assert Fits(m, prefs[i]);
      CountAfterClaim(m, t, prefs[i], FirstFree(m, t, prefs[i]), i, prefs[j], j, m);
    }
  }

  /** When it is backend `i`'s turn, the live backends before it have had one turn more than it, the
      others as many. */
  lemma TurnsSoFar(dead: seq<bool>, n: nat, j: nat)
    requires Alive(dead) != [] && Live(dead, j)
    ensures TurnsTaken(dead, j, n) == TurnsTaken(dead, Player(dead, n), n) + if j < Player(dead, n) then 1 else 0
  {
    var a, x, y := |Alive(dead)|, TurnOf(|Alive(dead)|, n), |AliveUpTo(dead, j)|;
    AliveAt(dead, j);
    TurnOfIsMod(a, n);
    TurnsTakenIsShare(dead, x, n);
    TurnsTakenIsShare(dead, y, n);
    if y < x {
      AliveUpToSorted(dead, |dead|, y, x);
    } else if x < y {
      AliveUpToSorted(dead, |dead|, x, y);
    }
  }

  /** What is owned when turn `n` comes was due earlier than what turn `n` gives. */
  lemma EarlierThanTurn(m: nat, prefs: seq<Preference>, dead: seq<bool>, n: nat, j: nat, s: nat)
    requires Playable(m, prefs, dead) && n <= m && Owns(m, prefs, Fill(m, prefs, dead, n), j, s)
    ensures Earlier(OwnedBefore(m, Fill(m, prefs, dead, n), prefs[j], j, s), j,
                    TurnsTaken(dead, Player(dead, n), n), Player(dead, n))
  {
    var t := Fill(m, prefs, dead, n);
    OwnersAreLive(m, prefs, dead, n, Slot(m, prefs[j], s));
    CountIsTurns(m, prefs, dead, n, j);
    CountMonotone(m, t, prefs[j], j, s, m);
    TurnsSoFar(dead, n, j);
  }

  /** In a stable table, nobody owns a choice behind a free one. */
  lemma OwnedBeforeFree(m: nat, prefs: seq<Preference>, t: Table, i: nat, r: nat, f: nat)
    requires AllFit(m, prefs) && |t| == m && Stable(m, prefs, t) && Owns(m, prefs, t, i, r) && t[Slot(m, prefs[i], f)] < 0
    ensures r < f
  {
    assert Justified(m, prefs, t, i, r, f) || r <= f;
  }

  /** Turn `n`: table `t` becomes `t'` by backend `i`'s claim of its choice `f`. */
  ghost predicate IsTurn(m: nat, prefs: seq<Preference>, dead: seq<bool>, n: nat, t: Table, i: nat, f: nat, t': Table) {
    && Playable(m, prefs, dead) && n < m && t == Fill(m, prefs, dead, n) && t' == Fill(m, prefs, dead, n + 1)
    && i == Player(dead, n) && f < m && TakenBefore(m, t, prefs[i], f) && t[Slot(m, prefs[i], f)] < 0
    && t' == t[Slot(m, prefs[i], f) := i]
  }

  lemma TheTurn(m: nat, prefs: seq<Preference>, dead: seq<bool>, n: nat) returns (t: Table, i: nat, f: nat, t': Table)
    requires Playable(m, prefs, dead) && n < m
    ensures IsTurn(m, prefs, dead, n, t, i, f, t')
  {
    t, i, t' := Fill(m, prefs, dead, n), Player(dead, n), Fill(m, prefs, dead, n + 1);
    assert Fits(m, prefs[i]);
    f := FirstFree(m, t, prefs[i]);
  }

  /** Counts for what was owned before the turn stay. */
  lemma CountKept(m: nat, prefs: seq<Preference>, dead: seq<bool>, n: nat, t: Table, i: nat, f: nat, t': Table, j: nat, s: nat)
    requires IsTurn(m, prefs, dead, n, t, i, f, t') && Stable(m, prefs, t) && Owns(m, prefs, t, j, s)
    ensures OwnedBefore(m, t', prefs[j], j, s) == OwnedBefore(m, t, prefs[j], j, s)
  {
    CountAfterClaim(m, t, prefs[i], f, i, prefs[j], j, s);
    if j == i {
      OwnedBeforeFree(m, prefs, t, i, s, f);
    }
  }

  lemma KeptJustified(m: nat, prefs: seq<Preference>, dead: seq<bool>, n: nat, t: Table, i: nat, f: nat, t': Table,
                      j: nat, r: nat, r': nat)
    requires IsTurn(m, prefs, dead, n, t, i, f, t') && Stable(m, prefs, t) && Owns(m, prefs, t, j, r) && r' < r
    ensures Justified(m, prefs, t', j, r, r')
  {
    assert Justified(m, prefs, t, j, r, r');
    var d := Slot(m, prefs[j], r');
    var o := t[d];
    CountKept(m, prefs, dead, n, t, i, f, t', j, r);
    forall s: nat | s < m && Slot(m, prefs[o], s) == d
      ensures Earlier(OwnedBefore(m, t', prefs[o], o, s), o, OwnedBefore(m, t', prefs[j], j, r), j)
    {
      CountKept(m, prefs, dead, n, t, i, f, t', o, s);
    }
  }

  lemma ClaimJustified(m: nat, prefs: seq<Preference>, dead: seq<bool>, n: nat, t: Table, i: nat, f: nat, t': Table, r': nat)
    requires IsTurn(m, prefs, dead, n, t, i, f, t') && Stable(m, prefs, t) && r' < f
    ensures Justified(m, prefs, t', i, f, r')
  {
    var d := Slot(m, prefs[i], r');
    assert Taken(m, t, prefs[i], r');
    OwnersAreLive(m, prefs, dead, n, d);
    var o := t[d];
    ClaimCount(m, prefs, dead, n, t, i, f, t');
    forall s: nat | s < m && Slot(m, prefs[o], s) == d
      ensures Earlier(OwnedBefore(m, t', prefs[o], o, s), o, OwnedBefore(m, t', prefs[i], i, f), i)
    {
      CountKept(m, prefs, dead, n, t, i, f, t', o, s);
      EarlierThanTurn(m, prefs, dead, n, o, s);
    }
  }

  /** The claimed slot is number `k` of its owner's, if `k` turns came before. */
  lemma ClaimCount(m: nat, prefs: seq<Preference>, dead: seq<bool>, n: nat, t: Table, i: nat, f: nat, t': Table)
    requires IsTurn(m, prefs, dead, n, t, i, f, t') && Stable(m, prefs, t)
    ensures OwnedBefore(m, t', prefs[i], i, f) == TurnsTaken(dead, i, n)
  {
    forall s: nat | f <= s < m
      ensures t[Slot(m, prefs[i], s)] != i
    {
      if t[Slot(m, prefs[i], s)] == i {
        OwnedBeforeFree(m, prefs, t, i, s, f);
      }
    }
    CountStops(m, t, prefs[i], i, f, m);
    CountIsTurns(m, prefs, dead, n, i);
    CountAfterClaim(m, t, prefs[i], f, i, prefs[i], i, f);
  }

  lemma TurnKeepsStable(m: nat, prefs: seq<Preference>, dead: seq<bool>, n: nat)
    requires Playable(m, prefs, dead) && n < m && Stable(m, prefs, Fill(m, prefs, dead, n))
    ensures Stable(m, prefs, Fill(m, prefs, dead, n + 1))
  {
    var t, i, f, t' := TheTurn(m, prefs, dead, n);
    forall j: nat, r: nat, r': nat | Owns(m, prefs, t', j, r) && r' < r
      ensures Justified(m, prefs, t', j, r, r')
    {
      if Slot(m, prefs[j], r) == Slot(m, prefs[i], f) {
        ChoicesArePermutation(m, prefs[i], Slot(m, prefs[i], f));
        ClaimJustified(m, prefs, dead, n, t, i, f, t', r');
      } else {
        KeptJustified(m, prefs, dead, n, t, i, f, t', j, r, r');
      }
    }
  }

  ghost predicate StableUpTo(m: nat, prefs: seq<Preference>, dead: seq<bool>, n: nat)
    requires Playable(m, prefs, dead) && n <= m
  {
    Stable(m, prefs, Fill(m, prefs, dead, n)) && (n > 0 ==> StableUpTo(m, prefs, dead, n - 1))
  }

  /** The table is stable at every turn of the game. */
  lemma {:induction false} FillIsStable(m: nat, prefs: seq<Preference>, dead: seq<bool>, n: nat)
    requires Playable(m, prefs, dead) && n <= m
    ensures StableUpTo(m, prefs, dead, n)
  {
    if n > 0 {
      FillIsStable(m, prefs, dead, n - 1);
      TurnKeepsStable(m, prefs, dead, n - 1);
    } else {
      NothingOwned(m, prefs, dead);
    }
  }

  lemma NothingOwned(m: nat, prefs: seq<Preference>, dead: seq<bool>)
    requires Playable(m, prefs, dead)
    ensures Stable(m, prefs, Fill(m, prefs, dead, 0))
  {
    var u := Fill(m, prefs, dead, 0);
    assert forall c :: 0 <= c < m ==> u[c] == -1;
  }

  // ---------- and no other table is ----------

  /** Every slot has a live owner, and the shares of the live backends differ by at most one slot,
      in favour of the first. */
  ghost predicate Fair(m: nat, dead: seq<bool>, t: Table)
    requires |t| == m && Alive(dead) != []
  {
    && (forall c :: 0 <= c < m ==> Live(dead, t[c]))
    && forall x: nat :: x < |Alive(dead)| ==> |Owned(t, Alive(dead)[x])| == Share(|Alive(dead)|, x, m)
  }

  ghost function OwnedAmong(m: nat, t: Table, p: Preference, i: nat, r: nat): set<nat>
    requires Fits(m, p) && |t| == m
  {
    if r == 0 then {}
    else if t[Slot(m, p, r - 1)] == i then OwnedAmong(m, t, p, i, r - 1) + {Slot(m, p, r - 1)}
    else OwnedAmong(m, t, p, i, r - 1)
  }

  lemma {:induction false} AmongOwned(m: nat, t: Table, p: Preference, i: nat, r: nat, s: nat)
    requires Fits(m, p) && |t| == m && s < r && t[Slot(m, p, s)] == i
    ensures Slot(m, p, s) in OwnedAmong(m, t, p, i, r)
  {
    if s < r - 1 {
      AmongOwned(m, t, p, i, r - 1, s);
    }
  }

  lemma {:induction false} RankAmong(m: nat, t: Table, p: Preference, i: nat, r: nat, c: nat) returns (s: nat)
    requires Fits(m, p) && |t| == m && c in OwnedAmong(m, t, p, i, r)
    ensures s < r && Slot(m, p, s) == c && t[c] == i
  {
    s := r - 1;
    if c in OwnedAmong(m, t, p, i, r - 1) {
      s := RankAmong(m, t, p, i, r - 1, c);
    }
  }

  lemma NextIsNew(m: nat, t: Table, p: Preference, i: nat, r: nat)
    requires Usable(m, p) && |t| == m && r < m
    ensures Slot(m, p, r) !in OwnedAmong(m, t, p, i, r)
  {
    if Slot(m, p, r) in OwnedAmong(m, t, p, i, r) {
      var s := RankAmong(m, t, p, i, r, Slot(m, p, r));
      ChoicesArePermutation(m, p, Slot(m, p, r));
    }
  }

  lemma {:induction false} OwnedAmongCount(m: nat, t: Table, p: Preference, i: nat, r: nat)
    requires Usable(m, p) && |t| == m && r <= m
    ensures |OwnedAmong(m, t, p, i, r)| == OwnedBefore(m, t, p, i, r)
  {
    if r > 0 {
      OwnedAmongCount(m, t, p, i, r - 1);
      NextIsNew(m, t, p, i, r - 1);
    }
  }

  /** Counting over all choices counts all slots. */
  lemma CountIsOwned(m: nat, t: Table, p: Preference, i: nat)
    requires Usable(m, p) && |t| == m
    ensures OwnedBefore(m, t, p, i, m) == |Owned(t, i)|
  {
    OwnedAmongCount(m, t, p, i, m);
    forall c: nat
      ensures c in Owned(t, i) <==> c in OwnedAmong(m, t, p, i, m)
    {
      if c in OwnedAmong(m, t, p, i, m) {
        var s := RankAmong(m, t, p, i, m, c);
      }
      if c in Owned(t, i) {
        ChoicesArePermutation(m, p, c);
        var s: nat :| s < m && Slot(m, p, s) == c;
        AmongOwned(m, t, p, i, m, s);
      }
    }
    assert Owned(t, i) == OwnedAmong(m, t, p, i, m);
  }

  /** Turn `n` has come: `u` holds, of the fair and stable table `t`, just the slots that were due before it. */
  ghost predicate Agrees(m: nat, prefs: seq<Preference>, dead: seq<bool>, t: Table, n: nat, u: Table)
    requires AllFit(m, prefs) && Alive(dead) != [] && |t| == |u| == m
  {
    && (forall c :: 0 <= c < m && u[c] >= 0 ==> t[c] == u[c])
    && forall j: nat, s: nat :: Owns(m, prefs, t, j, s) ==>
         (u[Slot(m, prefs[j], s)] >= 0 <==> OwnedBefore(m, t, prefs[j], j, s) < TurnsTaken(dead, j, n))
  }

  lemma FairTurns(m: nat, prefs: seq<Preference>, dead: seq<bool>, t: Table, i: nat)
    requires Playable(m, prefs, dead) && |t| == m && Fair(m, dead, t) && Live(dead, i)
    ensures Fits(m, prefs[i]) && OwnedBefore(m, t, prefs[i], i, m) == TurnsTaken(dead, i, m)
  {
    assert Fits(m, prefs[i]);
    AliveAt(dead, i);
    CountIsOwned(m, t, prefs[i], i);
    TurnsTakenIsShare(dead, |AliveUpTo(dead, i)|, m);
  }

  lemma {:induction false} TurnsGrow(dead: seq<bool>, i: nat, n: nat, n': nat)
    requires Alive(dead) != [] && n < n' && Player(dead, n) == i
    ensures TurnsTaken(dead, i, n) < TurnsTaken(dead, i, n')
    decreases n'
  {
    if n + 1 < n' {
      TurnsGrow(dead, i, n, n' - 1);
    }
  }

  /** The slot that turn `n` gives in table `t` is the one that the game gives. */
  lemma SameClaim(m: nat, prefs: seq<Preference>, dead: seq<bool>, t: Table, n: nat, u: Table, i: nat, f: nat, u': Table) returns (r: nat)
    requires IsTurn(m, prefs, dead, n, u, i, f, u')
    requires |t| == m && Fair(m, dead, t) && Stable(m, prefs, t) && Agrees(m, prefs, dead, t, n, u)
    ensures r == f && Owns(m, prefs, t, i, r) && OwnedBefore(m, t, prefs[i], i, r) == TurnsTaken(dead, i, n)
  {
    FairTurns(m, prefs, dead, t, i);
    TurnsGrow(dead, i, n, m);
    r := CountReaches(m, t, prefs[i], i, m, TurnsTaken(dead, i, n));
    assert Owns(m, prefs, t, i, r);
    assert Taken(m, u, prefs[i], r) <==> u[Slot(m, prefs[i], r)] >= 0;
    if f < r {
      DueBefore(m, prefs, dead, t, n, u, i, r, f);
    }
  }

  /** What backend `i` prefers to its next slot in `t` is already taken. */
  lemma DueBefore(m: nat, prefs: seq<Preference>, dead: seq<bool>, t: Table, n: nat, u: Table, i: nat, r: nat, r': nat)
    requires Playable(m, prefs, dead) && |t| == |u| == m && Fair(m, dead, t) && Stable(m, prefs, t)
    requires Agrees(m, prefs, dead, t, n, u) && i == Player(dead, n) && r' < r
    requires Owns(m, prefs, t, i, r) && OwnedBefore(m, t, prefs[i], i, r) == TurnsTaken(dead, i, n)
    ensures u[Slot(m, prefs[i], r')] >= 0
  {
    assert Justified(m, prefs, t, i, r, r');
    var d := Slot(m, prefs[i], r');
    var j := t[d];
    assert Fits(m, prefs[j]);
    ChoicesArePermutation(m, prefs[j], d);
    var s: nat :| s < m && Slot(m, prefs[j], s) == d;
    assert Owns(m, prefs, t, j, s);
    TurnsSoFar(dead, n, j);
  }

  lemma TurnAgreesAt(m: nat, prefs: seq<Preference>, dead: seq<bool>, t: Table, n: nat, u: Table, i: nat, f: nat, u': Table,
                     j: nat, s: nat)
    requires IsTurn(m, prefs, dead, n, u, i, f, u') && |t| == m && Agrees(m, prefs, dead, t, n, u)
    requires Owns(m, prefs, t, i, f) && OwnedBefore(m, t, prefs[i], i, f) == TurnsTaken(dead, i, n)
    requires Owns(m, prefs, t, j, s)
    ensures u'[Slot(m, prefs[j], s)] >= 0 <==> OwnedBefore(m, t, prefs[j], j, s) < TurnsTaken(dead, j, n + 1)
  {
    if j == i && s < f {
      CountMonotone(m, t, prefs[i], i, s, f);
    } else if j == i && f < s {
      CountMonotone(m, t, prefs[i], i, f, s);
      ChoicesArePermutation(m, prefs[i], Slot(m, prefs[i], f));
    }
  }

  lemma TurnAgrees(m: nat, prefs: seq<Preference>, dead: seq<bool>, t: Table, n: nat)
    requires Playable(m, prefs, dead) && n < m
    requires |t| == m && Fair(m, dead, t) && Stable(m, prefs, t) && Agrees(m, prefs, dead, t, n, Fill(m, prefs, dead, n))
    ensures Agrees(m, prefs, dead, t, n + 1, Fill(m, prefs, dead, n + 1))
  {
    var u, i, f, u' := TheTurn(m, prefs, dead, n);
    var r := SameClaim(m, prefs, dead, t, n, u, i, f, u');
    forall j: nat, s: nat | Owns(m, prefs, t, j, s)
      ensures u'[Slot(m, prefs[j], s)] >= 0 <==> OwnedBefore(m, t, prefs[j], j, s) < TurnsTaken(dead, j, n + 1)
    {
      TurnAgreesAt(m, prefs, dead, t, n, u, i, f, u', j, s);
    }
  }

  lemma NothingYet(m: nat, prefs: seq<Preference>, dead: seq<bool>, t: Table)
    requires Playable(m, prefs, dead) && |t| == m
    ensures Agrees(m, prefs, dead, t, 0, Fill(m, prefs, dead, 0))
  {
    var u := Fill(m, prefs, dead, 0);
    assert forall c :: 0 <= c < m ==> u[c] == -1;
    assert forall j: nat :: TurnsTaken(dead, j, 0) == 0;
  }

  /** Table `t` agrees with the game at every turn up to `n`. */
  ghost predicate AgreesUpTo(m: nat, prefs: seq<Preference>, dead: seq<bool>, t: Table, n: nat)
    requires Playable(m, prefs, dead) && |t| == m && n <= m
  {
    Agrees(m, prefs, dead, t, n, Fill(m, prefs, dead, n)) && (n > 0 ==> AgreesUpTo(m, prefs, dead, t, n - 1))
  }

  lemma {:induction false} FillAgrees(m: nat, prefs: seq<Preference>, dead: seq<bool>, t: Table, n: nat)
    requires Playable(m, prefs, dead) && n <= m && |t| == m && Fair(m, dead, t) && Stable(m, prefs, t)
    ensures AgreesUpTo(m, prefs, dead, t, n)
  {
    if n == 0 {
      NothingYet(m, prefs, dead, t);
    } else {
      FillAgrees(m, prefs, dead, t, n - 1);
      TurnAgrees(m, prefs, dead, t, n - 1);
    }
  }

  lemma LookupTableIsFair(m: nat, prefs: seq<Preference>, dead: seq<bool>)
    requires Playable(m, prefs, dead)
    ensures Fair(m, dead, LookupTable(m, prefs, dead))
  {
    var t := LookupTable(m, prefs, dead);
    forall c: nat | c < m
      ensures Live(dead, t[c])
    {
      TableIsFull(m, prefs, dead, c);
    }
    forall x: nat | x < |Alive(dead)|
      ensures |Owned(t, Alive(dead)[x])| == Share(|Alive(dead)|, x, m)
    {
      AliveUpToLive(dead, |dead|, x);
      FillShares(m, prefs, dead, m, Alive(dead)[x]);
      TurnsTakenIsShare(dead, x, m);
    }
  }

  /** The lookup table is the one and only fair and stable table: what the population computes turn
      by turn is determined by what each backend may claim. */
  lemma FairAndStableIffLookupTable(m: nat, prefs: seq<Preference>, dead: seq<bool>, t: Table)
    requires Playable(m, prefs, dead) && |t| == m
    ensures t == LookupTable(m, prefs, dead) <==> Fair(m, dead, t) && Stable(m, prefs, t)
  {
    LookupTableIsFair(m, prefs, dead);
    FillIsStable(m, prefs, dead, m);
    if Fair(m, dead, t) && Stable(m, prefs, t) {
      FillAgrees(m, prefs, dead, t, m);
      forall c: nat | c < m
        ensures t[c] == LookupTable(m, prefs, dead)[c]
      {
        TableIsFull(m, prefs, dead, c);
      }
    }
  }
}
