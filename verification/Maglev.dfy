/** The lookup table of section 3.4 of the Maglev paper (NSDI 2016), stated without cursors:
    the backends take turns, and each turn claims the most preferred slot that is still free. */
module Maglev {
  import opened NumberTheory

  /** A backend prefers slot `offset` first, then goes on in steps of `skip`. */
  datatype Preference = Preference(offset: nat, skip: nat)

  /** A table maps each slot to its owner; a negative owner means the slot is free. */
  type Table = seq<int>

  predicate Fits(m: nat, p: Preference) {
    p.offset < m && 0 < p.skip < m
  }

  ghost predicate Usable(m: nat, p: Preference) {
    Prime(m) && Fits(m, p)
  }

  predicate AllFit(m: nat, prefs: seq<Preference>) {
    forall i :: 0 <= i < |prefs| ==> Fits(m, prefs[i])
  }

  /** The `j`-th choice of a backend, by the cursor's own step: add `skip`, wrap around once. */
  function Slot(m: nat, p: Preference, j: nat): (c: nat)
    requires p.offset < m && p.skip < m
    ensures c < m
  {
    if j == 0 then p.offset
    else
      var c := Slot(m, p, j - 1) + p.skip;
      if c >= m then c - m else c
  }

  /** The permutation of the paper: choice `j` is slot (offset + j * skip) mod m. */
  lemma {:induction false} SlotClosedForm(m: nat, p: Preference, j: nat)
    requires p.offset < m && p.skip < m
    ensures Slot(m, p, j) == Pos(m, p.offset, p.skip, j)
  {
    if j == 0 {
      ModUnique(p.offset, m, 0, p.offset);
    } else {
      SlotClosedForm(m, p, j - 1);
      PosStep(m, p.offset, p.skip, j - 1);
    }
  }

  /** The first `m` choices of a backend are a permutation of the slots. */
  lemma ChoicesArePermutation(m: nat, p: Preference, c: nat)
    requires Usable(m, p) && c < m
    ensures exists j: nat :: j < m && Slot(m, p, j) == c
    ensures forall i: nat, j: nat :: i < m && j < m && Slot(m, p, i) == c && Slot(m, p, j) == c ==> i == j
  {
    OrbitIsPermutation(m, p.offset, p.skip, c);
    var j: nat :| j < m && Pos(m, p.offset, p.skip, j) == c;
    SlotClosedForm(m, p, j);
    forall i: nat, j: nat | i < m && j < m && Slot(m, p, i) == c && Slot(m, p, j) == c
      ensures i == j
    {
      SlotClosedForm(m, p, i);
      SlotClosedForm(m, p, j);
    }
  }

  ghost function FreeSlots(t: Table): set<nat> {
    set c: nat | c < |t| && t[c] < 0
  }

  ghost function Owned(t: Table, i: nat): set<nat> {
    set c: nat | c < |t| && t[c] == i
  }

  // ---------- one turn ----------

  /** The `j`-th choice of `p` is taken. */
  ghost predicate Taken(m: nat, t: Table, p: Preference, j: nat)
    requires Fits(m, p) && |t| == m
  {
    t[Slot(m, p, j)] >= 0
  }

  /** Every slot that `p` prefers to its `k`-th choice is taken. */
  ghost predicate TakenBefore(m: nat, t: Table, p: Preference, k: nat)
    requires Fits(m, p) && |t| == m
  {
    forall j: nat :: j < k ==> Taken(m, t, p, j)
  }

  /** The rank of the free slot that `p` prefers most. */
  ghost function FirstFree(m: nat, t: Table, p: Preference): (k: nat)
    requires Usable(m, p) && |t| == m && FreeSlots(t) != {}
    ensures k < m && t[Slot(m, p, k)] < 0 && TakenBefore(m, t, p, k)
  {
    SomeRankIsFree(m, t, p);
    FirstFreeFrom(m, t, p, 0)
  }

  ghost function FirstFreeFrom(m: nat, t: Table, p: Preference, k: nat): (r: nat)
    requires Usable(m, p) && |t| == m && k < m && TakenBefore(m, t, p, k)
    requires exists j: nat :: j < m && t[Slot(m, p, j)] < 0
    ensures r < m && t[Slot(m, p, r)] < 0 && TakenBefore(m, t, p, r)
    decreases m - k
  {
    if t[Slot(m, p, k)] < 0 then k
    else
      var j: nat :| j < m && t[Slot(m, p, j)] < 0;
      assert j < k ==> Taken(m, t, p, j);
      assert k < j;
      FirstFreeFrom(m, t, p, k + 1)
  }

  lemma SomeRankIsFree(m: nat, t: Table, p: Preference)
    requires Usable(m, p) && |t| == m && FreeSlots(t) != {}
    ensures exists j: nat :: j < m && t[Slot(m, p, j)] < 0
  {
    var c :| c in FreeSlots(t);
    ChoicesArePermutation(m, p, c);
    var j: nat :| j < m && Slot(m, p, j) == c;
    assert t[Slot(m, p, j)] < 0;
  }

  ghost function Claim(m: nat, t: Table, p: Preference, i: nat): (t': Table)
    requires Usable(m, p) && |t| == m && FreeSlots(t) != {}
    ensures |t'| == m
  {
    t[Slot(m, p, FirstFree(m, t, p)) := i]
  }

  /** A turn fills one free slot and takes nothing away from anybody. */
  lemma ClaimEffect(m: nat, t: Table, p: Preference, i: nat)
    requires Usable(m, p) && |t| == m && FreeSlots(t) != {}
    ensures var t' := Claim(m, t, p, i);
            && |FreeSlots(t')| == |FreeSlots(t)| - 1
            && |Owned(t', i)| == |Owned(t, i)| + 1
            && forall k: nat :: k != i ==> Owned(t', k) == Owned(t, k)
  {
    var c := Slot(m, p, FirstFree(m, t, p));
    var t' := Claim(m, t, p, i);
    assert FreeSlots(t) == FreeSlots(t') + {c};
    assert Owned(t', i) == Owned(t, i) + {c};
    forall k: nat | k != i
      ensures Owned(t', k) == Owned(t, k)
    {
      assert forall d: nat :: d in Owned(t', k) <==> d in Owned(t, k);
    }
  }

  /** A claim leaves every passed slot passed, and passes the claimed one for its owner. */
  lemma ClaimKeepsTaken(m: nat, t: Table, p: Preference, i: nat, q: Preference, k: nat)
    requires Usable(m, p) && Usable(m, q) && |t| == m && FreeSlots(t) != {}
    requires TakenBefore(m, t, q, k)
    ensures TakenBefore(m, Claim(m, t, p, i), q, k)
    ensures TakenBefore(m, Claim(m, t, p, i), p, FirstFree(m, t, p) + 1)
  {
    var t', free := Claim(m, t, p, i), FirstFree(m, t, p);
    forall j: nat | j < k
      ensures Taken(m, t', q, j)
    {
      assert Taken(m, t, q, j);
    }
    forall j: nat | j < free + 1
      ensures Taken(m, t', p, j)
    {
      assert j < free ==> Taken(m, t, p, j);
    }
  }

  // ---------- whose turn it is ----------

  /** A destination that may receive traffic. Index 0 is the balancer itself. */
  predicate Live(dead: seq<bool>, i: int) {
    1 <= i < |dead| && !dead[i]
  }

  /** The live backends among 1..k-1, in index order. */
  function AliveUpTo(dead: seq<bool>, k: nat): (alive: seq<nat>)
    requires k <= |dead|
  {
    if k <= 1 then []
    else if dead[k - 1] then AliveUpTo(dead, k - 1)
    else AliveUpTo(dead, k - 1) + [k - 1]
  }

  function Alive(dead: seq<bool>): seq<nat> {
    AliveUpTo(dead, |dead|)
  }

  lemma {:induction false} AliveUpToLive(dead: seq<bool>, k: nat, x: nat)
    requires k <= |dead| && x < |AliveUpTo(dead, k)|
    ensures Live(dead, AliveUpTo(dead, k)[x]) && AliveUpTo(dead, k)[x] < k
  {
    if dead[k - 1] || x < |AliveUpTo(dead, k - 1)| {
      AliveUpToLive(dead, k - 1, x);
    }
  }

  lemma {:induction false} AliveUpToSorted(dead: seq<bool>, k: nat, x: nat, y: nat)
    requires k <= |dead| && x < y < |AliveUpTo(dead, k)|
    ensures AliveUpTo(dead, k)[x] < AliveUpTo(dead, k)[y]
  {
    if dead[k - 1] || y < |AliveUpTo(dead, k - 1)| {
      AliveUpToSorted(dead, k - 1, x, y);
    } else {
      AliveUpToLive(dead, k - 1, x);
    }
  }

  lemma {:induction false} AliveUpToPrefix(dead: seq<bool>, k: nat, k': nat)
    requires k <= k' <= |dead|
    ensures AliveUpTo(dead, k) <= AliveUpTo(dead, k')
    decreases k' - k
  {
    if k < k' {
      AliveUpToPrefix(dead, k, k' - 1);
    }
  }

  /** Live backend `i` is listed right after the live backends before it. */
  lemma AliveAt(dead: seq<bool>, i: nat)
    requires Live(dead, i)
    ensures |AliveUpTo(dead, i)| < |Alive(dead)| && Alive(dead)[|AliveUpTo(dead, i)|] == i
  {
    AliveUpToPrefix(dead, i + 1, |dead|);
    assert AliveUpTo(dead, i + 1) == AliveUpTo(dead, i) + [i];
  }

  /** Which of `a` players has turn `n`: the turns go round and round. */
  function TurnOf(a: nat, n: nat): (x: nat)
    requires a > 0
    ensures x < a
    decreases n
  {
    if n < a then n else TurnOf(a, n - a)
  }

  lemma {:induction false} TurnOfIsMod(a: nat, n: nat)
    requires a > 0
    ensures TurnOf(a, n) == n % a
    decreases n
  {
    if n < a {
      ModUnique(n, a, 0, n);
    } else {
      TurnOfIsMod(a, n - a);
      ModAddMultiple(n - a, 1, a);
    }
  }

  lemma {:induction false} TurnOfInRound(a: nat, start: nat, x: nat)
    requires a > 0 && TurnOf(a, start) == 0 && x <= a
    ensures TurnOf(a, start + x) == if x < a then x else 0
    decreases start
  {
    if start >= a {
      TurnOfInRound(a, start - a, x);
    }
  }

  /** The backend that plays turn `n`. */
  function Player(dead: seq<bool>, n: nat): (i: nat)
    requires Alive(dead) != []
    ensures Live(dead, i)
  {
    var x := TurnOf(|Alive(dead)|, n);
    AliveUpToLive(dead, |dead|, x);
    Alive(dead)[x]
  }

  ghost predicate RoundStarts(dead: seq<bool>, n: nat) {
    Alive(dead) != [] && TurnOf(|Alive(dead)|, n) == 0
  }

  /** In the round that starts at turn `start`, live backend `i` plays after those before it. */
  lemma TurnOrder(dead: seq<bool>, start: nat, i: nat, n: nat)
    requires RoundStarts(dead, start) && Live(dead, i)
    requires n == start + |AliveUpTo(dead, i)|
    ensures i == Player(dead, n)
  {
    AliveAt(dead, i);
    TurnOfInRound(|Alive(dead)|, start, |AliveUpTo(dead, i)|);
  }

  lemma RoundEnds(dead: seq<bool>, start: nat)
    requires RoundStarts(dead, start)
    ensures RoundStarts(dead, start + |Alive(dead)|)
  {
  }

  // ---------- the whole table ----------

  ghost predicate Playable(m: nat, prefs: seq<Preference>, dead: seq<bool>) {
    Prime(m) && AllFit(m, prefs) && |dead| == |prefs| && Alive(dead) != []
  }

  /** The table after `n` turns. */
  ghost function Fill(m: nat, prefs: seq<Preference>, dead: seq<bool>, n: nat): (t: Table)
    requires Playable(m, prefs, dead) && n <= m
    ensures |t| == m && |FreeSlots(t)| == m - n
  {
    if n == 0 then
      var t := seq(m, _ => -1);
      assert FreeSlots(t) == Below(m);
      t
    else
      var t := Fill(m, prefs, dead, n - 1);
      var i := Player(dead, n - 1);
      assert Fits(m, prefs[i]);
      ClaimEffect(m, t, prefs[i], i);
      Claim(m, t, prefs[i], i)
  }

  /** Table `n + 1` of a game follows from table `n` by one turn. */
  ghost predicate Follows(m: nat, prefs: seq<Preference>, dead: seq<bool>, game: seq<Table>, n: nat)
    requires Playable(m, prefs, dead) && n + 1 < |game|
  {
    && |game[n]| == m && FreeSlots(game[n]) != {}
    && (var i := Player(dead, n); Fits(m, prefs[i]) && game[n + 1] == Claim(m, game[n], prefs[i], i))
  }

  /** A whole game: the empty table, then one table after each turn. */
  ghost predicate IsGame(m: nat, prefs: seq<Preference>, dead: seq<bool>, game: seq<Table>)
    requires Playable(m, prefs, dead)
  {
    && |game| == m + 1
    && game[0] == seq(m, _ => -1)
    && forall n {:trigger Follows(m, prefs, dead, game, n)} :: 0 <= n < m ==> Follows(m, prefs, dead, game, n)
  }

  lemma TheGame(m: nat, prefs: seq<Preference>, dead: seq<bool>) returns (game: seq<Table>)
    requires Playable(m, prefs, dead)
    ensures IsGame(m, prefs, dead, game)
    ensures game[m] == LookupTable(m, prefs, dead)
  {
    game := seq(m + 1, n requires 0 <= n <= m => Fill(m, prefs, dead, n));
    forall n | 0 <= n < m
      ensures Follows(m, prefs, dead, game, n)
    {
      assert |FreeSlots(game[n])| > 0;
      assert Fits(m, prefs[Player(dead, n)]);
      assert Fill(m, prefs, dead, n + 1) == game[n + 1];
    }
  }

  ghost function LookupTable(m: nat, prefs: seq<Preference>, dead: seq<bool>): (t: Table)
    requires Playable(m, prefs, dead)
    ensures |t| == m
  {
    Fill(m, prefs, dead, m)
  }

  lemma {:induction false} OwnersAreLive(m: nat, prefs: seq<Preference>, dead: seq<bool>, n: nat, c: nat)
    requires Playable(m, prefs, dead) && n <= m && c < m
    ensures var owner := Fill(m, prefs, dead, n)[c]; owner < 0 || Live(dead, owner)
  {
    if n > 0 {
      OwnersAreLive(m, prefs, dead, n - 1, c);
      assert Fits(m, prefs[Player(dead, n - 1)]);
    }
  }

  /** Population ends with a full table: every slot belongs to a live backend of index 1 or more. */
  lemma TableIsFull(m: nat, prefs: seq<Preference>, dead: seq<bool>, c: nat)
    requires Playable(m, prefs, dead) && c < m
    ensures Live(dead, LookupTable(m, prefs, dead)[c])
  {
    var t := LookupTable(m, prefs, dead);
    assert FreeSlots(t) == {};
    assert c !in FreeSlots(t);
    OwnersAreLive(m, prefs, dead, m, c);
  }

  /** Nobody loses a slot. */
  lemma {:induction false} OwnersStay(m: nat, prefs: seq<Preference>, dead: seq<bool>, n: nat, n': nat, c: nat)
    requires Playable(m, prefs, dead) && n <= n' <= m && c < m && Fill(m, prefs, dead, n)[c] >= 0
    ensures Fill(m, prefs, dead, n')[c] == Fill(m, prefs, dead, n)[c]
    decreases n'
  {
    if n < n' {
      OwnersStay(m, prefs, dead, n, n' - 1, c);
      assert Fits(m, prefs[Player(dead, n' - 1)]);
    }
  }

  /** Within the first round, only backends whose turn is over own anything. */
  lemma {:induction false} OwnersHavePlayed(m: nat, prefs: seq<Preference>, dead: seq<bool>, n: nat, c: nat)
    requires Playable(m, prefs, dead) && n <= m && n <= |Alive(dead)| && c < m
    ensures Fill(m, prefs, dead, n)[c] < 0 || Fill(m, prefs, dead, n)[c] in Alive(dead)[..n]
  {
    if n > 0 {
      OwnersHavePlayed(m, prefs, dead, n - 1, c);
      assert Fits(m, prefs[Player(dead, n - 1)]);
      assert Player(dead, n - 1) == Alive(dead)[n - 1];
      assert Alive(dead)[..n] == Alive(dead)[..n - 1] + [Alive(dead)[n - 1]];
    }
  }

  /** A backend whose first choice is free gets it. */
  lemma ClaimsFirstChoice(m: nat, t: Table, p: Preference, i: nat)
    requires Usable(m, p) && |t| == m && FreeSlots(t) != {} && t[p.offset] < 0
    ensures Claim(m, t, p, i)[p.offset] == i
  {
    assert Taken(m, t, p, 0) <==> t[p.offset] >= 0;
  }

  lemma EarlierOwner(m: nat, prefs: seq<Preference>, dead: seq<bool>, i: nat, c: nat)
    requires Playable(m, prefs, dead) && Live(dead, i) && |AliveUpTo(dead, i)| < m && c < m
    ensures var owner := Fill(m, prefs, dead, |AliveUpTo(dead, i)|)[c]; owner < 0 || owner in AliveUpTo(dead, i)
  {
    var n := |AliveUpTo(dead, i)|;
    AliveAt(dead, i);
    AliveUpToPrefix(dead, i, |dead|);
    assert Alive(dead)[..n] == AliveUpTo(dead, i);
    OwnersHavePlayed(m, prefs, dead, n, c);
  }

  lemma FirstTurn(m: nat, prefs: seq<Preference>, dead: seq<bool>, i: nat)
    requires Playable(m, prefs, dead) && Live(dead, i) && |AliveUpTo(dead, i)| < m && Fits(m, prefs[i])
    ensures var owner := Fill(m, prefs, dead, |AliveUpTo(dead, i)| + 1)[prefs[i].offset]; owner == i || owner in AliveUpTo(dead, i)
  {
    var n := |AliveUpTo(dead, i)|;
    EarlierOwner(m, prefs, dead, i, prefs[i].offset);
    AliveAt(dead, i);
    assert Player(dead, n) == i;
    var before := Fill(m, prefs, dead, n);
    if before[prefs[i].offset] < 0 {
      ClaimsFirstChoice(m, before, prefs[i], i);
    }
  }

  lemma ShortGame(m: nat, prefs: seq<Preference>, dead: seq<bool>, i: nat, c: nat)
    requires Playable(m, prefs, dead) && Live(dead, i) && m <= |AliveUpTo(dead, i)| && c < m
    ensures LookupTable(m, prefs, dead)[c] in AliveUpTo(dead, i)
  {
    AliveUpToPrefix(dead, i, |dead|);
    OwnersHavePlayed(m, prefs, dead, m, c);
    TableIsFull(m, prefs, dead, c);
    assert Alive(dead)[..m] == AliveUpTo(dead, i)[..m];
  }

  /** The first choice of a live backend belongs to it or to a live backend before it. */
  lemma FirstChoiceGoes(m: nat, prefs: seq<Preference>, dead: seq<bool>, i: nat)
    requires Playable(m, prefs, dead) && Live(dead, i) && Fits(m, prefs[i])
    ensures var owner := LookupTable(m, prefs, dead)[prefs[i].offset]; owner == i || owner in AliveUpTo(dead, i)
  {
    if m <= |AliveUpTo(dead, i)| {
      ShortGame(m, prefs, dead, i, prefs[i].offset);
    } else {
      FirstTurn(m, prefs, dead, i);
      OwnersStay(m, prefs, dead, |AliveUpTo(dead, i)| + 1, m, prefs[i].offset);
    }
  }

  /** How many of the first `n` turns backend `i` plays. */
  function TurnsTaken(dead: seq<bool>, i: nat, n: nat): nat
    requires Alive(dead) != []
  {
    if n == 0 then 0 else TurnsTaken(dead, i, n - 1) + (if Player(dead, n - 1) == i then 1 else 0)
  }

  lemma {:induction false} FillShares(m: nat, prefs: seq<Preference>, dead: seq<bool>, n: nat, i: nat)
    requires Playable(m, prefs, dead) && n <= m
    ensures |Owned(Fill(m, prefs, dead, n), i)| == TurnsTaken(dead, i, n)
  {
    if n == 0 {
      assert Owned(Fill(m, prefs, dead, 0), i) == {};
    } else {
      FillShares(m, prefs, dead, n - 1, i);
      var p := Player(dead, n - 1);
      assert Fits(m, prefs[p]);
      ClaimEffect(m, Fill(m, prefs, dead, n - 1), prefs[p], p);
    }
  }

  /** Number of the first `n` turns that fall to the `x`-th of `a` players. */
  function Share(a: nat, x: nat, n: nat): nat
    requires x < a
  {
    n / a + (if x < n % a then 1 else 0)
  }

  lemma ShareStep(a: nat, x: nat, n: nat)
    requires x < a
    ensures Share(a, x, n + 1) == Share(a, x, n) + (if TurnOf(a, n) == x then 1 else 0)
  {
    TurnOfIsMod(a, n);
    if n % a == a - 1 {
      ModUnique(n + 1, a, n / a + 1, 0);
    } else {
      ModUnique(n + 1, a, n / a, n % a + 1);
    }
  }

  lemma {:induction false} TurnsTakenIsShare(dead: seq<bool>, x: nat, n: nat)
    requires x < |Alive(dead)|
    ensures TurnsTaken(dead, Alive(dead)[x], n) == Share(|Alive(dead)|, x, n)
  {
    var a := |Alive(dead)|;
    if n == 0 {
      ModUnique(0, a, 0, 0);
    } else {
      TurnsTakenIsShare(dead, x, n - 1);
      ShareStep(a, x, n - 1);
      var y := TurnOf(a, n - 1);
      if y < x {
        AliveUpToSorted(dead, |dead|, y, x);
      } else if x < y {
        AliveUpToSorted(dead, |dead|, x, y);
      }
    }
  }

  /** Population is fair: shares differ by at most one slot, and exactly the first `m % a`
      live backends hold the larger share. The dead and the balancer itself hold nothing. */
  lemma TableIsFair(m: nat, prefs: seq<Preference>, dead: seq<bool>, i: nat)
    requires Playable(m, prefs, dead) && i < |dead|
    ensures var a := |Alive(dead)|; var slots := |Owned(LookupTable(m, prefs, dead), i)|;
            if !Live(dead, i) then slots == 0
            else slots == m / a + (if |AliveUpTo(dead, i)| < m % a then 1 else 0)
  {
    if !Live(dead, i) {
      forall c: nat | c < m
        ensures c !in Owned(LookupTable(m, prefs, dead), i)
      {
        TableIsFull(m, prefs, dead, c);
      }
      assert Owned(LookupTable(m, prefs, dead), i) == {};
    } else {
      AliveAt(dead, i);
      FillShares(m, prefs, dead, m, i);
      TurnsTakenIsShare(dead, |AliveUpTo(dead, i)|, m);
    }
  }
}
