/** The control plane of the load balancer: the cursors that fill the lookup table in place,
    one round of concurrent health checks, and the tick of the main loop. */
module L4lb {
  import opened NumberTheory
  import opened Words
  import opened Maglev
  import opened Stability
  import opened Bindings
  import opened Wrappers

  /** What the balancer derives from the 64-bit SipHash of a destination's address. */
  function PreferenceOf(m: nat, hash: Addr -> nat, e: DestinationEntry): Preference
    requires m > 1
  {
    var h := hash(e.ip) % 0x1_0000_0000_0000_0000;
    Preference(h / 0x1_0000_0000 % m, h % 0x1_0000_0000 % (m - 1) + 1)
  }

  function Preferences(m: nat, hash: Addr -> nat, es: seq<DestinationEntry>): (prefs: seq<Preference>)
    requires m > 1
    ensures |prefs| == |es|
    ensures forall i :: 0 <= i < |es| ==> prefs[i] == PreferenceOf(m, hash, es[i])
  {
    seq(|es|, i requires 0 <= i < |es| => PreferenceOf(m, hash, es[i]))
  }

  lemma PreferencesFit(m: nat, hash: Addr -> nat, es: seq<DestinationEntry>)
    requires Prime(m)
    ensures AllFit(m, Preferences(m, hash, es))
  {
  }

  /** The uint32 entries that a finished table puts into the BPF map. */
  ghost function Installed(m: nat, hash: Addr -> nat, es: seq<DestinationEntry>, dead: seq<bool>): (r: seq<nat>)
    requires Prime(m) && |dead| == |es| && Alive(dead) != []
    ensures |r| == m && AllFit(m, Preferences(m, hash, es))
    ensures r == LookupTable(m, Preferences(m, hash, es), dead)
    ensures forall c :: 0 <= c < m ==> Live(dead, r[c])
  {
    PreferencesFit(m, hash, es);
    var t := LookupTable(m, Preferences(m, hash, es), dead);
    assert forall c: nat :: c < m ==> Live(dead, t[c]) by {
      forall c: nat | c < m
        ensures Live(dead, t[c])
      {
        TableIsFull(m, Preferences(m, hash, es), dead, c);
      }
    }
    seq(m, c requires 0 <= c < m => t[c])
  }

  /** The high and the low half of the 64 bits of a hash. */
  predicate Halves(hash: nat, hi: Word32, lo: Word32) {
    hash % 0x1_0000_0000_0000_0000 == hi * 0x1_0000_0000 + lo
  }

  lemma PreferenceFromHash(m: nat, hash: Addr -> nat, e: DestinationEntry, hi: Word32, lo: Word32)
    requires m > 1 && Halves(hash(e.ip), hi, lo)
    ensures PreferenceOf(m, hash, e) == Preference(hi % m, lo % (m - 1) + 1)
  {
    assert (hi * 0x1_0000_0000 + lo) / 0x1_0000_0000 == hi;
    assert (hi * 0x1_0000_0000 + lo) % 0x1_0000_0000 == lo;
  }

  /** The cursors start where the high half of each hash points, and step by what the low half gives. */
  predicate FromHashes(m: nat, hash: Addr -> nat, es: seq<DestinationEntry>, offsets: seq<nat>, skips: seq<nat>)
    requires m > 1
  {
    && |offsets| == |skips| == |es|
    && forall i, hi: Word32, lo: Word32 :: 0 <= i < |es| && Halves(hash(es[i].ip), hi, lo) ==>
         offsets[i] == hi % m && skips[i] == lo % (m - 1) + 1
  }

  lemma PreferencesFromHashes(m: nat, hash: Addr -> nat, es: seq<DestinationEntry>, offsets: seq<nat>, skips: seq<nat>)
    requires m > 1 && |offsets| == |skips| == |es|
    requires forall i :: 0 <= i < |es| ==> PreferenceOf(m, hash, es[i]) == Preference(offsets[i], skips[i])
    ensures FromHashes(m, hash, es, offsets, skips)
  {
    forall i, hi: Word32, lo: Word32 | 0 <= i < |es| && Halves(hash(es[i].ip), hi, lo)
      ensures offsets[i] == hi % m && skips[i] == lo % (m - 1) + 1
    {
      PreferenceFromHash(m, hash, es[i], hi, lo);
    }
  }

  /** The high half of the hash gives the first choice of a backend, the low half the step from
      there to the others. */
  lemma ChoicesFromHash(m: nat, hash: Addr -> nat, es: seq<DestinationEntry>, i: nat, hi: Word32, lo: Word32, j: nat)
    requires Prime(m) && i < |es| && Halves(hash(es[i].ip), hi, lo)
    ensures Fits(m, Preferences(m, hash, es)[i])
    ensures Slot(m, Preferences(m, hash, es)[i], 0) == hi % m
    ensures Slot(m, Preferences(m, hash, es)[i], j) == Pos(m, hi % m, lo % (m - 1) + 1, j)
  {
    PreferenceFromHash(m, hash, es[i], hi, lo);
    SlotClosedForm(m, Preferences(m, hash, es)[i], j);
  }

  /** In the installed table, the slot that a live backend's hash points to belongs to that backend,
      or to a live one before it in the list; so the first live backend always gets its own. */
  lemma FirstChoiceInstalled(m: nat, hash: Addr -> nat, es: seq<DestinationEntry>, dead: seq<bool>, i: nat, hi: Word32, lo: Word32)
    requires Prime(m) && |dead| == |es| && Live(dead, i) && Halves(hash(es[i].ip), hi, lo)
    ensures Alive(dead) != [] && Live(dead, Installed(m, hash, es, dead)[hi % m]) && Installed(m, hash, es, dead)[hi % m] <= i
    ensures (forall k :: 1 <= k < i ==> dead[k]) ==> Installed(m, hash, es, dead)[hi % m] == i
  {
    AliveAt(dead, i);
    PreferencesFit(m, hash, es);
    ChoicesFromHash(m, hash, es, i, hi, lo, 0);
    FirstChoiceGoes(m, Preferences(m, hash, es), dead, i);
    forall x: nat | x < |AliveUpTo(dead, i)|
      ensures Live(dead, AliveUpTo(dead, i)[x]) && AliveUpTo(dead, i)[x] < i
    {
      AliveUpToLive(dead, i, x);
    }
  }

  /** What is installed depends on the hashes and the dead set alone: it is the one fair and stable table. */
  lemma InstalledIsFairAndStable(m: nat, hash: Addr -> nat, es: seq<DestinationEntry>, dead: seq<bool>, t: Table)
    requires Prime(m) && |dead| == |es| && Alive(dead) != [] && |t| == m
    ensures AllFit(m, Preferences(m, hash, es))
    ensures t == Installed(m, hash, es, dead) <==> Fair(m, dead, t) && Stable(m, Preferences(m, hash, es), t)
  {
    PreferencesFit(m, hash, es);
    FairAndStableIffLookupTable(m, Preferences(m, hash, es), dead, t);
  }

  // ---------- one round of health checks ----------

  /** Where a health-check goroutine stands. The racy append reads the length, then stores length + 1. */
  datatype Progress = Ready | Flipped | Appending(loaded: nat) | Done

  function Left(p: Progress): nat {
    match p
    case Ready => 3
    case Flipped => 2
    case Appending(_) => 1
    case Done => 0
  }

  function TotalLeft(ps: seq<Progress>): nat {
    if ps == [] then 0 else Left(ps[|ps| - 1]) + TotalLeft(ps[..|ps| - 1])
  }

  lemma {:induction false} StepUsesFuel(ps: seq<Progress>, i: nat, p: Progress)
    requires i < |ps| && Left(p) < Left(ps[i])
    ensures TotalLeft(ps[i := p]) < TotalLeft(ps)
  {
    var k := |ps| - 1;
    if i == k {
      assert ps[i := p][..k] == ps[..k];
    } else {
      StepUsesFuel(ps[..k], i, p);
      assert ps[i := p][..k] == ps[..k][i := p];
    }
  }

  /** A destination is dead exactly if its last probe failed; index 0 is never probed. */
  function DeadAfter(dead: seq<bool>, ok: seq<bool>): (r: seq<bool>)
    requires |dead| == |ok|
    ensures |r| == |dead|
    ensures forall i :: 0 <= i < |r| ==> r[i] == if i == 0 then dead[0] else !ok[i]
  {
    seq(|dead|, i requires 0 <= i < |dead| => if i == 0 then dead[0] else !ok[i])
  }

  predicate RoundsFor(start: seq<bool>, rounds: seq<seq<bool>>) {
    forall k :: 0 <= k < |rounds| ==> |rounds[k]| == |start|
  }

  /** The last dead set of a history that left somebody alive. */
  function LastLive(start: seq<bool>, rounds: seq<seq<bool>>): (dead: seq<bool>)
    requires RoundsFor(start, rounds)
    ensures |dead| == |start|
    ensures Alive(start) != [] ==> Alive(dead) != []
  {
    if rounds == [] then start
    else
      var dead := DeadAfter(start, rounds[|rounds| - 1]);
      if Alive(dead) != [] then dead else LastLive(start, rounds[..|rounds| - 1])
  }

  /** Whatever came before the last live round, and however long the outage of every
      destination that followed it, only that round counts. */
  lemma {:induction false} OnlyLastLiveRoundCounts(start: seq<bool>, before: seq<seq<bool>>, live: seq<bool>, outage: seq<seq<bool>>)
    requires |live| == |start| && RoundsFor(start, before) && RoundsFor(start, outage)
    requires Alive(DeadAfter(start, live)) != []
    requires forall k :: 0 <= k < |outage| ==> Alive(DeadAfter(start, outage[k])) == []
    ensures LastLive(start, before + [live] + outage) == DeadAfter(start, live)
  {
    var n := |outage|;
    var rounds := before + [live] + outage;
    if n > 0 {
      assert rounds[..|rounds| - 1] == before + [live] + outage[..n - 1];
      OnlyLastLiveRoundCounts(start, before, live, outage[..n - 1]);
    }
  }

  class Balancer {
    const tableSize: nat
    const dests: seq<DestinationEntry>
    const hash: Addr -> nat
    const maglev: BpfArray<nat>

    var deadDests: seq<bool>
    var offsets: seq<nat>
    var skips: seq<nat>
    ghost var prefs: seq<Preference>  // the permutations that the cursors follow
    ghost var calls: seq<nat>         // calls of NextOffset since the cursors were generated

    ghost predicate Valid()
      reads this`deadDests, maglev
    {
      && Prime(tableSize) && tableSize < 0x8000_0000
      && |deadDests| == |dests|
      && |maglev.entries| == tableSize
    }

    /** The permutations and steps are set up, one for each destination. */
    ghost predicate Generated()
      reads this`prefs, this`skips
    {
      && |prefs| == |skips| == |dests|
      && AllFit(tableSize, prefs)
      && forall i :: 0 <= i < |dests| ==> skips[i] == prefs[i].skip
    }

    /** The cursor of backend `i` stands at its choice number `calls[i]`. */
    ghost predicate CursorsValid()
      requires Generated()
      reads this`prefs, this`skips, this`offsets, this`calls
    {
      && |offsets| == |calls| == |dests|
      && forall i :: 0 <= i < |dests| ==> offsets[i] == Slot(tableSize, prefs[i], calls[i])
    }

    constructor (tableSize: nat, dests: seq<DestinationEntry>, hash: Addr -> nat)
      requires Prime(tableSize) && tableSize < 0x8000_0000
      ensures Valid() && fresh(maglev)
      ensures this.tableSize == tableSize && this.dests == dests && this.hash == hash
      ensures deadDests == seq(|dests|, _ => false)
    {
      this.tableSize, this.dests, this.hash := tableSize, dests, hash;
      maglev := new BpfArray(tableSize, 0);
      deadDests := seq(|dests|, _ => false);
      offsets, skips, prefs, calls := [], [], [], [];
    }

    method GenerateOffsetsAndSkips()
      requires Valid()
      modifies this`offsets, this`skips, this`calls, this`prefs
      ensures Generated() && CursorsValid()
      ensures prefs == Preferences(tableSize, hash, dests)
      ensures calls == seq(|dests|, _ => 0)
      ensures FromHashes(tableSize, hash, dests, offsets, skips)
    {
      offsets := seq(|dests|, _ => 0);
      skips := seq(|dests|, _ => 0);
      calls := seq(|dests|, _ => 0);
      prefs := Preferences(tableSize, hash, dests);
      PreferencesFit(tableSize, hash, dests);
      for i := 0 to |dests|
        invariant |offsets| == |skips| == |dests|
        invariant calls == seq(|dests|, _ => 0) && prefs == Preferences(tableSize, hash, dests)
        invariant forall k :: 0 <= k < i ==> offsets[k] == prefs[k].offset && skips[k] == prefs[k].skip
      {
        var h := hash(dests[i].ip) % 0x1_0000_0000_0000_0000;
        offsets := offsets[i := h / 0x1_0000_0000 % tableSize];
        skips := skips[i := h % 0x1_0000_0000 % (tableSize - 1) + 1];
      }
      forall i | 0 <= i < |dests|
        ensures offsets[i] == Slot(tableSize, prefs[i], 0)
      {
        assert Fits(tableSize, prefs[i]);
      }
      PreferencesFromHashes(tableSize, hash, dests, offsets, skips);
    }

    /** The wrap-around of uint32 never shows: the cursor advances by one preference. */
    method NextOffset(i: nat) returns (res: nat)
      requires Valid() && Generated() && CursorsValid() && i < |dests|
      modifies this`offsets, this`calls
      ensures CursorsValid()
      ensures res == Slot(tableSize, prefs[i], old(calls[i]))
      ensures calls == old(calls)[i := old(calls[i]) + 1]
    {
      res := offsets[i];
      assert Fits(tableSize, prefs[i]);
      offsets := offsets[i := Add32(offsets[i], skips[i])];
      if offsets[i] >= tableSize {
        offsets := offsets[i := offsets[i] - tableSize];
      }
      calls := calls[i := calls[i] + 1];
    }

    /** The cursors have passed only taken slots, in at most one round each. */
    ghost predicate NothingSkipped(t: Table)
      requires |t| == tableSize && Generated()
      reads this`prefs, this`skips, this`calls
    {
      |calls| == |dests| &&
      forall i :: 0 <= i < |dests| ==> calls[i] <= tableSize && TakenBefore(tableSize, t, prefs[i], calls[i])
    }

    /** The inner probe loop: it stops, at the backend's most preferred free slot,
        although the cursor never looks back to the start of the permutation. */
    method Probe(i: nat, table: array<int>, ghost k: nat) returns (c: nat)
      requires Valid() && Generated() && CursorsValid() && i < |dests| && table.Length == tableSize
      requires calls[i] <= k && table[Slot(tableSize, prefs[i], k)] < 0
      requires TakenBefore(tableSize, table[..], prefs[i], k)
      modifies this`offsets, this`calls
      ensures CursorsValid()
      ensures c == Slot(tableSize, prefs[i], k) && calls == old(calls)[i := k + 1]
    {
      ghost var j, p, before := calls[i], prefs[i], calls;
      c := NextOffset(i);
      while table[c] >= 0
        invariant CursorsValid() && j <= k
        invariant calls == before[i := j + 1] && c == Slot(tableSize, p, j)
        decreases k - j
      {
        assert j != k;
        c := NextOffset(i);
        j := j + 1;
      }
      assert j < k ==> Taken(tableSize, table[..], p, j);
    }

    ghost predicate GameOn(game: seq<Table>)
      reads this`prefs, this`skips, this`deadDests, maglev
    {
      && Valid() && Generated() && Alive(deadDests) != []
      && IsGame(tableSize, prefs, deadDests, game)
    }

    /** The state between two turns: `n` turns of the game are over. */
    ghost predicate TurnsOver(table: array<int>, game: seq<Table>, n: nat)
      requires Generated()
      reads this, table
    {
      && CursorsValid() && n < |game|
      && table.Length == tableSize && table[..] == game[n]
      && NothingSkipped(table[..])
    }

    /** The turn of live backend `i`: claim the probed slot. */
    method Turn(i: nat, table: array<int>, ghost game: seq<Table>, ghost n: nat)
      requires GameOn(game) && TurnsOver(table, game, n)
      requires n < tableSize && i == Player(deadDests, n)
      modifies this`offsets, this`calls, table
      ensures TurnsOver(table, game, n + 1)
    {
      ghost var t, p, before := table[..], prefs[i], calls;
      assert Follows(tableSize, prefs, deadDests, game, n);
      ghost var k := FirstFree(tableSize, t, p);
      assert k < calls[i] ==> Taken(tableSize, t, p, k);
      assert calls[i] <= k;
      var c := Probe(i, table, k);
      table[c] := i;
      assert table[..] == Claim(tableSize, t, p, i);
      forall k | 0 <= k < |dests|
        ensures calls[k] <= tableSize && TakenBefore(tableSize, table[..], prefs[k], calls[k])
      {
        assert Fits(tableSize, prefs[k]) && TakenBefore(tableSize, t, prefs[k], before[k]);
        ClaimKeepsTaken(tableSize, t, p, i, prefs[k], before[k]);
      }
    }

    /** Writes the finished table entry by entry; the first failing write ends the loop. */
    method WriteTable(table: array<int>) returns (failed: Option<nat>)
      requires Valid() && table.Length == tableSize
      requires forall c :: 0 <= c < tableSize ==> 0 <= table[c] < 0x1_0000_0000
      modifies maglev
      ensures Valid()
      ensures failed == None ==> maglev.entries == table[..]
      ensures failed.Some? ==> failed.value < tableSize
      ensures failed.Some? ==> maglev.entries == table[..failed.value] + old(maglev.entries)[failed.value..]
    {
      for c := 0 to tableSize
        invariant |maglev.entries| == tableSize
        invariant maglev.entries == table[..c] + old(maglev.entries)[c..]
      {
        var ok := maglev.Put(c, table[c]);
        if !ok {
          return Some(c);
        }
      }
      return None;
    }

    method CountAlive() returns (n: nat)
      requires Valid()
      ensures n == |Alive(deadDests)|
    {
      n := 0;
      var i := 1;
      while i < |deadDests|
        invariant 1 <= i
        invariant n == |AliveUpTo(deadDests, if i <= |deadDests| then i else |deadDests|)|
      {
        if !deadDests[i] {
          n := n + 1;
        }
        i := i + 1;
      }
    }

    /** One round of turns, cut short when the table is full. */
    method PlayRound(table: array<int>, ghost game: seq<Table>, n: nat) returns (n': nat)
      requires GameOn(game) && TurnsOver(table, game, n)
      requires n < tableSize && RoundStarts(deadDests, n)
      modifies this`offsets, this`calls, table
      ensures TurnsOver(table, game, n') && n < n'
      ensures n' < tableSize ==> RoundStarts(deadDests, n')
    {
      n' := n;
      for i := 1 to |dests|
        invariant TurnsOver(table, game, n') && n' < tableSize
        invariant n' == n + |AliveUpTo(deadDests, i)|
      {
        if !deadDests[i] {
          TurnOrder(deadDests, n, i, n');
          Turn(i, table, game, n');
          n' := n' + 1;
          if n' == tableSize {
            return;
          }
        }
      }
      RoundEnds(deadDests, n);
    }

    /** The outer loop: rounds follow one another until the last slot is taken. */
    method PlayRounds(table: array<int>, ghost game: seq<Table>)
      requires GameOn(game) && TurnsOver(table, game, 0)
      modifies this`offsets, this`calls, table
      ensures TurnsOver(table, game, tableSize)
    {
      var n := 0;
      while n < tableSize
        invariant TurnsOver(table, game, n)
        invariant n < tableSize ==> RoundStarts(deadDests, n)
        decreases tableSize - n
      {
        n := PlayRound(table, game, n);
      }
    }

    /** Computes the table in memory, from cursors that start over. */
    method FillTable() returns (table: array<int>)
      requires Valid() && Alive(deadDests) != []
      modifies this`offsets, this`skips, this`calls, this`prefs
      ensures fresh(table) && table.Length == tableSize && Generated()
      ensures prefs == Preferences(tableSize, hash, dests)
      ensures table[..] == LookupTable(tableSize, prefs, deadDests)
      ensures NothingSkipped(table[..])
    {
      GenerateOffsetsAndSkips();
      ghost var game := TheGame(tableSize, prefs, deadDests);
      table := new int[tableSize](_ => -1);
      assert table[..] == game[0];
      PlayRounds(table, game);
    }

    /** Recomputes and installs the table, unless every destination is dead.
        Each cursor is advanced at most `tableSize` times. */
    method PopulateLookupTable() returns (failed: Option<nat>)
      requires Valid() && |dests| <= 0x1_0000_0000
      modifies this`offsets, this`skips, this`calls, this`prefs, maglev
      ensures Valid()
      ensures Alive(deadDests) == [] ==> failed == None && maglev.entries == old(maglev.entries)
      ensures Alive(deadDests) != [] ==>
        |calls| == |dests| && forall i :: 0 <= i < |dests| ==> calls[i] <= tableSize
      ensures Alive(deadDests) != [] && failed == None ==>
        maglev.entries == Installed(tableSize, hash, dests, deadDests)
      ensures Alive(deadDests) != [] && failed.Some? ==>
        failed.value < tableSize &&
        maglev.entries == Installed(tableSize, hash, dests, deadDests)[..failed.value] + old(maglev.entries)[failed.value..]
    {
      var alive := CountAlive();
      if alive == 0 {
        return None;
      }
      var table := FillTable();
      ghost var target := Installed(tableSize, hash, dests, deadDests);
      assert table[..] == target;
      forall c | 0 <= c < tableSize
        ensures 0 <= table[c] < 0x1_0000_0000
      {
        assert Live(deadDests, target[c]);
      }
      failed := WriteTable(table);
    }

    /** One round of probes: goroutine `i` compares, flips its flag, then appends to `changed`
        without a lock. The scheduler picks any goroutine at each step, so two appends may read
        the same length and one overwrite the other; a change is reported all the same. */
    method HealthCheckAll(ok: seq<bool>) returns (changed: bool)
      requires Valid() && |ok| == |dests| > 0
      modifies this`deadDests
      ensures Valid()
      ensures deadDests == DeadAfter(old(deadDests), ok)
      ensures deadDests[0] == old(deadDests)[0] && forall i :: 0 < i < |dests| ==> deadDests[i] == !ok[i]
      ensures changed <==> deadDests != old(deadDests)
    {
      var ps := seq(|dests|, i => if i == 0 then Done else Ready);
      var changedLen := 0;
      ghost var start := deadDests;
      while exists i :: 0 <= i < |ps| && ps[i] != Done
        invariant Valid() && |ps| == |dests| && ps[0] == Done
        invariant forall i :: 0 <= i < |ps| ==>
          deadDests[i] == if i == 0 || ps[i] == Ready then start[i] else !ok[i]
        invariant forall i :: 0 < i < |ps| && ps[i] != Ready && ps[i] != Done ==> start[i] == ok[i]
        invariant forall i :: 0 < i < |ps| && ps[i] == Done && start[i] == ok[i] ==> changedLen > 0
        invariant changedLen > 0 ==> exists i :: 0 < i < |ps| && start[i] == ok[i]
        decreases TotalLeft(ps)
      {
        var i :| 0 <= i < |ps| && ps[i] != Done;
        var next: Progress;
        match ps[i] {
          case Ready =>
            if deadDests[i] == ok[i] {
              deadDests := deadDests[i := !ok[i]];
              next := Flipped;
            } else {
              next := Done;
            }
          case Flipped =>
            next := Appending(changedLen);
          case Appending(loaded) =>
            changedLen := loaded + 1;
            next := Done;
        }
        StepUsesFuel(ps, i, next);
        ps := ps[i := next];
      }
      assert deadDests == DeadAfter(start, ok);
      if changedLen > 0 {
        ghost var i :| 0 < i < |ps| && start[i] == ok[i];
        assert deadDests[i] != start[i];
      }
      return changedLen > 0;
    }

    /** What the main loop does at a tick. */
    method Tick(ok: seq<bool>) returns (failed: Option<nat>)
      requires Valid() && |ok| == |dests| && 0 < |dests| <= 0x1_0000_0000
      modifies this, maglev
      ensures Valid() && deadDests == DeadAfter(old(deadDests), ok)
      ensures deadDests == old(deadDests) || Alive(deadDests) == [] ==>
        failed == None && maglev.entries == old(maglev.entries)
      ensures deadDests != old(deadDests) && Alive(deadDests) != [] && failed == None ==>
        maglev.entries == Installed(tableSize, hash, dests, deadDests)
      ensures deadDests != old(deadDests) && Alive(deadDests) != [] && failed.Some? ==>
        failed.value < tableSize &&
        maglev.entries == Installed(tableSize, hash, dests, deadDests)[..failed.value] + old(maglev.entries)[failed.value..]
    {
      failed := None;
      var changed := HealthCheckAll(ok);
      if changed {
        failed := PopulateLookupTable();
      }
    }

    /** The main loop over any number of ticks: as long as every write succeeds, the installed
        table is determined by the destinations and the last dead set that left one alive. */
    method Run(rounds: seq<seq<bool>>) returns (anyFailed: bool)
      requires Valid() && 0 < |dests| <= 0x1_0000_0000 && Alive(deadDests) != []
      requires RoundsFor(deadDests, rounds)
      requires maglev.entries == Installed(tableSize, hash, dests, deadDests)
      modifies this, maglev
      ensures Valid()
      ensures !anyFailed ==>
        maglev.entries == Installed(tableSize, hash, dests, LastLive(old(deadDests), rounds))
    {
      anyFailed := false;
      ghost var start, last := deadDests, deadDests;
      for t := 0 to |rounds|
        invariant Valid() && deadDests[0] == start[0]
        invariant last == LastLive(start, rounds[..t])
        invariant Alive(deadDests) != [] ==> deadDests == last
        invariant !anyFailed ==> maglev.entries == Installed(tableSize, hash, dests, last)
      {
        assert rounds[..t + 1][..t] == rounds[..t];
        assert DeadAfter(deadDests, rounds[t]) == DeadAfter(start, rounds[t]);
        var failed := Tick(rounds[t]);
        if failed.Some? {
          anyFailed := true;
        }
        if Alive(deadDests) != [] {
          last := deadDests;
        }
      }
      assert rounds[..|rounds|] == rounds;
    }
  }
}
