/** The gate excludes what it must and never stays shut for good, in every interleaving. */
module StatsGate {
  import opened StatsMachine

  lemma Recount(w: World, w': World, t: Thread, pc: Pc)
    requires t in w.pc && w'.pc == w.pc[t := pc]
    ensures |Updating(w')| == |Updating(w)| + Weight(pc) - Weight(w.pc[t])
  {
    if IsCounted(pc) == IsCounted(w.pc[t]) {
      assert Updating(w') == Updating(w);
    } else if IsCounted(pc) {
      assert Updating(w') == Updating(w) + {t};
    } else {
      assert Updating(w) == Updating(w') + {t};
    }
  }

  function Weight(pc: Pc): nat {
    if IsCounted(pc) then 1 else 0
  }

  /** A step moves one thread. */
  lemma OneThread(w: World, t: Thread, step: Step)
    requires Enabled(w, t, step)
    ensures var w' := Do(w, t, step); t in w'.pc && w'.pc == w.pc[t := w'.pc[t]]
  {
  }

  /** What a step does to the counter: a thread adds itself when it becomes counted and subtracts itself when it is done. */
  lemma CountEffect(w: World, t: Thread, step: Step)
    requires Enabled(w, t, step)
    ensures var w' := Do(w, t, step);
      t in w'.pc && w'.updaters == w.updaters + Weight(w'.pc[t]) - Weight(w.pc[t])
  {
  }

  lemma CountKept(w: World, t: Thread, step: Step)
    requires w.updaters == |Updating(w)| && Enabled(w, t, step)
    ensures var w' := Do(w, t, step); w'.updaters == |Updating(w')|
  {
    var w' := Do(w, t, step);
    CountEffect(w, t, step);
    OneThread(w, t, step);
    Recount(w, w', t, w'.pc[t]);
  }

  /** A thread takes the gate only when it is open, shuts it with that, and opens it when it gives it back. */
  predicate TakesTurns(w: World, w': World, t: Thread) {
    && t in w.pc && t in w'.pc && w'.pc == w.pc[t := w'.pc[t]]
    && (if HoldsGate(w'.pc[t]) then !w'.canUpdate && (HoldsGate(w.pc[t]) || w.canUpdate)
        else w'.canUpdate == (HoldsGate(w.pc[t]) || w.canUpdate))
  }

  lemma GateEffect(w: World, t: Thread, step: Step)
    requires GateHeld(w) && Enabled(w, t, step)
    ensures TakesTurns(w, Do(w, t, step), t)
  {
    OneThread(w, t, step);
  }

  lemma TurnsKeepGate(w: World, w': World, t: Thread)
    requires GateHeld(w) && TakesTurns(w, w', t)
    ensures GateHeld(w')
  {
    if !w'.canUpdate && !HoldsGate(w'.pc[t]) {
      var u :| u in w.pc && HoldsGate(w.pc[u]);
      assert u in w'.pc && HoldsGate(w'.pc[u]);
    }
  }

  lemma GateKept(w: World, t: Thread, step: Step)
    requires GateHeld(w) && Enabled(w, t, step)
    ensures GateHeld(Do(w, t, step))
  {
    GateEffect(w, t, step);
    TurnsKeepGate(w, Do(w, t, step), t);
  }

  lemma NoneCounted(w: World, u: Thread)
    requires w.updaters == |Updating(w)| == 0 && u in w.pc
    ensures !IsCounted(w.pc[u])
  {
    assert Updating(w) == {};
    assert u !in Updating(w);
  }

  /** No table change meets a table access: whoever is admitted is counted, and the change waits for a count of 0. */
  lemma ChangeKept(w: World, t: Thread, step: Step)
    requires Inv(w) && Enabled(w, t, step)
    ensures ChangeAlone(Do(w, t, step))
  {
    var w' := Do(w, t, step);
    OneThread(w, t, step);
    forall v, u | v in w'.pc && u in w'.pc && w'.pc[v].Mutating? ensures !Accessing(w'.pc[u]) {
      if v == t && u != t {
        StartsAlone(w, t, step);
        NoneCounted(w, u);
      } else if v != t && u == t {
        NotAdmitted(w, t, step, v);
      }
    }
  }

  /** A change starts at a count of 0. */
  lemma StartsAlone(w: World, t: Thread, step: Step)
    requires Enabled(w, t, step) && t in Do(w, t, step).pc && Do(w, t, step).pc[t].Mutating?
    ensures w.updaters == 0
  {
  }

  /** While a change is under way nobody is admitted. */
  lemma NotAdmitted(w: World, t: Thread, step: Step, v: Thread)
    requires GateHeld(w) && ChangeAlone(w) && Enabled(w, t, step) && v in w.pc && w.pc[v].Mutating?
    ensures !Accessing(Do(w, t, step).pc[t])
  {
  }

  /** The table's slots change only in the hands of the one thread about to change them. */
  lemma SlotsKept(w: World, t: Thread, step: Step)
    requires Enabled(w, t, step)
    ensures w.pc[t].Mutating? || Do(w, t, step).stats.Keys == w.stats.Keys
  {
    if w.pc[t].Writing? && w.pc[t].wid in w.stats {
      assert Do(w, t, step).stats.Keys == w.stats.Keys;
    }
  }

  lemma OwnIterator(w: World, t: Thread, step: Step)
    requires IteratorsLive(w) && Enabled(w, t, step) && Do(w, t, step).pc[t].Writing?
    ensures Do(w, t, step).pc[t].wid in Do(w, t, step).stats
  {
  }

  lemma IteratorsKept(w: World, t: Thread, step: Step)
    requires Inv(w) && Enabled(w, t, step)
    ensures IteratorsLive(Do(w, t, step))
  {
    var w' := Do(w, t, step);
    SlotsKept(w, t, step);
    OneThread(w, t, step);
    forall u | u in w'.pc && w'.pc[u].Writing? ensures w'.pc[u].wid in w'.stats {
      if u == t {
        OwnIterator(w, t, step);
      } else {
        assert w.pc[u].wid in w.stats.Keys;
      }
    }
  }

  lemma OwnSnapshot(w: World, t: Thread, step: Step)
    requires SnapshotsWhole(w) && Enabled(w, t, step)
    ensures var w' := Do(w, t, step);
      && (w'.pc[t].Reading? ==> Reads(w'.stats, w'.pc[t]))
      && (w'.pc[t].Returning? ==> w'.pc[t].seen.Keys == w'.stats.Keys)
  {
  }

  lemma SnapshotsKept(w: World, t: Thread, step: Step)
    requires Inv(w) && Enabled(w, t, step)
    ensures SnapshotsWhole(Do(w, t, step))
  {
    var w' := Do(w, t, step);
    SlotsKept(w, t, step);
    OneThread(w, t, step);
    OwnSnapshot(w, t, step);
    forall u | u in w'.pc && u != t && HoldsGate(w'.pc[u]) ensures w'.pc[u] == w.pc[u] && w'.stats.Keys == w.stats.Keys {
    }
  }

  lemma BytesKept(w: World, t: Thread, step: Step)
    requires NoBytes(w.stats) && Enabled(w, t, step)
    ensures NoBytes(Do(w, t, step).stats)
  {
  }

  lemma InvKept(w: World, t: Thread, step: Step)
    requires Inv(w) && Enabled(w, t, step)
    ensures Inv(Do(w, t, step))
  {
    CountKept(w, t, step);
    GateKept(w, t, step);
    ChangeKept(w, t, step);
    IteratorsKept(w, t, step);
    SnapshotsKept(w, t, step);
    BytesKept(w, t, step);
  }

  // Runs.

  lemma {:induction false} RunKeepsInv(w: World, run: seq<Event>)
    requires Inv(w) && IsRun(w, run)
    ensures Inv(After(w, run))
    decreases |run|
  {
    if run != [] {
      InvKept(w, run[0].thread, run[0].step);
      RunKeepsInv(Do(w, run[0].thread, run[0].step), run[1..]);
    }
  }

  /** In every state of every run: the gate excludes what it must, and the count is the number of threads inside. */
  lemma GateIsSafe(w: World, run: seq<Event>)
    requires IsInitial(w) && IsRun(w, run)
    ensures var w' := After(w, run);
      && w'.updaters == |Updating(w')|
      && GateHeld(w')
      && ChangeAlone(w') && IteratorsLive(w') && SnapshotsWhole(w')
      && NoBytes(w'.stats)
  {
    assert Updating(w) == {};
    RunKeepsInv(w, run);
  }

  lemma {:induction false} RunsJoin(w: World, a: seq<Event>, b: seq<Event>)
    requires IsRun(w, a) && IsRun(After(w, a), b)
    ensures IsRun(w, a + b) && After(w, a + b) == After(After(w, a), b)
    decreases |a|
  {
    if a == [] {
      assert a + b == b;
    } else {
      RunsJoin(Do(w, a[0].thread, a[0].step), a[1..], b);
      assert (a + b)[1..] == a[1..] + b;
    }
  }

  /** Writes of values already in the table may overlap a reading of it: the gate does not exclude those. */
  lemma WritesMayOverlapReading() returns (w: World, run: seq<Event>)
    ensures IsInitial(w) && IsRun(w, run) && 0 in After(w, run).pc && 1 in After(w, run).pc
    ensures After(w, run).pc[0].Writing? && After(w, run).pc[1].Reading?
  {
    w := World(true, 0, map[], map[0 := Idle, 1 := Idle]);
    run := [];
    run := Extend(w, run, 0, Start(AddSlot(7)));
    run := Extend(w, run, 0, Move(0));
    run := Extend(w, run, 0, Move(0));
    run := Extend(w, run, 0, Move(0));
    run := Extend(w, run, 0, Move(0));
    run := Extend(w, run, 0, Start(TryUpdate(7, NO_STATS)));
    run := Extend(w, run, 0, Move(0));
    run := Extend(w, run, 0, Move(0));
    run := Extend(w, run, 0, Move(0));
    run := Extend(w, run, 1, Start(GetStats));
    run := Extend(w, run, 1, Move(0));
  }

  lemma Extend(w: World, run: seq<Event>, t: Thread, step: Step) returns (longer: seq<Event>)
    requires IsRun(w, run) && Enabled(After(w, run), t, step)
    ensures IsRun(w, longer) && After(w, longer) == Do(After(w, run), t, step)
    ensures longer == run + [Event(t, step)]
  {
    longer := run + [Event(t, step)];
    assert IsRun(After(w, run), [Event(t, step)]);
    RunsJoin(w, run, [Event(t, step)]);
  }

  // The gate never stays shut for good: without any new call it can be brought to open again.

  function StepsToLeave(pc: Pc): nat {
    match pc
    case Counted(_, _) => 2
    case Looking(_, _) => 3
    case Writing(_, _) => 2
    case Leaving(_) => 1
    case _ => 0
  }

  lemma LeaveStep(w: World, u: Thread)
    requires u in w.pc && IsCounted(w.pc[u]) && !w.canUpdate && (w.pc[u].Writing? ==> w.pc[u].wid in w.stats)
    ensures Enabled(w, u, Move(0))
    ensures var w' := Do(w, u, Move(0));
      && !w'.canUpdate && w'.pc == w.pc[u := w'.pc[u]]
      && (if w.pc[u].Leaving? then w'.pc[u].Idle?
          else IsCounted(w'.pc[u]) && StepsToLeave(w'.pc[u]) < StepsToLeave(w.pc[u]))
  {
  }

  lemma LeaveMove(w: World, u: Thread) returns (run: seq<Event>)
    requires Inv(w) && !w.canUpdate && u in Updating(w)
    ensures IsRun(w, run) && Moves(run) && StillShut(w, After(w, run), u)
    ensures After(w, run).pc[u].Idle? || u in Updating(After(w, run))
    ensures StepsToLeave(After(w, run).pc[u]) < StepsToLeave(w.pc[u])
  {
    LeaveStep(w, u);
    InvKept(w, u, Move(0));
    run := Extend(w, [], u, Move(0));
  }

  /** A counted thread can finish its call while the gate is shut. */
  lemma {:induction false} Leave(w: World, u: Thread) returns (run: seq<Event>)
    requires Inv(w) && !w.canUpdate && u in Updating(w)
    ensures IsRun(w, run) && Moves(run) && StillShut(w, After(w, run), u) && After(w, run).pc[u].Idle?
    decreases StepsToLeave(w.pc[u])
  {
    run := LeaveMove(w, u);
    var w' := After(w, run);
    if !w'.pc[u].Idle? {
      var rest := Leave(w', u);
      RunsJoin(w, run, rest);
      run := run + rest;
    }
  }

  function Phase(pc: Pc): nat {
    match pc
    case Draining(_) => 3
    case Mutating(_) => 2
    case Reading(_, _) => 2
    case _ => 1
  }

  /** What is left to do for the holder at its phase. */
  function Pending(w: World, h: Thread): nat
    requires h in w.pc
  {
    if w.pc[h].Reading? then |w.pc[h].left| else |Updating(w)|
  }

  predicate LessToDo(w': World, w: World, h: Thread)
    requires h in w.pc && h in w'.pc
  {
    || Phase(w'.pc[h]) < Phase(w.pc[h])
    || (Phase(w'.pc[h]) == Phase(w.pc[h]) && Pending(w', h) < Pending(w, h))
  }

  /** The gate is open, or the holder has less to do. */
  predicate Advances(w: World, w': World, h: Thread) {
    h in w.pc && h in w'.pc && (w'.canUpdate || (HoldsGate(w'.pc[h]) && LessToDo(w', w, h)))
  }

  lemma HolderStep(w: World, h: Thread, slot: nat)
    requires h in w.pc && HoldsGate(w.pc[h]) && (w.pc[h].Draining? ==> w.updaters == 0)
    requires w.pc[h].Reading? && w.pc[h].left != {} ==> slot in w.pc[h].left && slot in w.stats
    ensures Enabled(w, h, Move(slot))
    ensures Advances(w, Do(w, h, Move(slot)), h)
  {
  }

  /** The holder's next step opens the gate or leaves it less to do. */
  lemma HolderMoves(w: World, h: Thread) returns (slot: nat)
    requires Inv(w) && h in w.pc && HoldsGate(w.pc[h]) && (w.pc[h].Draining? ==> w.updaters == 0)
    ensures Enabled(w, h, Move(slot))
    ensures Inv(Do(w, h, Move(slot))) && Advances(w, Do(w, h, Move(slot)), h)
  {
    slot := 0;
    if w.pc[h].Reading? && w.pc[h].left != {} {
      slot :| slot in w.pc[h].left;
      assert slot in w.stats.Keys;
    }
    HolderStep(w, h, slot);
    InvKept(w, h, Move(slot));
  }

  /** One thread fewer to wait for. */
  lemma Drain(w: World, h: Thread) returns (run: seq<Event>)
    requires Inv(w) && h in w.pc && w.pc[h].Draining? && w.updaters > 0
    ensures IsRun(w, run) && Moves(run)
    ensures Inv(After(w, run)) && Advances(w, After(w, run), h)
  {
    var u :| u in Updating(w);
    run := Leave(w, u);
    Recount(w, After(w, run), u, Idle);
  }

  lemma {:induction false} HolderOpens(w: World, h: Thread) returns (run: seq<Event>)
    requires Inv(w) && h in w.pc && HoldsGate(w.pc[h])
    ensures IsRun(w, run) && Moves(run) && After(w, run).canUpdate
    decreases Phase(w.pc[h]), Pending(w, h)
  {
    var first;
    if w.pc[h].Draining? && w.updaters > 0 {
      first := Drain(w, h);
    } else {
      var slot := HolderMoves(w, h);
      first := Extend(w, [], h, Move(slot));
    }
    if After(w, first).canUpdate {
      run := first;
    } else {
      var rest := HolderOpens(After(w, first), h);
      RunsJoin(w, first, rest);
      run := first + rest;
    }
  }

  lemma GateReopens(w: World, run: seq<Event>) returns (more: seq<Event>)
    requires IsInitial(w) && IsRun(w, run)
    ensures IsRun(w, run + more) && Moves(more) && After(w, run + more).canUpdate
  {
    GateIsSafe(w, run);
    var now := After(w, run);
    more := [];
    if !now.canUpdate {
      var h :| h in now.pc && HoldsGate(now.pc[h]);
      more := HolderOpens(now, h);
    }
    RunsJoin(w, run, more);
  }
}
