/** What the table of worker statistics holds and what a reader gets, told by the calls of a run. */
module StatsValues {
  import opened Wrappers
  import opened StatsMachine
  import opened StatsGate
  import opened StatsHistory

  lemma {:induction false} HistoryInv(states: seq<World>, run: seq<Event>, k: nat)
    requires IsHistory(states, run) && k <= |run|
    ensures Inv(states[k]) && states[k].pc.Keys == states[0].pc.Keys
  {
    if k == 0 {
      assert Updating(states[0]) == {};
    } else {
      HistoryInv(states, run, k - 1);
      assert StepAt(states, run, k - 1);
      InvKept(states[k - 1], run[k - 1].thread, run[k - 1].step);
      OneThread(states[k - 1], run[k - 1].thread, run[k - 1].step);
    }
  }

  lemma InCallStep(w: World, t: Thread, step: Step, call: Option<Call>)
    requires Enabled(w, t, step) && InCall(w.pc[t], call)
    ensures t in Do(w, t, step).pc && InCall(Do(w, t, step).pc[t], if step.Start? then Some(step.call) else call)
  {
  }

  lemma {:induction false} AllInCall(states: seq<World>, run: seq<Event>, k: nat, t: Thread)
    requires IsHistory(states, run) && k <= |run| && t in states[k].pc
    ensures InCall(states[k].pc[t], CallOf(run, k, t))
  {
    if k > 0 {
      var w, e := states[k - 1], run[k - 1];
      assert StepAt(states, run, k - 1);
      OneThread(w, e.thread, e.step);
      AllInCall(states, run, k - 1, t);
      if e.thread == t { InCallStep(w, t, e.step, CallOf(run, k - 1, t)); }
    }
  }

  // What a step ends.

  lemma SlotStepHolds(states: seq<World>, run: seq<Event>, k: nat, wid: nat)
    requires IsHistory(states, run) && k < |run|
    ensures SlotStep(states, run, k, wid)
  {
    var w, t, step := states[k], run[k].thread, run[k].step;
    assert StepAt(states, run, k);
    HistoryInv(states, run, k);
    AllInCall(states, run, k, t);
    StepTouches(w, t, step);
    var call := CallOf(run, k, t);
    if IsWrite(w, t, step) {
      assert Updates(states, run, k, w.pc[t].wid, w.pc[t].value);
    }
    if IsChange(w, t, step) {
      assert Changes(states, run, k, w.pc[t].call);
    }
  }

  /** The steps that write to the table, and what they write. */
  lemma StepTouches(w: World, t: Thread, step: Step)
    requires Inv(w) && Enabled(w, t, step)
    ensures var w' := Do(w, t, step);
      && t in w'.pc
      && (w'.pc[t] == Leaving(true) && w.pc[t] != Leaving(true) ==> IsWrite(w, t, step))
      && (w'.pc[t] == Opening && w.pc[t] != Opening ==> IsChange(w, t, step))
      && (IsWrite(w, t, step) ==> w'.pc[t] == Leaving(true) && Written(w.stats, w'.stats, w.pc[t].wid, w.pc[t].value))
      && (IsChange(w, t, step) ==> w'.pc[t] == Opening && w'.stats == Mutated(w.stats, w.pc[t].call))
      && (!IsWrite(w, t, step) && !IsChange(w, t, step) ==> w'.stats == w.stats)
  {
    if IsWrite(w, t, step) {
      WriteStep(w, t, step);
    } else {
      OtherStep(w, t, step);
    }
  }

  lemma OtherStep(w: World, t: Thread, step: Step)
    requires Enabled(w, t, step) && !IsWrite(w, t, step)
    ensures var w' := Do(w, t, step);
      && t in w'.pc && !(w'.pc[t] == Leaving(true) && w.pc[t] != Leaving(true))
      && (w'.pc[t] == Opening && w.pc[t] != Opening ==> IsChange(w, t, step))
      && (IsChange(w, t, step) ==> w'.pc[t] == Opening && w'.stats == Mutated(w.stats, w.pc[t].call))
      && (!IsChange(w, t, step) ==> w'.stats == w.stats)
  {
  }

  lemma WriteStep(w: World, t: Thread, step: Step)
    requires IteratorsLive(w) && NoBytes(w.stats) && Enabled(w, t, step) && IsWrite(w, t, step)
    ensures var w' := Do(w, t, step);
      t in w'.pc && w'.pc[t] == Leaving(true) && Written(w.stats, w'.stats, w.pc[t].wid, w.pc[t].value)
  {
  }

  // What the table holds after any run.

  lemma {:induction false} QuietKeeps(states: seq<World>, run: seq<Event>, from: nat, till: nat, wid: nat)
    requires IsHistory(states, run) && from <= till <= |run| && Quiet(states, run, from, till, wid) && wid in states[from].stats
    ensures wid in states[till].stats && states[till].stats[wid] == states[from].stats[wid]
    decreases till
  {
    if from < till {
      QuietKeeps(states, run, from, till - 1, wid);
      SlotStepHolds(states, run, till - 1, wid);
    }
  }

  /** The latest update of a slot that reported success is what the slot holds, but for the byte counters, which are 0. */
  lemma LatestUpdateHolds(states: seq<World>, run: seq<Event>, j: nat, k: nat, wid: nat, value: IOStats)
    requires IsHistory(states, run) && k <= |run| && LatestUpdate(states, run, j, k, wid, value)
    ensures wid in states[k].stats && Holds(states[k].stats[wid], value)
  {
    SlotStepHolds(states, run, j, wid);
    QuietKeeps(states, run, j + 1, k, wid);
  }

  /** A slot added where there was none is all zeros until an update of it succeeds. */
  lemma NewSlotIsZero(states: seq<World>, run: seq<Event>, j: nat, k: nat, wid: nat)
    requires IsHistory(states, run) && k <= |run| && StillNew(states, run, j, k, wid)
    ensures wid in states[k].stats && states[k].stats[wid] == IOStats(0, 0, 0, 0, 0, 0, 0, 0, 0)
  {
    SlotStepHolds(states, run, j, wid);
    QuietKeeps(states, run, j + 1, k, wid);
  }

  /** Every slot of the table, in every state of every run, is one or the other. */
  lemma {:induction false} SlotExplained(states: seq<World>, run: seq<Event>, k: nat, wid: nat)
    requires IsHistory(states, run) && k <= |run| && wid in states[k].stats
    ensures (exists j: nat, value :: LatestUpdate(states, run, j, k, wid, value)) || (exists j: nat :: StillNew(states, run, j, k, wid))
    decreases k
  {
    assert k > 0;
    var last := k - 1;
    SlotStepHolds(states, run, last, wid);
    if value :| Updates(states, run, last, wid, value) {
      assert LatestUpdate(states, run, last, k, wid, value);
    } else if wid !in states[last].stats {
      InTableStep(states, run, last, wid);
      assert StillNew(states, run, last, k, wid);
    } else {
      SlotExplained(states, run, last, wid);
      if j: nat, value :| LatestUpdate(states, run, j, last, wid, value) {
        QuietLonger(states, run, j + 1, last, wid);
        assert LatestUpdate(states, run, j, k, wid, value);
      } else {
        var j: nat :| StillNew(states, run, j, last, wid);
        QuietLonger(states, run, j + 1, last, wid);
        assert StillNew(states, run, j, k, wid);
      }
    }
  }

  lemma QuietLonger(states: seq<World>, run: seq<Event>, from: nat, till: nat, wid: nat)
    requires IsHistory(states, run) && till < |run| && Quiet(states, run, from, till, wid) && wid in states[till + 1].stats
    requires SlotStep(states, run, till, wid) && forall value :: !Updates(states, run, till, wid, value)
    ensures Quiet(states, run, from, till + 1, wid)
  {
    assert !Changes(states, run, till, DelSlot(wid));
    forall i | from <= i < till + 1
      ensures !Changes(states, run, i, DelSlot(wid)) && forall value :: !Updates(states, run, i, wid, value)
    {
      assert i < till ==> !Changes(states, run, i, DelSlot(wid));
    }
  }

  /** A slot is there exactly when it was added and not taken away since. */
  lemma {:induction false} ThereExactly(states: seq<World>, run: seq<Event>, k: nat, wid: nat)
    requires IsHistory(states, run) && k <= |run|
    ensures wid in states[k].stats <==> There(states, run, k, wid)
    decreases k
  {
    if k > 0 {
      ThereExactly(states, run, k - 1, wid);
      InTableStep(states, run, k - 1, wid);
      ThereStep(states, run, k - 1, wid);
    }
  }

  lemma InTableStep(states: seq<World>, run: seq<Event>, k: nat, wid: nat)
    requires IsHistory(states, run) && k < |run|
    ensures wid in states[k + 1].stats
      <==> Changes(states, run, k, AddSlot(wid)) || (wid in states[k].stats && !Changes(states, run, k, DelSlot(wid)))
  {
    SlotStepHolds(states, run, k, wid);
    if value :| Updates(states, run, k, wid, value) { assert Holds(states[k + 1].stats[wid], value); }
  }

  lemma ThereStep(states: seq<World>, run: seq<Event>, k: nat, wid: nat)
    requires IsHistory(states, run) && k < |run|
    ensures There(states, run, k + 1, wid)
      <==> Changes(states, run, k, AddSlot(wid)) || (There(states, run, k, wid) && !Changes(states, run, k, DelSlot(wid)))
  {
    if Changes(states, run, k, AddSlot(wid)) { assert AddedAndKept(states, run, k, k + 1, wid); }
    if j :| AddedAndKept(states, run, j, k, wid) {
      assert !Changes(states, run, k, DelSlot(wid)) ==> AddedAndKept(states, run, j, k + 1, wid);
    }
    var next := k + 1;
    if j :| AddedAndKept(states, run, j, next, wid) { assert j < k ==> AddedAndKept(states, run, j, k, wid); }
  }

  // What a reader gets.

  /** A reader goes on with what it has seen and at most one more slot, as it is now. */
  lemma ReaderStep(w: World, e: Event, w': World, t: Thread)
    requires StepOf(w, e, w') && ReadingAt(w, t) && ReadingAt(w', t)
    ensures forall slot :: slot in SeenAt(w', t) ==>
      || (slot in SeenAt(w, t) && SeenAt(w', t)[slot] == SeenAt(w, t)[slot])
      || (slot in w.stats && SeenAt(w', t)[slot] == w.stats[slot])
  {
    if e.thread != t { OneThread(w, e.thread, e.step); }
  }

  /** Reading begins with the taking of the flag. */
  lemma ReaderBegins(w: World, e: Event, w': World, t: Thread)
    requires StepOf(w, e, w') && t in w.pc && !ReadingAt(w, t) && ReadingAt(w', t)
    ensures w.canUpdate && !w'.canUpdate && SeenAt(w', t) == map[]
  {
    if e.thread != t {
      OneThread(w, e.thread, e.step);
      assert false;
    }
  }

  lemma ReturnsWhole(states: seq<World>, run: seq<Event>, k: nat, t: Thread)
    requires IsHistory(states, run) && k <= |run| && ReadingAt(states[k], t)
    ensures states[k].pc[t].Returning? ==> SeenAt(states[k], t).Keys == states[k].stats.Keys
  {
    HistoryInv(states, run, k);
  }

  lemma HadLonger(states: seq<World>, from: nat, till: nat, slot: nat, value: IOStats)
    requires till + 1 < |states| && HadBetween(states, from, till, slot, value)
    ensures HadBetween(states, from, till + 1, slot, value)
  {
    var i :| from <= i <= till && slot in states[i].stats && states[i].stats[slot] == value;
    assert from <= i <= till + 1;
  }

  lemma SeenStep(states: seq<World>, run: seq<Event>, from: nat, k: nat, t: Thread)
    requires IsHistory(states, run) && from <= k < |run| && SeenSince(states, from, k, t) && ReadingAt(states[k + 1], t)
    ensures SeenSince(states, from, k + 1, t)
  {
    assert StepAt(states, run, k);
    ReaderStep(states[k], run[k], states[k + 1], t);
    var before, seen := SeenAt(states[k], t), SeenAt(states[k + 1], t);
    forall slot | slot in seen ensures HadBetween(states, from, k + 1, slot, seen[slot]) {
      if slot in before && seen[slot] == before[slot] {
        HadLonger(states, from, k, slot, seen[slot]);
      } else {
        assert slot in states[k].stats && states[k].stats[slot] == seen[slot];
      }
    }
  }

  /**
   * What `getStats` returns: a value for every slot of the table, each the value that slot had at some point between the
   * taking of the flag and the return.
   */
  lemma {:induction false} ReaderSees(states: seq<World>, run: seq<Event>, k: nat, t: Thread) returns (from: nat)
    requires IsHistory(states, run) && k <= |run| && ReadingAt(states[k], t)
    ensures 0 < from <= k && SeenSince(states, from, k, t) && CallOf(run, k, t) == Some(GetStats)
    ensures t in states[from - 1].pc && states[from - 1].canUpdate && !states[from].canUpdate
    ensures states[k].pc[t].Returning? ==> SeenAt(states[k], t).Keys == states[k].stats.Keys
    decreases k
  {
    ReturnsWhole(states, run, k, t);
    AllInCall(states, run, k, t);
    assert k > 0;
    assert StepAt(states, run, k - 1);
    OneThread(states[k - 1], run[k - 1].thread, run[k - 1].step);
    if ReadingAt(states[k - 1], t) {
      from := ReaderSees(states, run, k - 1, t);
      SeenStep(states, run, from, k - 1, t);
    } else {
      from := k;
      ReaderBegins(states[k - 1], run[k - 1], states[k], t);
    }
  }

  // A call that is not disturbed.

  /** With the gate open, an update of a slot that is there stores its value and reports success. */
  lemma UpdateAlone(w: World, t: Thread, wid: nat, value: IOStats) returns (run: seq<Event>)
    requires Inv(w) && w.canUpdate && t in w.pc && w.pc[t].Idle? && wid in w.stats
    ensures IsRun(w, run) && t in After(w, run).pc && After(w, run).pc[t] == Leaving(true)
    ensures Written(w.stats, After(w, run).stats, wid, value)
  {
    run := Extend(w, [], t, Start(TryUpdate(wid, value)));
    run := Extend(w, run, t, Move(0));
    run := Extend(w, run, t, Move(0));
    run := Extend(w, run, t, Move(0));
    RunKeepsInv(w, run);
    var w' := After(w, run);
    assert w'.stats == w.stats && w'.pc[t] == Writing(wid, value);
    WriteStep(w', t, Move(0));
    run := Extend(w, run, t, Move(0));
  }

  /** With the gate open and nobody counted, a slot is added, as zeros unless it is there, or taken away. */
  lemma ChangeAlone(w: World, t: Thread, call: Call) returns (run: seq<Event>)
    requires w.canUpdate && w.updaters == 0 && t in w.pc && w.pc[t].Idle? && (call.AddSlot? || call.DelSlot?)
    ensures IsRun(w, run) && After(w, run).canUpdate && t in After(w, run).pc && After(w, run).pc[t].Idle?
    ensures var stats := After(w, run).stats;
      && (call.DelSlot? ==> call.wid !in stats)
      && (call.AddSlot? ==>
            call.wid in stats && stats[call.wid] == if call.wid in w.stats then w.stats[call.wid] else IOStats(0, 0, 0, 0, 0, 0, 0, 0, 0))
      && forall other :: other != call.wid ==>
           (other in stats <==> other in w.stats) && (other in stats ==> stats[other] == w.stats[other])
  {
    run := Extend(w, [], t, Start(call));
    run := Extend(w, run, t, Move(0));
    run := Extend(w, run, t, Move(0));
    run := Extend(w, run, t, Move(0));
    run := Extend(w, run, t, Move(0));
  }

  /** With the gate open, a reader alone sees exactly the table. */
  lemma ReadAlone(w: World, t: Thread) returns (run: seq<Event>)
    requires w.canUpdate && t in w.pc && w.pc[t].Idle?
    ensures IsRun(w, run) && t in After(w, run).pc && After(w, run).pc[t] == Returning(w.stats) && After(w, run).stats == w.stats
  {
    run := Extend(w, [], t, Start(GetStats));
    run := Extend(w, run, t, Move(0));
    var w' := After(w, run);
    assert w'.pc[t] == Reading(w.stats.Keys, map[]) && w'.stats == w.stats;
    var rest := ReadOn(w', t);
    RunsJoin(w, run, rest);
    run := run + rest;
  }

  lemma {:induction false} ReadOn(w: World, t: Thread) returns (run: seq<Event>)
    requires t in w.pc && w.pc[t].Reading? && w.pc[t].left !! w.pc[t].seen.Keys
    requires w.pc[t].left + w.pc[t].seen.Keys == w.stats.Keys
    requires forall slot :: slot in w.pc[t].seen ==> w.pc[t].seen[slot] == w.stats[slot]
    ensures IsRun(w, run) && t in After(w, run).pc && After(w, run).pc[t] == Returning(w.stats) && After(w, run).stats == w.stats
    decreases w.pc[t].left
  {
    if w.pc[t].left == {} {
      run := Extend(w, [], t, Move(0));
      assert w.pc[t].seen == w.stats;
    } else {
      var slot :| slot in w.pc[t].left;
      assert slot in w.stats.Keys;
      run := Extend(w, [], t, Move(slot));
      var w' := After(w, run);
      assert w'.stats == w.stats;
      var rest := ReadOn(w', t);
      RunsJoin(w, run, rest);
      run := run + rest;
    }
  }
}
