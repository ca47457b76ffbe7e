/** Runs of the table of worker statistics, told by the calls of the threads. */
module StatsHistory {
  import opened Wrappers
  import opened StatsMachine

  /** A run with all its states, from an initial one. */
  predicate IsHistory(states: seq<World>, run: seq<Event>) {
    && |states| == |run| + 1 && IsInitial(states[0])
    && forall k :: 0 <= k < |run| ==> StepAt(states, run, k)
  }

  predicate StepAt(states: seq<World>, run: seq<Event>, k: nat)
    requires |states| == |run| + 1 && k < |run|
  {
    StepOf(states[k], run[k], states[k + 1])
  }

  predicate StepOf(w: World, e: Event, w': World) {
    Enabled(w, e.thread, e.step) && w' == Do(w, e.thread, e.step)
  }

  /** The call a thread is in, or was in last, before step `k`. */
  function CallOf(run: seq<Event>, k: nat, t: Thread): Option<Call>
    requires k <= |run|
  {
    if k == 0 then None
    else if run[k - 1].thread == t && run[k - 1].step.Start? then Some(run[k - 1].step.call)
    else CallOf(run, k - 1, t)
  }

  /** Where a thread is, it is in the call it made. */
  predicate InCall(pc: Pc, call: Option<Call>) {
    match pc
    case Idle => true
    case Entering(wid, value) => call == Some(TryUpdate(wid, value))
    case Counted(wid, value) => call == Some(TryUpdate(wid, value))
    case Looking(wid, value) => call == Some(TryUpdate(wid, value))
    case Writing(wid, value) => call == Some(TryUpdate(wid, value))
    case Leaving(_) => call.Some? && call.value.TryUpdate?
    case Closing(c) => call == Some(c) && !c.TryUpdate?
    case Draining(c) => call == Some(c) && (c.AddSlot? || c.DelSlot?)
    case Mutating(c) => call == Some(c) && (c.AddSlot? || c.DelSlot?)
    case Reading(_, _) => call == Some(GetStats)
    case Returning(_) => call == Some(GetStats)
    case Opening => call.Some? && (call.value.AddSlot? || call.value.DelSlot?)
  }

  /** Step `k` makes an update of this slot with this value report success. */
  predicate Updates(states: seq<World>, run: seq<Event>, k: nat, wid: nat, value: IOStats)
    requires IsHistory(states, run) && k < |run|
  {
    var t := run[k].thread;
    && t in states[k].pc && t in states[k + 1].pc
    && states[k].pc[t] != Leaving(true) && states[k + 1].pc[t] == Leaving(true)
    && CallOf(run, k, t) == Some(TryUpdate(wid, value))
  }

  /** Step `k` is the change to the table that this call asks for. */
  predicate Changes(states: seq<World>, run: seq<Event>, k: nat, call: Call)
    requires IsHistory(states, run) && k < |run|
  {
    var t := run[k].thread;
    && t in states[k].pc && t in states[k + 1].pc
    && states[k].pc[t] != Opening && states[k + 1].pc[t] == Opening
    && CallOf(run, k, t) == Some(call)
  }

  /** What a step does to one slot, in the words of the calls: all fields of an update but the byte counters, which are 0. */
  ghost predicate SlotStep(states: seq<World>, run: seq<Event>, k: nat, wid: nat)
    requires IsHistory(states, run) && k < |run|
  {
    var before, after := states[k].stats, states[k + 1].stats;
    && (forall value :: Updates(states, run, k, wid, value) ==> wid in before && wid in after && Holds(after[wid], value))
    && (Changes(states, run, k, AddSlot(wid)) ==> wid in after && after[wid] == if wid in before then before[wid] else IOStats(0, 0, 0, 0, 0, 0, 0, 0, 0))
    && (Changes(states, run, k, DelSlot(wid)) ==> wid !in after)
    && (!Touches(states, run, k, wid) ==> (wid in before <==> wid in after) && (wid in before ==> after[wid] == before[wid]))
  }

  ghost predicate Touches(states: seq<World>, run: seq<Event>, k: nat, wid: nat)
    requires IsHistory(states, run) && k < |run|
  {
    || (exists value :: Updates(states, run, k, wid, value))
    || Changes(states, run, k, AddSlot(wid)) || Changes(states, run, k, DelSlot(wid))
  }

  predicate Holds(slot: IOStats, value: IOStats) {
    slot == IOStats(
      value.connections, value.eventQueueSize, value.inMessages, value.outMessages, value.inMessageMaxSize,
      value.outMessageMaxSize, 0, 0, value.inQueueDepth)
  }

  predicate IsWrite(w: World, t: Thread, step: Step) {
    t in w.pc && step.Move? && w.pc[t].Writing?
  }

  predicate IsChange(w: World, t: Thread, step: Step) {
    t in w.pc && step.Move? && w.pc[t].Mutating?
  }

  /** The table with one slot written. */
  ghost predicate Written(stats: map<nat, IOStats>, stats': map<nat, IOStats>, wid: nat, value: IOStats) {
    && wid in stats && wid in stats' && Holds(stats'[wid], value)
    && forall other :: other != wid ==>
         (other in stats' <==> other in stats) && (other in stats ==> stats'[other] == stats[other])
  }

  /** No update of this slot succeeds and no call takes it away in these steps. */
  ghost predicate Quiet(states: seq<World>, run: seq<Event>, from: nat, till: nat, wid: nat)
    requires IsHistory(states, run) && till <= |run|
  {
    forall i :: from <= i < till ==>
      !Changes(states, run, i, DelSlot(wid)) && forall value :: !Updates(states, run, i, wid, value)
  }

  predicate NotTaken(states: seq<World>, run: seq<Event>, from: nat, till: nat, wid: nat)
    requires IsHistory(states, run) && till <= |run|
  {
    forall i :: from <= i < till ==> !Changes(states, run, i, DelSlot(wid))
  }

  /** Step `j` adds this slot, and no step from there to `k` takes it away. */
  predicate AddedAndKept(states: seq<World>, run: seq<Event>, j: int, k: nat, wid: nat)
    requires IsHistory(states, run) && k <= |run|
  {
    0 <= j < k && Changes(states, run, j, AddSlot(wid)) && NotTaken(states, run, j + 1, k, wid)
  }

  /** Some step has added this slot, and none has taken it away since. */
  ghost predicate There(states: seq<World>, run: seq<Event>, k: nat, wid: nat)
    requires IsHistory(states, run) && k <= |run|
  {
    exists j :: AddedAndKept(states, run, j, k, wid)
  }

  /** The value a slot had at some point of these. */
  predicate HadBetween(states: seq<World>, from: nat, till: nat, slot: nat, value: IOStats)
    requires till < |states|
  {
    exists i :: from <= i <= till && slot in states[i].stats && states[i].stats[slot] == value
  }

  predicate ReadingAt(w: World, t: Thread) {
    t in w.pc && (w.pc[t].Reading? || w.pc[t].Returning?)
  }

  function SeenAt(w: World, t: Thread): map<nat, IOStats>
    requires ReadingAt(w, t)
  {
    w.pc[t].seen
  }

  /** All that a reader has seen since it took the flag are values of that time. */
  ghost predicate SeenSince(states: seq<World>, from: nat, k: nat, t: Thread)
    requires from <= k < |states|
  {
    && (forall i :: from <= i <= k ==> ReadingAt(states[i], t))
    && SeenAt(states[from], t) == map[]
    && forall slot :: slot in SeenAt(states[k], t) ==> HadBetween(states, from, k, slot, SeenAt(states[k], t)[slot])
  }

  /** Step `j` is the latest update of this slot that reported success. */
  ghost predicate LatestUpdate(states: seq<World>, run: seq<Event>, j: nat, k: nat, wid: nat, value: IOStats)
    requires IsHistory(states, run) && k <= |run|
  {
    j < k && Updates(states, run, j, wid, value) && Quiet(states, run, j + 1, k, wid)
  }

  /** Step `j` made this slot, and no update of it has reported success since. */
  ghost predicate StillNew(states: seq<World>, run: seq<Event>, j: nat, k: nat, wid: nat)
    requires IsHistory(states, run) && k <= |run|
  {
    j < k && Changes(states, run, j, AddSlot(wid)) && wid !in states[j].stats && Quiet(states, run, j + 1, k, wid)
  }
}
