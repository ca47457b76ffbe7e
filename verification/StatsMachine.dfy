/** The table of worker statistics behind a lock-free gate: the atomic steps of any number of threads, and their runs. */
module StatsMachine {
  datatype IOStats = IOStats(
    connections: nat, eventQueueSize: nat, inMessages: nat, outMessages: nat,
    inMessageMaxSize: nat, outMessageMaxSize: nat, bytesIn: nat, bytesOut: nat, inQueueDepth: nat)

  const NO_STATS := IOStats(0, 0, 0, 0, 0, 0, 0, 0, 0)

  /** The assignment operator: the byte counters of the slot assigned to stay. */
  function Assigned(slot: IOStats, value: IOStats): IOStats {
    value.(bytesIn := slot.bytesIn, bytesOut := slot.bytesOut)
  }

  /** The operations a thread may call. */
  datatype Call = TryUpdate(wid: nat, value: IOStats) | AddSlot(wid: nat) | DelSlot(wid: nat) | GetStats

  /** Where a thread is: between two atomic steps of a call, or outside all of them. */
  datatype Pc =
    | Idle
    | Entering(wid: nat, value: IOStats)  // about to count itself
    | Counted(wid: nat, value: IOStats)   // counted, about to test the flag
    | Looking(wid: nat, value: IOStats)   // admitted, about to search the table
    | Writing(wid: nat, value: IOStats)   // found the slot, about to write it
    | Leaving(updated: bool)              // about to uncount itself
    | Closing(call: Call)                 // trying to take the flag
    | Draining(call: Call)                // has the flag, waiting for the count to be 0
    | Mutating(call: Call)                // about to change the table
    | Reading(left: set<nat>, seen: map<nat, IOStats>)
    | Returning(seen: map<nat, IOStats>)  // has read the table, about to give the flag back
    | Opening                             // has changed the table, about to give the flag back

  type Thread = nat

  datatype World = World(canUpdate: bool, updaters: int, stats: map<nat, IOStats>, pc: map<Thread, Pc>)

  /** A step of one thread: a new call, or its next atomic action; a read of the table may take any slot next. */
  datatype Step = Start(call: Call) | Move(slot: nat)

  predicate IsInitial(w: World) {
    w.canUpdate && w.updaters == 0 && w.stats == map[] && forall t :: t in w.pc ==> w.pc[t] == Idle
  }

  predicate Enabled(w: World, t: Thread, step: Step) {
    && t in w.pc
    && match step
       case Start(_) => w.pc[t].Idle?
       case Move(slot) => !w.pc[t].Idle? && (w.pc[t].Reading? && w.pc[t].left != {} ==> slot in w.pc[t].left)
  }

  function At(w: World, t: Thread, pc: Pc): World {
    w.(pc := w.pc[t := pc])
  }

  function Begin(call: Call): Pc {
    if call.TryUpdate? then Entering(call.wid, call.value) else Closing(call)
  }

  /** What one step does. A compare-and-exchange that fails leaves everything as it is and is tried again. */
  function Do(w: World, t: Thread, step: Step): World
    requires Enabled(w, t, step)
  {
    match step
    case Start(call) => At(w, t, Begin(call))
    case Move(slot) =>
      match w.pc[t]
      case Idle => w
      case Entering(wid, value) => At(w, t, Counted(wid, value)).(updaters := w.updaters + 1)
      case Counted(wid, value) => At(w, t, if w.canUpdate then Looking(wid, value) else Leaving(false))
      case Looking(wid, value) => At(w, t, if wid in w.stats then Writing(wid, value) else Leaving(false))
      case Writing(wid, value) =>
        if wid !in w.stats then w
        else At(w, t, Leaving(true)).(stats := w.stats[wid := Assigned(w.stats[wid], value)])
      case Leaving(_) => At(w, t, Idle).(updaters := w.updaters - 1)
      case Closing(call) =>
        if !w.canUpdate then w
        else At(w, t, if call.GetStats? then Reading(w.stats.Keys, map[]) else Draining(call)).(canUpdate := false)
      case Draining(call) => if w.updaters == 0 then At(w, t, Mutating(call)) else w
      case Mutating(call) => At(w, t, Opening).(stats := Mutated(w.stats, call))
      case Reading(left, seen) =>
        if left == {} then At(w, t, Returning(seen))
        else if slot in w.stats then At(w, t, Reading(left - {slot}, seen[slot := w.stats[slot]]))
        else w
      case Returning(_) => At(w, t, Idle).(canUpdate := true)
      case Opening => At(w, t, Idle).(canUpdate := true)
  }

  /** `emplace` keeps an existing slot. */
  function Mutated(stats: map<nat, IOStats>, call: Call): map<nat, IOStats> {
    match call
    case AddSlot(wid) => if wid in stats then stats else stats[wid := NO_STATS]
    case DelSlot(wid) => stats - {wid}
    case _ => stats
  }

  // What holds in every reachable state.

  predicate IsCounted(pc: Pc) {
    pc.Counted? || pc.Looking? || pc.Writing? || pc.Leaving?
  }

  predicate HoldsGate(pc: Pc) {
    pc.Draining? || pc.Mutating? || pc.Reading? || pc.Returning? || pc.Opening?
  }

  /** Inside `try_update`'s use of the table. */
  predicate Accessing(pc: Pc) {
    pc.Looking? || pc.Writing?
  }

  function Updating(w: World): set<Thread> {
    set t | t in w.pc && IsCounted(w.pc[t])
  }

  ghost predicate GateHeld(w: World) {
    && (forall t :: t in w.pc && HoldsGate(w.pc[t]) ==> !w.canUpdate)
    && (forall t, u :: t in w.pc && u in w.pc && HoldsGate(w.pc[t]) && HoldsGate(w.pc[u]) ==> t == u)
    && (!w.canUpdate ==> exists t :: t in w.pc && HoldsGate(w.pc[t]))
  }

  ghost predicate ChangeAlone(w: World) {
    forall t, u :: t in w.pc && u in w.pc && w.pc[t].Mutating? ==> !Accessing(w.pc[u])
  }

  /** The slot found by an update is still there when it is written. */
  ghost predicate IteratorsLive(w: World) {
    forall t :: t in w.pc && w.pc[t].Writing? ==> w.pc[t].wid in w.stats
  }

  /** What has been read and what is left are the slots of the table, to the end of the call. */
  ghost predicate SnapshotsWhole(w: World) {
    && (forall t :: t in w.pc && w.pc[t].Reading? ==> Reads(w.stats, w.pc[t]))
    && (forall t :: t in w.pc && w.pc[t].Returning? ==> w.pc[t].seen.Keys == w.stats.Keys)
  }

  /** Byte counters never reach the table. */
  predicate NoBytes(stats: map<nat, IOStats>) {
    forall wid :: wid in stats ==> stats[wid].bytesIn == 0 && stats[wid].bytesOut == 0
  }

  predicate Reads(stats: map<nat, IOStats>, pc: Pc)
    requires pc.Reading?
  {
    pc.left !! pc.seen.Keys && pc.left + pc.seen.Keys == stats.Keys
  }

  ghost predicate Inv(w: World) {
    w.updaters == |Updating(w)| && GateHeld(w) && ChangeAlone(w) && IteratorsLive(w) && SnapshotsWhole(w)
    && NoBytes(w.stats)
  }

  /** The gate is still shut, and of the threads only this one has moved. */
  ghost predicate StillShut(w: World, w': World, u: Thread) {
    Inv(w') && !w'.canUpdate && u in w.pc && u in w'.pc && w'.pc == w.pc[u := w'.pc[u]]
  }

  // Runs.

  datatype Event = Event(thread: Thread, step: Step)

  predicate IsRun(w: World, run: seq<Event>)
    decreases |run|
  {
    run == [] || (Enabled(w, run[0].thread, run[0].step) && IsRun(Do(w, run[0].thread, run[0].step), run[1..]))
  }

  function After(w: World, run: seq<Event>): World
    requires IsRun(w, run)
    decreases |run|
  {
    if run == [] then w else After(Do(w, run[0].thread, run[0].step), run[1..])
  }

  /** No new calls. */
  predicate Moves(run: seq<Event>) {
    forall i :: 0 <= i < |run| ==> run[i].step.Move?
  }
}
