/** What is due to a connection and what has been written to it. */
module CloseAccounts {
  import opened Wire
  import opened Connection
  import opened CloseSequence

  /** The frames an event list has the service send: those of PONG and CLOSE events. */
  function ToSend(events: seq<AppEvent>): seq<seq<byte>> {
    if events == [] then []
    else ToSend(events[..|events| - 1]) + Sent(events[|events| - 1])
  }

  function Sent(e: AppEvent): seq<seq<byte>> {
    if e.op == 8 || e.op == 10 then [e.message] else []
  }

  /** Steps after which a connection may hear of something else or of less: sends by the application, sends that fail. */
  predicate Disturbs(step: Step, id: Id) {
    (step.AppSend? && step.id == id) || step == SendFrame(false) || step == Advance(id, CLOSED)
  }

  predicate Undisturbed(steps: seq<Step>, n: nat, id: Id)
    requires n <= |steps|
  {
    forall k :: 0 <= k < n ==> !Disturbs(steps[k], id)
  }

  predicate ServiceAt(w: World, id: Id) {
    !w.service.Idling? && w.service.id == id
  }

  /** The frame the service is about to send to this connection. */
  function InHand(w: World, id: Id): seq<seq<byte>> {
    if w.service.Sending? && w.service.id == id then [w.service.frame] else []
  }

  /** Written is what is due of the events taken, but for the frame in the service's hand. */
  ghost predicate Answered(w: World, id: Id) {
    && id in w.conns
    && w.conns[id].written + InHand(w, id) == ToSend(EventsOf(id, w.handled))
    && (ServiceAt(w, id) ==> w.conns[id].phase == MESSAGING)
    && (w.conns[id].phase == CLOSED || (ServiceAt(w, id) && (w.service.Closing? || w.service.closing)) ==>
          HasClose(EventsOf(id, w.handled)))
  }
}
