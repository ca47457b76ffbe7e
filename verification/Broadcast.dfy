/** A broadcast channel with deferred unsubscription. */
module Broadcast {
  /** Connections are told apart by identity. */
  type Handler = nat

  // The channel as a value.

  /** Without its first occurrence of `x`, if it has one. */
  function WithoutFirst(s: seq<Handler>, x: Handler): seq<Handler> {
    if s == [] then [] else if s[0] == x then s[1..] else [s[0]] + WithoutFirst(s[1..], x)
  }

  /** Unsubscriptions applied one by one. */
  function Purged(s: seq<Handler>, pending: seq<Handler>): seq<Handler>
    decreases |pending|
  {
    if pending == [] then s else Purged(WithoutFirst(s, pending[0]), pending[1..])
  }

  /** The reference: one pass that drops, of each connection, as many entries as are owed, the newest first. */
  function Survivors(s: seq<Handler>, owed: multiset<Handler>): seq<Handler> {
    if s == [] then []
    else if s[0] in owed then Survivors(s[1..], owed - multiset{s[0]})
    else [s[0]] + Survivors(s[1..], owed)
  }

  lemma {:induction false} OneLess(s: seq<Handler>, x: Handler, owed: multiset<Handler>)
    ensures Survivors(WithoutFirst(s, x), owed) == Survivors(s, owed + multiset{x})
  {
    if s != [] {
      var rest := s[1..];
      if s[0] == x {
        assert owed + multiset{x} - multiset{x} == owed;
      } else {
        var s' := WithoutFirst(s, x);
        assert s'[0] == s[0] && s'[1..] == WithoutFirst(rest, x);
        if s[0] in owed {
          OneLess(rest, x, owed - multiset{s[0]});
          assert owed + multiset{x} - multiset{s[0]} == owed - multiset{s[0]} + multiset{x};
        } else {
          OneLess(rest, x, owed);
        }
      }
    }
  }

  lemma {:induction false} NothingOwed(s: seq<Handler>)
    ensures Survivors(s, multiset{}) == s
  {
    if s != [] { NothingOwed(s[1..]); }
  }

  /** Purging is the one-pass reference, so the order of the unsubscriptions does not matter. */
  lemma {:induction false} PurgedExactly(s: seq<Handler>, pending: seq<Handler>)
    ensures Purged(s, pending) == Survivors(s, multiset(pending))
    decreases |pending|
  {
    if pending == [] {
      NothingOwed(s);
    } else {
      PurgedExactly(WithoutFirst(s, pending[0]), pending[1..]);
      OneLess(s, pending[0], multiset(pending[1..]));
      assert pending == [pending[0]] + pending[1..];
      assert multiset(pending) == multiset(pending[1..]) + multiset{pending[0]};
    }
  }

  /** Survivors are the entries minus one per unsubscription, saturating at none. */
  lemma {:induction false} SurvivorsCount(s: seq<Handler>, owed: multiset<Handler>)
    ensures multiset(Survivors(s, owed)) == multiset(s) - owed
  {
    if s != [] {
      var rest := s[1..];
      assert s == [s[0]] + rest;
      assert multiset(s) == multiset{s[0]} + multiset(rest);
      if s[0] in owed {
        SurvivorsCount(rest, owed - multiset{s[0]});
        assert multiset(s) - owed == multiset(rest) - (owed - multiset{s[0]});
      } else {
        SurvivorsCount(rest, owed);
        assert multiset(s) - owed == multiset{s[0]} + (multiset(rest) - owed);
      }
    }
  }

  /** `part` is `whole` with entries left out. */
  predicate Within(part: seq<Handler>, whole: seq<Handler>) {
    part == [] || (whole != [] && (Within(part, whole[1..]) || (part[0] == whole[0] && Within(part[1..], whole[1..]))))
  }

  lemma {:induction false} SurvivorsInOrder(s: seq<Handler>, owed: multiset<Handler>)
    ensures Within(Survivors(s, owed), s)
  {
    if s != [] {
      if s[0] in owed {
        SurvivorsInOrder(s[1..], owed - multiset{s[0]});
      } else {
        SurvivorsInOrder(s[1..], owed);
        assert Survivors(s, owed)[1..] == Survivors(s[1..], owed);
      }
    }
  }

  lemma {:induction false} WithinTwice(a: seq<Handler>, b: seq<Handler>, c: seq<Handler>)
    requires Within(a, b) && Within(b, c)
    ensures Within(a, c)
    decreases |c|
  {
    if a != [] {
      if Within(b, c[1..]) {
        WithinTwice(a, b, c[1..]);
      } else if Within(a, b[1..]) {
        WithinTwice(a, b[1..], c[1..]);
      } else {
        WithinTwice(a[1..], b[1..], c[1..]);
      }
    }
  }

  /** What a purge leaves. */
  lemma PurgedMeans(s: seq<Handler>, pending: seq<Handler>)
    ensures multiset(Purged(s, pending)) == multiset(s) - multiset(pending)
    ensures Within(Purged(s, pending), s)
  {
    PurgedExactly(s, pending);
    SurvivorsCount(s, multiset(pending));
    SurvivorsInOrder(s, multiset(pending));
  }

  // Histories.

  datatype Op = Subscribe(handler: Handler) | Unsubscribe(handler: Handler) | Bcast

  datatype Channel = Channel(subscribers: seq<Handler>, unsubscribers: seq<Handler>)

  function Apply(c: Channel, op: Op): Channel {
    match op
    case Subscribe(h) => Channel([h] + c.subscribers, c.unsubscribers)
    case Unsubscribe(h) => Channel(c.subscribers, [h] + c.unsubscribers)
    case Bcast => Channel(Purged(c.subscribers, c.unsubscribers), [])
  }

  function After(ops: seq<Op>): Channel {
    if ops == [] then Channel([], []) else Apply(After(ops[..|ops| - 1]), ops[|ops| - 1])
  }

  /** The same history on multisets: the subscriptions, and the unsubscriptions still to be applied. */
  datatype Tally = Tally(live: multiset<Handler>, owed: multiset<Handler>)

  function Count(t: Tally, op: Op): Tally {
    match op
    case Subscribe(h) => Tally(t.live + multiset{h}, t.owed)
    case Unsubscribe(h) => Tally(t.live, t.owed + multiset{h})
    case Bcast => Tally(t.live - t.owed, multiset{})
  }

  function Counted(ops: seq<Op>): Tally {
    if ops == [] then Tally(multiset{}, multiset{}) else Count(Counted(ops[..|ops| - 1]), ops[|ops| - 1])
  }

  /** All subscriptions of a history, the newest first. */
  function Subscriptions(ops: seq<Op>): seq<Handler> {
    if ops == [] then []
    else
      var before := Subscriptions(ops[..|ops| - 1]);
      if ops[|ops| - 1].Subscribe? then [ops[|ops| - 1].handler] + before else before
  }

  predicate Matches(c: Channel, t: Tally, subscriptions: seq<Handler>) {
    multiset(c.subscribers) == t.live && multiset(c.unsubscribers) == t.owed && Within(c.subscribers, subscriptions)
  }

  lemma StepMatches(c: Channel, t: Tally, subscriptions: seq<Handler>, op: Op)
    requires Matches(c, t, subscriptions)
    ensures Matches(Apply(c, op), Count(t, op), if op.Subscribe? then [op.handler] + subscriptions else subscriptions)
  {
    match op
    case Subscribe(h) =>
      assert ([h] + c.subscribers)[1..] == c.subscribers && ([h] + subscriptions)[1..] == subscriptions;
    case Unsubscribe(h) =>
    case Bcast =>
      PurgedMeans(c.subscribers, c.unsubscribers);
      WithinTwice(Purged(c.subscribers, c.unsubscribers), c.subscribers, subscriptions);
  }

  /**
   * After any history the channel holds the live subscriptions, in the order they were made, newest first, and owes
   * what has been unsubscribed since the last broadcast.
   */
  lemma {:induction false} HistoryCounted(ops: seq<Op>)
    ensures multiset(After(ops).subscribers) == Counted(ops).live
    ensures multiset(After(ops).unsubscribers) == Counted(ops).owed
    ensures Within(After(ops).subscribers, Subscriptions(ops))
  {
    if ops != [] {
      var before := ops[..|ops| - 1];
      HistoryCounted(before);
      StepMatches(After(before), Counted(before), Subscriptions(before), ops[|ops| - 1]);
    }
  }

  // The channel in place.

  class BroadcastChannel {
    var subscribers: seq<Handler>
    var unsubscribers: seq<Handler>

    ghost function Value(): Channel
      reads this
    {
      Channel(subscribers, unsubscribers)
    }

    constructor ()
      ensures Value() == After([])
    {
      subscribers, unsubscribers := [], [];
    }

    method SubscribeHandler(h: Handler)
      modifies this
      ensures Value() == Apply(old(Value()), Subscribe(h))
    {
      subscribers := [h] + subscribers;
    }

    method UnsubscribeHandler(h: Handler)
      modifies this
      ensures Value() == Apply(old(Value()), Unsubscribe(h))
    {
      unsubscribers := [h] + unsubscribers;
    }

    /** Walks the list and erases the first entry of `h`. */
    method EraseFirst(h: Handler)
      modifies this`subscribers
      ensures subscribers == WithoutFirst(old(subscribers), h)
    {
      var it := 0;
      ghost var all := subscribers;
      assert all[0..] == all;
      while it < |subscribers|
        invariant 0 <= it <= |subscribers| && subscribers == all
        invariant WithoutFirst(all, h) == all[..it] + WithoutFirst(all[it..], h)
      {
        if subscribers[it] == h {
          subscribers := subscribers[..it] + subscribers[it + 1..];
          assert all[it..][1..] == all[it + 1..];
          return;
        }
        assert all[it..][1..] == all[it + 1..];
        assert all[..it] + ([all[it]] + WithoutFirst(all[it + 1..], h)) == all[..it + 1] + WithoutFirst(all[it + 1..], h);
        it := it + 1;
      }
      assert all[..it] + [] == all;
    }

    method Purge()
      modifies this
      ensures subscribers == Purged(old(subscribers), old(unsubscribers)) && unsubscribers == []
    {
      var uit := 0;
      while uit < |unsubscribers|
        invariant 0 <= uit <= |unsubscribers| && unsubscribers == old(unsubscribers)
        invariant Purged(subscribers, unsubscribers[uit..]) == Purged(old(subscribers), old(unsubscribers))
      {
        assert unsubscribers[uit..][1..] == unsubscribers[uit + 1..];
        EraseFirst(unsubscribers[uit]);
        uit := uit + 1;
      }
      unsubscribers := [];
    }

    /** The connections sent to, in order. */
    method BcastMessage() returns (sent: seq<Handler>)
      modifies this
      ensures Value() == Apply(old(Value()), Bcast) && sent == subscribers
      ensures multiset(sent) == multiset(old(subscribers)) - multiset(old(unsubscribers))
      ensures Within(sent, old(subscribers)) && unsubscribers == []
    {
      PurgedMeans(subscribers, unsubscribers);
      Purge();
      sent := SendAll();
    }

    method SendAll() returns (sent: seq<Handler>)
      ensures sent == subscribers
    {
      sent := [];
      for i := 0 to |subscribers|
        invariant sent == subscribers[..i]
      {
        sent := sent + [subscribers[i]];
      }
    }
  }
}
