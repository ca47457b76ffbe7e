/** What lookups answer: fair shares of the instances of a service, and the instances that were registered. */
module RegistryAnswers {
  import opened Registry
  import GrowthPolicy

  // Answers of one holder.

  /** The answers of `k` turns. */
  function Turns(h: Holder, k: nat): (answers: seq<Instance>)
    requires h.instances != []
    ensures |answers| == k
    decreases k
  {
    if k == 0 then [] else [Chosen(h)] + Turns(Turned(h), k - 1)
  }

  predicate Different(instances: seq<Instance>) {
    forall i, j :: 0 <= i < j < |instances| ==> instances[i] != instances[j]
  }

  lemma {:induction false} TurnsCounted(h: Holder, k: nat, i: nat)
    requires i < |h.instances| && Different(h.instances)
    ensures multiset(Turns(h, k))[h.instances[i]] == Times(h.current, |h.instances|, k, i)
    decreases k
  {
    if k > 0 {
      TurnsCounted(Turned(h), k - 1, i);
      var rest := Turns(Turned(h), k - 1);
      assert multiset([Chosen(h)] + rest) == multiset{Chosen(h)} + multiset(rest);
      assert Chosen(h) == h.instances[i] <==> Pick(h.current, |h.instances|) == i;
    }
  }

  /** Over any number of turns no instance is answered more than once more than another. */
  lemma AnswersAreFair(h: Holder, k: nat, a: Instance, b: Instance)
    requires Different(h.instances) && a in h.instances && b in h.instances
    ensures multiset(Turns(h, k))[a] <= multiset(Turns(h, k))[b] + 1
  {
    var i :| 0 <= i < |h.instances| && h.instances[i] == a;
    var j :| 0 <= j < |h.instances| && h.instances[j] == b;
    TurnsCounted(h, k, i);
    TurnsCounted(h, k, j);
    RoundRobinIsFair(h.current, |h.instances|, k, i, j);
  }

  /** Once round from any index, every index comes up once. */
  lemma OnceRound(current: nat, n: nat, i: nat)
    requires i < n
    ensures Times(current, n, n, i) == 1
  {
    TimesExactly(current, n, n, i);
  }

  lemma {:induction false} NoOthers(h: Holder, k: nat, x: Instance)
    requires h.instances != [] && x !in h.instances
    ensures x !in Turns(h, k)
    decreases k
  {
    if k > 0 { NoOthers(Turned(h), k - 1, x); }
  }

  lemma {:induction false} OnceInside(s: seq<Instance>, i: nat)
    requires Different(s) && i < |s|
    ensures multiset(s)[s[i]] == 1
    decreases |s|
  {
    var last := s[|s| - 1];
    assert s == s[..|s| - 1] + [last];
    assert multiset(s) == multiset(s[..|s| - 1]) + multiset{last};
    if i < |s| - 1 {
      OnceInside(s[..|s| - 1], i);
      assert s[..|s| - 1][i] == s[i];
    } else {
      assert last !in s[..|s| - 1];
    }
  }

  /** As many turns as there are instances answer each of them once. */
  lemma RoundIsAll(h: Holder)
    requires h.instances != [] && Different(h.instances)
    ensures multiset(Turns(h, |h.instances|)) == multiset(h.instances)
  {
    var answers := Turns(h, |h.instances|);
    forall x ensures multiset(answers)[x] == multiset(h.instances)[x] {
      if x in h.instances {
        var i :| 0 <= i < |h.instances| && h.instances[i] == x;
        TurnsCounted(h, |h.instances|, i);
        OnceRound(h.current, |h.instances|, i);
        OnceInside(h.instances, i);
      } else {
        NoOthers(h, |h.instances|, x);
      }
    }
  }

  function After(h: Holder, k: nat): Holder
    decreases k
  {
    if k == 0 then h else After(Turned(h), k - 1)
  }

  lemma {:induction false} TurnsFrom(h: Holder, k: nat, j: nat)
    requires h.instances != [] && j <= k
    ensures After(h, j).instances == h.instances && Turns(h, k)[j..] == Turns(After(h, j), k - j)
    decreases j
  {
    if j > 0 {
      TurnsFrom(Turned(h), k - 1, j - 1);
      assert ([Chosen(h)] + Turns(Turned(h), k - 1))[j..] == Turns(Turned(h), k - 1)[j - 1..];
    }
  }

  lemma {:induction false} TurnsFirst(h: Holder, k: nat, n: nat)
    requires h.instances != [] && n <= k
    ensures Turns(h, k)[..n] == Turns(h, n)
    decreases n
  {
    if n > 0 {
      TurnsFirst(Turned(h), k - 1, n - 1);
      assert ([Chosen(h)] + Turns(Turned(h), k - 1))[..n] == [Chosen(h)] + Turns(Turned(h), k - 1)[..n - 1];
    }
  }

  lemma Stretch(answers: seq<Instance>, j: nat, n: nat)
    requires j + n <= |answers|
    ensures answers[j..j + n] == answers[j..][..n]
  {
  }

  lemma StretchTurns(h: Holder, k: nat, j: nat, n: nat)
    requires h.instances != [] && j + n <= k
    ensures After(h, j).instances == h.instances && Turns(h, k)[j..j + n] == Turns(After(h, j), n)
  {
    TurnsFrom(h, k, j);
    TurnsFirst(After(h, j), k - j, n);
    Stretch(Turns(h, k), j, n);
  }

  /** Any stretch of as many answers as there are instances holds each of them once. */
  lemma AnyRoundIsAll(h: Holder, k: nat, j: nat)
    requires h.instances != [] && Different(h.instances) && j + |h.instances| <= k
    ensures multiset(Turns(h, k)[j..j + |h.instances|]) == multiset(h.instances)
  {
    StretchTurns(h, k, j, |h.instances|);
    LaterRoundIsAll(h, After(h, j), Turns(h, k)[j..j + |h.instances|]);
  }

  lemma LaterRoundIsAll(h: Holder, later: Holder, round: seq<Instance>)
    requires h.instances != [] && Different(h.instances) && later.instances == h.instances && round == Turns(later, |h.instances|)
    ensures multiset(round) == multiset(h.instances)
  {
    RoundIsAll(later);
  }

  /** The answers go on from the instance after the one chosen last, round and round; from the first if that one is gone. */
  lemma {:induction false} AnswerAt(h: Holder, k: nat, j: nat)
    requires h.instances != [] && j < k
    ensures var n := |h.instances|; |Turns(h, k)| == k && Turns(h, k)[j] == h.instances[(Following(h.current, n) + j) % n]
    decreases k
  {
    if j == 0 {
      AroundOnce(Following(h.current, |h.instances|), 0, |h.instances|);
    } else {
      AnswerAt(Turned(h), k - 1, j - 1);
      AroundOnce(Following(h.current, |h.instances|), j, |h.instances|);
    }
  }

  function Following(current: nat, n: nat): nat {
    if current < n then current + 1 else 0
  }

  lemma AroundOnce(c: nat, j: nat, n: nat)
    requires 0 < n && c <= n
    ensures c == n ==> (c + j) % n == j % n
    ensures c % n == if c == n then 0 else c
  {
    if c == n {
      var q, r := j / n, j % n;
      assert n + j == (q + 1) * n + r;
      GrowthPolicy.ModUnique(n + j, n, q + 1, r);
    }
  }

  // Answers of the registry.

  /** Whether an operation asks this service for an instance. */
  predicate AsksFor(s: Listing, op: Op, name: string) {
    match op
    case FindByName(n) => n == name
    case FindByTarget(t) => t in s.targets && s.targets[t] == name
    case _ => false
  }

  /** The instances answered to the lookups of a service among these operations, by name or by target. */
  function AnswersOf(s: Listing, ops: seq<Op>, name: string): seq<Instance>
    decreases |ops|
  {
    if ops == [] then []
    else
      (if AsksFor(s, ops[0], name) && name in s.services && s.services[name].instances != [] then [Chosen(s.services[name])] else [])
      + AnswersOf(Apply(s, ops[0]), ops[1..], name)
  }

  /** No instance of this service comes or goes. */
  predicate Settled(ops: seq<Op>, name: string) {
    forall k :: 0 <= k < |ops| ==> ops[k] != Unreg(name) && !(ops[k].Reg? && ops[k].instance.name == name)
  }

  lemma {:induction false} AnswersAreTurns(s: Listing, ops: seq<Op>, name: string) returns (k: nat)
    requires name in s.services && s.services[name].instances != [] && Settled(ops, name)
    ensures AnswersOf(s, ops, name) == Turns(s.services[name], k)
    decreases |ops|
  {
    if ops == [] {
      k := 0;
    } else {
      assert ops[0] != Unreg(name) && !(ops[0].Reg? && ops[0].instance.name == name);
      var s' := Apply(s, ops[0]);
      assert name in s'.services;
      k := AnswersAreTurns(s', ops[1..], name);
      if AsksFor(s, ops[0], name) { k := k + 1; }
    }
  }

  /**
   * Whatever else happens to the registry, lookups of a service, by name and by target, are answered with its instances in
   * fair shares, and any stretch of as many answers as it has instances holds all of them.
   */
  lemma ServiceAnswersFairly(s: Listing, ops: seq<Op>, name: string)
    requires name in s.services && s.services[name].instances != [] && Different(s.services[name].instances)
    requires Settled(ops, name)
    ensures var instances, answers := s.services[name].instances, AnswersOf(s, ops, name);
      && (forall a, b :: a in instances && b in instances ==> multiset(answers)[a] <= multiset(answers)[b] + 1)
      && (forall j :: 0 <= j <= |answers| - |instances| ==> AllIn(answers, j, instances))
  {
    var h, answers := s.services[name], AnswersOf(s, ops, name);
    var k := AnswersAreTurns(s, ops, name);
    forall a, b | a in h.instances && b in h.instances ensures multiset(answers)[a] <= multiset(answers)[b] + 1 {
      AnswersAreFair(h, k, a, b);
    }
    forall j | 0 <= j <= |answers| - |h.instances| ensures AllIn(answers, j, h.instances) {
      AnyRoundIsAll(h, k, j);
    }
  }

  /** The answers from `j` on, as many as there are instances, are these instances. */
  predicate AllIn(answers: seq<Instance>, j: nat, instances: seq<Instance>) {
    j + |instances| <= |answers| && multiset(answers[j..j + |instances|]) == multiset(instances)
  }

  // What is held.

  /** The instances registered under a name since it was last unregistered, in order. */
  function RegisteredSince(ops: seq<Op>, name: string): seq<Instance> {
    if ops == [] then []
    else
      var before, op := RegisteredSince(ops[..|ops| - 1], name), ops[|ops| - 1];
      if op.Reg? && op.instance.name == name then before + [op.instance]
      else if op == Unreg(name) then []
      else before
  }

  /** A service is there exactly when instances of it have been registered since, and holds exactly those, in order. */
  lemma {:induction false} HoldsRegistered(ops: seq<Op>, name: string)
    ensures var s, since := Registry.After(ops), RegisteredSince(ops, name);
      && (name in s.services <==> since != [])
      && (name in s.services ==> s.services[name].instances == since)
  {
    if ops != [] { HoldsRegistered(ops[..|ops| - 1], name); }
  }
}
