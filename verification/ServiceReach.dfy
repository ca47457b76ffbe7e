/** Which services a start registers, and in which turn. */
module ServiceReach {
  import opened Wrappers
  import opened ServiceStart

  /** `m` is reached from `name` along services that are not started yet, and can be started itself. */
  ghost predicate Brought(config: Config, log: seq<string>, name: string, m: string) {
    exists path :: Leads(config, log, path, name, m) && Startable(config[m])
  }

  predicate Leads(config: Config, log: seq<string>, path: seq<string>, name: string, m: string) {
    path != [] && Chain(config, log, path) && path[0] == name && path[|path| - 1] == m
  }

  predicate CallsReady(config: Config, p: Progress) {
    forall c :: c in p.calls ==> Ready(config, p.log, c)
  }

  lemma {:induction false} StartReady(config: Config, p: Progress, name: string, depth: nat)
    requires CallsReady(config, p) && Start(config, p, name, depth).Some?
    ensures var q := Start(config, p, name, depth).value; p.log <= q.log && CallsReady(config, q)
    decreases depth, 0
  {
    if Open(config, p.log, name) {
      StartAllReady(config, p, name, config[name].depends, depth - 1);
      var q := StartAll(config, p, name, config[name].depends, depth - 1).value;
      var added := Added(config[name], name);
      assert Startable(config[name]) ==> added[0] == name;
    }
  }

  lemma {:induction false} StartAllReady(config: Config, p: Progress, name: string, depends: seq<string>, depth: nat)
    requires CallsReady(config, p) && StartAll(config, p, name, depends, depth).Some?
    ensures var q := StartAll(config, p, name, depends, depth).value; p.log <= q.log && CallsReady(config, q)
    decreases depth, 1, |depends|
  {
    if depends != [] {
      if depends[0] == name {
        StartAllReady(config, p, name, depends[1..], depth);
      } else {
        StartReady(config, p, depends[0], depth);
        StartAllReady(config, Start(config, p, depends[0], depth).value, name, depends[1..], depth);
      }
    }
  }

  /** Everything a returned call leads to has been registered. */
  lemma BroughtRegistered(config: Config, log: seq<string>, p: Progress, name: string, m: string)
    requires Orderly(config, log, p) && CallsReady(config, p) && name in p.calls && Brought(config, log, name, m)
    ensures m in p.log
  {
    var path :| Leads(config, log, path, name, m) && Startable(config[m]);
    ChainGoesBack(config, log, p.calls, path, |path| - 1);
  }

  /** Nothing is registered that the service does not lead to. */
  lemma RegisteredBrought(config: Config, p: Progress, name: string, depth: nat, m: string)
    requires NoLoop(config, p.log, name) && Start(config, p, name, depth).Some?
    requires var q := Start(config, p, name, depth).value; m in q.log && m !in p.log
    ensures Brought(config, p.log, name, m)
  {
    NewStartable(config, p, name, depth, m);
    if m == name {
      assert Leads(config, p.log, [name], name, m);
    } else {
      ReachedFurther(config, p, name, depth - 1, m);
    }
  }

  lemma NewStartable(config: Config, p: Progress, name: string, depth: nat, m: string)
    requires NoLoop(config, p.log, name) && Start(config, p, name, depth).Some?
    requires m in Start(config, p, name, depth).value.log && m !in p.log
    ensures depth > 0 && Open(config, p.log, name) && m in config && Startable(config[m])
    ensures var before := StartAll(config, p, name, config[name].depends, depth - 1);
      before.Some? && (m == name || m in before.value.log)
  {
    LooplessHere(config, p.log, name);
    StartOrdered(config, p.log, p, [], name, depth);
  }

  lemma ReachedFurther(config: Config, p: Progress, name: string, depth: nat, m: string)
    requires Open(config, p.log, name) && NoLoop(config, p.log, name)
    requires StartAll(config, p, name, config[name].depends, depth).Some?
    requires m in StartAll(config, p, name, config[name].depends, depth).value.log && m !in p.log
    ensures exists path :: Leads(config, p.log, path, name, m)
  {
    LooplessHere(config, p.log, name);
    StartAllOrdered(config, p.log, p, [], name, config[name].depends, depth);
    AheadLeads(config, p.log, p.log, StartAll(config, p, name, config[name].depends, depth).value.log, name, m);
  }

  lemma AheadLeads(config: Config, log: seq<string>, before: seq<string>, after: seq<string>, name: string, m: string)
    requires AllAhead(config, log, [] + [name], before, after) && m in after && m !in before
    ensures exists path :: Leads(config, log, path, name, m)
  {
    var more :| more != [] && more[|more| - 1] == m && Chain(config, log, [] + [name] + more);
    assert Leads(config, log, [] + [name] + more, name, m);
  }

  /**
   * A start that meets no loop adds exactly the services that can be started among those reached from it along
   * dependencies: none is forgotten, and nothing else is started.
   */
  lemma RegistersExactly(config: Config, log: seq<string>, name: string, m: string)
    requires NoLoop(config, log, name)
    ensures var r := Start(config, Progress(log, []), name, |config| + 1);
      r.Some? && (m in r.value.log <==> m in log || Brought(config, log, name, m))
  {
    var p := Progress(log, []);
    StartsInOrder(config, p, name);
    StartSettled(config, log, p, name, |config| + 1);
    StartReady(config, p, name, |config| + 1);
    var q := Start(config, p, name, |config| + 1).value;
    if Brought(config, log, name, m) { BroughtRegistered(config, log, q, name, m); }
    if m in q.log && m !in log { RegisteredBrought(config, p, name, |config| + 1, m); }
  }

  lemma BroughtEarlier(config: Config, log: seq<string>, more: seq<string>, name: string, m: string)
    requires log <= more && Brought(config, more, name, m)
    ensures Brought(config, log, name, m)
  {
    var path :| Leads(config, more, path, name, m) && Startable(config[m]);
    ChainEarlier(config, log, more, path);
    assert Leads(config, log, path, name, m);
  }

  // In which turn.

  /** Reached from one of these dependencies. */
  ghost predicate BroughtFrom(config: Config, log: seq<string>, name: string, depends: seq<string>, m: string) {
    exists k :: 0 <= k < |depends| && depends[k] != name && Brought(config, log, depends[k], m)
  }

  /** These dependencies have been started one after the other since `log`. */
  ghost predicate InTurn(config: Config, log: seq<string>, p: Progress, name: string, depends: seq<string>) {
    && Orderly(config, log, p) && CallsReady(config, p) && log <= p.log
    && (forall k :: 0 <= k < |depends| && depends[k] != name ==> depends[k] in p.calls)
    && (forall m :: m in p.log && m !in log ==> BroughtFrom(config, log, name, depends, m))
  }

  lemma NoLoopBelow(config: Config, log: seq<string>, more: seq<string>, name: string, d: string)
    requires NoLoop(config, log, name) && Open(config, log, name) && log <= more
    requires d in config[name].depends && d != name
    ensures NoLoop(config, more, d)
  {
    forall path | Chain(config, more, path) && path != [] && path[0] == d ensures Distinct(path) {
      var longer := [name] + path;
      ChainEarlier(config, log, more, path);
      ChainFront(config, log, name, path);
      forall i, j | 0 <= i < j < |path| ensures path[i] != path[j] {
        assert longer[i + 1] == path[i] && longer[j + 1] == path[j];
      }
    }
  }

  lemma BroughtFromMore(config: Config, log: seq<string>, name: string, depends: seq<string>, d: string, m: string)
    requires BroughtFrom(config, log, name, depends, m) || (d != name && Brought(config, log, d, m))
    ensures BroughtFrom(config, log, name, depends + [d], m)
  {
    var more := depends + [d];
    if k :| 0 <= k < |depends| && depends[k] != name && Brought(config, log, depends[k], m) {
      assert more[k] == depends[k];
    } else {
      assert more[|depends|] == d;
    }
  }

  lemma InTurnStep(config: Config, log: seq<string>, p: Progress, name: string, depends: seq<string>, d: string, depth: nat)
    requires InTurn(config, log, p, name, depends) && NoLoop(config, log, name) && Open(config, log, name)
    requires d in config[name].depends && d != name && Start(config, p, d, depth).Some?
    ensures InTurn(config, log, Start(config, p, d, depth).value, name, depends + [d])
  {
    var q := Start(config, p, d, depth).value;
    StartSettled(config, log, p, d, depth);
    StartReady(config, p, d, depth);
    NoLoopBelow(config, log, p.log, name, d);
    forall m | m in q.log && m !in log ensures BroughtFrom(config, log, name, depends + [d], m) {
      if m !in p.log {
        RegisteredBrought(config, p, d, depth, m);
        BroughtEarlier(config, log, p.log, d, m);
      }
      BroughtFromMore(config, log, name, depends, d, m);
    }
  }

  lemma InTurnExactly(config: Config, log: seq<string>, p: Progress, name: string, depends: seq<string>, m: string)
    requires InTurn(config, log, p, name, depends)
    ensures m in p.log <==> m in log || BroughtFrom(config, log, name, depends, m)
  {
    if k :| 0 <= k < |depends| && depends[k] != name && Brought(config, log, depends[k], m) {
      BroughtRegistered(config, log, p, depends[k], m);
    }
  }

  /** Up to here, exactly what these dependencies lead to is registered. */
  ghost predicate CutAt(config: Config, log: seq<string>, name: string, depends: seq<string>, after: seq<string>, n: nat) {
    n <= |after| && forall m :: JustFrom(config, log, name, depends, after[..n], m)
  }

  ghost predicate JustFrom(config: Config, log: seq<string>, name: string, depends: seq<string>, part: seq<string>, m: string) {
    m in part <==> m in log || BroughtFrom(config, log, name, depends, m)
  }

  lemma {:induction false} TurnOf(
      config: Config, log: seq<string>, p: Progress, name: string, done: seq<string>, depends: seq<string>, depth: nat, i: nat)
    returns (n: nat)
    requires InTurn(config, log, p, name, done) && NoLoop(config, log, name) && Open(config, log, name)
    requires (forall d :: d in depends ==> d in config[name].depends) && |done| <= i <= |done| + |depends|
    requires StartAll(config, p, name, depends, depth).Some?
    ensures CutAt(config, log, name, (done + depends)[..i], StartAll(config, p, name, depends, depth).value.log, n)
    decreases |depends|
  {
    if i == |done| {
      StartAllReady(config, p, name, depends, depth);
      n := |p.log|;
      assert (done + depends)[..i] == done;
      assert StartAll(config, p, name, depends, depth).value.log[..n] == p.log;
      forall m ensures JustFrom(config, log, name, done, p.log, m) { InTurnExactly(config, log, p, name, done, m); }
    } else {
      var d, later := depends[0], depends[1..];
      assert done + [d] + later == done + depends;
      if d == name {
        SkippedInTurn(config, log, p, name, done);
        n := TurnOf(config, log, p, name, done + [d], later, depth, i);
      } else {
        InTurnStep(config, log, p, name, done, d, depth);
        n := TurnOf(config, log, Start(config, p, d, depth).value, name, done + [d], later, depth, i);
      }
    }
  }

  lemma SkippedInTurn(config: Config, log: seq<string>, p: Progress, name: string, depends: seq<string>)
    requires InTurn(config, log, p, name, depends)
    ensures InTurn(config, log, p, name, depends + [name])
  {
    forall m | m in p.log && m !in log ensures BroughtFrom(config, log, name, depends + [name], m) {
      BroughtFromMore(config, log, name, depends, name, m);
    }
  }

  /**
   * The dependencies of a service are started in the order they are listed: for each beginning of the list there is a
   * point where exactly the services it leads to are registered.
   */
  lemma DependenciesInTurn(config: Config, log: seq<string>, name: string, i: nat) returns (n: nat)
    requires NoLoop(config, log, name) && Open(config, log, name) && i <= |config[name].depends|
    ensures var r := Start(config, Progress(log, []), name, |config| + 1);
      r.Some? && CutAt(config, log, name, config[name].depends[..i], r.value.log, n)
  {
    var p, depends := Progress(log, []), config[name].depends;
    StartsInOrder(config, p, name);
    n := TurnOf(config, log, p, name, [], depends, |config|, i);
    assert [] + depends == depends;
    var before := StartAll(config, p, name, depends, |config|).value.log;
    var after := Start(config, p, name, |config| + 1).value.log;
    assert before <= after && before[..n] == after[..n];
  }

  ghost predicate BroughtByAny(config: Config, log: seq<string>, names: seq<string>, m: string) {
    exists k :: 0 <= k < |names| && Brought(config, log, names[k], m)
  }

  /** The first `i` of the named services have been started one after the other since `log`. */
  ghost predicate Underway(config: Config, log: seq<string>, p: Progress, names: seq<string>, i: nat) {
    && i <= |names| && Orderly(config, log, p) && CallsReady(config, p) && Ordered(config, log, p.log)
    && AllLoopless(config, p.log, names) && AllBrought(config, log, p.log, names[..i])
    && (forall k :: 0 <= k < i ==> names[k] in p.calls)
  }

  ghost predicate AllLoopless(config: Config, log: seq<string>, names: seq<string>) {
    forall k :: 0 <= k < |names| ==> NoLoop(config, log, names[k])
  }

  ghost predicate AllBrought(config: Config, log: seq<string>, more: seq<string>, names: seq<string>) {
    forall m :: IfNew(config, log, more, names, m)
  }

  ghost predicate IfNew(config: Config, log: seq<string>, more: seq<string>, names: seq<string>, m: string) {
    m in more && m !in log ==> BroughtByAny(config, log, names, m)
  }

  lemma BroughtStep(config: Config, log: seq<string>, p: Progress, names: seq<string>, i: nat, m: string)
    requires Underway(config, log, p, names, i) && i < |names| && Start(config, p, names[i], |config| + 1).Some?
    requires m in Start(config, p, names[i], |config| + 1).value.log && m !in log
    ensures BroughtByAny(config, log, names[..i + 1], m)
  {
    if m in p.log {
      assert IfNew(config, log, p.log, names[..i], m);
      var k :| 0 <= k < i && Brought(config, log, names[..i][k], m);
      assert names[..i + 1][k] == names[..i][k];
    } else {
      RegisteredBrought(config, p, names[i], |config| + 1, m);
      BroughtEarlier(config, log, p.log, names[i], m);
      assert names[..i + 1][i] == names[i];
    }
  }

  lemma StartNext(config: Config, log: seq<string>, p: Progress, names: seq<string>, i: nat)
    requires Underway(config, log, p, names, i) && i < |names|
    ensures var r := Start(config, p, names[i], |config| + 1);
      r.Some? && p.log <= r.value.log && Underway(config, log, r.value, names, i + 1)
  {
    StartsInOrder(config, p, names[i]);
    var q := Start(config, p, names[i], |config| + 1).value;
    StartSettled(config, log, p, names[i], |config| + 1);
    StartReady(config, p, names[i], |config| + 1);
    OrderedTwice(config, log, p.log, q.log);
    StillLoopless(config, p.log, q.log, names);
    AllBroughtStep(config, log, p, names, i);
  }

  lemma StillLoopless(config: Config, log: seq<string>, more: seq<string>, names: seq<string>)
    requires log <= more && AllLoopless(config, log, names)
    ensures AllLoopless(config, more, names)
  {
    forall k | 0 <= k < |names| ensures NoLoop(config, more, names[k]) { FewerChains(config, log, more, names[k]); }
  }

  lemma AllBroughtStep(config: Config, log: seq<string>, p: Progress, names: seq<string>, i: nat)
    requires Underway(config, log, p, names, i) && i < |names| && Start(config, p, names[i], |config| + 1).Some?
    ensures AllBrought(config, log, Start(config, p, names[i], |config| + 1).value.log, names[..i + 1])
  {
    var q, first := Start(config, p, names[i], |config| + 1).value, names[..i + 1];
    forall m ensures IfNew(config, log, q.log, first, m) {
      if m in q.log && m !in log { BroughtStep(config, log, p, names, i, m); }
    }
  }

  /** At some point exactly what these services lead to was registered. */
  ghost predicate Passed(config: Config, log: seq<string>, names: seq<string>, after: seq<string>) {
    exists part :: part <= after && JustThese(config, log, names, part)
  }

  ghost predicate JustThese(config: Config, log: seq<string>, names: seq<string>, part: seq<string>) {
    forall m :: JustOne(config, log, names, part, m)
  }

  ghost predicate JustOne(config: Config, log: seq<string>, names: seq<string>, part: seq<string>, m: string) {
    m in part <==> m in log || BroughtByAny(config, log, names, m)
  }

  lemma PassedHere(config: Config, log: seq<string>, p: Progress, names: seq<string>, i: nat)
    requires Underway(config, log, p, names, i)
    ensures JustThese(config, log, names[..i], p.log) && Passed(config, log, names[..i], p.log)
  {
    forall m ensures JustOne(config, log, names[..i], p.log, m) {
      assert IfNew(config, log, p.log, names[..i], m);
      if BroughtByAny(config, log, names[..i], m) {
        var k :| 0 <= k < i && Brought(config, log, names[..i][k], m);
        BroughtRegistered(config, log, p, names[k], m);
      }
    }
  }

  lemma PassedStays(config: Config, log: seq<string>, names: seq<string>, before: seq<string>, after: seq<string>)
    requires before <= after && Passed(config, log, names, before)
    ensures Passed(config, log, names, after)
  {
    var part :| part <= before && JustThese(config, log, names, part);
    assert part <= after;
  }

  ghost predicate AllPassed(config: Config, log: seq<string>, names: seq<string>, i: nat, after: seq<string>) {
    i <= |names| && forall j :: 0 <= j <= i ==> Passed(config, log, names[..j], after)
  }

  /** The named services are settled, and exactly what they lead to is registered. */
  ghost predicate AllStarted(config: Config, log: seq<string>, names: seq<string>, after: seq<string>) {
    && (forall k :: 0 <= k < |names| ==> Ready(config, after, names[k]))
    && JustThese(config, log, names, after)
  }

  /** The first `i` have been started, one after the other. */
  ghost predicate Turning(config: Config, log: seq<string>, p: Progress, names: seq<string>, i: nat) {
    Underway(config, log, p, names, i) && AllPassed(config, log, names, i, p.log)
  }

  lemma FirstTurn(config: Config, log: seq<string>, names: seq<string>)
    requires AllLoopless(config, log, names)
    ensures Turning(config, log, Progress(log, []), names, 0)
  {
    AllPassedNext(config, log, log, Progress(log, []), names, 0);
  }

  lemma NextTurn(config: Config, log: seq<string>, p: Progress, names: seq<string>, i: nat)
    requires Turning(config, log, p, names, i) && i < |names|
    ensures var r := Start(config, p, names[i], |config| + 1); r.Some? && Turning(config, log, r.value, names, i + 1)
  {
    StartNext(config, log, p, names, i);
    AllPassedNext(config, log, p.log, Start(config, p, names[i], |config| + 1).value, names, i + 1);
  }

  /** The named services started one after the other. */
  function StartEach(config: Config, p: Progress, names: seq<string>): Option<Progress>
    decreases |names|
  {
    if names == [] then Some(p)
    else match Start(config, p, names[0], |config| + 1)
      case None => None
      case Some(q) => StartEach(config, q, names[1..])
  }

  lemma {:induction false} EachTurn(config: Config, log: seq<string>, p: Progress, names: seq<string>, i: nat)
    requires Turning(config, log, p, names, i) && i <= |names|
    ensures var r := StartEach(config, p, names[i..]); r.Some? && Turning(config, log, r.value, names, |names|)
    decreases |names| - i
  {
    if i < |names| {
      NextTurn(config, log, p, names, i);
      assert names[i..][1..] == names[i + 1..];
      EachTurn(config, log, Start(config, p, names[i], |config| + 1).value, names, i + 1);
    }
  }

  lemma EachReturns(config: Config, log: seq<string>, names: seq<string>)
    requires AllLoopless(config, log, names)
    ensures StartEach(config, Progress(log, []), names).Some?
  {
    FirstTurn(config, log, names);
    EachTurn(config, log, Progress(log, []), names, 0);
    assert names[0..] == names;
  }

  /**
   * Starting several services where none meets a loop registers exactly what they lead to, in order, and at some point
   * exactly what each beginning of the list leads to.
   */
  lemma EachStarted(config: Config, log: seq<string>, names: seq<string>)
    requires AllLoopless(config, log, names)
    ensures var r := StartEach(config, Progress(log, []), names);
      && r.Some? && Ordered(config, log, r.value.log) && AllStarted(config, log, names, r.value.log)
      && AllPassed(config, log, names, |names|, r.value.log)
  {
    FirstTurn(config, log, names);
    EachTurn(config, log, Progress(log, []), names, 0);
    assert names[0..] == names;
    LastTurn(config, log, StartEach(config, Progress(log, []), names).value, names);
  }

  lemma LastTurn(config: Config, log: seq<string>, p: Progress, names: seq<string>)
    requires Turning(config, log, p, names, |names|)
    ensures Ordered(config, log, p.log) && AllPassed(config, log, names, |names|, p.log)
    ensures AllStarted(config, log, names, p.log)
  {
    PassedHere(config, log, p, names, |names|);
    assert names[..|names|] == names;
  }

  lemma AllPassedNext(config: Config, log: seq<string>, before: seq<string>, p: Progress, names: seq<string>, i: nat)
    requires before <= p.log && (i > 0 ==> AllPassed(config, log, names, i - 1, before)) && Underway(config, log, p, names, i)
    ensures AllPassed(config, log, names, i, p.log)
  {
    forall j | 0 <= j <= i ensures Passed(config, log, names[..j], p.log) {
      if j < i { PassedStays(config, log, names[..j], before, p.log); } else { PassedHere(config, log, p, names, i); }
    }
  }
}
