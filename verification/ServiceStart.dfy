/** Starting a service after the services it depends on: when that ends, and in which order. */
module ServiceStart {
  import opened Wrappers

  /**
   * A configured service. Reading the descriptor may fail at its list of dependencies, or after the dependencies have
   * been started.
   */
  datatype Descriptor = Descriptor(readable: bool, depends: seq<string>, wellFormed: bool, instances: nat)

  type Config = map<string, Descriptor>

  /** The names registered so far, one entry per instance, and the calls that have returned, both in order. */
  datatype Progress = Progress(log: seq<string>, calls: seq<string>)

  function Repeat(name: string, n: nat): (s: seq<string>)
    ensures |s| == n && forall k :: 0 <= k < n ==> s[k] == name
  {
    seq(n, _ => name)
  }

  /** The instances a call adds after the dependencies have been started. */
  function Added(d: Descriptor, name: string): seq<string> {
    if d.wellFormed then Repeat(name, d.instances) else []
  }

  /** `start_service` with a bound on the depth of calls; None if the bound is not enough. */
  function Start(config: Config, p: Progress, name: string, depth: nat): Option<Progress>
    decreases depth, 0
  {
    if depth == 0 then None
    else if name !in config || name in p.log || !config[name].readable then Some(Progress(p.log, p.calls + [name]))
    else match StartAll(config, p, name, config[name].depends, depth - 1)
      case None => None
      case Some(q) => Some(Progress(q.log + Added(config[name], name), q.calls + [name]))
  }

  /** The dependencies in order; a service that names itself is skipped. */
  function StartAll(config: Config, p: Progress, name: string, depends: seq<string>, depth: nat): Option<Progress>
    decreases depth, 1, |depends|
  {
    if depends == [] then Some(p)
    else if depends[0] == name then StartAll(config, p, name, depends[1..], depth)
    else match Start(config, p, depends[0], depth)
      case None => None
      case Some(q) => StartAll(config, q, name, depends[1..], depth)
  }

  // When a start terminates.

  /** A service whose start goes on to its dependencies. */
  predicate Open(config: Config, log: seq<string>, name: string) {
    name in config && name !in log && config[name].readable
  }

  /** Services not started yet, each depending on the next. */
  predicate Chain(config: Config, log: seq<string>, path: seq<string>) {
    && (forall k :: 0 <= k < |path| ==> Open(config, log, path[k]))
    && (forall k :: 0 <= k < |path| - 1 ==> Linked(config, path, k))
  }

  predicate Linked(config: Config, path: seq<string>, k: nat)
    requires k + 1 < |path| && path[k] in config
  {
    path[k + 1] in config[path[k]].depends && path[k + 1] != path[k]
  }

  /** A chain is one service and a chain of its dependencies. */
  lemma ChainFront(config: Config, log: seq<string>, name: string, path: seq<string>)
    ensures Chain(config, log, [name] + path) <==>
      && Open(config, log, name) && Chain(config, log, path)
      && (path != [] ==> path[0] in config[name].depends && path[0] != name)
  {
    var longer := [name] + path;
    assert longer[0] == name && forall k :: 0 <= k < |path| ==> longer[k + 1] == path[k];
    if Chain(config, log, longer) {
      forall k | 0 <= k < |path| ensures Open(config, log, path[k]) { assert Open(config, log, longer[k + 1]); }
      forall k | 0 <= k < |path| - 1 ensures Linked(config, path, k) { assert Linked(config, longer, k + 1); }
      if path != [] { assert Linked(config, longer, 0); }
    }
    if Open(config, log, name) && Chain(config, log, path) && (path != [] ==> path[0] in config[name].depends && path[0] != name) {
      forall k | 0 <= k < |longer| ensures Open(config, log, longer[k]) {
        if k > 0 { assert Open(config, log, path[k - 1]); }
      }
      forall k | 0 <= k < |longer| - 1 ensures Linked(config, longer, k) {
        if k > 0 { assert Linked(config, path, k - 1); }
      }
    }
  }

  /** A chain goes on with a dependency of its last service. */
  lemma ChainMore(config: Config, log: seq<string>, path: seq<string>, name: string)
    requires Chain(config, log, path) && Open(config, log, name)
    requires path != [] ==> name in config[path[|path| - 1]].depends && name != path[|path| - 1]
    ensures Chain(config, log, path + [name])
  {
    var longer := path + [name];
    forall k | 0 <= k < |longer| ensures Open(config, log, longer[k]) {
      if k < |path| { assert Open(config, log, path[k]); }
    }
    forall k | 0 <= k < |longer| - 1 ensures Linked(config, longer, k) {
      if k < |path| - 1 { assert Linked(config, path, k); }
    }
  }

  /** Any end of a chain is one. */
  lemma ChainEnd(config: Config, log: seq<string>, path: seq<string>, i: nat)
    requires Chain(config, log, path) && i <= |path|
    ensures Chain(config, log, path[i..])
  {
    var end := path[i..];
    forall k | 0 <= k < |end| ensures Open(config, log, end[k]) { assert Open(config, log, path[k + i]); }
    forall k | 0 <= k < |end| - 1 ensures Linked(config, end, k) { assert Linked(config, path, k + i); }
  }

  /** What is a chain later was one before. */
  lemma ChainEarlier(config: Config, log: seq<string>, more: seq<string>, path: seq<string>)
    requires log <= more && Chain(config, more, path)
    ensures Chain(config, log, path)
  {
    forall k | 0 <= k < |path| ensures Open(config, log, path[k]) { assert Open(config, more, path[k]); }
  }

  predicate Distinct(path: seq<string>) {
    forall i, j :: 0 <= i < j < |path| ==> path[i] != path[j]
  }

  /** No dependency loop of several services is reached. */
  ghost predicate NoLoop(config: Config, log: seq<string>, name: string) {
    forall path :: Chain(config, log, path) && path != [] && path[0] == name ==> Distinct(path)
  }

  /** Every returned call that went on to its dependencies returned after calls for each of them, or found them started. */
  predicate Settled(config: Config, log: seq<string>, calls: seq<string>) {
    forall i :: 0 <= i < |calls| ==> SettledAt(config, log, calls, i)
  }

  predicate SettledAt(config: Config, log: seq<string>, calls: seq<string>, i: nat)
    requires i < |calls|
  {
    Open(config, log, calls[i]) ==> DependsSettled(config, calls[i], calls[..i])
  }

  predicate DependsSettled(config: Config, name: string, calls: seq<string>)
    requires name in config
  {
    forall d :: d in config[name].depends && d != name ==> d in calls
  }

  lemma SettledMore(config: Config, log: seq<string>, calls: seq<string>, name: string)
    requires Settled(config, log, calls) && (Open(config, log, name) ==> DependsSettled(config, name, calls))
    ensures Settled(config, log, calls + [name])
  {
    var more := calls + [name];
    forall i | 0 <= i < |more| ensures SettledAt(config, log, more, i) {
      if i < |calls| {
        assert SettledAt(config, log, calls, i);
        assert more[..i] == calls[..i];
      } else {
        assert more[..i] == calls;
      }
    }
  }

  /** What the progress `p` of a start that began with `log` registered looks like. */
  ghost predicate Orderly(config: Config, log: seq<string>, p: Progress) {
    && Settled(config, log, p.calls)
    && (forall m :: m in p.log ==> m in log || m in p.calls)
    && (forall m :: m in p.log && Open(config, log, m) ==> DependsSettled(config, m, p.calls))
  }

  lemma {:induction false} StartSettled(config: Config, log: seq<string>, p: Progress, name: string, depth: nat)
    requires Orderly(config, log, p) && Start(config, p, name, depth).Some?
    ensures var q := Start(config, p, name, depth).value;
      Orderly(config, log, q) && p.calls <= q.calls && name in q.calls && p.log <= q.log
    decreases depth, 0
  {
    if Open(config, p.log, name) {
      var q := StartAll(config, p, name, config[name].depends, depth - 1).value;
      StartAllSettled(config, log, p, name, config[name].depends, depth - 1);
      SettledMore(config, log, q.calls, name);
    } else {
      SettledMore(config, log, p.calls, name);
    }
  }

  lemma {:induction false} StartAllSettled(
      config: Config, log: seq<string>, p: Progress, name: string, depends: seq<string>, depth: nat)
    requires Orderly(config, log, p) && StartAll(config, p, name, depends, depth).Some?
    ensures var q := StartAll(config, p, name, depends, depth).value;
      && Orderly(config, log, q) && p.calls <= q.calls && p.log <= q.log
      && (forall d :: d in depends && d != name ==> d in q.calls)
    decreases depth, 1, |depends|
  {
    if depends != [] {
      if depends[0] == name {
        StartAllSettled(config, log, p, name, depends[1..], depth);
      } else {
        var q := Start(config, p, depends[0], depth).value;
        StartSettled(config, log, p, depends[0], depth);
        StartAllSettled(config, log, q, name, depends[1..], depth);
      }
    }
  }

  /** The position of the first call for a name. */
  function First(calls: seq<string>, name: string): (i: nat)
    requires name in calls
    ensures i < |calls| && calls[i] == name && name !in calls[..i]
  {
    if calls[0] == name then 0
    else
      assert calls[1..][..First(calls[1..], name)] == calls[1..1 + First(calls[1..], name)];
      1 + First(calls[1..], name)
  }

  /** Along a chain of called services, first calls return earlier and earlier. */
  lemma {:induction false} ChainGoesBack(config: Config, log: seq<string>, calls: seq<string>, path: seq<string>, k: nat)
    requires Settled(config, log, calls) && Chain(config, log, path) && k < |path| && path[0] in calls
    ensures path[k] in calls && (k > 0 ==> First(calls, path[k]) < First(calls, path[0]))
  {
    if k > 0 {
      ChainGoesBack(config, log, calls, path, k - 1);
      assert Linked(config, path, k - 1);
      var i := First(calls, path[k - 1]);
      assert Open(config, log, path[k - 1]) && SettledAt(config, log, calls, i);
      FirstInPrefix(calls, i, path[k]);
    }
  }

  lemma {:induction false} FirstInPrefix(calls: seq<string>, i: nat, name: string)
    requires i <= |calls| && name in calls[..i]
    ensures name in calls && First(calls, name) < i
  {
    if calls[0] != name {
      assert calls[..i][1..] == calls[1..][..i - 1];
      FirstInPrefix(calls[1..], i - 1, name);
    }
  }

  /** A start that returns has met no loop. */
  lemma ReturnsWithoutLoop(config: Config, log: seq<string>, name: string, depth: nat)
    requires Start(config, Progress(log, []), name, depth).Some?
    ensures NoLoop(config, log, name)
  {
    var q := Start(config, Progress(log, []), name, depth).value;
    StartSettled(config, log, Progress(log, []), name, depth);
    forall path | Chain(config, log, path) && path != [] && path[0] == name ensures Distinct(path) {
      forall i, j | 0 <= i < j < |path| ensures path[i] != path[j] {
        ChainGoesBack(config, log, q.calls, path, i);
        ChainEnd(config, log, path, i);
        ChainGoesBack(config, log, q.calls, path[i..], j - i);
      }
    }
  }

  /** The services of a chain that repeats none are no more than are configured. */
  lemma {:induction false} DistinctBound(path: seq<string>, names: set<string>)
    requires Distinct(path) && forall k :: 0 <= k < |path| ==> path[k] in names
    ensures |path| <= |names|
  {
    if path != [] {
      var last := |path| - 1;
      DistinctBound(path[..last], names - {path[last]});
    }
  }

  /** The start of the last service of a chain that cannot loop returns within the depth that is left. */
  lemma {:induction false} ReturnsFrom(config: Config, log: seq<string>, p: Progress, path: seq<string>, name: string, depth: nat)
    requires log <= p.log && Chain(config, log, path) && depth + |path| > |config|
    requires path != [] ==> NoLoop(config, log, path[0]) && name in config[path[|path| - 1]].depends && name != path[|path| - 1]
    requires path == [] ==> NoLoop(config, log, name)
    ensures Start(config, p, name, depth).Some? && log <= Start(config, p, name, depth).value.log
    decreases depth, 0
  {
    DistinctBound(path, config.Keys);
    if Open(config, p.log, name) {
      var longer := path + [name];
      ChainMore(config, log, path, name);
      assert longer[0] == if path == [] then name else path[0];
      DistinctBound(longer, config.Keys);
      ReturnsFromAll(config, log, p, longer, config[name].depends, depth - 1);
    }
  }

  lemma {:induction false} ReturnsFromAll(
      config: Config, log: seq<string>, p: Progress, path: seq<string>, depends: seq<string>, depth: nat)
    requires log <= p.log && Chain(config, log, path) && path != [] && NoLoop(config, log, path[0])
    requires depth + |path| > |config|
    requires forall k :: 0 <= k < |depends| ==> depends[k] in config[path[|path| - 1]].depends
    ensures var r := StartAll(config, p, path[|path| - 1], depends, depth); r.Some? && log <= r.value.log
    decreases depth, 1, |depends|
  {
    var name := path[|path| - 1];
    if depends != [] {
      if depends[0] == name {
        ReturnsFromAll(config, log, p, path, depends[1..], depth);
      } else {
        ReturnsFrom(config, log, p, path, depends[0], depth);
        ReturnsFromAll(config, log, Start(config, p, depends[0], depth).value, path, depends[1..], depth);
      }
    }
  }

  /** Starting a service returns exactly when it meets no loop, whatever has been started before. */
  lemma ReturnsExactly(config: Config, log: seq<string>, name: string)
    ensures (exists depth :: Start(config, Progress(log, []), name, depth).Some?) <==> NoLoop(config, log, name)
  {
    if NoLoop(config, log, name) {
      ReturnsFrom(config, log, Progress(log, []), [], name, |config| + 1);
    }
    if depth :| Start(config, Progress(log, []), name, depth).Some? {
      ReturnsWithoutLoop(config, log, name, depth);
    }
  }

  /** Two services that depend on each other: starting either never returns. */
  lemma TwoServiceLoop(depth: nat)
    ensures var config: Config := map["a" := Descriptor(true, ["b"], true, 1), "b" := Descriptor(true, ["a"], true, 1)];
      Start(config, Progress([], []), "a", depth).None?
  {
    var config: Config := map["a" := Descriptor(true, ["b"], true, 1), "b" := Descriptor(true, ["a"], true, 1)];
    ReturnsExactly(config, [], "a");
    var path := ["a", "b", "a"];
    assert "a" in config && "b" in config && config["a"].depends[0] == "b" && config["b"].depends[0] == "a";
    assert Linked(config, path, 0) && Linked(config, path, 1);
    assert Chain(config, [], path) && path[0] == path[2];
  }

  // What a start registers, and in which order.

  predicate Startable(d: Descriptor) {
    d.readable && d.wellFormed && d.instances > 0
  }

  /** Nothing more will come of a dependency: it is registered, or cannot be. */
  predicate Ready(config: Config, log: seq<string>, name: string) {
    name in log || name !in config || !Startable(config[name])
  }

  predicate DependsReady(config: Config, log: seq<string>, name: string)
    requires name in config
  {
    forall d :: d in config[name].depends && d != name ==> Ready(config, log, d)
  }

  /**
   * Since `log0`, services have been registered each with exactly its number of instances, and each after everything
   * it depends on.
   */
  ghost predicate Ordered(config: Config, log0: seq<string>, log: seq<string>) {
    && log0 <= log
    && (forall m :: m in log && m !in log0 ==> m in config && Startable(config[m]) && multiset(log)[m] == config[m].instances)
    && (forall m :: m in log0 ==> multiset(log)[m] == multiset(log0)[m])
    && (forall i :: |log0| <= i < |log| ==> InOrderAt(config, log, i))
  }

  predicate InOrderAt(config: Config, log: seq<string>, i: nat)
    requires i < |log|
  {
    log[i] in config && DependsReady(config, log[..i], log[i])
  }

  /** `m` is reached by a chain that goes on from `path`. */
  ghost predicate Ahead(config: Config, log0: seq<string>, path: seq<string>, m: string) {
    exists more :: more != [] && more[|more| - 1] == m && Chain(config, log0, path + more)
  }

  lemma AddedOrdered(config: Config, log0: seq<string>, log: seq<string>, name: string)
    requires Ordered(config, log0, log) && name in config && name !in log && config[name].readable
    requires DependsReady(config, log, name)
    ensures Ordered(config, log0, log + Added(config[name], name))
    ensures Ready(config, log + Added(config[name], name), name)
  {
    var added := Added(config[name], name);
    var more := log + added;
    assert multiset(more) == multiset(log) + multiset(added);
    RepeatCount(name, if config[name].wellFormed then config[name].instances else 0);
    forall i | |log0| <= i < |more| ensures InOrderAt(config, more, i) {
      if i < |log| {
        assert InOrderAt(config, log, i);
        assert more[..i] == log[..i];
      } else {
        assert log <= more[..i];
        assert forall d :: d in log ==> d in more[..i];
      }
    }
    assert config[name].wellFormed && config[name].instances > 0 ==> added[0] == name && more[|log|] == name;
  }

  lemma {:induction false} RepeatCount(name: string, n: nat)
    ensures multiset(Repeat(name, n)) == multiset{}[name := n]
  {
    if n > 0 {
      RepeatCount(name, n - 1);
      assert Repeat(name, n) == Repeat(name, n - 1) + [name];
    }
  }

  ghost predicate AllAhead(config: Config, log0: seq<string>, path: seq<string>, before: seq<string>, after: seq<string>) {
    before <= after && forall m :: m in after && m !in before ==> Ahead(config, log0, path, m)
  }

  lemma AllAheadTwice(config: Config, log0: seq<string>, path: seq<string>, a: seq<string>, b: seq<string>, c: seq<string>)
    requires AllAhead(config, log0, path, a, b) && AllAhead(config, log0, path, b, c)
    ensures AllAhead(config, log0, path, a, c)
  {
  }

  predicate AllReady(config: Config, log: seq<string>, name: string, depends: seq<string>) {
    forall k :: 0 <= k < |depends| && depends[k] != name ==> Ready(config, log, depends[k])
  }

  lemma AllReadyStep(config: Config, log: seq<string>, more: seq<string>, name: string, depends: seq<string>)
    requires log <= more && depends != [] && AllReady(config, more, name, depends[1..])
    requires depends[0] == name || Ready(config, log, depends[0])
    ensures AllReady(config, more, name, depends)
  {
    forall k | 0 <= k < |depends| && depends[k] != name ensures Ready(config, more, depends[k]) {
      if k > 0 { assert depends[k] == depends[1..][k - 1]; }
    }
  }

  /** No chain that goes on from `path` repeats a service. */
  ghost predicate Loopless(config: Config, log0: seq<string>, path: seq<string>) {
    forall more :: Chain(config, log0, path + more) ==> Distinct(path + more)
  }

  lemma LooplessFurther(config: Config, log0: seq<string>, path: seq<string>, name: string)
    requires Loopless(config, log0, path)
    ensures Loopless(config, log0, path + [name])
  {
    forall more | Chain(config, log0, path + [name] + more) ensures Distinct(path + [name] + more) {
      assert path + [name] + more == path + ([name] + more);
    }
  }

  lemma AheadOfItself(config: Config, log0: seq<string>, path: seq<string>, name: string)
    requires Loopless(config, log0, path + [name])
    ensures !Ahead(config, log0, path + [name], name)
  {
    forall more | more != [] && Chain(config, log0, path + [name] + more) ensures more[|more| - 1] != name {
      var whole := path + [name] + more;
      assert whole[|path|] == name && whole[|whole| - 1] == more[|more| - 1];
    }
  }

  lemma AheadFromHere(config: Config, log0: seq<string>, path: seq<string>, name: string, m: string)
    requires Chain(config, log0, path + [name]) && (m == name || Ahead(config, log0, path + [name], m))
    ensures Ahead(config, log0, path, m)
  {
    if m == name {
      assert [name][|[name]| - 1] == m;
    } else {
      var more :| more != [] && more[|more| - 1] == m && Chain(config, log0, path + [name] + more);
      var longer := [name] + more;
      assert path + [name] + more == path + longer;
      assert longer[|longer| - 1] == m;
    }
  }

  lemma {:induction false} StartOrdered(config: Config, log0: seq<string>, p: Progress, path: seq<string>, name: string, depth: nat)
    requires Ordered(config, log0, p.log) && (Open(config, p.log, name) ==> Chain(config, log0, path + [name]))
    requires Loopless(config, log0, path + [name]) && Start(config, p, name, depth).Some?
    ensures var q := Start(config, p, name, depth).value;
      Ordered(config, log0, q.log) && AllAhead(config, log0, path, p.log, q.log) && Ready(config, q.log, name)
    decreases depth, 0
  {
    if Open(config, p.log, name) {
      var q := StartAll(config, p, name, config[name].depends, depth - 1).value;
      StartAllOrdered(config, log0, p, path, name, config[name].depends, depth - 1);
      AheadOfItself(config, log0, path, name);
      AddedOrdered(config, log0, q.log, name);
      var after := q.log + Added(config[name], name);
      forall m | m in after && m !in p.log ensures Ahead(config, log0, path, m) {
        AheadFromHere(config, log0, path, name, m);
      }
    }
  }

  lemma {:induction false} StartAllOrdered(
      config: Config, log0: seq<string>, p: Progress, path: seq<string>, name: string, depends: seq<string>, depth: nat)
    requires Chain(config, log0, path + [name]) && Ordered(config, log0, p.log) && Loopless(config, log0, path + [name])
    requires name in config && forall k :: 0 <= k < |depends| ==> depends[k] in config[name].depends
    requires StartAll(config, p, name, depends, depth).Some?
    ensures var q := StartAll(config, p, name, depends, depth).value;
      && Ordered(config, log0, q.log) && AllAhead(config, log0, path + [name], p.log, q.log)
      && AllReady(config, q.log, name, depends)
    decreases depth, 1, |depends|
  {
    if depends != [] {
      if depends[0] == name {
        StartAllOrdered(config, log0, p, path, name, depends[1..], depth);
        var last := StartAll(config, p, name, depends[1..], depth).value;
        AllReadyStep(config, p.log, last.log, name, depends);
      } else {
        var q := Start(config, p, depends[0], depth).value;
        LooplessFurther(config, log0, path + [name], depends[0]);
        if Open(config, p.log, depends[0]) { ChainMore(config, log0, path + [name], depends[0]); }
        StartOrdered(config, log0, p, path + [name], depends[0], depth);
        StartAllOrdered(config, log0, q, path, name, depends[1..], depth);
        var last := StartAll(config, q, name, depends[1..], depth).value;
        AllAheadTwice(config, log0, path + [name], p.log, q.log, last.log);
        AllReadyStep(config, q.log, last.log, name, depends);
      }
    }
  }

  /**
   * A start that meets no loop returns with the service and everything it depends on registered: each exactly as often
   * as configured, on however many paths it is reached, and each after its own dependencies.
   */
  lemma StartsInOrder(config: Config, p: Progress, name: string)
    requires NoLoop(config, p.log, name)
    ensures var r := Start(config, p, name, |config| + 1);
      r.Some? && Ordered(config, p.log, r.value.log) && Ready(config, r.value.log, name)
  {
    ReturnsFrom(config, p.log, p, [], name, |config| + 1);
    LooplessHere(config, p.log, name);
    StartOrdered(config, p.log, p, [], name, |config| + 1);
  }

  lemma LooplessHere(config: Config, log: seq<string>, name: string)
    requires NoLoop(config, log, name)
    ensures Loopless(config, log, [] + [name])
    ensures Open(config, log, name) ==> Chain(config, log, [] + [name])
  {
    assert [] + [name] == [name];
  }

  /** With well-formed descriptors and nothing running before, all transitive dependencies are registered first. */
  lemma {:induction false} DependenciesFirst(config: Config, log: seq<string>, path: seq<string>, k: nat)
    requires Ordered(config, [], log) && k < |path| && path[0] in log
    requires forall i :: 0 <= i < |path| ==> path[i] in config && Startable(config[path[i]])
    requires forall i :: 0 <= i < |path| - 1 ==> path[i + 1] in config[path[i]].depends && path[i + 1] != path[i]
    ensures path[k] in log && (k > 0 ==> First(log, path[k]) < First(log, path[0]))
  {
    if k > 0 {
      DependenciesFirst(config, log, path, k - 1);
      var i := First(log, path[k - 1]);
      assert InOrderAt(config, log, i);
      FirstInPrefix(log, i, path[k]);
    }
  }

  lemma OrderedTwice(config: Config, a: seq<string>, b: seq<string>, c: seq<string>)
    requires Ordered(config, a, b) && Ordered(config, b, c)
    ensures Ordered(config, a, c)
  {
    forall i | |a| <= i < |c| ensures InOrderAt(config, c, i) {
      if i < |b| {
        assert InOrderAt(config, b, i);
        assert c[..i] == b[..i] && c[i] == b[i];
      }
    }
  }

  lemma FewerChains(config: Config, log: seq<string>, more: seq<string>, name: string)
    requires log <= more && NoLoop(config, log, name)
    ensures NoLoop(config, more, name)
  {
    forall path | Chain(config, more, path) && path != [] && path[0] == name ensures Distinct(path) {
      ChainEarlier(config, log, more, path);
    }
  }
}
