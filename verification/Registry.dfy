/** The registry of running services: instances by name, names by request target, round robin over instances. */
module Registry {
  datatype Instance = Instance(id: nat, name: string, reactive: bool, target: string)

  /** A standalone instance has the empty target. */
  function TargetOf(i: Instance): string {
    if i.reactive then i.target else ""
  }

  // The registry as a value.

  /** The instances of one service and the index of the one chosen last. */
  datatype Holder = Holder(current: nat, instances: seq<Instance>)

  datatype Listing = Listing(services: map<string, Holder>, targets: map<string, string>)

  function Pick(current: nat, n: nat): nat {
    if current + 1 < n then current + 1 else 0
  }

  function Turned(h: Holder): Holder {
    Holder(Pick(h.current, |h.instances|), h.instances)
  }

  function Chosen(h: Holder): Instance
    requires h.instances != []
  {
    h.instances[Pick(h.current, |h.instances|)]
  }

  datatype Op = Reg(instance: Instance) | Unreg(name: string) | FindByName(name: string) | FindByTarget(target: string)

  function Registered(s: Listing, i: Instance): Listing {
    var h := if i.name in s.services then s.services[i.name] else Holder(0, []);
    Listing(s.services[i.name := Holder(h.current, h.instances + [i])],
            if i.reactive then s.targets[i.target := i.name] else s.targets)
  }

  /** Asks one instance whether it is reactive and the one after it for its target. */
  function Unregistered(s: Listing, name: string): Listing {
    if name !in s.services || s.services[name].instances == [] then s
    else
      var h := s.services[name];
      Listing(s.services - {name}, if Chosen(h).reactive then s.targets - {TargetOf(Chosen(Turned(h)))} else s.targets)
  }

  function Asked(s: Listing, name: string): Listing {
    if name in s.services && s.services[name].instances != [] then s.(services := s.services[name := Turned(s.services[name])])
    else s
  }

  function Apply(s: Listing, op: Op): Listing {
    match op
    case Reg(i) => Registered(s, i)
    case Unreg(name) => Unregistered(s, name)
    case FindByName(name) => Asked(s, name)
    case FindByTarget(target) => if target in s.targets then Asked(s, s.targets[target]) else s
  }

  const NOTHING := Listing(map[], map[])

  function After(ops: seq<Op>): Listing {
    if ops == [] then NOTHING else Apply(After(ops[..|ops| - 1]), ops[|ops| - 1])
  }

  /** Every instance registered belongs to the fleet. */
  predicate From(fleet: set<Instance>, ops: seq<Op>) {
    forall k :: 0 <= k < |ops| && ops[k].Reg? ==> ops[k].instance in fleet
  }

  // What every reachable state keeps.

  predicate Kept(fleet: set<Instance>, s: Listing) {
    forall name :: name in s.services ==> KeptHolder(fleet, name, s.services[name])
  }

  predicate KeptHolder(fleet: set<Instance>, name: string, h: Holder) {
    && h.instances != [] && h.current < |h.instances|
    && forall k :: 0 <= k < |h.instances| ==> h.instances[k].name == name && h.instances[k] in fleet
  }

  lemma ApplyKept(fleet: set<Instance>, s: Listing, op: Op)
    requires Kept(fleet, s) && (op.Reg? ==> op.instance in fleet)
    ensures Kept(fleet, Apply(s, op))
  {
  }

  lemma {:induction false} AfterKept(fleet: set<Instance>, ops: seq<Op>)
    requires From(fleet, ops)
    ensures Kept(fleet, After(ops))
  {
    if ops != [] {
      AfterKept(fleet, ops[..|ops| - 1]);
      ApplyKept(fleet, After(ops[..|ops| - 1]), ops[|ops| - 1]);
    }
  }

  // Targets lead to services.

  /** Each name is one kind of service, with one target if it has any. */
  predicate Uniform(fleet: set<Instance>) {
    forall a, b :: a in fleet && b in fleet && a.name == b.name ==>
      a.reactive == b.reactive && (a.reactive ==> a.target == b.target)
  }

  /** No target leads to a service that is not there. */
  predicate NoDangling(s: Listing) {
    forall t :: t in s.targets ==> s.targets[t] in s.services
  }

  /** Every target leads to a running service whose instances all have that target. */
  predicate Served(s: Listing) {
    forall t :: t in s.targets ==> s.targets[t] in s.services && Serves(s.services[s.targets[t]], t)
  }

  predicate Serves(h: Holder, t: string) {
    h.instances != [] && forall k :: 0 <= k < |h.instances| ==> h.instances[k].reactive && h.instances[k].target == t
  }

  lemma RegServed(fleet: set<Instance>, s: Listing, i: Instance)
    requires Uniform(fleet) && Kept(fleet, s) && Served(s) && i in fleet
    ensures Served(Registered(s, i))
  {
    var s' := Registered(s, i);
    forall t | t in s'.targets ensures s'.targets[t] in s'.services && Serves(s'.services[s'.targets[t]], t) {
      var name := s'.targets[t];
      if name == i.name && i.name in s.services { assert KeptHolder(fleet, i.name, s.services[i.name]); }
      if t in s.targets && s.targets[t] == name && name == i.name {
        assert s.services[name].instances[0].name == i.name;
      }
    }
  }

  lemma UnregServed(fleet: set<Instance>, s: Listing, name: string)
    requires Uniform(fleet) && Kept(fleet, s) && Served(s)
    ensures Served(Unregistered(s, name))
  {
    if name in s.services {
      assert KeptHolder(fleet, name, s.services[name]);
    }
  }

  lemma ApplyServed(fleet: set<Instance>, s: Listing, op: Op)
    requires Uniform(fleet) && Kept(fleet, s) && Served(s) && (op.Reg? ==> op.instance in fleet)
    ensures Served(Apply(s, op))
  {
    match op
    case Reg(i) => RegServed(fleet, s, i);
    case Unreg(name) => UnregServed(fleet, s, name);
    case _ =>
  }

  /** With one kind per name, in every reachable state every target leads to a running service with that target. */
  lemma {:induction false} TargetsServed(fleet: set<Instance>, ops: seq<Op>)
    requires Uniform(fleet) && From(fleet, ops)
    ensures Served(After(ops))
  {
    if ops != [] {
      var before := ops[..|ops| - 1];
      TargetsServed(fleet, before);
      AfterKept(fleet, before);
      ApplyServed(fleet, After(before), ops[|ops| - 1]);
    }
  }

  /** Two kinds of one name, registered in this order and unregistered, leave a target behind. */
  lemma TwoKindsDangle(a: Instance, b: Instance) returns (ops: seq<Op>)
    requires a.name == b.name && a.reactive && (b.reactive ==> a.target != b.target)
    ensures ops == [Reg(a), Reg(b), Unreg(a.name)] && !NoDangling(After(ops))
  {
    ops := [Reg(a), Reg(b), Unreg(a.name)];
    assert ops[..2] == [Reg(a), Reg(b)] && ops[..2][..1] == [Reg(a)] && [Reg(a)][..0] == [];
    var s1 := After([Reg(a)]);
    assert After([]) == NOTHING;
    assert s1 == Apply(NOTHING, Reg(a));
    var s2 := After(ops[..2]);
    assert s2 == Registered(s1, b);
    assert s2.services[a.name] == Holder(0, [a, b]);
    var s3 := After(ops);
    assert s3 == Unregistered(s2, a.name);
    var t := if b.reactive then b.target else a.target;
    assert t in s3.targets && s3.targets[t] !in s3.services;
  }

  /** No run over a fleet leaves a target behind exactly when each name of the fleet is one kind of service. */
  lemma NoDanglingExactly(fleet: set<Instance>)
    ensures (forall ops :: From(fleet, ops) ==> NoDangling(After(ops))) <==> Uniform(fleet)
  {
    if Uniform(fleet) {
      forall ops | From(fleet, ops) ensures NoDangling(After(ops)) { TargetsServed(fleet, ops); }
    } else {
      var a, b :| a in fleet && b in fleet && a.name == b.name
        && !(a.reactive == b.reactive && (a.reactive ==> a.target == b.target));
      var ops;
      if a.reactive { ops := TwoKindsDangle(a, b); } else { ops := TwoKindsDangle(b, a); }
      assert From(fleet, ops);
    }
  }

  // Services are reached by their targets.

  /** Different reactive services have different targets. */
  predicate TargetsDistinct(fleet: set<Instance>) {
    forall a, b :: a in fleet && b in fleet && a.reactive && b.reactive && a.target == b.target ==> a.name == b.name
  }

  /**
   * Unregistering a service of both kinds may take the empty target away, so no other reactive service
   * may have it.
   */
  predicate EmptyTargetSafe(fleet: set<Instance>) {
    forall a, b, c :: a in fleet && b in fleet && c in fleet ==> !TakesEmptyTarget(a, b, c)
  }

  predicate TakesEmptyTarget(a: Instance, b: Instance, c: Instance) {
    a.name == b.name && a.reactive && !b.reactive && c.reactive && c.target == "" && c.name != a.name
  }

  /** Every running reactive service is the one its target leads to. */
  predicate Reachable(s: Listing) {
    forall name, k :: name in s.services && 0 <= k < |s.services[name].instances| && s.services[name].instances[k].reactive ==>
      var t := s.services[name].instances[k].target;
      t in s.targets && s.targets[t] == name
  }

  lemma RegReachable(fleet: set<Instance>, s: Listing, i: Instance)
    requires TargetsDistinct(fleet) && Kept(fleet, s) && Reachable(s) && i in fleet
    ensures Reachable(Registered(s, i))
  {
    var s' := Registered(s, i);
    forall name, k | name in s'.services && 0 <= k < |s'.services[name].instances| && s'.services[name].instances[k].reactive
      ensures var t := s'.services[name].instances[k].target; t in s'.targets && s'.targets[t] == name
    {
      if name in s.services && k < |s.services[name].instances| {
        assert s.services[name].instances[k] == s'.services[name].instances[k];
        assert KeptHolder(fleet, name, s.services[name]);
      }
    }
  }

  lemma UnregReachable(fleet: set<Instance>, s: Listing, name: string)
    requires EmptyTargetSafe(fleet) && Kept(fleet, s) && Reachable(s)
    ensures Reachable(Unregistered(s, name))
  {
    if name in s.services && Chosen(s.services[name]).reactive {
      var h, s' := s.services[name], Unregistered(s, name);
      assert KeptHolder(fleet, name, h);
      var a, b := Chosen(h), Chosen(Turned(h));
      assert b == h.instances[Pick(Turned(h).current, |h.instances|)];
      forall other, k | other in s'.services && 0 <= k < |s'.services[other].instances| && s'.services[other].instances[k].reactive
        ensures var t := s'.services[other].instances[k].target; t in s'.targets && s'.targets[t] == other
      {
        var c := s.services[other].instances[k];
        assert KeptHolder(fleet, other, s.services[other]);
        assert c.target in s.targets && s.targets[c.target] == other;
        if b.reactive {
          assert s.targets[b.target] == name;
        } else {
          assert !TakesEmptyTarget(a, b, c) && c.name == other;
        }
      }
    }
  }

  lemma ApplyReachable(fleet: set<Instance>, s: Listing, op: Op)
    requires EmptyTargetSafe(fleet) && TargetsDistinct(fleet) && Kept(fleet, s) && Reachable(s) && (op.Reg? ==> op.instance in fleet)
    ensures Reachable(Apply(s, op))
  {
    match op
    case Reg(i) => RegReachable(fleet, s, i);
    case Unreg(name) => UnregReachable(fleet, s, name);
    case _ =>
  }

  lemma {:induction false} ServicesReachable(fleet: set<Instance>, ops: seq<Op>)
    requires EmptyTargetSafe(fleet) && TargetsDistinct(fleet) && From(fleet, ops)
    ensures Reachable(After(ops))
  {
    if ops != [] {
      var before := ops[..|ops| - 1];
      ServicesReachable(fleet, before);
      AfterKept(fleet, before);
      ApplyReachable(fleet, After(before), ops[|ops| - 1]);
    }
  }

  /** Of two services with one target, the later takes the target over. */
  lemma SharedTargetLost(a: Instance, b: Instance) returns (ops: seq<Op>)
    requires a.name != b.name && a.reactive && b.reactive && a.target == b.target
    ensures ops == [Reg(a), Reg(b)] && !Reachable(After(ops))
  {
    ops := [Reg(a), Reg(b)];
    assert ops[..1] == [Reg(a)] && [Reg(a)][..0] == [];
    assert After([]) == NOTHING;
    var s1 := After([Reg(a)]);
    assert s1 == Apply(NOTHING, Reg(a));
    var s2 := After(ops);
    assert s2 == Apply(s1, Reg(b));
    assert s2.services[a.name].instances == [a];
    assert s2.services[a.name].instances[0].reactive;
  }

  /** Unregistering a service of both kinds takes the empty target from the service that has it. */
  lemma EmptyTargetLost(a: Instance, b: Instance, c: Instance) returns (ops: seq<Op>)
    requires TakesEmptyTarget(a, b, c)
    ensures ops == [Reg(c), Reg(b), Reg(a), Unreg(a.name)] && !Reachable(After(ops))
  {
    ops := [Reg(c), Reg(b), Reg(a), Unreg(a.name)];
    var three, two, one := [Reg(c), Reg(b), Reg(a)], [Reg(c), Reg(b)], [Reg(c)];
    assert ops[..3] == three && three[..2] == two && two[..1] == one && one[..0] == [];
    assert After([]) == NOTHING;
    assert After(one) == Registered(NOTHING, c);
    assert After(two) == Registered(After(one), b);
    assert After(three) == Registered(After(two), a);
    assert After(three).services[a.name] == Holder(0, [b, a]);
    var s := After(ops);
    assert s == Unregistered(After(three), a.name);
    assert s.services[c.name].instances == [c];
    assert s.services[c.name].instances[0].reactive && "" !in s.targets;
  }

  /**
   * Every service stays reachable in every run over a fleet exactly when different services have different
   * targets and no service but one of both kinds itself has the empty target.
   */
  lemma ReachableExactly(fleet: set<Instance>)
    ensures AlwaysReachable(fleet) <==> TargetsDistinct(fleet) && EmptyTargetSafe(fleet)
  {
    if TargetsDistinct(fleet) && EmptyTargetSafe(fleet) {
      forall ops | From(fleet, ops) ensures Reachable(After(ops)) { ServicesReachable(fleet, ops); }
    } else {
      NotReachable(fleet);
    }
  }

  ghost predicate AlwaysReachable(fleet: set<Instance>) {
    forall ops :: From(fleet, ops) ==> Reachable(After(ops))
  }

  lemma NotReachable(fleet: set<Instance>)
    requires !TargetsDistinct(fleet) || !EmptyTargetSafe(fleet)
    ensures !AlwaysReachable(fleet)
  {
    if !TargetsDistinct(fleet) {
      var a, b :| a in fleet && b in fleet && a.reactive && b.reactive && a.target == b.target && a.name != b.name;
      var ops := SharedTargetLost(a, b);
      assert From(fleet, ops);
    } else {
      var a, b, c :| a in fleet && b in fleet && c in fleet && TakesEmptyTarget(a, b, c);
      var ops := EmptyTargetLost(a, b, c);
      assert From(fleet, ops);
    }
  }

  // Round robin.

  /** How often index `i` is chosen in `k` turns over `n` instances. */
  function Times(current: nat, n: nat, k: nat, i: nat): nat
    decreases k
  {
    if k == 0 then 0
    else (if Pick(current, n) == i then 1 else 0) + Times(Pick(current, n), n, k - 1, i)
  }

  /** The number of turns until index `i` is chosen. */
  function Wait(current: nat, n: nat, i: nat): (w: nat)
    requires i < n
    ensures 1 <= w <= n
  {
    var c := if current < n then current else n - 1;
    if i > c then i - c else i - c + n
  }

  /** The number of whole rounds of `n` turns in `x`. */
  function Rounds(x: nat, n: nat): nat
    requires n > 0
  {
    if x < n then 0 else 1 + Rounds(x - n, n)
  }

  /** An instance is chosen on the turn it waits for and once per round from there. */
  lemma {:induction false} TimesExactly(current: nat, n: nat, k: nat, i: nat)
    requires i < n
    ensures Times(current, n, k, i) == Rounds(k + n - Wait(current, n, i), n)
    decreases k
  {
    if k > 0 { TimesExactly(Pick(current, n), n, k - 1, i); }
  }

  lemma {:induction false} RoundsMonotone(x: nat, y: nat, n: nat)
    requires x <= y && n > 0
    ensures Rounds(x, n) <= Rounds(y, n)
  {
    if x >= n { RoundsMonotone(x - n, y - n, n); }
  }

  /** Over any number of turns no instance is chosen more than once more than another. */
  lemma RoundRobinIsFair(current: nat, n: nat, k: nat, i: nat, j: nat)
    requires i < n && j < n
    ensures Times(current, n, k, i) <= Times(current, n, k, j) + 1
  {
    TimesExactly(current, n, k, i);
    TimesExactly(current, n, k, j);
    var x, y := k + n - Wait(current, n, i), k + n - Wait(current, n, j);
    RoundsMonotone(x, y + n, n);
  }

  // The registry in place.

  /** What a lookup returns; the errors are exceptions. */
  datatype Lookup = Hit(instance: Instance) | NoSuchService | NoSuchTarget | NoInstances

  class InstanceHolder {
    var current: nat
    var instances: seq<Instance>

    ghost function Value(): Holder
      reads this
    {
      Holder(current, instances)
    }

    constructor ()
      ensures Value() == Holder(0, [])
    {
      current, instances := 0, [];
    }

    method PushBack(i: Instance)
      modifies this
      ensures Value() == Holder(old(current), old(instances) + [i])
    {
      instances := instances + [i];
    }

    method Next() returns (out: Lookup)
      modifies this`current
      ensures old(instances) == [] ==> out == NoInstances && current == old(current)
      ensures old(instances) != [] ==> Value() == Turned(old(Value())) && out == Hit(Chosen(old(Value())))
    {
      if |instances| == 0 { return NoInstances; }
      if current + 1 < |instances| {
        current := current + 1;
      } else {
        current := 0;
      }
      out := Hit(instances[current]);
    }

    /** Dropping the last instance; the index may end up one past the end, from where the next turn goes to 0. */
    method PopBack() returns (popped: bool)
      modifies this
      ensures popped <==> old(instances) != []
      ensures instances == if popped then old(instances)[..|old(instances)| - 1] else old(instances)
      ensures current == if popped && old(current) > |instances| then 0 else old(current)
      ensures popped && instances != [] && old(current) < |old(instances)| ==>
        Pick(current, |instances|) == if old(current) + 1 < |instances| then old(current) + 1 else 0
    {
      popped := |instances| > 0;
      if popped {
        instances := instances[..|instances| - 1];
        if current > |instances| { current := 0; }
      }
    }
  }

  class ServiceRegistry {
    var services: map<string, InstanceHolder>
    var targets2Names: map<string, string>

    ghost var held: map<string, Holder>

    /** The holders are separate objects, each with an instance; `held` is what they hold. */
    ghost predicate Valid()
      reads this`services, this`held, services.Values
    {
      && services.Keys == held.Keys
      && (forall name :: name in services ==> services[name].Value() == held[name] && held[name].instances != [])
      && (forall a, b :: a in services && b in services && services[a] == services[b] ==> a == b)
    }

    ghost function Value(): Listing
      reads this`held, this`targets2Names
    {
      Listing(held, targets2Names)
    }

    constructor ()
      ensures Valid() && Value() == NOTHING
    {
      services, targets2Names, held := map[], map[], map[];
    }

    method Reg(i: Instance)
      requires Valid()
      modifies this, services.Values
      ensures Valid() && Value() == Apply(old(Value()), Op.Reg(i))
      ensures forall h :: h in services.Values ==> h in old(services.Values) || fresh(h)
    {
      if i.reactive {
        targets2Names := targets2Names[i.target := i.name];
      }
      if i.name in services {
        services[i.name].PushBack(i);
        held := held[i.name := services[i.name].Value()];
      } else {
        assert [] + [i] == [i];
        RegFirst(i);
      }
    }

    /** The first instance of a service. */
    method RegFirst(i: Instance)
      requires Valid() && i.name !in services
      modifies this`services, this`held
      ensures Valid() && held == old(held)[i.name := Holder(0, [i])]
      ensures forall h :: h in services.Values ==> h in old(services.Values) || fresh(h)
    {
      var holder := new InstanceHolder();
      holder.PushBack(i);
      assert [] + [i] == [i];
      services, held := services[i.name := holder], held[i.name := holder.Value()];
    }

    /** The next instance of a service that is there. */
    method Ask(name: string) returns (i: Instance)
      requires Valid() && name in services
      modifies this`held, services.Values
      ensures Valid() && held == old(held)[name := Turned(old(held[name]))] && i == Chosen(old(held[name]))
    {
      var out := services[name].Next();
      i := out.instance;
      held := held[name := services[name].Value()];
    }

    method Unreg(name: string)
      requires Valid()
      modifies this, services.Values
      ensures Valid() && Value() == Apply(old(Value()), Op.Unreg(name))
      ensures forall h :: h in services.Values ==> h in old(services.Values)
    {
      if name in services {
        ForgetTarget(name);
        Drop(name);
      }
    }

    method ForgetTarget(name: string)
      requires Valid() && name in services
      modifies this`held, this`targets2Names, services.Values
      ensures Valid() && held - {name} == old(held) - {name}
      ensures targets2Names == Unregistered(old(Value()), name).targets
    {
      var first := Ask(name);
      if first.reactive {
        var second := Ask(name);
        targets2Names := targets2Names - {TargetOf(second)};
      }
    }

    method Drop(name: string)
      requires Valid() && name in services
      modifies this`services, this`held
      ensures Valid() && held == old(held) - {name} && services == old(services) - {name}
    {
      services, held := services - {name}, held - {name};
    }

    method FindByName(name: string) returns (out: Lookup)
      requires Valid()
      modifies this`held, services.Values
      ensures Valid() && Value() == Apply(old(Value()), Op.FindByName(name))
      ensures out == if name in old(held) then Hit(Chosen(old(held[name]))) else NoSuchService
    {
      if name !in services { return NoSuchService; }
      var i := Ask(name);
      out := Hit(i);
    }

    method FindByTarget(target: string) returns (out: Lookup)
      requires Valid()
      modifies this`held, services.Values
      ensures Valid() && Value() == Apply(old(Value()), Op.FindByTarget(target))
      ensures target !in targets2Names <==> out == NoSuchTarget
      ensures target in targets2Names ==>
        var name := targets2Names[target]; out == if name in old(held) then Hit(Chosen(old(held)[name])) else NoSuchService
      ensures NoDangling(old(Value())) ==> out != NoSuchService
      ensures Served(old(Value())) && target in targets2Names ==>
        out.Hit? && out.instance.reactive && out.instance.target == target
    {
      if target !in targets2Names { return NoSuchTarget; }
      out := FindByName(targets2Names[target]);
    }
  }
}
