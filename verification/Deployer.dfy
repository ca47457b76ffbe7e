/** The deployer of services in place. */
module Deployer {
  import opened ServiceStart
  import opened ServiceReach

  class Deployer {
    const config: Config
    var registered: seq<string>

    constructor (config: Config)
      ensures this.config == config && registered == []
    {
      this.config, registered := config, [];
    }

    /** `start_service`: recursive over the dependencies, registering one instance at a time. */
    method StartService(name: string, ghost calls: seq<string>, ghost depth: nat) returns (ghost returned: seq<string>)
      requires Start(config, Progress(registered, calls), name, depth).Some?
      modifies this`registered
      ensures Progress(registered, returned) == Start(config, Progress(old(registered), calls), name, depth).value
      decreases depth
    {
      returned := calls + [name];
      if name !in config { return; }
      if name in registered { return; }
      if !config[name].readable { return; }
      var depends := config[name].depends;
      ghost var before := calls;
      var k := 0;
      while k < |depends|
        invariant 0 <= k <= |depends|
        invariant StartAll(config, Progress(registered, before), name, depends[k..], depth - 1)
               == StartAll(config, Progress(old(registered), calls), name, depends, depth - 1)
      {
        assert depends[k..][1..] == depends[k + 1..];
        if depends[k] != name {
          before := StartService(depends[k], before, depth - 1);
        }
        k := k + 1;
      }
      returned := before + [name];
      if config[name].wellFormed {
        RegisterAll(name, config[name].instances);
      }
    }

    method RegisterAll(name: string, instances: nat)
      modifies this`registered
      ensures registered == old(registered) + Repeat(name, instances)
    {
      for i := 0 to instances
        invariant registered == old(registered) + Repeat(name, i)
      {
        registered := registered + [name];
      }
    }

    /** A start from outside, on a configuration where it meets no loop. */
    method Deploy(name: string)
      requires NoLoop(config, registered, name)
      modifies this`registered
      ensures Ordered(config, old(registered), registered) && Ready(config, registered, name)
      ensures forall m :: m in registered <==> m in old(registered) || Brought(config, old(registered), name, m)
    {
      StartsInOrder(config, Progress(registered, []), name);
      forall m { RegistersExactly(config, registered, name, m); }
      ghost var returned := StartService(name, [], |config| + 1);
    }

    /** Starting every service marked for it, in the order of the configuration. */
    method AutoStart(names: seq<string>)
      requires AllLoopless(config, registered, names)
      modifies this`registered
      ensures Ordered(config, old(registered), registered)
      ensures AllStarted(config, old(registered), names, registered)
      ensures AllPassed(config, old(registered), names, |names|, registered)
    {
      ghost var calls := [];
      EachReturns(config, registered, names);
      assert names[0..] == names;
      for i := 0 to |names|
        invariant StartEach(config, Progress(registered, calls), names[i..])
               == StartEach(config, Progress(old(registered), []), names)
      {
        assert names[i..][1..] == names[i + 1..];
        calls := StartService(names[i], calls, |config| + 1);
      }
      EachStarted(config, old(registered), names);
    }
  }
}
