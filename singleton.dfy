/**
 * The lazy instance cache SingletonTrait gives a class: one instance per
 * class name, and one per (class name, instance name) pair, each built on
 * first access and handed out unchanged afterwards.
 */
module Singleton {
  import opened PhpValue

  /**
   * An object built by reflection: the class it was made from and the
   * arguments its constructor received (none for newInstance()).
   */
  class Instance {
    const className: string
    const parameters: seq<Value>

    constructor (className: string, parameters: seq<Value>)
      ensures this.className == className && this.parameters == parameters
    {
      this.className := className;
      this.parameters := parameters;
    }
  }

  /** A class using SingletonTrait: its two private cache fields. */
  class Registry {
    var instancesByClass: map<string, Instance>
    var instancesByName: map<string, map<string, Instance>>

    /** Every cached instance is of the class it is cached under. */
    predicate Valid()
      reads this
    {
      (forall c | c in instancesByClass :: instancesByClass[c].className == c) &&
      (forall c, n | c in instancesByName && n in instancesByName[c] :: instancesByName[c][n].className == c)
    }

    constructor ()
      ensures instancesByClass == map[] && instancesByName == map[]
      ensures Valid()
    {
      instancesByClass := map[];
      instancesByName := map[];
    }

    /**
     * instanceByClass: the cached instance of the class, built with the
     * parameters only when there is none yet.
     */
    method InstanceByClass(className: string, parameters: seq<Value>) returns (r: Instance)
      requires Valid()
      modifies this
      ensures Valid()
      ensures r.className == className && className in instancesByClass && instancesByClass[className] == r
      ensures className in old(instancesByClass) ==> r == old(instancesByClass[className])
      ensures className in old(instancesByClass) ==> instancesByClass == old(instancesByClass)
      ensures className !in old(instancesByClass) ==>
        fresh(r) && r.parameters == parameters && instancesByClass == old(instancesByClass)[className := r]
      ensures instancesByName == old(instancesByName)
    {
      if className !in instancesByClass {
        var instance;
        if |parameters| > 0 {
          instance := new Instance(className, parameters);
        } else {
          instance := new Instance(className, []);
        }
        instancesByClass := instancesByClass[className := instance];
      }
      r := instancesByClass[className];
    }

    /**
     * instanceByName: the instance cached under the class and the name,
     * built with the parameters only when there is none yet. A class seen
     * for the first time gets an empty bucket first.
     */
    method InstanceByName(className: string, instanceName: string, parameters: seq<Value>) returns (r: Instance)
      requires Valid()
      modifies this
      ensures Valid()
      ensures r.className == className
      ensures className in instancesByName && instanceName in instancesByName[className]
      ensures instancesByName[className][instanceName] == r
      ensures var bucket: map<string, Instance> := if className in old(instancesByName) then old(instancesByName[className]) else map[];
        if instanceName in bucket then
          r == bucket[instanceName] && instancesByName == old(instancesByName)[className := bucket]
        else
          fresh(r) && r.parameters == parameters &&
          instancesByName == old(instancesByName)[className := bucket[instanceName := r]]
      ensures forall c | c in old(instancesByName) && c != className ::
        c in instancesByName && instancesByName[c] == old(instancesByName[c])
      ensures instancesByClass == old(instancesByClass)
    {
      if className !in instancesByName {
        instancesByName := instancesByName[className := map[]];
      }
      if instanceName !in instancesByName[className] {
        var instance;
        if |parameters| > 0 {
          instance := new Instance(className, parameters);
        } else {
          instance := new Instance(className, []);
        }
        instancesByName := instancesByName[className := instancesByName[className][instanceName := instance]];
      }
      r := instancesByName[className][instanceName];
    }
  }

  /**
   * Two calls for the same class give the same object, built once with the
   * first call's parameters; the second call's parameters are ignored.
   */
  method ByClassTwice(registry: Registry, className: string, first: seq<Value>, second: seq<Value>)
    returns (a: Instance, b: Instance)
    requires registry.Valid() && className !in registry.instancesByClass
    modifies registry
    ensures a == b && fresh(a) && a.parameters == first
  {
    a := registry.InstanceByClass(className, first);
    b := registry.InstanceByClass(className, second);
  }

  /**
   * Two names under one class give two distinct objects, and asking for
   * the first name again gives the first object back.
   */
  method ByNameDistinct(registry: Registry, className: string, name1: string, name2: string, parameters: seq<Value>)
    returns (a: Instance, b: Instance, c: Instance)
    requires registry.Valid() && name1 != name2
    requires className !in registry.instancesByName
    modifies registry
    ensures a != b && a == c && fresh(a) && fresh(b)
  {
    a := registry.InstanceByName(className, name1, parameters);
    b := registry.InstanceByName(className, name2, parameters);
    c := registry.InstanceByName(className, name1, []);
  }
}
