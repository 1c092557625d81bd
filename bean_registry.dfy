/**
 * The bean definition registry: a map from bean name to definition in
 * which the first registration of a name wins.
 */
module BeanRegistry {
  import opened Wrappers
  import opened BeanDefinitions

  /** A bean name; `None` stands for the null name, which the map accepts like any other. */
  type BeanName = Option<string>

  /** A stored definition; `None` stands for a null definition, which the map stores like any other value. */
  type Definitions = map<BeanName, Option<BeanDefinition>>

  /** The name is registered, and with a definition that is not null. */
  predicate Defined(m: Definitions, name: BeanName)
  {
    name in m && m[name].Some?
  }

  /** The map after `registerBeanDefinition(name, def)`: unchanged when the name is taken. */
  function Registered(m: Definitions, name: BeanName, def: Option<BeanDefinition>): Definitions
  {
    if name in m then m else m[name := def]
  }

  /** A new name is stored with its definition and the count grows by one. */
  lemma RegisterNew(m: Definitions, name: BeanName, def: Option<BeanDefinition>)
    requires name !in m
    ensures name in Registered(m, name, def) && Registered(m, name, def)[name] == def
    ensures |Registered(m, name, def)| == |m| + 1
  {
  }

  /** A taken name keeps its first definition, and nothing changes. */
  lemma RegisterTaken(m: Definitions, name: BeanName, def: Option<BeanDefinition>)
    requires name in m
    ensures Registered(m, name, def) == m
    ensures Registered(m, name, def)[name] == m[name] && |Registered(m, name, def)| == |m|
  {
  }

  /** Registering one name leaves every other name as it was. */
  lemma RegisterOthers(m: Definitions, name: BeanName, def: Option<BeanDefinition>, other: BeanName)
    requires other != name
    ensures other in Registered(m, name, def) <==> other in m
    ensures other in m ==> Registered(m, name, def)[other] == m[other]
  {
  }

  /** Registering is idempotent: a second registration of the same name changes nothing, whatever it carries. */
  lemma RegisterTwice(m: Definitions, name: BeanName, def: Option<BeanDefinition>, again: Option<BeanDefinition>)
    ensures Registered(Registered(m, name, def), name, again) == Registered(m, name, def)
  {
  }

  class MyBeanDefinitionRegistry {
    var beanDefinitions: Definitions

    constructor ()
      ensures beanDefinitions == map[]
    {
      beanDefinitions := map[];
    }

    /** `registerBeanDefinition`: stores the definition unless the name is already registered. */
    method RegisterBeanDefinition(beanName: BeanName, beanDefinition: Option<BeanDefinition>)
      modifies this
      ensures beanDefinitions == Registered(old(beanDefinitions), beanName, beanDefinition)
    {
      if ContainsBeanDefinition(beanName) {
        return;
      }
      beanDefinitions := beanDefinitions[beanName := beanDefinition];
    }

    /**
     * `getBeanDefinition`: the stored definition, or `None` (null) for an
     * unregistered name and for a name registered with a null definition.
     */
    function GetBeanDefinition(beanName: BeanName): (r: Option<BeanDefinition>)
      reads this
      ensures r.Some? <==> Defined(beanDefinitions, beanName)
      ensures r.Some? ==> beanDefinitions[beanName] == r
    {
      if beanName in beanDefinitions then beanDefinitions[beanName] else None
    }

    /** `getBeanDefinitionCount`: the number of registered names, null definitions included; zero only when nothing is registered. */
    function GetBeanDefinitionCount(): (n: nat)
      reads this
      ensures n == |beanDefinitions.Keys|
      ensures n == 0 <==> beanDefinitions == map[]
    {
      |beanDefinitions|
    }

    /** `containsBeanDefinition`: the name is a key, whether or not its definition is null; a name that is not a key looks up as null. */
    predicate ContainsBeanDefinition(beanName: BeanName)
      reads this
      ensures !ContainsBeanDefinition(beanName) ==> GetBeanDefinition(beanName).None?
      ensures GetBeanDefinition(beanName).Some? ==> ContainsBeanDefinition(beanName)
    {
      beanName in beanDefinitions
    }

    /**
     * `getBeanDefinitionNames`: the registered names, each once, in the
     * order the key set yields them (any order).
     */
    method GetBeanDefinitionNames() returns (names: seq<BeanName>)
      ensures |names| == GetBeanDefinitionCount()
      ensures forall n :: n in names <==> ContainsBeanDefinition(n)
      ensures forall i, j :: 0 <= i < j < |names| ==> names[i] != names[j]
    {
      var keys := beanDefinitions.Keys;
      names := [];
      while keys != {}
        invariant keys <= beanDefinitions.Keys
        invariant forall n :: n in names <==> n in beanDefinitions && n !in keys
        invariant forall i, j :: 0 <= i < j < |names| ==> names[i] != names[j]
        invariant |names| + |keys| == |beanDefinitions.Keys|
        decreases |keys|
      {
        var k :| k in keys;
        names := names + [k];
        keys := keys - {k};
      }
    }
  }
}
