/**
 * The bean factory: named lookups over a registry, a cache of singleton
 * instances, and the rule that picks the constructor a bean is made with.
 * Reflective instantiation is an allocator that hands out numbered objects.
 */
module BeanFactories {
  import opened Wrappers
  import opened BeanDefinitions
  import opened BeanRegistry

  /** Why no constructor could be chosen (IllegalStateException). */
  datatype ConstructorError = MultipleAutowired(className: string) | NoDefaultConstructor(className: string)

  /**
   * NoSuchBeanDefinitionException, BeanCreationException, and the
   * NullPointerException of a call on a null definition.
   */
  datatype BeanError = NoSuchBeanDefinition(name: BeanName) | BeanCreation(name: BeanName, cause: ConstructorError) | NullPointer

  /** An object the container made: its identity, its class, and the constructor that made it. */
  datatype Instance = Instance(id: nat, cls: ClassRef, ctor: Constructor)

  /** `getConstructors()`: the public constructors, in declaration order. */
  function PublicConstructors(cs: seq<Constructor>): (r: seq<Constructor>)
    ensures forall k :: 0 <= k < |r| ==> r[k].isPublic && r[k] in cs
    ensures forall x :: x in cs && x.isPublic ==> x in r
  {
    if cs == [] then []
    else (if cs[0].isPublic then [cs[0]] else []) + PublicConstructors(cs[1..])
  }

  /** The constructors of `cs` that carry `@Autowired`, in order. */
  function AutowiredOf(cs: seq<Constructor>): (r: seq<Constructor>)
    ensures forall k :: 0 <= k < |r| ==> r[k].autowired && r[k] in cs
    ensures forall x :: x in cs && x.autowired ==> x in r
  {
    if cs == [] then []
    else (if cs[0].autowired then [cs[0]] else []) + AutowiredOf(cs[1..])
  }

  /** `getDeclaredConstructor()`: the declared constructor without parameters, of any visibility. */
  function NoArgConstructor(cs: seq<Constructor>): (r: Option<Constructor>)
    ensures r.Some? ==> r.value in cs && r.value.paramTypes == []
    ensures r.None? ==> forall x :: x in cs ==> x.paramTypes != []
  {
    if cs == [] then None
    else if cs[0].paramTypes == [] then Some(cs[0])
    else NoArgConstructor(cs[1..])
  }

  /**
   * `resolveConstructor`: the one `@Autowired` public constructor; else the
   * only public constructor; else the no-argument constructor.
   */
  function ResolveConstructor(c: ClassRef): (r: Result<Constructor, ConstructorError>)
    ensures r.Success? ==> r.value in c.constructors
    ensures r.Failure? ==> r.error == MultipleAutowired(c.name) || r.error == NoDefaultConstructor(c.name)
  {
    var pub := PublicConstructors(c.constructors);
    var marked := AutowiredOf(pub);
    if |marked| > 1 then Failure(MultipleAutowired(c.name))
    else if |marked| == 1 then Success(marked[0])
    else if |pub| == 1 then Success(pub[0])
    else match NoArgConstructor(c.constructors)
      case Some(k) => Success(k)
      case None => Failure(NoDefaultConstructor(c.name))
  }

  /** With no public constructor marked, the marked list is empty and vice versa. */
  lemma NoneMarked(cs: seq<Constructor>)
    ensures AutowiredOf(PublicConstructors(cs)) == [] <==> forall x :: x in cs && x.isPublic ==> !x.autowired
  {
    var pub := PublicConstructors(cs);
    if AutowiredOf(pub) == [] {
      forall x | x in cs && x.isPublic ensures !x.autowired {
        assert x in pub;
      }
    } else {
      assert AutowiredOf(pub)[0] in pub;
    }
  }

  /** Two or more marked public constructors, and only they, make the choice fail as ambiguous. */
  lemma ResolveAmbiguous(c: ClassRef)
    ensures |AutowiredOf(PublicConstructors(c.constructors))| > 1 <==> ResolveConstructor(c) == Failure(MultipleAutowired(c.name))
    ensures |AutowiredOf(PublicConstructors(c.constructors))| == 1 ==>
      ResolveConstructor(c) == Success(AutowiredOf(PublicConstructors(c.constructors))[0])
  {
  }

  /** The chosen constructor is one the class declares; one that is not public takes no arguments and no public one is marked. */
  lemma ResolveChoice(c: ClassRef)
    requires ResolveConstructor(c).Success?
    ensures ResolveConstructor(c).value in c.constructors
    ensures !ResolveConstructor(c).value.autowired ==> forall x :: x in c.constructors && x.isPublic ==> !x.autowired
    ensures !ResolveConstructor(c).value.isPublic ==>
      ResolveConstructor(c).value.paramTypes == [] && forall x :: x in c.constructors && x.isPublic ==> !x.autowired
  {
    var marked := AutowiredOf(PublicConstructors(c.constructors));
    assert |marked| == 1 ==> marked[0] in PublicConstructors(c.constructors);
    NoneMarked(c.constructors);
  }

  /** The choice fails for want of a constructor exactly when none is marked, there is not exactly one public one, and none takes no arguments. */
  lemma ResolveNoDefault(c: ClassRef)
    ensures ResolveConstructor(c) == Failure(NoDefaultConstructor(c.name)) <==>
      (forall x :: x in c.constructors && x.isPublic ==> !x.autowired) &&
      |PublicConstructors(c.constructors)| != 1 &&
      (forall x :: x in c.constructors ==> x.paramTypes != [])
  {
    NoneMarked(c.constructors);
  }

  /** A class whose only marked constructor is public gets that constructor, even beside another one. */
  lemma MarkedConstructorWins(c: ClassRef, marked: Constructor, other: Constructor)
    requires c.constructors == [other, marked]
    requires marked.isPublic && marked.autowired && !other.autowired
    ensures ResolveConstructor(c) == Success(marked)
  {
    assert [marked][1..] == [];
    assert PublicConstructors([marked]) == [marked] + PublicConstructors([marked][1..]);
    assert c.constructors[1..] == [marked];
    var pub := PublicConstructors(c.constructors);
    assert pub == (if other.isPublic then [other] else []) + [marked];
    if other.isPublic {
      assert pub[1..] == [marked];
      assert AutowiredOf(pub[1..]) == [marked] + AutowiredOf(pub[1..][1..]);
      assert pub[1..][1..] == [];
    } else {
      assert pub == [marked];
      assert pub[1..] == [];
    }
    assert AutowiredOf(pub) == [marked];
  }

  class MyBeanFactory {
    const registry: MyBeanDefinitionRegistry
    /** `singletonObjects`: bean name to the cached instance. */
    var singletonObjects: map<BeanName, Instance>
    /** How many objects the allocator has made; the next one gets this number. */
    var instances: nat

    /**
     * Every cached instance is an earlier allocation made from its name's
     * registered singleton definition.
     */
    ghost predicate Valid()
      reads this, registry
    {
      forall n :: n in singletonObjects ==>
        singletonObjects[n].id < instances &&
        Defined(registry.beanDefinitions, n) &&
        registry.beanDefinitions[n].value.IsSingleton() &&
        singletonObjects[n].cls == registry.beanDefinitions[n].value.beanClass
    }

    constructor (registry: MyBeanDefinitionRegistry)
      ensures Valid() && this.registry == registry
      ensures singletonObjects == map[] && instances == 0
    {
      this.registry := registry;
      singletonObjects := map[];
      instances := 0;
    }

    /** `containsSingleton`: an instance is cached under the name. */
    predicate ContainsSingleton(name: BeanName)
      reads this
      ensures ContainsSingleton(name) <==> name in singletonObjects
    {
      name in singletonObjects
    }

    /** `containsBean`: cached, or registered (even with a null definition). */
    predicate ContainsBean(name: BeanName)
      reads this, registry
      ensures ContainsSingleton(name) ==> ContainsBean(name)
      ensures registry.ContainsBeanDefinition(name) ==> ContainsBean(name)
      ensures ContainsBean(name) ==> name in singletonObjects || name in registry.beanDefinitions
    {
      ContainsSingleton(name) || registry.ContainsBeanDefinition(name)
    }

    /** `getBeanDefinitionOrThrow`: the stored definition, which may be null, of a registered name. */
    function GetBeanDefinitionOrThrow(name: BeanName): (r: Result<Option<BeanDefinition>, BeanError>)
      reads registry
      ensures r.Success? <==> registry.ContainsBeanDefinition(name)
      ensures r.Success? ==> r.value == registry.beanDefinitions[name]
      ensures r.Success? && r.value.Some? ==> registry.GetBeanDefinition(name) == r.value
      ensures r.Failure? ==> r.error == NoSuchBeanDefinition(name)
    {
      if !registry.ContainsBeanDefinition(name) then Failure(NoSuchBeanDefinition(name))
      else Success(registry.GetBeanDefinition(name))
    }

    /** `getType`: the class of the cached instance, else the definition's class. */
    function GetType(name: BeanName): (r: Result<ClassRef, BeanError>)
      reads this, registry
      ensures r.Success? <==> ContainsSingleton(name) || Defined(registry.beanDefinitions, name)
      ensures ContainsSingleton(name) ==> r == Success(singletonObjects[name].cls)
      ensures !ContainsSingleton(name) && r.Success? ==> r.value == registry.beanDefinitions[name].value.beanClass
      ensures !ContainsBean(name) ==> r == Failure(NoSuchBeanDefinition(name))
      ensures !ContainsSingleton(name) && registry.ContainsBeanDefinition(name) && !Defined(registry.beanDefinitions, name) ==>
        r == Failure(NullPointer)
    {
      if ContainsSingleton(name) then Success(singletonObjects[name].cls)
      else match GetBeanDefinitionOrThrow(name)
        case Failure(e) => Failure(e)
        case Success(None) => Failure(NullPointer)
        case Success(Some(d)) => Success(d.beanClass)
    }

    /** `isPrototype`: read from the definition only. */
    function IsPrototype(name: BeanName): (r: Result<bool, BeanError>)
      reads registry
      ensures r.Success? <==> Defined(registry.beanDefinitions, name)
      ensures r.Success? ==> (r.value <==> registry.beanDefinitions[name].value.scope == Prototype)
      ensures !registry.ContainsBeanDefinition(name) ==> r == Failure(NoSuchBeanDefinition(name))
      ensures registry.ContainsBeanDefinition(name) && !Defined(registry.beanDefinitions, name) ==> r == Failure(NullPointer)
    {
      match GetBeanDefinitionOrThrow(name)
      case Failure(e) => Failure(e)
      case Success(None) => Failure(NullPointer)
      case Success(Some(d)) => Success(d.IsPrototype())
    }

    /** `isSingleton`: read from the definition only. */
    function IsSingleton(name: BeanName): (r: Result<bool, BeanError>)
      reads registry
      ensures r.Success? <==> Defined(registry.beanDefinitions, name)
      ensures r.Success? ==> (r.value <==> registry.beanDefinitions[name].value.scope == Singleton)
      ensures !registry.ContainsBeanDefinition(name) ==> r == Failure(NoSuchBeanDefinition(name))
      ensures registry.ContainsBeanDefinition(name) && !Defined(registry.beanDefinitions, name) ==> r == Failure(NullPointer)
    {
      match GetBeanDefinitionOrThrow(name)
      case Failure(e) => Failure(e)
      case Success(None) => Failure(NullPointer)
      case Success(Some(d)) => Success(d.IsSingleton())
    }

    /** `isTypeMatch`: whether the definition's class can be assigned to the named type. */
    function IsTypeMatch(name: BeanName, typeToMatch: string): (r: Result<bool, BeanError>)
      reads registry
      ensures r.Success? <==> Defined(registry.beanDefinitions, name)
      ensures r.Success? ==> (r.value <==> IsAssignableFrom(typeToMatch, registry.beanDefinitions[name].value.beanClass))
      ensures !registry.ContainsBeanDefinition(name) ==> r == Failure(NoSuchBeanDefinition(name))
      ensures registry.ContainsBeanDefinition(name) && !Defined(registry.beanDefinitions, name) ==> r == Failure(NullPointer)
    {
      match GetBeanDefinitionOrThrow(name)
      case Failure(e) => Failure(e)
      case Success(None) => Failure(NullPointer)
      case Success(Some(d)) => Success(IsAssignableFrom(typeToMatch, d.beanClass))
    }

    /**
     * `createBean`: choose the constructor, then allocate a new object of
     * the class; a failed choice becomes BeanCreationException. A null
     * definition throws NullPointerException, because the handler that
     * wraps the failure reads the bean name from that null definition too.
     */
    method CreateBean(def: Option<BeanDefinition>) returns (r: Result<Instance, BeanError>)
      modifies this`instances
      ensures def.None? ==> r == Failure(NullPointer) && instances == old(instances)
      ensures def.Some? && ResolveConstructor(def.value.beanClass).Failure? ==>
        r == Failure(BeanCreation(def.value.beanName, ResolveConstructor(def.value.beanClass).error)) && instances == old(instances)
      ensures def.Some? && ResolveConstructor(def.value.beanClass).Success? ==>
        r == Success(Instance(old(instances), def.value.beanClass, ResolveConstructor(def.value.beanClass).value)) &&
        instances == old(instances) + 1
    {
      if def.None? {
        return Failure(NullPointer);
      }
      var ctor := ResolveConstructor(def.value.beanClass);
      if ctor.Failure? {
        return Failure(BeanCreation(def.value.beanName, ctor.error));
      }
      r := Success(Instance(instances, def.value.beanClass, ctor.value));
      instances := instances + 1;
    }

    /**
     * `getBean(String)`: the cached instance if there is one; otherwise a
     * new instance from the definition, cached when the scope is singleton.
     */
    method GetBean(name: BeanName) returns (r: Result<Instance, BeanError>)
      requires Valid()
      modifies this`singletonObjects, this`instances
      ensures Valid()
      ensures old(ContainsSingleton(name)) ==> r == Success(old(singletonObjects[name])) && unchanged(this)
      ensures !old(ContainsSingleton(name)) && !registry.ContainsBeanDefinition(name) ==>
        r == Failure(NoSuchBeanDefinition(name)) && unchanged(this)
      ensures !old(ContainsSingleton(name)) && registry.ContainsBeanDefinition(name) && !Defined(registry.beanDefinitions, name) ==>
        r == Failure(NullPointer) && unchanged(this)
      ensures !old(ContainsSingleton(name)) && Defined(registry.beanDefinitions, name) ==>
        var def := registry.beanDefinitions[name].value;
        match ResolveConstructor(def.beanClass)
        case Failure(e) => r == Failure(BeanCreation(def.beanName, e)) && unchanged(this)
        case Success(k) =>
          r == Success(Instance(old(instances), def.beanClass, k)) && instances == old(instances) + 1 &&
          singletonObjects == (if def.IsSingleton() then old(singletonObjects)[name := r.value] else old(singletonObjects))
      ensures r.Success? ==> Defined(registry.beanDefinitions, name) && r.value.cls == registry.beanDefinitions[name].value.beanClass
      ensures r.Success? && !old(ContainsSingleton(name)) ==>
        forall n :: n in old(singletonObjects) ==> old(singletonObjects)[n].id != r.value.id
    {
      if ContainsSingleton(name) {
        return Success(singletonObjects[name]);
      }
      var def := GetBeanDefinitionOrThrow(name);
      if def.Failure? {
        return Failure(def.error);
      }
      r := CreateBean(def.value);
      if r.Failure? {
        return;
      }
      if def.value.value.IsSingleton() {
        singletonObjects := singletonObjects[name := r.value];
      }
    }
  }
}
