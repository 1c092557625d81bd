/**
 * How the factory's queries relate to one another, what two lookups of
 * one name return, and why registering more beans keeps the cache sound.
 */
module BeanFactoryProps {
  import opened Wrappers
  import opened BeanDefinitions
  import opened BeanRegistry
  import opened BeanFactories

  /** `isSingleton` and `isPrototype` throw for the same names and otherwise disagree. */
  lemma ScopeQueriesAgree(f: MyBeanFactory, name: BeanName)
    ensures f.IsSingleton(name).Success? <==> f.IsPrototype(name).Success?
    ensures f.IsSingleton(name).Success? ==> f.IsSingleton(name).value != f.IsPrototype(name).value
  {
    if f.IsSingleton(name).Success? {
      ScopePredicates(f.registry.beanDefinitions[name].value);
    }
  }

  /** In a sound factory every cached name is registered, so `containsBean` is `containsBeanDefinition`. */
  lemma ContainsBeanIsRegistered(f: MyBeanFactory, name: BeanName)
    requires f.Valid()
    ensures f.ContainsBean(name) <==> f.registry.ContainsBeanDefinition(name)
    ensures f.ContainsSingleton(name) ==> f.IsSingleton(name) == Success(true)
  {
  }

  /** A registered bean's type is its definition's class, cached or not, and the bean matches its own type and every supertype. */
  lemma TypeOfRegistered(f: MyBeanFactory, name: BeanName, super: string)
    requires f.Valid() && Defined(f.registry.beanDefinitions, name)
    ensures f.GetType(name) == Success(f.registry.beanDefinitions[name].value.beanClass)
    ensures f.IsTypeMatch(name, f.GetType(name).value.name) == Success(true)
    ensures super in f.GetType(name).value.supertypes ==> f.IsTypeMatch(name, super) == Success(true)
  {
  }

  /** Unknown names make every query throw NoSuchBeanDefinitionException. */
  lemma UnknownName(f: MyBeanFactory, name: BeanName, typeToMatch: string)
    requires f.Valid() && !f.registry.ContainsBeanDefinition(name)
    ensures !f.ContainsBean(name)
    ensures f.GetType(name) == Failure(NoSuchBeanDefinition(name))
    ensures f.IsSingleton(name) == Failure(NoSuchBeanDefinition(name))
    ensures f.IsPrototype(name) == Failure(NoSuchBeanDefinition(name))
    ensures f.IsTypeMatch(name, typeToMatch) == Failure(NoSuchBeanDefinition(name))
  {
  }

  /**
   * A name registered with a null definition counts as a bean that is not
   * cached, yet every query that reads its definition, and `getBean`'s
   * creation, throws NullPointerException.
   */
  lemma NullDefinition(f: MyBeanFactory, name: BeanName, typeToMatch: string)
    requires f.Valid() && name in f.registry.beanDefinitions && f.registry.beanDefinitions[name].None?
    ensures f.ContainsBean(name) && !f.ContainsSingleton(name)
    ensures f.registry.GetBeanDefinition(name) == None
    ensures f.GetType(name) == Failure(NullPointer)
    ensures f.IsSingleton(name) == Failure(NullPointer)
    ensures f.IsPrototype(name) == Failure(NullPointer)
    ensures f.IsTypeMatch(name, typeToMatch) == Failure(NullPointer)
  {
  }

  /**
   * Two lookups of a name not yet cached: a singleton yields the identical
   * object both times and is then cached; a prototype yields two different
   * objects and is never cached.
   */
  method GetBeanTwice(f: MyBeanFactory, name: BeanName) returns (first: Result<Instance, BeanError>, second: Result<Instance, BeanError>)
    requires f.Valid() && !f.ContainsSingleton(name)
    modifies f`singletonObjects, f`instances
    ensures f.Valid()
    ensures first.Success? <==> second.Success?
    ensures first.Success? ==> Defined(f.registry.beanDefinitions, name)
    ensures first.Success? && f.registry.beanDefinitions[name].value.IsSingleton() ==>
      second == first && f.ContainsSingleton(name) && f.singletonObjects[name] == first.value
    ensures first.Success? && f.registry.beanDefinitions[name].value.IsPrototype() ==>
      second.value.id != first.value.id && !f.ContainsSingleton(name)
  {
    first := f.GetBean(name);
    second := f.GetBean(name);
    if first.Success? {
      ScopePredicates(f.registry.beanDefinitions[name].value);
    }
  }

  /** Registering more definitions never invalidates the cache: taken names keep their first definition. */
  method RegisterKeepsValid(f: MyBeanFactory, name: BeanName, def: Option<BeanDefinition>)
    requires f.Valid()
    modifies f.registry
    ensures f.Valid()
    ensures f.registry.beanDefinitions == Registered(old(f.registry.beanDefinitions), name, def)
  {
    f.registry.RegisterBeanDefinition(name, def);
  }
}
