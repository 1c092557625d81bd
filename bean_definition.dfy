/**
 * Bean definitions: the class a bean is made from, its name and its scope,
 * with the reflective facts about a class that the container consults.
 */
module BeanDefinitions {
  import opened Wrappers
  import opened Strings

  datatype ScopeType = Singleton | Prototype

  /** A constructor as reflection reports it: parameter types, visibility, and whether it carries `@Autowired`. */
  datatype Constructor = Constructor(paramTypes: seq<string>, isPublic: bool, autowired: bool)

  /**
   * A class as reflection reports it: its binary name, its simple name, the
   * names of every class and interface it extends or implements, and its
   * declared constructors.
   */
  datatype ClassRef = ClassRef(name: string, simpleName: string, supertypes: set<string>, constructors: seq<Constructor>)

  /** `T.isAssignableFrom(c)` for the type named `typeName`: `c` is that type or one of its subtypes. */
  predicate IsAssignableFrom(typeName: string, c: ClassRef)
  {
    typeName == c.name || typeName in c.supertypes
  }

  predicate IsUpperCase(c: char)
  {
    'A' <= c <= 'Z'
  }

  /**
   * `Introspector.decapitalize`: the first character lower-cased, except
   * that a name starting with two upper-case letters is kept as it is.
   */
  function Decapitalize(s: string): (r: string)
    ensures |r| == |s|
    ensures |s| > 0 ==> r[1..] == s[1..]
    ensures |s| > 1 && IsUpperCase(s[0]) && IsUpperCase(s[1]) ==> r == s
    ensures |s| > 0 && !(|s| > 1 && IsUpperCase(s[0]) && IsUpperCase(s[1])) ==> r[0] == LowerChar(s[0])
  {
    if |s| == 0 then s
    else if |s| > 1 && IsUpperCase(s[0]) && IsUpperCase(s[1]) then s
    else [LowerChar(s[0])] + s[1..]
  }

  /** Decapitalising a decapitalised name changes nothing. */
  lemma DecapitalizeIdempotent(s: string)
    ensures Decapitalize(Decapitalize(s)) == Decapitalize(s)
  {
    var r := Decapitalize(s);
    if |s| > 0 && !(|s| > 1 && IsUpperCase(s[0]) && IsUpperCase(s[1])) {
      assert !IsUpperCase(r[0]);
      assert [LowerChar(r[0])] + r[1..] == r;
    }
  }

  /** A class's simple name becomes its default bean name with the first letter lower-cased. */
  lemma DecapitalizeExamples()
    ensures Decapitalize("DummyService") == "dummyService"
    ensures Decapitalize("URLHandler") == "URLHandler"
    ensures Decapitalize("x") == "x"
  {
    assert LowerChar('D') == 'd';
    assert "DummyService"[1..] == "ummyService";
    assert "x"[1..] == "";
  }

  /** What one registration says about a bean: its class, its name (`None` for null) and its scope. */
  datatype BeanDefinition = BeanDefinition(beanClass: ClassRef, scope: ScopeType, beanName: Option<string>)
  {
    predicate IsSingleton()
    {
      scope == Singleton
    }

    predicate IsPrototype()
    {
      scope == Prototype
    }
  }

  /** The scope predicates are exact: each holds for its own scope only, so exactly one of them holds. */
  lemma ScopePredicates(d: BeanDefinition)
    ensures d.IsSingleton() <==> d.scope == Singleton
    ensures d.IsPrototype() <==> d.scope == Prototype
    ensures d.IsSingleton() != d.IsPrototype()
  {
  }

  /** `new BeanDefinition(clazz, beanName, scopeType)`: the arguments, stored as given. */
  function Define(clazz: ClassRef, beanName: Option<string>, scope: ScopeType): (d: BeanDefinition)
    ensures d.beanClass == clazz && d.beanName == beanName && d.scope == scope
  {
    BeanDefinition(clazz, scope, beanName)
  }

  /** `new BeanDefinition(clazz)`: a singleton named after the class. */
  function DefineClass(clazz: ClassRef): (d: BeanDefinition)
    ensures d.beanClass == clazz && d.beanName == Some(Decapitalize(clazz.simpleName))
    ensures d.IsSingleton() && !d.IsPrototype()
  {
    Define(clazz, Some(Decapitalize(clazz.simpleName)), Singleton)
  }

  /** `new BeanDefinition(clazz, beanName)`: a singleton with the given name. */
  function DefineNamed(clazz: ClassRef, beanName: Option<string>): (d: BeanDefinition)
    ensures d.beanClass == clazz && d.beanName == beanName
    ensures d.IsSingleton() && !d.IsPrototype()
  {
    Define(clazz, beanName, Singleton)
  }

  /** `new BeanDefinition(clazz, scope)`: the given scope, named after the class. */
  function DefineScoped(clazz: ClassRef, scope: ScopeType): (d: BeanDefinition)
    ensures d.beanClass == clazz && d.beanName == Some(Decapitalize(clazz.simpleName))
    ensures d.IsSingleton() <==> scope == Singleton
    ensures d.IsPrototype() <==> scope == Prototype
  {
    Define(clazz, Some(Decapitalize(clazz.simpleName)), scope)
  }
}
