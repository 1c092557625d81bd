/** The request methods the server understands and their case-insensitive lookup. */
module HttpMethods {
  import opened Wrappers
  import opened Strings

  datatype HttpMethod = GET | HEAD | POST | PUT | PATCH | DELETE | OPTIONS | TRACE

  /** `name()`: the constant's name. */
  function Name(m: HttpMethod): string
  {
    match m
    case GET => "GET"
    case HEAD => "HEAD"
    case POST => "POST"
    case PUT => "PUT"
    case PATCH => "PATCH"
    case DELETE => "DELETE"
    case OPTIONS => "OPTIONS"
    case TRACE => "TRACE"
  }

  /** `values()`, in declaration order. */
  const Values: seq<HttpMethod> := [GET, HEAD, POST, PUT, PATCH, DELETE, OPTIONS, TRACE]

  /** The enum has exactly eight constants, each listed once in `values()`. */
  lemma ValuesComplete()
    ensures |Values| == 8
    ensures forall m: HttpMethod :: m in Values
    ensures forall i, j :: 0 <= i < j < |Values| ==> Values[i] != Values[j]
  {
    forall m: HttpMethod ensures m in Values {
      match m
      case GET => assert Values[0] == m;
      case HEAD => assert Values[1] == m;
      case POST => assert Values[2] == m;
      case PUT => assert Values[3] == m;
      case PATCH => assert Values[4] == m;
      case DELETE => assert Values[5] == m;
      case OPTIONS => assert Values[6] == m;
      case TRACE => assert Values[7] == m;
    }
  }

  /** The first of `vs` whose name equals `s` ignoring case, found by a linear search. */
  function FindIgnoreCase(vs: seq<HttpMethod>, s: string): (r: Option<HttpMethod>)
    ensures r.Some? ==> r.value in vs && EqualsIgnoreCase(Name(r.value), s)
    ensures r.None? ==> forall k :: 0 <= k < |vs| ==> !EqualsIgnoreCase(Name(vs[k]), s)
  {
    if |vs| == 0 then None
    else if EqualsIgnoreCase(Name(vs[0]), s) then Some(vs[0])
    else FindIgnoreCase(vs[1..], s)
  }

  /** `HttpMethod.from(s)`; `None` stands for the IllegalArgumentException it throws. */
  function From(s: string): (r: Option<HttpMethod>)
    ensures r.Some? ==> EqualsIgnoreCase(Name(r.value), s)
  {
    FindIgnoreCase(Values, s)
  }

  /** Every name is already upper case, so matching a name ignoring case means upper-casing `s` gives the name. */
  lemma NameIsUpper(m: HttpMethod)
    ensures ToUpper(Name(m)) == Name(m)
  {
    var n := Name(m);
    assert forall i :: 0 <= i < |n| ==> UpperChar(n[i]) == n[i];
  }

  /** `from` succeeds with `m` exactly when `s` equals `m`'s name ignoring case, and fails when no name matches. */
  lemma FromIgnoresCase(s: string, m: HttpMethod)
    ensures From(s) == Some(m) <==> EqualsIgnoreCase(Name(m), s)
    ensures From(s) == None <==> forall m' :: !EqualsIgnoreCase(Name(m'), s)
  {
    ValuesComplete();
    NameIsUpper(m);
    var r := From(s);
    if r.Some? {
      // both names equal ToUpper(s), and distinct constants have distinct names
      NameIsUpper(r.value);
    }
    forall m' | EqualsIgnoreCase(Name(m'), s) ensures r.Some? {
      assert m' in Values;
      var k :| 0 <= k < |Values| && Values[k] == m';
    }
  }

  /** `from(m.name()) == m` for every constant. */
  lemma FromName(m: HttpMethod)
    ensures From(Name(m)) == Some(m)
  {
    FromIgnoresCase(Name(m), m);
  }

  lemma PostUpper()
    ensures ToUpper("post") == "POST"
  {
    ToUpperIs("post", "POST");
  }

  /** "post" names POST. */
  lemma FromLowerCase()
    ensures From("post") == Some(POST)
  {
    PostUpper();
    FromIgnoresCase("post", POST);
  }
}
