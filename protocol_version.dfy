/** The protocol versions the server distinguishes, with their numbers and wire names. */
module ProtocolVersions {
  import opened Wrappers
  import opened Strings

  datatype HttpProtocolVersion = HTTP_1_1 | HTTP_2_0
  {
    /** `getVersion()`. */
    function Version(): int
    {
      match this
      case HTTP_1_1 => 1
      case HTTP_2_0 => 2
    }

    /** `getProtocolString()`: the version as it appears in a start line. */
    function ProtocolString(): string
    {
      match this
      case HTTP_1_1 => "HTTP/1.1"
      case HTTP_2_0 => "HTTP/2.0"
    }
  }

  /** `values()`, in declaration order. */
  const Values: seq<HttpProtocolVersion> := [HTTP_1_1, HTTP_2_0]

  /** The first of `vs` whose protocol string equals `s` ignoring case. */
  function FindByString(vs: seq<HttpProtocolVersion>, s: string): (r: Option<HttpProtocolVersion>)
    ensures r.Some? ==> r.value in vs && EqualsIgnoreCase(r.value.ProtocolString(), s)
    ensures r.None? ==> forall k :: 0 <= k < |vs| ==> !EqualsIgnoreCase(vs[k].ProtocolString(), s)
  {
    if |vs| == 0 then None
    else if EqualsIgnoreCase(vs[0].ProtocolString(), s) then Some(vs[0])
    else FindByString(vs[1..], s)
  }

  /** The first of `vs` whose number is `n`. */
  function FindByNumber(vs: seq<HttpProtocolVersion>, n: int): (r: Option<HttpProtocolVersion>)
    ensures r.Some? ==> r.value in vs && r.value.Version() == n
    ensures r.None? ==> forall k :: 0 <= k < |vs| ==> vs[k].Version() != n
  {
    if |vs| == 0 then None
    else if vs[0].Version() == n then Some(vs[0])
    else FindByNumber(vs[1..], n)
  }

  /** `from(String)`; `None` stands for IllegalArgumentException. */
  function FromString(s: string): (r: Option<HttpProtocolVersion>)
    ensures r.Some? ==> EqualsIgnoreCase(r.value.ProtocolString(), s)
  {
    FindByString(Values, s)
  }

  /** `from(int)`; `None` stands for IllegalArgumentException. */
  function FromNumber(n: int): (r: Option<HttpProtocolVersion>)
    ensures r.Some? ==> r.value.Version() == n
  {
    FindByNumber(Values, n)
  }

  lemma ProtocolStringIsUpper(v: HttpProtocolVersion)
    ensures ToUpper(v.ProtocolString()) == v.ProtocolString()
  {
    var p := v.ProtocolString();
    assert forall i :: 0 <= i < |p| ==> UpperChar(p[i]) == p[i];
  }

  /** `from(String)` yields `v` exactly when `s` is `v`'s protocol string ignoring case; any other string is rejected. */
  lemma FromStringIgnoresCase(s: string, v: HttpProtocolVersion)
    ensures FromString(s) == Some(v) <==> EqualsIgnoreCase(v.ProtocolString(), s)
    ensures FromString(s) == None <==> forall v': HttpProtocolVersion :: !EqualsIgnoreCase(v'.ProtocolString(), s)
  {
    ProtocolStringIsUpper(v);
    var r := FromString(s);
    if r.Some? {
      ProtocolStringIsUpper(r.value);
    }
    forall v': HttpProtocolVersion | EqualsIgnoreCase(v'.ProtocolString(), s) ensures r.Some? {
      assert Values[if v' == HTTP_1_1 then 0 else 1] == v';
    }
  }

  lemma LowerHttp11Upper()
    ensures ToUpper("http/1.1") == "HTTP/1.1"
  {
    ToUpperIs("http/1.1", "HTTP/1.1");
  }

  /** `from(v.getProtocolString()) == v`. */
  lemma FromStringRoundTrip(v: HttpProtocolVersion)
    ensures FromString(v.ProtocolString()) == Some(v)
  {
    FromStringIgnoresCase(v.ProtocolString(), v);
  }

  /** Lower case is accepted: "http/1.1" names HTTP/1.1. */
  lemma FromLowerCase()
    ensures FromString("http/1.1") == Some(HTTP_1_1)
  {
    LowerHttp11Upper();
    ProtocolStringIsUpper(HTTP_1_1);
    assert EqualsIgnoreCase(Values[0].ProtocolString(), "http/1.1");
  }

  /** `from(int)` yields `v` exactly when `n` is `v`'s number; only 1 and 2 are accepted. */
  lemma FromNumberExact(n: int, v: HttpProtocolVersion)
    ensures FromNumber(n) == Some(v) <==> v.Version() == n
    ensures FromNumber(n) == None <==> n != 1 && n != 2
  {
    assert Values[0] == HTTP_1_1 && Values[1] == HTTP_2_0;
  }

  /** `from(v.getVersion()) == v`. */
  lemma FromNumberRoundTrip(v: HttpProtocolVersion)
    ensures FromNumber(v.Version()) == Some(v)
  {
    FromNumberExact(v.Version(), v);
  }
}
