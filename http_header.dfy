/**
 * The header multimap shared by requests and responses: every name maps to
 * the list of its values, and a value given with commas is stored piece by piece.
 */
module Headers {
  import opened Wrappers
  import opened Strings

  /** The name to values map behind an `HttpHeader`; names are kept exactly as given. */
  type HeaderMap = map<string, seq<string>>

  /** `String.trim` applied to every element, in order. */
  function TrimAll(ps: seq<string>): (r: seq<string>)
    ensures |r| == |ps|
  {
    if |ps| == 0 then [] else TrimAll(ps[..|ps| - 1]) + [Trim(ps[|ps| - 1])]
  }

  lemma {:induction false} TrimAllAt(ps: seq<string>, k: nat)
    requires k < |ps|
    ensures TrimAll(ps)[k] == Trim(ps[k])
  {
    if k < |ps| - 1 {
      TrimAllAt(ps[..|ps| - 1], k);
    }
  }

  /** The entries `put` appends for `value`: its comma-separated pieces, each trimmed. */
  function ValuePieces(value: string): seq<string>
  {
    TrimAll(Split(value, ','))
  }

  /** The list stored under `key`, or the empty list `computeIfAbsent` would create. */
  function ValuesOf(m: HeaderMap, key: string): seq<string>
  {
    if key in m then m[key] else []
  }

  /** The map after `put(key, value)`. */
  function WithPut(m: HeaderMap, key: string, value: string): HeaderMap
  {
    m[key := ValuesOf(m, key) + ValuePieces(value)]
  }

  /** `get(key)`: the whole list, `None` standing for null when `key` was never put. */
  function GetValues(m: HeaderMap, key: string): (r: Option<seq<string>>)
    ensures r.None? <==> key !in m
    ensures r.Some? ==> r.value == m[key]
  {
    if key in m then Some(m[key]) else None
  }

  /** `getFirst(key)`: the first value, `None` standing for null when there is none. */
  function FirstValue(m: HeaderMap, key: string): (r: Option<string>)
    ensures r.None? <==> (key !in m || m[key] == [])
    ensures r.Some? ==> r.value == m[key][0]
  {
    if key in m && |m[key]| > 0 then Some(m[key][0]) else None
  }

  class HttpHeader {
    var headers: HeaderMap

    constructor ()
      ensures headers == map[]
    {
      headers := map[];
    }

    /** `put(key, value)`: make sure `key` has a list, then append each trimmed piece in turn. */
    method Put(key: string, value: string)
      modifies this
      ensures headers == WithPut(old(headers), key, value)
    {
      ghost var base := ValuesOf(headers, key);
      if key !in headers {
        headers := headers[key := []];
      }
      var list := headers[key];
      var pieces := Split(value, ',');
      for i := 0 to |pieces|
        invariant list == base + TrimAll(pieces[..i])
        invariant headers == old(headers)[key := list]
      {
        assert pieces[..i + 1][..i] == pieces[..i];
        assert TrimAll(pieces[..i + 1]) == TrimAll(pieces[..i]) + [Trim(pieces[i])];
        ConcatAssoc(base, TrimAll(pieces[..i]), [Trim(pieces[i])]);
        list := list + [Trim(pieces[i])];
        headers := headers[key := list];
      }
      assert pieces[..|pieces|] == pieces;
    }

    /** `get(key)`: the whole list, or null for a name never put. */
    function Get(key: string): (r: Option<seq<string>>)
      reads this
      ensures r.None? <==> key !in headers
      ensures r.Some? ==> r.value == headers[key]
    {
      GetValues(headers, key)
    }

    /** `getFirst(key)`: the head of what `get(key)` returns, or null when that is null or empty. */
    function GetFirst(key: string): (r: Option<string>)
      reads this
      ensures r.Some? <==> Get(key).Some? && Get(key).value != []
      ensures r.Some? ==> r.value == Get(key).value[0]
    {
      FirstValue(headers, key)
    }

    /** `getAll()`: the same contents, which a caller can only read; each entry is what `get` returns. */
    function GetAll(): (r: HeaderMap)
      reads this
      ensures forall k :: k in r <==> Get(k).Some?
      ensures forall k :: k in r ==> Get(k) == Some(r[k])
    {
      headers
    }
  }

  /**
   * `put` appends to `key`'s list and nothing else: earlier values of `key` stay
   * first and in order, and every other name keeps exactly its list.
   */
  lemma PutAppends(m: HeaderMap, key: string, value: string, other: string)
    ensures GetValues(WithPut(m, key, value), key) == Some(ValuesOf(m, key) + ValuePieces(value))
    ensures ValuesOf(m, key) <= ValuesOf(WithPut(m, key, value), key)
    ensures other != key ==> GetValues(WithPut(m, key, value), other) == GetValues(m, other)
  {
  }

  /** A later `put` never changes what `getFirst` already returned. */
  lemma PutKeepsFirst(m: HeaderMap, key: string, value: string)
    requires FirstValue(m, key).Some?
    ensures FirstValue(WithPut(m, key, value), key) == FirstValue(m, key)
  {
  }

  /**
   * Putting a comma-join of trimmed, comma-free values whose last one is not
   * empty stores exactly those values.
   */
  lemma ValuePiecesJoin(vs: seq<string>)
    requires |vs| >= 1 && vs[|vs| - 1] != ""
    requires forall k :: 0 <= k < |vs| ==> ',' !in vs[k] && IsTrim(vs[k])
    ensures ValuePieces(Join(vs, ',')) == vs
  {
    SplitJoin(vs, ',');
    TrimAllFixed(vs);
  }

  /** Trimming already trimmed values changes nothing. */
  lemma {:induction false} TrimAllFixed(ps: seq<string>)
    requires forall k :: 0 <= k < |ps| ==> IsTrim(ps[k])
    ensures TrimAll(ps) == ps
  {
    if |ps| > 0 {
      TrimAllFixed(ps[..|ps| - 1]);
      TrimFixed(ps[|ps| - 1]);
    }
  }

  lemma SplitCacheControl()
    ensures Split("no-cache, private", ',') == ["no-cache", " private"]
  {
    var ps := ["no-cache", " private"];
    JoinStep("no-cache", [" private"], ',');
    assert [ps[0]] + [ps[1]] == ps;
    assert "no-cache" + [','] + " private" == "no-cache, private";
    SplitJoin(ps, ',');
  }

  lemma ValuePiecesCacheControl()
    ensures ValuePieces("no-cache, private") == ["no-cache", "private"]
  {
    CacheControlPieces();
    TrimFixed("no-cache");
    TrimPrivate();
  }

  lemma CacheControlPieces()
    ensures ValuePieces("no-cache, private") == [Trim("no-cache"), Trim(" private")]
  {
    SplitCacheControl();
    TrimAllPair("no-cache", " private");
  }

  lemma TrimPrivate()
    ensures Trim(" private") == "private"
  {
    TrimLeadingSpace("private");
    assert [' '] + "private" == " private";
  }

  lemma TrimLeadingSpace(t: string)
    requires IsTrim(t)
    ensures Trim([' '] + t) == t
  {
    TrimPadded([' '], t, "");
    assert [' '] + t + "" == [' '] + t;
  }

  lemma TrimAllPair(a: string, b: string)
    ensures TrimAll([a, b]) == [Trim(a), Trim(b)]
  {
    assert [a, b][..1] == [a];
    assert [a][..0] == [];
  }

  /** A put into an empty header stores exactly the pieces of the value. */
  lemma PutIntoEmpty(key: string, value: string)
    ensures GetValues(WithPut(map[], key, value), key) == Some(ValuePieces(value))
    ensures ValuePieces(value) != [] ==> FirstValue(WithPut(map[], key, value), key) == Some(ValuePieces(value)[0])
  {
    var m: HeaderMap := map[];
    assert ValuesOf(m, key) == [];
    assert [] + ValuePieces(value) == ValuePieces(value);
  }

  /** `put("Cache-Control", "no-cache, private")` stores two values, and `getFirst` gives the first. */
  lemma CacheControlExample()
    ensures GetValues(WithPut(map[], "Cache-Control", "no-cache, private"), "Cache-Control") == Some(["no-cache", "private"])
    ensures FirstValue(WithPut(map[], "Cache-Control", "no-cache, private"), "Cache-Control") == Some("no-cache")
  {
    ValuePiecesCacheControl();
    PutIntoEmpty("Cache-Control", "no-cache, private");
  }

  /** Names are compared exactly: a value put under "Content-Type" is not found under "content-type". */
  lemma LookupIsCaseSensitive(value: string)
    ensures GetValues(WithPut(map[], "Content-Type", value), "content-type") == None
    ensures FirstValue(WithPut(map[], "Content-Type", value), "content-type") == None
  {
    assert "Content-Type" != "content-type" by {
      assert "Content-Type"[0] != "content-type"[0];
    }
  }

  /** A lone comma splits into no pieces at all. */
  lemma LoneCommaPieces()
    ensures ValuePieces(",") == []
  {
    assert Pieces(",", ',') == ["", ""] by {
      assert IndexOf(",", ',') == 0;
      assert ","[1..] == "";
    }
    assert DropTrailingEmpty(["", ""]) == [] by {
      assert ["", ""][..1] == [""];
      assert [""][..0] == [];
    }
    assert Split(",", ',') == [];
  }

  /** The empty value is one empty piece. */
  lemma EmptyValuePieces()
    ensures ValuePieces("") == [""]
  {
    assert Trim("") == "";
    assert Split("", ',') == [""];
    assert TrimAll([""]) == TrimAll([]) + [Trim("")];
  }

  /** An empty value is stored as one empty entry; a lone comma stores nothing but still creates the name. */
  lemma EdgeValues(m: HeaderMap, key: string)
    ensures ValuesOf(WithPut(m, key, ""), key) == ValuesOf(m, key) + [""]
    ensures GetValues(WithPut(m, key, ","), key) == Some(ValuesOf(m, key))
  {
    EmptyValuePieces();
    LoneCommaPieces();
    assert ValuesOf(m, key) + [] == ValuesOf(m, key);
  }
}
