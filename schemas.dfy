/**
 * The schema registry: documents indexed by `$id`, and the resolution of a reference
 * `<path>#<fragment>` to the value the fragment points at inside the registered document.
 */
module Schemas {
  import opened Wrappers
  import opened Json
  import opened Pointer

  /** The id a lone document without one is given. */
  const DefaultId: string := "schema.json"

  /** `id.replace(/#\/?$/, '')`: one trailing `#/` or `#` is removed. */
  function StripHash(id: string): string {
    if |id| >= 2 && id[|id| - 2..] == "#/" then id[..|id| - 2]
    else if |id| >= 1 && id[|id| - 1] == '#' then id[..|id| - 1]
    else id
  }

  /** Exactly one suffix is removed: a key with `#` or `#/` appended strips back to itself. */
  lemma StripHashSuffixes(key: string)
    ensures StripHash(key + "#") == key
    ensures StripHash(key + "#/") == key
    ensures (key == [] || key[|key| - 1] != '#') && !(|key| >= 2 && key[|key| - 2..] == "#/") ==>
              StripHash(key) == key
  {
    assert (key + "#/")[|key + "#/"| - 2..] == "#/";
    assert (key + "#/")[..|key|] == key;
    assert (key + "#")[..|key|] == key;
    if |key| >= 1 {
      assert (key + "#")[|key| - 1..][1] == '#';
    }
  }

  /** Why construction throws. */
  datatype RegistryError =
    | NoId(index: nat)              // `throw new Error('Schema has no $id')`
    | IdNotString(index: nat)       // a truthy `$id` that is not a string has no `replace`: a TypeError
    | NullDocument(index: nat)      // reading `$id` of `null`: a TypeError
    | PrimitiveDocument(index: nat) // assigning `$id` to a boolean, number or string in module code: a TypeError

  /** `obj[key] = value` on an object: the member is replaced where it stands, or appended. */
  function SetMember(members: seq<(string, Json)>, key: string, value: Json): (r: seq<(string, Json)>)
    ensures Lookup(r, key) == Some(value)
    ensures forall k | k != key :: Lookup(r, k) == Lookup(members, k)
  {
    if members == [] then [(key, value)]
    else if members[0].0 == key then [(key, value)] + members[1..]
    else
      var r := [members[0]] + SetMember(members[1..], key, value);
      assert r[1..] == SetMember(members[1..], key, value);
      r
  }

  /** The test on line 6: exactly one document, and it has no truthy `$id`. */
  predicate LoneWithoutId(docs: seq<Json>) {
    |docs| == 1 && !IsTruthy(Member(docs[0], "$id"))
  }

  /**
   * `schemas[0].$id = 'schema.json'` when the test on line 6 holds. An object shows the new
   * member; the property an array is given is invisible to JSON; reading `$id` of `null`, or
   * assigning it to a primitive, throws.
   */
  function WithDefaultId(docs: seq<Json>): (r: Result<seq<Json>, RegistryError>)
    ensures !LoneWithoutId(docs) ==> r == Success(docs)
    ensures r.Success? ==> |r.value| == |docs|
    ensures r.Failure? <==> LoneWithoutId(docs) && !docs[0].JObj? && !docs[0].JArr?
    ensures LoneWithoutId(docs) && docs[0].JObj? ==>
              && Member(r.value[0], "$id") == Some(JStr(DefaultId))
              && forall k | k != "$id" :: Member(r.value[0], k) == Member(docs[0], k)
  {
    if !LoneWithoutId(docs) then Success(docs)
    else match docs[0]
      case JObj(ms) => Success([JObj(SetMember(ms, "$id", JStr(DefaultId)))])
      case JArr(_) => Success(docs)
      case JNull => Failure(NullDocument(0))
      case _ => Failure(PrimitiveDocument(0))
  }

  /** The key a document is stored under, or the exception its `$id` causes. */
  function IdKey(doc: Json, index: nat): (r: Result<string, RegistryError>)
    ensures r.Success? <==> !doc.JNull? && IsTruthy(Member(doc, "$id")) && Member(doc, "$id").value.JStr?
    ensures r.Success? ==> r.value == StripHash(Member(doc, "$id").value.s)
    ensures r.Failure? ==> r.error.index == index
  {
    var id := Member(doc, "$id");
    if doc.JNull? then Failure(NullDocument(index))
    else if !IsTruthy(id) then Failure(NoId(index))
    else if id.value.JStr? then Success(StripHash(id.value.s))
    else Failure(IdNotString(index))
  }

  predicate AllIdentified(docs: seq<Json>) {
    forall i | 0 <= i < |docs| :: IdKey(docs[i], i).Success?
  }

  /** No document after the `i`-th is stored under the same key. */
  predicate LastWithItsKey(docs: seq<Json>, i: nat)
    requires AllIdentified(docs) && i < |docs|
  {
    forall j | i < j < |docs| :: IdKey(docs[j], j).value != IdKey(docs[i], i).value
  }

  /** The loop of the constructor from document `start` on, with the map built so far. */
  function IndexFrom(docs: seq<Json>, start: nat, m: map<string, Json>): Result<map<string, Json>, RegistryError>
    requires start <= |docs|
    decreases |docs| - start
  {
    if start == |docs| then Success(m)
    else
      var key :- IdKey(docs[start], start);
      IndexFrom(docs, start + 1, m[key := docs[start]])
  }

  /** The map `new Schemas(docs)` builds, or the exception it throws. */
  function Register(docs: seq<Json>): Result<map<string, Json>, RegistryError> {
    var prepared :- WithDefaultId(docs);
    if LoneWithoutId(docs) && docs[0].JArr? then
      // the array's `$id` is now `schema.json`, so the loop's one step stores it there
      Success(map[DefaultId := docs[0]])
    else IndexFrom(prepared, 0, map[])
  }

  lemma {:induction false} IndexFromFailure(docs: seq<Json>, start: nat, m: map<string, Json>)
    requires start <= |docs|
    ensures IndexFrom(docs, start, m).Failure? <==> exists i | start <= i < |docs| :: IdKey(docs[i], i).Failure?
    ensures IndexFrom(docs, start, m).Failure? ==>
              exists i | start <= i < |docs| ::
                && IdKey(docs[i], i) == Failure(IndexFrom(docs, start, m).error)
                && forall j | start <= j < i :: IdKey(docs[j], j).Success?
    decreases |docs| - start
  {
    if start < |docs| {
      var key := IdKey(docs[start], start);
      if key.Success? {
        var m' := m[key.value := docs[start]];
        assert IndexFrom(docs, start, m) == IndexFrom(docs, start + 1, m');
        IndexFromFailure(docs, start + 1, m');
      } else {
        assert IndexFrom(docs, start, m) == Failure(key.error);
      }
    }
  }

  /**
   * Unless the test on line 6 holds (see `LoneDocumentWithoutId`), construction throws exactly
   * when some document has no usable `$id`, and the exception is the one of the first such
   * document.
   */
  lemma RegisterFailure(docs: seq<Json>)
    requires !LoneWithoutId(docs)
    ensures Register(docs).Failure? <==> !AllIdentified(docs)
    ensures Register(docs).Failure? ==>
              exists i | 0 <= i < |docs| ::
                && IdKey(docs[i], i) == Failure(Register(docs).error)
                && forall j | 0 <= j < i :: IdKey(docs[j], j).Success?
  {
    IndexFromFailure(docs, 0, map[]);
  }

  /** With any number of documents but one, a document without a truthy `$id` makes construction throw. */
  lemma SeveralDocumentsNeedIds(docs: seq<Json>, i: nat)
    requires |docs| != 1 && i < |docs| && !IsTruthy(Member(docs[i], "$id"))
    ensures Register(docs).Failure? && Register(docs).error.index <= i
  {
    RegisterFailure(docs);
    assert IdKey(docs[i], i).Failure?;
  }

  /** One step of the constructor's loop. */
  lemma IndexFromStep(docs: seq<Json>, start: nat, m0: map<string, Json>)
    requires start < |docs| && AllIdentified(docs)
    ensures IndexFrom(docs, start, m0) ==
              IndexFrom(docs, start + 1, m0[IdKey(docs[start], start).value := docs[start]])
  {
  }

  lemma {:induction false} IndexFromKeys(docs: seq<Json>, start: nat, m0: map<string, Json>)
    requires start <= |docs| && AllIdentified(docs)
    ensures IndexFrom(docs, start, m0).Success?
    ensures forall k :: k in IndexFrom(docs, start, m0).value <==>
              (k in m0 || exists i | start <= i < |docs| :: IdKey(docs[i], i).value == k)
    decreases |docs| - start
  {
    if start < |docs| {
      var key := IdKey(docs[start], start).value;
      IndexFromStep(docs, start, m0);
      IndexFromKeys(docs, start + 1, m0[key := docs[start]]);
    }
  }

  lemma {:induction false} IndexFromLast(docs: seq<Json>, start: nat, m0: map<string, Json>, i: nat)
    requires start <= i < |docs| && AllIdentified(docs) && LastWithItsKey(docs, i)
    ensures IndexFrom(docs, start, m0).Success?
    ensures IdKey(docs[i], i).value in IndexFrom(docs, start, m0).value
    ensures IndexFrom(docs, start, m0).value[IdKey(docs[i], i).value] == docs[i]
    decreases |docs| - start
  {
    var key := IdKey(docs[start], start).value;
    IndexFromStep(docs, start, m0);
    if start < i {
      IndexFromLast(docs, start + 1, m0[key := docs[start]], i);
    } else {
      IndexFromUntouched(docs, start + 1, m0[key := docs[start]], key);
    }
  }

  lemma {:induction false} IndexFromUntouched(docs: seq<Json>, start: nat, m0: map<string, Json>, k: string)
    requires start <= |docs| && AllIdentified(docs) && k in m0
    requires forall i | start <= i < |docs| :: IdKey(docs[i], i).value != k
    ensures IndexFrom(docs, start, m0).Success?
    ensures k in IndexFrom(docs, start, m0).value && IndexFrom(docs, start, m0).value[k] == m0[k]
    decreases |docs| - start
  {
    if start < |docs| {
      var key := IdKey(docs[start], start).value;
      IndexFromStep(docs, start, m0);
      IndexFromUntouched(docs, start + 1, m0[key := docs[start]], k);
    }
  }

  /**
   * Last write wins: the registry holds one entry per key of the documents, and the entry
   * under a key is the last document stored under it.
   */
  lemma RegisterContents(docs: seq<Json>)
    requires !LoneWithoutId(docs) && Register(docs).Success?
    ensures AllIdentified(docs)
    ensures forall k :: k in Register(docs).value <==>
              exists i | 0 <= i < |docs| :: IdKey(docs[i], i).value == k
    ensures forall i | 0 <= i < |docs| && LastWithItsKey(docs, i) ::
              Register(docs).value[IdKey(docs[i], i).value] == docs[i]
  {
    RegisterFailure(docs);
    IndexFromKeys(docs, 0, map[]);
    forall i | 0 <= i < |docs| && LastWithItsKey(docs, i)
      ensures Register(docs).value[IdKey(docs[i], i).value] == docs[i]
    {
      IndexFromLast(docs, 0, map[], i);
    }
  }

  // ---------------------------------------------------------------------------------------
  // Resolution
  // ---------------------------------------------------------------------------------------

  /** `id.indexOf('#') === -1 ? [id, ''] : id.split('#')`: the document path and the fragment. */
  function SplitId(id: string): (string, string) {
    if '#' !in id then (id, "")
    else
      var parts := Split(id, '#');
      SplitJoin(id, '#');
      (parts[0], parts[1])
  }

  /** Descends one segment at a time; a falsy value on the way is `undefined`. */
  function Walk(v: Json, segments: seq<string>): Result<Option<Json>, UriError>
    decreases segments
  {
    if segments == [] then Success(Some(v))
    else
      var key :- UnescapeFragment(segments[0]);
      var next := Member(v, key);
      if IsTruthy(next) then Walk(next.value, segments[1..]) else Success(None)
  }

  /** What `getSchema(id)` returns (`None` for `undefined`), or the URIError it throws. */
  function Resolve(schemas: map<string, Json>, id: string): Result<Option<Json>, UriError> {
    var (path, fragment) := SplitId(id);
    if path !in schemas || !Truthy(schemas[path]) then Success(None)
    else if fragment != "" && fragment != "/" then Walk(schemas[path], Split(fragment, '/')[1..])
    else Success(Some(schemas[path]))
  }

  lemma {:induction false} WalkFindsTruthy(v: Json, segments: seq<string>)
    requires Truthy(v)
    ensures Walk(v, segments).Success? && Walk(v, segments).value.Some? ==> Truthy(Walk(v, segments).value.value)
    decreases segments
  {
    if segments != [] {
      var key := UnescapeFragment(segments[0]);
      if key.Success? && IsTruthy(Member(v, key.value)) {
        WalkFindsTruthy(Member(v, key.value).value, segments[1..]);
      }
    }
  }

  /** A reference never resolves to a falsy value: those read as `undefined`. */
  lemma ResolveFindsTruthy(schemas: map<string, Json>, id: string)
    requires Resolve(schemas, id).Success? && Resolve(schemas, id).value.Some?
    ensures Truthy(Resolve(schemas, id).value.value)
  {
    var (path, fragment) := SplitId(id);
    if fragment != "" && fragment != "/" {
      WalkFindsTruthy(schemas[path], Split(fragment, '/')[1..]);
    }
  }

  /** Walking a path and then more is walking the first part, then the rest from there. */
  lemma {:induction false} WalkAppend(v: Json, a: seq<string>, b: seq<string>)
    ensures Walk(v, a + b) ==
              match Walk(v, a)
              case Failure(e) => Failure(e)
              case Success(None) => Success(None)
              case Success(Some(w)) => Walk(w, b)
    decreases a
  {
    if a != [] {
      assert (a + b)[0] == a[0] && (a + b)[1..] == a[1..] + b;
      var key := UnescapeFragment(a[0]);
      if key.Success? && IsTruthy(Member(v, key.value)) {
        WalkAppend(Member(v, key.value).value, a[1..], b);
      }
    } else {
      assert a + b == b;
    }
  }

  /** An unregistered document path reads as `undefined`, whatever the fragment: nothing is thrown. */
  lemma ResolveUnknownDocument(schemas: map<string, Json>, id: string)
    requires SplitId(id).0 !in schemas
    ensures Resolve(schemas, id) == Success(None)
  {
  }

  /** A registered key without `#` resolves, bare or with an empty or `/` fragment, to its whole document. */
  lemma ResolveWholeDocument(schemas: map<string, Json>, key: string)
    requires '#' !in key && key in schemas && Truthy(schemas[key])
    ensures Resolve(schemas, key) == Success(Some(schemas[key]))
    ensures Resolve(schemas, key + "#") == Success(Some(schemas[key]))
    ensures Resolve(schemas, key + "#/") == Success(Some(schemas[key]))
  {
    SplitAfterFirst(key, '#', "");
    SplitAfterFirst(key, '#', "/");
    assert key + "#" == key + ['#'] + "";
    assert key + "#/" == key + ['#'] + "/";
  }

  /** A pointer segment that unescapes to itself and adds no `#`. */
  predicate PlainSegment(seg: string) {
    '/' !in seg && '~' !in seg && '%' !in seg && '#' !in seg
  }

  /**
   * An id with exactly one `#`, whose fragment is empty (the whole document) or a pointer
   * `/…` other than `/`: the ids the tree builder extends with `/<segment>`.
   */
  predicate PointerId(id: string) {
    var parts := Split(id, '#');
    |parts| == 2 && (parts[1] == "" || (parts[1][0] == '/' && parts[1] != "/"))
  }

  /**
   * Appending `/<seg>` to a pointer id descends one level: it resolves to member `seg` of
   * what the id resolves to (or `undefined` when that member is missing or falsy).
   */
  lemma ResolveDescend(schemas: map<string, Json>, id: string, seg: string)
    requires PointerId(id) && PlainSegment(seg)
    requires seg != "" || Split(id, '#')[1] != ""
    requires Resolve(schemas, id).Success? && Resolve(schemas, id).value.Some?
    ensures PointerId(id + "/" + seg)
    ensures Split(id + "/" + seg, '#')[0] == Split(id, '#')[0]
    ensures Split(id + "/" + seg, '#')[1] != ""
    ensures var v := Resolve(schemas, id).value.value;
            Resolve(schemas, id + "/" + seg) ==
              if IsTruthy(Member(v, seg)) then Success(Some(Member(v, seg).value)) else Success(None)
  {
    var v := Resolve(schemas, id).value.value;
    var parts := Split(id, '#');
    var path, fragment := parts[0], parts[1];
    var fragment' := fragment + ['/'] + seg;
    SplitPointerId(id, seg);
    SplitJoin(id + "/" + seg, '#');
    assert SplitId(id + "/" + seg) == (path, fragment');
    SplitAppend(fragment, '/', seg);
    var before := Split(fragment, '/')[1..];
    assert Split(fragment', '/')[1..] == before + [seg];
    WalkOne(v, seg);
    if fragment == "" {
      assert before + [seg] == [seg];
    } else {
      WalkAppend(schemas[path], before, [seg]);
    }
  }

  lemma SplitPointerId(id: string, seg: string)
    requires PointerId(id) && '#' !in seg
    ensures Split(id + "/" + seg, '#') == [Split(id, '#')[0], Split(id, '#')[1] + ['/'] + seg]
  {
    var parts := Split(id, '#');
    var path, fragment := parts[0], parts[1];
    var fragment' := fragment + ['/'] + seg;
    SplitJoin(id, '#');
    assert id + "/" + seg == path + ['#'] + fragment' by {
      JoinTwo(parts, '#');
    }
    assert '#' !in path && '#' !in fragment';
    calc {
      Split(id + "/" + seg, '#');
      Split(path + ['#'] + fragment', '#');
      { SplitAfterFirst(path, '#', fragment'); }
      [path] + Split(fragment', '#');
      { SplitOfPlain(fragment', '#'); }
      [path, fragment'];
    }
  }

  lemma WalkOne(v: Json, seg: string)
    requires PlainSegment(seg)
    ensures Walk(v, [seg]) ==
              if IsTruthy(Member(v, seg)) then Success(Some(Member(v, seg).value)) else Success(None)
  {
    UnescapeFragmentPlain(seg);
    assert [seg][1..] == [];
  }

  /**
   * Every document the registry keeps under a `#`-free key is found again by `<key>#` when no
   * later document took its key.
   */
  lemma RegisteredDocumentResolves(docs: seq<Json>, i: nat)
    requires !LoneWithoutId(docs) && Register(docs).Success? && i < |docs|
    requires AllIdentified(docs) && LastWithItsKey(docs, i)
    requires '#' !in IdKey(docs[i], i).value
    ensures Resolve(Register(docs).value, IdKey(docs[i], i).value + "#") == Success(Some(docs[i]))
  {
    RegisterContents(docs);
    var key := IdKey(docs[i], i).value;
    assert key in Register(docs).value;
    ResolveWholeDocument(Register(docs).value, key);
  }

  /**
   * A lone document without a truthy `$id`: an object is given `$id` `schema.json` and an
   * array is stored under `schema.json` as it is, each the only entry and found again by
   * `schema.json#`; `null` and a primitive throw the TypeError of lines 6-7.
   */
  lemma LoneDocumentWithoutId(docs: seq<Json>)
    requires LoneWithoutId(docs)
    ensures docs[0].JObj? ==>
              var doc := JObj(SetMember(docs[0].members, "$id", JStr(DefaultId)));
              && Member(doc, "$id") == Some(JStr(DefaultId))
              && Register(docs) == Success(map[DefaultId := doc])
              && Resolve(Register(docs).value, DefaultId + "#") == Success(Some(doc))
    ensures docs[0].JArr? ==>
              && Register(docs) == Success(map[DefaultId := docs[0]])
              && Resolve(Register(docs).value, DefaultId + "#") == Success(Some(docs[0]))
    ensures docs[0].JNull? ==> Register(docs) == Failure(NullDocument(0))
    ensures !docs[0].JObj? && !docs[0].JArr? && !docs[0].JNull? ==> Register(docs) == Failure(PrimitiveDocument(0))
  {
    assert '#' !in DefaultId;
    if docs[0].JObj? {
      var doc := JObj(SetMember(docs[0].members, "$id", JStr(DefaultId)));
      assert WithDefaultId(docs) == Success([doc]);
      assert IdKey(doc, 0) == Success(DefaultId) by {
        StripHashSuffixes(DefaultId);
      }
      assert IndexFrom([doc], 0, map[]) == IndexFrom([doc], 1, map[DefaultId := doc]);
      ResolveWholeDocument(map[DefaultId := doc], DefaultId);
    } else if docs[0].JArr? {
      ResolveWholeDocument(map[DefaultId := docs[0]], DefaultId);
    }
  }

  /** The registry: a map from document key to document. */
  class Schemas {
    var schemas: map<string, Json>

    constructor Empty()
      ensures schemas == map[]
    {
      schemas := map[];
    }

    /** `this._schemas.set(key, doc)`. */
    method Set(key: string, doc: Json)
      modifies this
      ensures schemas == old(schemas)[key := doc]
    {
      schemas := schemas[key := doc];
    }

    /** `new Schemas(docs)`: the registry `Register` describes, or the exception it throws. */
    static method Create(docs: seq<Json>) returns (r: Result<Schemas, RegistryError>)
      ensures Register(docs).Failure? ==> r == Failure(Register(docs).error)
      ensures Register(docs).Success? ==>
                r.Success? && fresh(r.value) && r.value.schemas == Register(docs).value
    {
      var ds := docs;
      var registry := new Schemas.Empty();
      if |ds| == 1 && !IsTruthy(Member(ds[0], "$id")) {
        match ds[0]
        case JObj(ms) =>
          ds := [JObj(SetMember(ms, "$id", JStr(DefaultId)))];
        case JArr(_) =>
          // the array's `$id` is now `schema.json`, which its JSON value cannot show
          registry.Set(DefaultId, ds[0]);
          return Success(registry);
        case JNull =>
          return Failure(NullDocument(0));
        case _ =>
          return Failure(PrimitiveDocument(0));
      }
      assert Success(ds) == WithDefaultId(docs);
      for i := 0 to |ds|
        invariant fresh(registry)
        invariant Register(docs) == IndexFrom(ds, i, registry.schemas)
      {
        if ds[i].JNull? {
          return Failure(NullDocument(i));
        }
        var id := Member(ds[i], "$id");
        if !IsTruthy(id) {
          return Failure(NoId(i));
        }
        if !id.value.JStr? {
          return Failure(IdNotString(i));
        }
        registry.Set(StripHash(id.value.s), ds[i]);
      }
      return Success(registry);
    }

    /** `getSchema(id)`; it reads the registry and changes nothing. */
    method GetSchema(id: string) returns (r: Result<Option<Json>, UriError>)
      ensures r == Resolve(schemas, id)
    {
      var path, fragment;
      if '#' !in id {
        path, fragment := id, "";
      } else {
        var parts := Split(id, '#');
        SplitJoin(id, '#');
        path, fragment := parts[0], parts[1];
      }
      if path !in schemas || !Truthy(schemas[path]) {
        return Success(None);
      }
      var schema := schemas[path];
      if fragment != "" && fragment != "/" {
        var parts := Split(fragment, '/')[1..];
        for i := 0 to |parts|
          invariant Walk(schemas[path], parts) == Walk(schema, parts[i..])
        {
          assert parts[i..][0] == parts[i] && parts[i..][1..] == parts[i + 1..];
          var key := UnescapeFragment(parts[i]);
          if key.Failure? {
            return Failure(key.error);
          }
          var next := Member(schema, key.value);
          if !IsTruthy(next) {
            return Success(None);
          }
          schema := next.value;
        }
      }
      return Success(Some(schema));
    }
  }
}
