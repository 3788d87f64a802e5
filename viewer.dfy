/**
 * The schema viewer's tree builder: `schemaTable`, `combination` and `objectTable` turn the
 * schema a reference resolves to into nested table sections. The sections are modelled as a
 * `Node` tree; the markup itself is not. The source recurses without a guard, so a `$ref`
 * cycle there recurses until the stack overflows; here every call spends one unit of `fuel`
 * and a call without fuel yields an `OutOfFuel` marker.
 */
module SchemaViewer {
  import opened Wrappers
  import opened Json
  import opened Pointer
  import opened Schemas

  /** The three composition keywords, in the order they are tried. */
  datatype Combinator = AnyOf | AllOf | OneOf {
    function Keyword(): string {
      match this
      case AnyOf => "anyOf"
      case AllOf => "allOf"
      case OneOf => "oneOf"
    }
  }

  /** One section of the rendered table. */
  datatype Node =
    | Unknown(id: string)
      // "Unknown Schema reference" for an id that does not resolve
    | Combination(kind: Combinator, name: Option<Json>, row: Option<Json>, alternatives: seq<Node>)
      // a row for the composition, then one section per alternative
    | Obj(name: Option<Json>, required: set<Json>, schema: Json, body: seq<Node>)
      // an "Object of" row with the object's sections nested under it
    | Group(sections: seq<Node>)
      // the sections of an object with a falsy name, returned bare
    | Arr(name: Option<Json>, required: set<Json>, schema: Json, item: Node)
      // an "Array of" row with the section of the items nested under it
    | Leaf(name: Option<Json>, required: set<Json>, schema: Json)
      // a plain row
    | AdditionalInfo
      // "Additional properties are permitted..."
    | Anything
      // the row of an object that says nothing about its members
    | OutOfFuel(id: string)
      // the model's depth bound ran out before `id` was built

  /** The exceptions the builder lets escape. */
  datatype BuildError =
    | BadUri(id: string)              // `decodeURIComponent` threw inside `getSchema`
    | RequiredNotIterable(id: string) // `new Set(schema.required)` on a truthy non-iterable
    | CombinatorNotArray(id: string)  // `things.map` on a truthy value that is not an array
    | NullAlternative(id: string)     // `thing.title` on a `null` alternative
    | NoItems(id: string)             // `schema.items.title` with `items` absent or `null`

  /**
   * `new Set(schema.required || reqSet || [])`: the schema's own `required` when it is truthy
   * (an array gives its elements, a string its characters), otherwise the inherited set,
   * otherwise the empty set.
   */
  function ActiveRequired(schema: Json, inherited: Option<set<Json>>, id: string): (r: Result<set<Json>, BuildError>)
    ensures var own := Member(schema, "required");
            && (r.Failure? <==> IsTruthy(own) && !own.value.JArr? && !own.value.JStr?)
            && (r.Success? && IsTruthy(own) && own.value.JArr? ==>
                  forall x :: x in r.value <==> x in own.value.items)
            && (r.Success? && IsTruthy(own) && own.value.JStr? ==>
                  forall x :: x in r.value <==> x.JStr? && |x.s| == 1 && x.s[0] in own.value.s)
            && (r.Success? && !IsTruthy(own) ==>
                  r.value == if inherited.Some? then inherited.value else {})
  {
    var own := Member(schema, "required");
    if IsTruthy(own) then
      match own.value
      case JArr(xs) => Success(set x | x in xs)
      case JStr(text) =>
        var chars := set c | c in text :: JStr([c]);
        assert forall x: Json :: x in chars <==> x.JStr? && |x.s| == 1 && x.s[0] in text by {
          forall x: Json | x.JStr? && |x.s| == 1 && x.s[0] in text
            ensures x in chars
          {
            assert x == JStr([x.s[0]]);
          }
        }
        Success(chars)
      case _ => Failure(RequiredNotIterable(id))
    else if inherited.Some? then Success(inherited.value)
    else Success({})
  }

  /**
   * `schemaTable(schemas, id, name, reqSet)`: resolve `id`, settle the required set, and build
   * the section for what `id` resolves to.
   */
  function Build(schemas: map<string, Json>, id: string, name: Option<Json>, inherited: Option<set<Json>>, fuel: nat): Result<Node, BuildError>
    decreases fuel, 0, 0
  {
    if fuel == 0 then Success(OutOfFuel(id))
    else match Resolve(schemas, id)
      case Failure(_) => Failure(BadUri(id))
      case Success(None) => Success(Unknown(id))
      case Success(Some(schema)) =>
        var required :- ActiveRequired(schema, inherited, id);
        BuildResolved(schemas, id, schema, name, required, fuel - 1)
  }

  /**
   * The rest of `schemaTable` once `schema` is known: composition keywords first, in the order
   * `anyOf`, `allOf`, `oneOf`, then `$ref`, then `switch (schema.type)`.
   */
  function BuildResolved(schemas: map<string, Json>, id: string, schema: Json, name: Option<Json>, required: set<Json>, fuel: nat): Result<Node, BuildError>
    decreases fuel, 3, 0
  {
    if IsTruthy(Member(schema, "anyOf")) then
      BuildCombination(schemas, id, AnyOf, Member(schema, "anyOf").value, name, fuel)
    else if IsTruthy(Member(schema, "allOf")) then
      BuildCombination(schemas, id, AllOf, Member(schema, "allOf").value, name, fuel)
    else if IsTruthy(Member(schema, "oneOf")) then
      BuildCombination(schemas, id, OneOf, Member(schema, "oneOf").value, name, fuel)
    else if IsTruthy(Member(schema, "$ref")) then
      Build(schemas, ToJsString(Member(schema, "$ref").value), Some(JStr("Reference")), None, fuel)
    else
      var kind := Member(schema, "type");
      if kind == Some(JStr("object")) || (kind.None? && IsTruthy(Member(schema, "properties"))) then
        BuildObject(schemas, schema, id, name, required, fuel)
      else if kind == Some(JStr("array")) || (kind.None? && IsTruthy(Member(schema, "items"))) then
        BuildArray(schemas, schema, id, name, required, fuel)
      else
        Success(Leaf(name, required, schema))
  }

  /** `combination(schemas, id + '/' + keyword, things, name, …)`. */
  function BuildCombination(schemas: map<string, Json>, id: string, kind: Combinator, things: Json, name: Option<Json>, fuel: nat): Result<Node, BuildError>
    decreases fuel, 2, 0
  {
    var base := Descend(id, kind.Keyword());
    match Resolve(schemas, base)
    case Failure(_) => Failure(BadUri(base))
    case Success(row) =>
      if !things.JArr? then Failure(CombinatorNotArray(base))
      else
        var alternatives :- BuildAlternatives(schemas, base, things.items, 0, fuel);
        Success(Combination(kind, name, row, alternatives))
  }

  /** `things.map(…)` from `i` on. */
  function BuildAlternatives(schemas: map<string, Json>, base: string, things: seq<Json>, i: nat, fuel: nat): Result<seq<Node>, BuildError>
    requires i <= |things|
    decreases fuel, 1, |things| - i
  {
    if i == |things| then Success([])
    else
      var alternative :- AlternativeSection(schemas, base, things[i], i, fuel);
      var rest :- BuildAlternatives(schemas, base, things, i + 1, fuel);
      Success([alternative] + rest)
  }

  /** The callback `(thing, i) => schemaTable(schemas, base + '/' + i, thing.title, null)`. */
  function AlternativeSection(schemas: map<string, Json>, base: string, thing: Json, i: nat, fuel: nat): Result<Node, BuildError>
    decreases fuel, 0, 1
  {
    if thing == JNull then Failure(NullAlternative(Descend(base, NatToString(i))))
    else Build(schemas, Descend(base, NatToString(i)), Member(thing, "title"), None, fuel)
  }

  /** `Object.entries(properties).map(…)` from `i` on. */
  function BuildProperties(schemas: map<string, Json>, id: string, entries: seq<(string, Json)>, i: nat, required: set<Json>, fuel: nat): Result<seq<Node>, BuildError>
    requires i <= |entries|
    decreases fuel, 1, |entries| - i
  {
    if i == |entries| then Success([])
    else
      var property :- PropertySection(schemas, id, entries[i].0, required, fuel);
      var rest :- BuildProperties(schemas, id, entries, i + 1, required, fuel);
      Success([property] + rest)
  }

  /** The callback `([name]) => schemaTable(schemas, id + '/properties/' + name, name, reqSet)`. */
  function PropertySection(schemas: map<string, Json>, id: string, key: string, required: set<Json>, fuel: nat): Result<Node, BuildError>
    decreases fuel, 0, 1
  {
    Build(schemas, Descend(Descend(id, "properties"), key), Some(JStr(key)), Some(required), fuel)
  }

  /** `objectTable(schemas, schema, id, name, reqSet)`. */
  function BuildObject(schemas: map<string, Json>, schema: Json, id: string, name: Option<Json>, required: set<Json>, fuel: nat): Result<Node, BuildError>
    decreases fuel, 2, 0
  {
    var properties := Member(schema, "properties");
    var additional := Member(schema, "additionalProperties");
    if IsTruthy(properties) then
      var sections :- BuildProperties(schemas, id, Entries(properties.value), 0, required, fuel);
      var body := sections + if additional == Some(JBool(true)) then [AdditionalInfo] else [];
      Success(if IsTruthy(name) then Obj(name, required, schema, body) else Group(body))
    else if IsTruthy(additional) then
      var section :- Build(schemas, Descend(id, "additionalProperties"), Some(JStr("additionalProperties")), Some(required), fuel);
      Success(if IsTruthy(name) then Obj(name, required, schema, [section]) else section)
    else
      Success(if IsTruthy(name) then Obj(name, required, schema, [Anything]) else Anything)
  }

  /** `renderArray()`: one section for `items`, named by `items.title`. */
  function BuildArray(schemas: map<string, Json>, schema: Json, id: string, name: Option<Json>, required: set<Json>, fuel: nat): Result<Node, BuildError>
    decreases fuel, 2, 0
  {
    var items := Member(schema, "items");
    if items.None? || items.value == JNull then Failure(NoItems(id))
    else
      var item :- Build(schemas, Descend(id, "items"), Member(items.value, "title"), Some(required), fuel);
      Success(Arr(name, required, schema, item))
  }

  /** `${id}/${seg}`: the id of member `seg` of what `id` names. */
  function Descend(id: string, seg: string): string {
    id + "/" + seg
  }

  /** The entry call `schemaTable(schemas, schemaId + '#', null, null)`. */
  function Render(schemas: map<string, Json>, schemaId: string, fuel: nat): Result<Node, BuildError> {
    Build(schemas, schemaId + "#", Some(JNull), None, fuel)
  }

  // ---------------------------------------------------------------------------------------
  // What one call builds
  // ---------------------------------------------------------------------------------------

  /** An id that does not resolve gives an `Unknown` section carrying that id, and nothing is built below it. */
  lemma UnknownReference(schemas: map<string, Json>, id: string, name: Option<Json>, inherited: Option<set<Json>>, fuel: nat)
    requires fuel > 0 && Resolve(schemas, id) == Success(None)
    ensures Build(schemas, id, name, inherited, fuel) == Success(Unknown(id))
  {
  }

  /**
   * The list of alternatives is built exactly when every element's section is: a single `null`
   * alternative or failing section fails the whole list.
   */
  lemma {:induction false} AlternativesSucceed(schemas: map<string, Json>, base: string, things: seq<Json>, i: nat, fuel: nat)
    requires i <= |things|
    ensures BuildAlternatives(schemas, base, things, i, fuel).Success? <==>
              forall j | i <= j < |things| :: AlternativeSection(schemas, base, things[j], j, fuel).Success?
    decreases |things| - i
  {
    if i < |things| {
      AlternativesSucceed(schemas, base, things, i + 1, fuel);
      var first := AlternativeSection(schemas, base, things[i], i, fuel);
      var rest := BuildAlternatives(schemas, base, things, i + 1, fuel);
      assert BuildAlternatives(schemas, base, things, i, fuel).Success? <==> first.Success? && rest.Success?;
    }
  }

  /** The alternatives that are built are one per element, in order. */
  lemma {:induction false} AlternativesInOrder(schemas: map<string, Json>, base: string, things: seq<Json>, i: nat, fuel: nat)
    requires i <= |things|
    requires BuildAlternatives(schemas, base, things, i, fuel).Success?
    ensures var ns := BuildAlternatives(schemas, base, things, i, fuel).value;
            && |ns| == |things| - i
            && forall j | i <= j < |things| :: AlternativeSection(schemas, base, things[j], j, fuel) == Success(ns[j - i])
    decreases |things| - i
  {
    if i < |things| {
      var first := AlternativeSection(schemas, base, things[i], i, fuel);
      var rest := BuildAlternatives(schemas, base, things, i + 1, fuel);
      assert first.Success? && rest.Success? &&
             BuildAlternatives(schemas, base, things, i, fuel).value == [first.value] + rest.value;
      AlternativesInOrder(schemas, base, things, i + 1, fuel);
      var ns := [first.value] + rest.value;
      assert forall k | 1 <= k < |ns| :: ns[k] == rest.value[k - 1];
    }
  }

  /** The list of properties is built exactly when every property's section is. */
  lemma {:induction false} PropertiesSucceed(schemas: map<string, Json>, id: string, entries: seq<(string, Json)>, i: nat, required: set<Json>, fuel: nat)
    requires i <= |entries|
    ensures BuildProperties(schemas, id, entries, i, required, fuel).Success? <==>
              forall j | i <= j < |entries| :: PropertySection(schemas, id, entries[j].0, required, fuel).Success?
    decreases |entries| - i
  {
    if i < |entries| {
      PropertiesSucceed(schemas, id, entries, i + 1, required, fuel);
      var first := PropertySection(schemas, id, entries[i].0, required, fuel);
      var rest := BuildProperties(schemas, id, entries, i + 1, required, fuel);
      assert BuildProperties(schemas, id, entries, i, required, fuel).Success? <==> first.Success? && rest.Success?;
    }
  }

  /** The properties that are built are one per entry, in declaration order. */
  lemma {:induction false} PropertiesInOrder(schemas: map<string, Json>, id: string, entries: seq<(string, Json)>, i: nat, required: set<Json>, fuel: nat)
    requires i <= |entries|
    requires BuildProperties(schemas, id, entries, i, required, fuel).Success?
    ensures var ns := BuildProperties(schemas, id, entries, i, required, fuel).value;
            && |ns| == |entries| - i
            && forall j | i <= j < |entries| :: PropertySection(schemas, id, entries[j].0, required, fuel) == Success(ns[j - i])
    decreases |entries| - i
  {
    if i < |entries| {
      var first := PropertySection(schemas, id, entries[i].0, required, fuel);
      var rest := BuildProperties(schemas, id, entries, i + 1, required, fuel);
      assert first.Success? && rest.Success? &&
             BuildProperties(schemas, id, entries, i, required, fuel).value == [first.value] + rest.value;
      PropertiesInOrder(schemas, id, entries, i + 1, required, fuel);
      var ns := [first.value] + rest.value;
      assert forall k | 1 <= k < |ns| :: ns[k] == rest.value[k - 1];
    }
  }

  /** A composition keyword holding anything but an array is a TypeError (`things.map`). */
  lemma CombinatorMustBeArray(schemas: map<string, Json>, id: string, kind: Combinator, things: Json, name: Option<Json>, fuel: nat)
    requires Resolve(schemas, Descend(id, kind.Keyword())).Success?
    requires !things.JArr?
    ensures BuildCombination(schemas, id, kind, things, name, fuel) == Failure(CombinatorNotArray(Descend(id, kind.Keyword())))
  {
  }

  /** A composition whose keyword holds an array fails exactly as its list of alternatives does. */
  lemma CombinationFails(schemas: map<string, Json>, id: string, kind: Combinator, things: seq<Json>, name: Option<Json>, fuel: nat)
    requires Resolve(schemas, Descend(id, kind.Keyword())).Success?
    ensures var alternatives := BuildAlternatives(schemas, Descend(id, kind.Keyword()), things, 0, fuel);
            BuildCombination(schemas, id, kind, JArr(things), name, fuel).Failure? <==> alternatives.Failure?
  {
  }

  /**
   * A composition whose alternatives are built is one section per alternative, in order,
   * under the row of `<id>/<keyword>`.
   */
  lemma CombinationSections(schemas: map<string, Json>, id: string, kind: Combinator, things: seq<Json>, name: Option<Json>, fuel: nat)
    requires Resolve(schemas, Descend(id, kind.Keyword())).Success?
    requires BuildAlternatives(schemas, Descend(id, kind.Keyword()), things, 0, fuel).Success?
    ensures var base := Descend(id, kind.Keyword());
            var alternatives := BuildAlternatives(schemas, base, things, 0, fuel).value;
            && BuildCombination(schemas, id, kind, JArr(things), name, fuel) ==
                 Success(Combination(kind, name, Resolve(schemas, base).value, alternatives))
            && |alternatives| == |things|
            && forall j | 0 <= j < |things| :: AlternativeSection(schemas, base, things[j], j, fuel) == Success(alternatives[j])
  {
    CombinationValue(schemas, id, kind, things, name, fuel);
    AllAlternativesInOrder(schemas, Descend(id, kind.Keyword()), things, fuel);
  }

  lemma AllAlternativesInOrder(schemas: map<string, Json>, base: string, things: seq<Json>, fuel: nat)
    requires BuildAlternatives(schemas, base, things, 0, fuel).Success?
    ensures var alternatives := BuildAlternatives(schemas, base, things, 0, fuel).value;
            && |alternatives| == |things|
            && forall j | 0 <= j < |things| :: AlternativeSection(schemas, base, things[j], j, fuel) == Success(alternatives[j])
  {
    AlternativesInOrder(schemas, base, things, 0, fuel);
    var alternatives := BuildAlternatives(schemas, base, things, 0, fuel).value;
    forall j | 0 <= j < |things|
      ensures AlternativeSection(schemas, base, things[j], j, fuel) == Success(alternatives[j])
    {
      assert j - 0 == j;
    }
  }

  lemma CombinationValue(schemas: map<string, Json>, id: string, kind: Combinator, things: seq<Json>, name: Option<Json>, fuel: nat)
    requires Resolve(schemas, Descend(id, kind.Keyword())).Success?
    requires BuildAlternatives(schemas, Descend(id, kind.Keyword()), things, 0, fuel).Success?
    ensures var base := Descend(id, kind.Keyword());
            BuildCombination(schemas, id, kind, JArr(things), name, fuel) ==
              Success(Combination(kind, name, Resolve(schemas, base).value, BuildAlternatives(schemas, base, things, 0, fuel).value))
  {
  }

  /**
   * An object with properties: one section per property in declaration order, then exactly one
   * informational section when `additionalProperties === true`; wrapped in an `Obj` section
   * exactly when the name is truthy, returned bare otherwise.
   */
  lemma ObjectWithProperties(schemas: map<string, Json>, schema: Json, id: string, name: Option<Json>, required: set<Json>, fuel: nat)
    requires IsTruthy(Member(schema, "properties"))
    requires BuildObject(schemas, schema, id, name, required, fuel).Success?
    ensures var entries := Entries(Member(schema, "properties").value);
            var extra := Member(schema, "additionalProperties") == Some(JBool(true));
            var n := BuildObject(schemas, schema, id, name, required, fuel).value;
            && (IsTruthy(name) ==> n == Obj(name, required, schema, n.body))
            && (!IsTruthy(name) ==> n.Group?)
            && var sections := if IsTruthy(name) then n.body else n.sections;
               && |sections| == |entries| + (if extra then 1 else 0)
               && (forall j | 0 <= j < |entries| ::
                     PropertySection(schemas, id, entries[j].0, required, fuel) == Success(sections[j]))
               && (extra ==> sections[|entries|] == AdditionalInfo)
  {
    var entries := Entries(Member(schema, "properties").value);
    assert BuildProperties(schemas, id, entries, 0, required, fuel).Success?;
    PropertiesInOrder(schemas, id, entries, 0, required, fuel);
  }

  /**
   * An object without properties: the `additionalProperties` schema as its one section when
   * that is truthy, an "anything" section otherwise; wrapped exactly when the name is truthy.
   */
  lemma ObjectWithoutProperties(schemas: map<string, Json>, schema: Json, id: string, name: Option<Json>, required: set<Json>, fuel: nat)
    requires !IsTruthy(Member(schema, "properties"))
    ensures var additional := Member(schema, "additionalProperties");
            var section :=
              if IsTruthy(additional) then
                Build(schemas, Descend(id, "additionalProperties"), Some(JStr("additionalProperties")), Some(required), fuel)
              else Success(Anything);
            BuildObject(schemas, schema, id, name, required, fuel) ==
              if section.Failure? then Failure(section.error)
              else if IsTruthy(name) then Success(Obj(name, required, schema, [section.value]))
              else Success(section.value)
  {
  }

  /**
   * First match among the composition keywords: the first truthy one of `anyOf`, `allOf`,
   * `oneOf` decides the section, whatever the other two, `$ref` or `type` say.
   */
  lemma CompositionFirst(schemas: map<string, Json>, id: string, v: Json, name: Option<Json>, required: set<Json>, fuel: nat)
    requires IsTruthy(Member(v, "anyOf")) || IsTruthy(Member(v, "allOf")) || IsTruthy(Member(v, "oneOf"))
    ensures var first := if IsTruthy(Member(v, "anyOf")) then AnyOf
                         else if IsTruthy(Member(v, "allOf")) then AllOf
                         else OneOf;
            && IsTruthy(Member(v, first.Keyword()))
            && BuildResolved(schemas, id, v, name, required, fuel) ==
                 BuildCombination(schemas, id, first, Member(v, first.Keyword()).value, name, fuel)
  {
  }

  /**
   * Without a composition keyword, a truthy `$ref` is followed: the section is the one built
   * for the reference text used verbatim as an id, named `"Reference"`, with no inherited set.
   */
  lemma ReferenceFollowed(schemas: map<string, Json>, id: string, v: Json, name: Option<Json>, required: set<Json>, fuel: nat)
    requires !IsTruthy(Member(v, "anyOf")) && !IsTruthy(Member(v, "allOf")) && !IsTruthy(Member(v, "oneOf"))
    requires IsTruthy(Member(v, "$ref"))
    ensures BuildResolved(schemas, id, v, name, required, fuel) ==
              Build(schemas, ToJsString(Member(v, "$ref").value), Some(JStr("Reference")), None, fuel)
  {
  }

  /**
   * Without composition or `$ref`, `type` decides: `"object"` and `"array"` win over the
   * shape, any other present `type` is a leaf even with `properties` or `items`, and only an
   * absent `type` looks at `properties` first, then `items`.
   */
  lemma TypeDispatch(schemas: map<string, Json>, id: string, v: Json, name: Option<Json>, required: set<Json>, fuel: nat)
    requires !IsTruthy(Member(v, "anyOf")) && !IsTruthy(Member(v, "allOf")) && !IsTruthy(Member(v, "oneOf"))
    requires !IsTruthy(Member(v, "$ref"))
    ensures var kind := Member(v, "type");
            var r := BuildResolved(schemas, id, v, name, required, fuel);
            && (kind == Some(JStr("object")) ==> r == BuildObject(schemas, v, id, name, required, fuel))
            && (kind == Some(JStr("array")) ==> r == BuildArray(schemas, v, id, name, required, fuel))
            && (kind.Some? && kind != Some(JStr("object")) && kind != Some(JStr("array")) ==>
                  r == Success(Leaf(name, required, v)))
            && (kind.None? && IsTruthy(Member(v, "properties")) ==> r == BuildObject(schemas, v, id, name, required, fuel))
            && (kind.None? && !IsTruthy(Member(v, "properties")) && IsTruthy(Member(v, "items")) ==>
                  r == BuildArray(schemas, v, id, name, required, fuel))
            && (kind.None? && !IsTruthy(Member(v, "properties")) && !IsTruthy(Member(v, "items")) ==>
                  r == Success(Leaf(name, required, v)))
  {
  }

  /**
   * An array is one `Arr` section holding exactly the section of `<id>/items`, named by
   * `items.title` and given the active required set; `items` absent or `null` is a TypeError.
   */
  lemma ArraySection(schemas: map<string, Json>, v: Json, id: string, name: Option<Json>, required: set<Json>, fuel: nat)
    ensures var items := Member(v, "items");
            var r := BuildArray(schemas, v, id, name, required, fuel);
            && (items.None? || items.value == JNull ==> r == Failure(NoItems(id)))
            && (items.Some? && items.value != JNull ==>
                  var item := Build(schemas, Descend(id, "items"), Member(items.value, "title"), Some(required), fuel);
                  && (item.Failure? ==> r == Failure(item.error))
                  && (item.Success? ==> r == Success(Arr(name, required, v, item.value))))
  {
  }

  /**
   * Composition and references discard the required set: whatever set is in force, a schema
   * with a truthy `anyOf`, `allOf`, `oneOf` or `$ref` builds the same section.
   */
  lemma ResolvedIgnoresRequired(schemas: map<string, Json>, id: string, schema: Json, name: Option<Json>, required1: set<Json>, required2: set<Json>, fuel: nat)
    requires IsTruthy(Member(schema, "anyOf")) || IsTruthy(Member(schema, "allOf")) ||
             IsTruthy(Member(schema, "oneOf")) || IsTruthy(Member(schema, "$ref"))
    ensures BuildResolved(schemas, id, schema, name, required1, fuel) == BuildResolved(schemas, id, schema, name, required2, fuel)
  {
  }

  /**
   * So the set a parent passes down never reaches the sections under a composition or a
   * reference: only the schema's own `required` could, and `$ref` and alternatives pass none.
   */
  lemma RequiredNotPassedThroughReferences(schemas: map<string, Json>, id: string, name: Option<Json>, inherited1: Option<set<Json>>, inherited2: Option<set<Json>>, fuel: nat)
    requires fuel > 0 && Resolve(schemas, id).Success? && Resolve(schemas, id).value.Some?
    requires var v := Resolve(schemas, id).value.value;
             IsTruthy(Member(v, "anyOf")) || IsTruthy(Member(v, "allOf")) || IsTruthy(Member(v, "oneOf")) ||
             IsTruthy(Member(v, "$ref"))
    ensures Build(schemas, id, name, inherited1, fuel) == Build(schemas, id, name, inherited2, fuel)
  {
    var v := Resolve(schemas, id).value.value;
    var r1 := ActiveRequired(v, inherited1, id);
    var r2 := ActiveRequired(v, inherited2, id);
    if r1.Success? && r2.Success? {
      ResolvedIgnoresRequired(schemas, id, v, name, r1.value, r2.value, fuel - 1);
    }
  }

  /** The entry id `<schemaId>#` of a `#`-free document id names that whole document. */
  lemma EntryId(schemaId: string)
    requires '#' !in schemaId
    ensures PointerId(schemaId + "#") && SplitId(schemaId + "#") == (schemaId, "")
  {
    SplitAfterFirst(schemaId, '#', "");
    assert schemaId + "#" == schemaId + ['#'] + "";
  }

  /**
   * Taken alone, the entry call renders an unregistered document id as one `Unknown` section
   * for `<schemaId>#`; `render()` itself throws before reaching it.
   */
  lemma RenderUnknownDocument(schemas: map<string, Json>, schemaId: string, fuel: nat)
    requires fuel > 0 && '#' !in schemaId && schemaId !in schemas
    ensures Render(schemas, schemaId, fuel) == Success(Unknown(schemaId + "#"))
  {
    EntryId(schemaId);
  }

  /**
   * A registered document renders from its whole self, with the name `null` and only the
   * document's own `required` in force.
   */
  lemma RenderWholeDocument(schemas: map<string, Json>, schemaId: string, fuel: nat)
    requires fuel > 0 && '#' !in schemaId && schemaId in schemas && Truthy(schemas[schemaId])
    ensures var doc := schemas[schemaId];
            var required := ActiveRequired(doc, None, schemaId + "#");
            && (required.Failure? ==> Render(schemas, schemaId, fuel) == Failure(required.error))
            && (required.Success? ==>
                  Render(schemas, schemaId, fuel) ==
                    BuildResolved(schemas, schemaId + "#", doc, Some(JNull), required.value, fuel - 1))
  {
    EntryId(schemaId);
    ResolveWholeDocument(schemas, schemaId);
  }

  // ---------------------------------------------------------------------------------------
  // Child ids find the children
  // ---------------------------------------------------------------------------------------

  /** `ResolveDescend` for the ids the builder makes with `Descend`. */
  lemma DescendTo(schemas: map<string, Json>, id: string, seg: string)
    requires PointerId(id) && PlainSegment(seg)
    requires seg != "" || Split(id, '#')[1] != ""
    requires Resolve(schemas, id).Success? && Resolve(schemas, id).value.Some?
    ensures PointerId(Descend(id, seg)) && Split(Descend(id, seg), '#')[1] != ""
    ensures var v := Resolve(schemas, id).value.value;
            Resolve(schemas, Descend(id, seg)) ==
              if IsTruthy(Member(v, seg)) then Success(Some(Member(v, seg).value)) else Success(None)
  {
    ResolveDescend(schemas, id, seg);
  }

  /**
   * For a property name with no `/`, `~`, `%` or `#`, the id the builder makes for it,
   * `<id>/properties/<name>`, resolves to exactly that property of the schema `<id>` resolves to.
   */
  lemma PropertyIdResolves(schemas: map<string, Json>, id: string, key: string)
    requires PointerId(id) && PlainSegment(key)
    requires Resolve(schemas, id).Success? && Resolve(schemas, id).value.Some?
    requires IsTruthy(Member(Resolve(schemas, id).value.value, "properties"))
    ensures var properties := Member(Resolve(schemas, id).value.value, "properties").value;
            Resolve(schemas, Descend(Descend(id, "properties"), key)) ==
              if IsTruthy(Member(properties, key)) then Success(Some(Member(properties, key).value)) else Success(None)
  {
    DescendTo(schemas, id, "properties");
    DescendTo(schemas, Descend(id, "properties"), key);
  }

  /** The numeral of an index is a plain pointer segment. */
  lemma NumeralIsPlain(n: nat)
    ensures PlainSegment(NatToString(n))
  {
    var s := NatToString(n);
    forall c | c in s ensures c != '/' && c != '~' && c != '%' && c != '#' {
      var k :| 0 <= k < |s| && s[k] == c;
      assert IsDigit(s[k]);
    }
  }

  /** Alternative `i` of a composition, `<id>/<keyword>/<i>`, resolves to element `i` of it. */
  lemma AlternativeIdResolves(schemas: map<string, Json>, id: string, kind: Combinator, i: nat)
    requires PointerId(id)
    requires Resolve(schemas, id).Success? && Resolve(schemas, id).value.Some?
    requires var things := Member(Resolve(schemas, id).value.value, kind.Keyword());
             IsTruthy(things) && things.value.JArr? && i < |things.value.items|
    ensures var alternative := Member(Resolve(schemas, id).value.value, kind.Keyword()).value.items[i];
            Resolve(schemas, Descend(Descend(id, kind.Keyword()), NatToString(i))) ==
              if Truthy(alternative) then Success(Some(alternative)) else Success(None)
  {
    var base := Descend(id, kind.Keyword());
    var v := Resolve(schemas, id).value.value;
    DescendTo(schemas, id, kind.Keyword());
    NumeralIsPlain(i);
    DescendTo(schemas, base, NatToString(i));
    ArrayIndexOfNatToString(i);
  }

  // ---------------------------------------------------------------------------------------
  // Fuel: without `$ref`, the nesting depth is enough
  // ---------------------------------------------------------------------------------------

  /** No object inside `v` has a truthy `$ref`, and every member name is a plain pointer segment. */
  predicate Tame(v: Json) {
    match v
    case JArr(xs) => forall i | 0 <= i < |xs| :: Tame(xs[i])
    case JObj(ms) =>
      && !IsTruthy(Lookup(ms, "$ref"))
      && forall i | 0 <= i < |ms| :: PlainSegment(ms[i].0) && Tame(ms[i].1)
    case _ => true
  }

  /** No `OutOfFuel` marker anywhere in the tree. */
  predicate Complete(n: Node) {
    match n
    case OutOfFuel(_) => false
    case Combination(_, _, _, ns) => AllComplete(ns)
    case Obj(_, _, _, ns) => AllComplete(ns)
    case Group(ns) => AllComplete(ns)
    case Arr(_, _, _, item) => Complete(item)
    case _ => true
  }

  predicate AllComplete(ns: seq<Node>)
    decreases ns, 0
  {
    forall i | 0 <= i < |ns| :: Complete(ns[i])
  }

  lemma AllCompleteAppend(a: seq<Node>, b: seq<Node>)
    requires AllComplete(a) && AllComplete(b)
    ensures AllComplete(a + b)
  {
    assert forall i | |a| <= i < |a + b| :: (a + b)[i] == b[i - |a|];
  }

  lemma TameMember(v: Json, key: string)
    requires Tame(v) && Member(v, key).Some?
    ensures Tame(Member(v, key).value)
  {
    if v.JObj? {
      LookupFirst(v.members, key);
      var i :| 0 <= i < |v.members| && v.members[i] == (key, Member(v, key).value);
    }
  }

  lemma TameHasNoReference(v: Json)
    requires Tame(v)
    ensures !IsTruthy(Member(v, "$ref"))
  {
    if v.JArr? {
      assert !IsDigit("$ref"[0]);
    }
  }

  /** Every key `Object.entries` gives can be looked up again, and is plain in a tame value. */
  lemma EntryFound(p: Json, j: nat)
    requires j < |Entries(p)|
    ensures Member(p, Entries(p)[j].0).Some?
    ensures p.JArr? ==> Member(p, Entries(p)[j].0) == Some(Entries(p)[j].1)
    ensures Tame(p) ==> PlainSegment(Entries(p)[j].0)
  {
    if p.JArr? {
      ArrayIndexOfNatToString(j);
      NumeralIsPlain(j);
    } else {
      assert p.JObj? && p.members[j].0 == Entries(p)[j].0;
      LookupFirst(p.members, p.members[j].0);
    }
  }

  /**
   * Building from `id` with `fuel` stays within the fuel: `id` is a pointer id that resolves,
   * and what it resolves to is tame and no deeper than `fuel`.
   */
  predicate Fits(schemas: map<string, Json>, id: string, fuel: nat) {
    && PointerId(id) && fuel >= 1 && Resolve(schemas, id).Success?
    && (Resolve(schemas, id).value.Some? ==>
          Tame(Resolve(schemas, id).value.value) && fuel >= Depth(Resolve(schemas, id).value.value))
  }

  /** `id` resolves to the tame value `v`, which is at most one deeper than `fuel`. */
  predicate FitsAt(schemas: map<string, Json>, id: string, v: Json, fuel: nat) {
    PointerId(id) && Resolve(schemas, id) == Success(Some(v)) && Tame(v) && fuel + 1 >= Depth(v)
  }

  /** The keywords the builder descends through are plain pointer segments. */
  lemma PropertiesIsPlain()
    ensures PlainSegment("properties")
  {
  }

  lemma AdditionalPropertiesIsPlain()
    ensures PlainSegment("additionalProperties")
  {
  }

  lemma ItemsIsPlain()
    ensures PlainSegment("items")
  {
  }

  lemma KeywordIsPlain(kind: Combinator)
    ensures PlainSegment(kind.Keyword())
  {
  }

  /** The child id `<id>/<seg>` of a member that exists fits the fuel left for it. */
  lemma ChildFits(schemas: map<string, Json>, id: string, v: Json, seg: string, fuel: nat)
    requires FitsAt(schemas, id, v, fuel)
    requires PlainSegment(seg) && (seg != "" || Split(id, '#')[1] != "")
    requires Member(v, seg).Some?
    ensures Fits(schemas, Descend(id, seg), fuel) && Split(Descend(id, seg), '#')[1] != ""
    ensures IsTruthy(Member(v, seg)) ==> FitsAt(schemas, Descend(id, seg), Member(v, seg).value, fuel)
  {
    DescendTo(schemas, id, seg);
    MemberIsShallower(v, seg);
    TameMember(v, seg);
  }

  /**
   * With no `$ref` reachable and plain member names, fuel equal to the nesting depth of the
   * schema an id resolves to is enough: the tree has no `OutOfFuel` marker.
   */
  lemma {:induction false} EnoughFuel(schemas: map<string, Json>, id: string, name: Option<Json>, inherited: Option<set<Json>>, fuel: nat)
    requires Fits(schemas, id, fuel)
    ensures Build(schemas, id, name, inherited, fuel).Success? ==> Complete(Build(schemas, id, name, inherited, fuel).value)
    decreases fuel, 0, 0
  {
    if Resolve(schemas, id).value.Some? {
      var v := Resolve(schemas, id).value.value;
      var required := ActiveRequired(v, inherited, id);
      if required.Success? {
        EnoughFuelResolved(schemas, id, v, name, required.value, fuel - 1);
      }
    }
  }

  lemma {:induction false} EnoughFuelResolved(schemas: map<string, Json>, id: string, v: Json, name: Option<Json>, required: set<Json>, fuel: nat)
    requires FitsAt(schemas, id, v, fuel)
    ensures var r := BuildResolved(schemas, id, v, name, required, fuel);
            r.Success? ==> Complete(r.value)
    decreases fuel, 3, 0
  {
    TameHasNoReference(v);
    var kind := Member(v, "type");
    if IsTruthy(Member(v, "anyOf")) {
      EnoughFuelCombination(schemas, id, AnyOf, v, name, fuel);
    } else if IsTruthy(Member(v, "allOf")) {
      EnoughFuelCombination(schemas, id, AllOf, v, name, fuel);
    } else if IsTruthy(Member(v, "oneOf")) {
      EnoughFuelCombination(schemas, id, OneOf, v, name, fuel);
    } else if kind == Some(JStr("object")) || (kind.None? && IsTruthy(Member(v, "properties"))) {
      EnoughFuelObject(schemas, v, id, name, required, fuel);
    } else if kind == Some(JStr("array")) || (kind.None? && IsTruthy(Member(v, "items"))) {
      EnoughFuelArray(schemas, v, id, name, required, fuel);
    }
  }

  lemma {:induction false} EnoughFuelCombination(schemas: map<string, Json>, id: string, kind: Combinator, v: Json, name: Option<Json>, fuel: nat)
    requires FitsAt(schemas, id, v, fuel) && IsTruthy(Member(v, kind.Keyword()))
    ensures var r := BuildCombination(schemas, id, kind, Member(v, kind.Keyword()).value, name, fuel);
            r.Success? ==> Complete(r.value)
    decreases fuel, 2, 0
  {
    var things := Member(v, kind.Keyword()).value;
    var base := Descend(id, kind.Keyword());
    if things.JArr? {
      KeywordIsPlain(kind);
      ChildFits(schemas, id, v, kind.Keyword(), fuel);
      EnoughFuelAlternatives(schemas, base, things.items, 0, fuel);
    }
  }

  lemma {:induction false} EnoughFuelAlternatives(schemas: map<string, Json>, base: string, things: seq<Json>, i: nat, fuel: nat)
    requires FitsAt(schemas, base, JArr(things), fuel) && Split(base, '#')[1] != "" && i <= |things|
    ensures var r := BuildAlternatives(schemas, base, things, i, fuel);
            r.Success? ==> AllComplete(r.value)
    decreases fuel, 1, |things| - i
  {
    if i < |things| {
      var alternative := AlternativeSection(schemas, base, things[i], i, fuel);
      var rest := BuildAlternatives(schemas, base, things, i + 1, fuel);
      if things[i] != JNull {
        var child := Descend(base, NatToString(i));
        NumeralIsPlain(i);
        ArrayIndexOfNatToString(i);
        ChildFits(schemas, base, JArr(things), NatToString(i), fuel);
        EnoughFuel(schemas, child, Member(things[i], "title"), None, fuel);
      }
      EnoughFuelAlternatives(schemas, base, things, i + 1, fuel);
      if alternative.Success? && rest.Success? {
        AllCompleteAppend([alternative.value], rest.value);
      }
    }
  }

  lemma {:induction false} EnoughFuelObject(schemas: map<string, Json>, v: Json, id: string, name: Option<Json>, required: set<Json>, fuel: nat)
    requires FitsAt(schemas, id, v, fuel)
    ensures var r := BuildObject(schemas, v, id, name, required, fuel);
            r.Success? ==> Complete(r.value)
    decreases fuel, 2, 0
  {
    if IsTruthy(Member(v, "properties")) {
      EnoughFuelObjectProperties(schemas, v, id, name, required, fuel);
    } else if IsTruthy(Member(v, "additionalProperties")) {
      AdditionalPropertiesIsPlain();
      ChildFits(schemas, id, v, "additionalProperties", fuel);
      EnoughFuelObjectAdditional(schemas, v, id, name, required, fuel);
    }
  }

  lemma {:induction false} EnoughFuelObjectProperties(schemas: map<string, Json>, v: Json, id: string, name: Option<Json>, required: set<Json>, fuel: nat)
    requires FitsAt(schemas, id, v, fuel) && IsTruthy(Member(v, "properties"))
    ensures var r := BuildObject(schemas, v, id, name, required, fuel);
            r.Success? ==> Complete(r.value)
    decreases fuel, 1, |Entries(Member(v, "properties").value)| + 1
  {
    var properties := Member(v, "properties").value;
    var sections := BuildProperties(schemas, id, Entries(properties), 0, required, fuel);
    assert sections.Success? ==> AllComplete(sections.value) by {
      PropertiesIsPlain();
      ChildFits(schemas, id, v, "properties", fuel);
      EnoughFuelProperties(schemas, id, properties, 0, required, fuel);
    }
    if BuildObject(schemas, v, id, name, required, fuel).Success? {
      ObjectPropertiesBody(schemas, v, id, name, required, fuel);
      var extra := if Member(v, "additionalProperties") == Some(JBool(true)) then [AdditionalInfo] else [];
      assert AllComplete(extra);
      AllCompleteAppend(sections.value, extra);
    }
  }

  /** The properties branch of `objectTable`: the property sections and the note, wrapped or bare. */
  lemma ObjectPropertiesBody(schemas: map<string, Json>, v: Json, id: string, name: Option<Json>, required: set<Json>, fuel: nat)
    requires IsTruthy(Member(v, "properties")) && BuildObject(schemas, v, id, name, required, fuel).Success?
    ensures var sections := BuildProperties(schemas, id, Entries(Member(v, "properties").value), 0, required, fuel);
            && sections.Success?
            && var body := sections.value + if Member(v, "additionalProperties") == Some(JBool(true)) then [AdditionalInfo] else [];
               BuildObject(schemas, v, id, name, required, fuel).value ==
                 if IsTruthy(name) then Obj(name, required, v, body) else Group(body)
  {
  }

  lemma {:induction false} EnoughFuelObjectAdditional(schemas: map<string, Json>, v: Json, id: string, name: Option<Json>, required: set<Json>, fuel: nat)
    requires !IsTruthy(Member(v, "properties")) && IsTruthy(Member(v, "additionalProperties"))
    requires Fits(schemas, Descend(id, "additionalProperties"), fuel)
    ensures var r := BuildObject(schemas, v, id, name, required, fuel);
            r.Success? ==> Complete(r.value)
    decreases fuel, 1, 0
  {
    EnoughFuel(schemas, Descend(id, "additionalProperties"), Some(JStr("additionalProperties")), Some(required), fuel);
  }

  lemma {:induction false} EnoughFuelProperties(schemas: map<string, Json>, id: string, p: Json, i: nat, required: set<Json>, fuel: nat)
    requires FitsAt(schemas, Descend(id, "properties"), p, fuel) && Split(Descend(id, "properties"), '#')[1] != ""
    requires i <= |Entries(p)|
    ensures var r := BuildProperties(schemas, id, Entries(p), i, required, fuel);
            r.Success? ==> AllComplete(r.value)
    decreases fuel, 1, |Entries(p)| - i
  {
    if i < |Entries(p)| {
      var key := Entries(p)[i].0;
      var child := Descend(Descend(id, "properties"), key);
      var property := PropertySection(schemas, id, key, required, fuel);
      var rest := BuildProperties(schemas, id, Entries(p), i + 1, required, fuel);
      EntryFound(p, i);
      ChildFits(schemas, Descend(id, "properties"), p, key, fuel);
      EnoughFuel(schemas, child, Some(JStr(key)), Some(required), fuel);
      EnoughFuelProperties(schemas, id, p, i + 1, required, fuel);
      if property.Success? && rest.Success? {
        AllCompleteAppend([property.value], rest.value);
      }
    }
  }

  lemma {:induction false} EnoughFuelArray(schemas: map<string, Json>, v: Json, id: string, name: Option<Json>, required: set<Json>, fuel: nat)
    requires FitsAt(schemas, id, v, fuel)
    ensures var r := BuildArray(schemas, v, id, name, required, fuel);
            r.Success? ==> Complete(r.value)
    decreases fuel, 2, 0
  {
    var items := Member(v, "items");
    if items.Some? && items.value != JNull {
      ItemsIsPlain();
      ChildFits(schemas, id, v, "items", fuel);
      EnoughFuel(schemas, Descend(id, "items"), Member(items.value, "title"), Some(required), fuel);
    }
  }

  /**
   * The entry call: a registered document with no reachable `$ref` and plain member names is
   * rendered in full by fuel equal to its nesting depth.
   */
  lemma RenderComplete(schemas: map<string, Json>, schemaId: string, fuel: nat)
    requires '#' !in schemaId && schemaId in schemas && Truthy(schemas[schemaId])
    requires Tame(schemas[schemaId]) && fuel >= Depth(schemas[schemaId])
    ensures Render(schemas, schemaId, fuel).Success? ==> Complete(Render(schemas, schemaId, fuel).value)
  {
    EntryId(schemaId);
    ResolveWholeDocument(schemas, schemaId);
    EnoughFuel(schemas, schemaId + "#", Some(JNull), None, fuel);
  }

  // ---------------------------------------------------------------------------------------
  // A property name with `#`: no `$ref`, and still no end
  // ---------------------------------------------------------------------------------------

  /** `{properties: {b: {}}}`. */
  const Looping: Json := JObj([("properties", JObj([("b", JObj([]))]))])

  /** `{properties: {"a#x": {}, a: Looping}}`: no `$ref` anywhere, but one name holds a `#`. */
  const HashDocument: Json := JObj([("properties", JObj(HashProperties))])

  /** The registry holding `HashDocument` as `doc`. */
  const HashRegistry: map<string, Json> := map["doc" := HashDocument]

  /** What follows the second `#` of the `k`-th id: `x`, then `k` times `/properties/b`. */
  function HashTail(k: nat): (t: string)
    ensures '#' !in t
  {
    if k == 0 then "x" else HashTail(k - 1) + "/properties/b"
  }

  /** `doc#/properties/a`, the id of property `a`. */
  function PropertyAId(): string {
    Descend(Descend("doc#", "properties"), "a")
  }

  /** The id the builder reaches `k` levels below property `a#x`, written as index.js:30 writes it. */
  function HashId(k: nat): string {
    PropertyAId() + ['#'] + HashTail(k)
  }

  /** Every `HashId(k)` has the document path and fragment of `PropertyAId()`. */
  lemma HashIdSplit(k: nat)
    ensures SplitId(HashId(k)) == SplitId(PropertyAId())
  {
    var tail := HashTail(k);
    var fragment := "/" + "properties" + "/" + "a";
    assert PropertyAId() == "doc" + ['#'] + fragment;
    assert '#' !in fragment;
    assert Split(HashId(k), '#') == ["doc", fragment, tail] by {
      assert HashId(k) == "doc" + ['#'] + (fragment + ['#'] + tail);
      SplitAfterFirst("doc", '#', fragment + ['#'] + tail);
      SplitAfterFirst(fragment, '#', tail);
      SplitOfPlain(tail, '#');
    }
    assert Split(PropertyAId(), '#') == ["doc", fragment] by {
      SplitAfterFirst("doc", '#', fragment);
      SplitOfPlain(fragment, '#');
    }
  }

  /** The members of `HashDocument`'s `properties`. */
  const HashProperties: seq<(string, Json)> := [("a#x", JObj([])), ("a", Looping)]

  /** `doc#` names the whole of `HashDocument`. */
  lemma DocResolves()
    ensures PointerId("doc#") && Resolve(HashRegistry, "doc#") == Success(Some(HashDocument))
  {
    assert "doc#" == "doc" + ['#'] + "";
    SplitAfterFirst("doc", '#', "");
    ResolveWholeDocument(HashRegistry, "doc");
    assert "doc" + "#" == "doc#";
  }

  /** `HashDocument`'s only member is `properties`. */
  lemma HashDocumentProperties()
    ensures Member(HashDocument, "properties") == Some(JObj(HashProperties)) && IsTruthy(Some(JObj(HashProperties)))
  {
    assert HashDocument.members[0].0 == "properties";
  }

  /** `doc#/properties` names the `properties` object of `HashDocument`. */
  lemma PropertiesResolve()
    ensures var id := Descend("doc#", "properties");
            PointerId(id) && Split(id, '#')[1] != "" &&
            Resolve(HashRegistry, id) == Success(Some(JObj(HashProperties)))
  {
    DocResolves();
    HashDocumentProperties();
    DescendTo(HashRegistry, "doc#", "properties");
  }

  /** Member `a` of `HashDocument`'s `properties` is `Looping`: `a#x` before it is another name. */
  lemma HashPropertyA()
    ensures Member(JObj(HashProperties), "a") == Some(Looping) && IsTruthy(Some(Looping))
  {
    var rest := HashProperties[1..];
    assert |HashProperties[0].0| != |"a"|;
    assert rest[0] == HashProperties[1];
    assert Lookup(rest, "a") == Some(Looping);
  }

  /** `doc#/properties/a` names `Looping`. */
  lemma PropertyAResolves()
    ensures Resolve(HashRegistry, PropertyAId()) == Success(Some(Looping))
  {
    PropertiesResolve();
    HashPropertyA();
    DescendTo(HashRegistry, Descend("doc#", "properties"), "a");
  }

  /** The fragment `getSchema` keeps from every `HashId(k)` is `/properties/a`, whose value is `Looping`. */
  lemma HashIdResolves(k: nat)
    ensures Resolve(HashRegistry, HashId(k)) == Success(Some(Looping))
  {
    HashIdSplit(k);
    PropertyAResolves();
  }

  /** One level below `HashId(k)` is `HashId(k + 1)`. */
  lemma HashIdStep(k: nat)
    ensures Descend(Descend(HashId(k), "properties"), "b") == HashId(k + 1)
  {
    assert HashTail(k + 1) == HashTail(k) + "/properties/b";
    assert "/" + "properties" + "/" + "b" == "/properties/b";
  }

  /** The sections of a single property are that property's section alone. */
  lemma LoneProperty(schemas: map<string, Json>, id: string, key: string, v: Json, required: set<Json>, fuel: nat)
    requires PropertySection(schemas, id, key, required, fuel).Success?
    ensures BuildProperties(schemas, id, [(key, v)], 0, required, fuel) ==
              Success([PropertySection(schemas, id, key, required, fuel).value])
  {
    var entries := [(key, v)];
    var section := PropertySection(schemas, id, entries[0].0, required, fuel);
    var rest := BuildProperties(schemas, id, entries, 0 + 1, required, fuel);
    assert rest == Success([]);
    assert section == PropertySection(schemas, id, key, required, fuel);
    assert BuildProperties(schemas, id, entries, 0, required, fuel) == Success([section.value] + rest.value);
    assert [section.value] + rest.value == [section.value];
  }

  /** `Looping` has only `properties`, whose only member is `b`. */
  lemma LoopingMembers()
    ensures Member(Looping, "anyOf").None? && Member(Looping, "allOf").None? && Member(Looping, "oneOf").None?
    ensures Member(Looping, "$ref").None? && Member(Looping, "type").None? && Member(Looping, "required").None?
    ensures Member(Looping, "additionalProperties").None?
    ensures Member(Looping, "properties") == Some(JObj([("b", JObj([]))]))
    ensures IsTruthy(Member(Looping, "properties"))
  {
    var ms := Looping.members;
    assert |ms| == 1 && ms[0].0 == "properties" && ms[1..] == [];
    assert |"properties"| == 10;
  }

  /** Building from an id that names `Looping`: the section of its one property, wrapped or bare. */
  lemma LoopingLevel(schemas: map<string, Json>, id: string, childId: string, name: Option<Json>, inherited: Option<set<Json>>, fuel: nat)
    requires fuel > 0 && Resolve(schemas, id) == Success(Some(Looping))
    requires childId == Descend(Descend(id, "properties"), "b")
    requires var required := if inherited.Some? then inherited.value else {};
             Build(schemas, childId, Some(JStr("b")), Some(required), fuel - 1).Success?
    ensures var required := if inherited.Some? then inherited.value else {};
            var child := Build(schemas, childId, Some(JStr("b")), Some(required), fuel - 1).value;
            Build(schemas, id, name, inherited, fuel) ==
              Success(if IsTruthy(name) then Obj(name, required, Looping, [child]) else Group([child]))
  {
    var required := if inherited.Some? then inherited.value else {};
    var child := Build(schemas, childId, Some(JStr("b")), Some(required), fuel - 1);
    var node := if IsTruthy(name) then Obj(name, required, Looping, [child.value]) else Group([child.value]);
    assert ActiveRequired(Looping, inherited, id) == Success(required) by {
      LoopingMembers();
    }
    assert BuildResolved(schemas, id, Looping, name, required, fuel - 1) == Success(node) by {
      var entries := [("b", JObj([]))];
      LoopingMembers();
      assert Entries(Member(Looping, "properties").value) == entries;
      LoneProperty(schemas, id, "b", JObj([]), required, fuel - 1);
      assert BuildObject(schemas, Looping, id, name, required, fuel - 1) == Success(node);
    }
  }

  /** A node whose only section is incomplete is incomplete, wrapped or bare. */
  lemma LoneSectionIncomplete(name: Option<Json>, required: set<Json>, child: Node)
    requires !Complete(child)
    ensures !Complete(if IsTruthy(name) then Obj(name, required, Looping, [child]) else Group([child]))
  {
    assert [child][0] == child;
  }

  /** A build that succeeds with a tree still holding an `OutOfFuel` leaf. */
  predicate Unfinished(r: Result<Node, BuildError>) {
    r.Success? && !Complete(r.value)
  }

  /** With no fuel left every build stops at an `OutOfFuel` section. */
  lemma NoFuelUnfinished(schemas: map<string, Json>, id: string, name: Option<Json>, inherited: Option<set<Json>>)
    ensures Unfinished(Build(schemas, id, name, inherited, 0))
  {
  }

  /** One level of `HashNameNeverEnds`: an incomplete section below `HashId(k)` leaves it incomplete. */
  lemma HashLevel(k: nat, name: Option<Json>, inherited: Option<set<Json>>, fuel: nat)
    requires fuel > 0
    requires Unfinished(Build(HashRegistry, HashId(k + 1), Some(JStr("b")), Some(if inherited.Some? then inherited.value else {}), fuel - 1))
    ensures Unfinished(Build(HashRegistry, HashId(k), name, inherited, fuel))
  {
    var required := if inherited.Some? then inherited.value else {};
    var below := Build(HashRegistry, HashId(k + 1), Some(JStr("b")), Some(required), fuel - 1);
    HashIdResolves(k);
    HashIdStep(k);
    LoopingLevel(HashRegistry, HashId(k), HashId(k + 1), name, inherited, fuel);
    LoneSectionIncomplete(name, required, below.value);
  }

  /**
   * On `HashDocument`, which reaches no `$ref`, building from `HashId(k)` never completes,
   * whatever the fuel: every `/properties/b` below `a#x` resolves to `a` again, so the
   * source recurses until the stack overflows.
   */
  lemma {:induction false} HashNameNeverEnds(k: nat, name: Option<Json>, inherited: Option<set<Json>>, fuel: nat)
    ensures Unfinished(Build(HashRegistry, HashId(k), name, inherited, fuel))
    decreases fuel
  {
    if fuel == 0 {
      NoFuelUnfinished(HashRegistry, HashId(k), name, inherited);
    } else {
      var required := if inherited.Some? then inherited.value else {};
      assert Unfinished(Build(HashRegistry, HashId(k + 1), Some(JStr("b")), Some(required), fuel - 1)) by {
        HashNameNeverEnds(k + 1, Some(JStr("b")), Some(required), fuel - 1);
      }
      HashLevel(k, name, inherited, fuel);
    }
  }
}
