/** Outcome payload contracts: structural subtyping of schema types
    (workflow/compile_outcome_schema.go) against the JSON Schema they are sent as (workflow/jsonschema.go). */
module OutcomeSchemas {
  import opened Names

  // ------------------------------------------------------------------------ types

  /** A cty type; `Nil` is the absent type. */
  datatype Type =
    | Nil
    | Dynamic
    | String
    | Number
    | Boolean
    | List(elem: Type)
    | SetOf(elem: Type)
    | MapOf(elem: Type)
    | Tuple(elems: seq<Type>)
    | Object(attrs: map<Name, Type>, optional: set<Name>)

  /** Whether a payload drawn from `sup` is taken to satisfy `sub`. */
  predicate TypeCompatSubset(sub: Type, sup: Type)
    decreases sub, 1
  {
    if sub.Nil? || sup.Nil? || sup.Dynamic? then true
    else if sub.Object? && sup.Object? then ObjectAttrsSubset(sub, sup)
    else if (sub.List? && sup.List?) || (sub.SetOf? && sup.SetOf?) || (sub.MapOf? && sup.MapOf?) then
      TypeCompatSubset(sub.elem, sup.elem)
    else sub == sup
  }

  predicate ObjectAttrsSubset(sub: Type, sup: Type)
    requires sub.Object? && sup.Object?
    decreases sub, 0
  {
    forall name :: name in sub.attrs ==>
                   && name in sup.attrs
                   && (name in sup.optional ==> name in sub.optional)
                   && TypeCompatSubset(sub.attrs[name], sup.attrs[name])
  }

  // ------------------------------------------------------------ reflexive, transitive

  lemma {:induction false} Reflexive(t: Type)
    ensures TypeCompatSubset(t, t)
  {
    match t
    case List(e) => Reflexive(e);
    case SetOf(e) => Reflexive(e);
    case MapOf(e) => Reflexive(e);
    case Object(attrs, _) =>
      forall name | name in attrs
        ensures TypeCompatSubset(attrs[name], attrs[name])
      {
        Reflexive(attrs[name]);
      }
    case _ =>
  }

  /** An absent type stands somewhere the comparison descends to. */
  ghost predicate HasNil(t: Type) {
    match t
    case Nil => true
    case List(e) => HasNil(e)
    case SetOf(e) => HasNil(e)
    case MapOf(e) => HasNil(e)
    case Object(attrs, _) => exists name :: name in attrs && HasNil(attrs[name])
    case _ => false
  }

  lemma {:induction false} Transitive(a: Type, b: Type, c: Type)
    requires !HasNil(b) && TypeCompatSubset(a, b) && TypeCompatSubset(b, c)
    ensures TypeCompatSubset(a, c)
  {
    if a.Nil? || c.Nil? || c.Dynamic? || b.Dynamic? {
    } else if a.Object? && b.Object? && c.Object? {
      forall name | name in a.attrs
        ensures name in c.attrs && (name in c.optional ==> name in a.optional)
        ensures TypeCompatSubset(a.attrs[name], c.attrs[name])
      {
        Transitive(a.attrs[name], b.attrs[name], c.attrs[name]);
      }
    } else if (a.List? && b.List? && c.List?) || (a.SetOf? && b.SetOf? && c.SetOf?) ||
              (a.MapOf? && b.MapOf? && c.MapOf?) {
      Transitive(a.elem, b.elem, c.elem);
    }
  }

  /** `t` with `x` for each absent type. */
  function Fill(t: Type, x: Type): Type {
    match t
    case Nil => x
    case List(e) => List(Fill(e, x))
    case SetOf(e) => SetOf(Fill(e, x))
    case MapOf(e) => MapOf(Fill(e, x))
    case Object(attrs, optional) => Object(map name | name in attrs :: Fill(attrs[name], x), optional)
    case _ => t
  }

  lemma {:induction false} FillCompatible(t: Type, x: Type)
    ensures TypeCompatSubset(Fill(t, x), t) && TypeCompatSubset(t, Fill(t, x))
  {
    match t
    case List(e) => FillCompatible(e, x);
    case SetOf(e) => FillCompatible(e, x);
    case MapOf(e) => FillCompatible(e, x);
    case Object(attrs, _) =>
      forall name | name in attrs
        ensures TypeCompatSubset(Fill(attrs[name], x), attrs[name]) &&
            TypeCompatSubset(attrs[name], Fill(attrs[name], x))
      {
        FillCompatible(attrs[name], x);
      }
    case _ =>
  }

  lemma {:induction false} FillsDiffer(t: Type)
    requires HasNil(t)
    ensures !TypeCompatSubset(Fill(t, String), Fill(t, Number))
  {
    match t
    case Nil =>
    case List(e) => FillsDiffer(e);
    case SetOf(e) => FillsDiffer(e);
    case MapOf(e) => FillsDiffer(e);
    case Object(attrs, _) =>
      var name :| name in attrs && HasNil(attrs[name]);
      FillsDiffer(attrs[name]);
      assert Fill(t, String).attrs[name] == Fill(attrs[name], String);
  }

  /** Comparisons chain through `b` exactly when no absent type is compared in it. */
  lemma TransitiveIff(b: Type)
    ensures (forall a, c :: TypeCompatSubset(a, b) && TypeCompatSubset(b, c) ==> TypeCompatSubset(a, c)) <==> !HasNil(b)
  {
    if HasNil(b) {
      FillCompatible(b, String);
      FillCompatible(b, Number);
      FillsDiffer(b);
    } else {
      forall a, c | TypeCompatSubset(a, b) && TypeCompatSubset(b, c)
        ensures TypeCompatSubset(a, c)
      {
        Transitive(a, b, c);
      }
    }
  }

  // -------------------------------------------------------------------- JSON Schema

  datatype Kind = KString | KNumber | KBoolean | KArray | KObject

  /** A JSON value. */
  datatype Json =
    | JNull
    | JString(s: string)
    | JNumber(n: real)
    | JBoolean(b: bool)
    | JArray(items: seq<Json>)
    | JObject(members: map<Name, Json>)

  /** A schema document; `kind` is None when it has no "type". */
  datatype Schema = Schema(
    kind: Option<Kind>,
    properties: map<Name, Schema>,
    needed: seq<Name>,
    items: Option<Schema>,
    preset: Option<Json>)

  function Leaf(kind: Kind): Schema {
    Schema(Some(kind), map[], [], None, None)
  }

  /** The names that may not be left out, in the given order. */
  function Needed(names: seq<Name>, optional: set<Name>): (r: seq<Name>)
    ensures forall x :: x in r <==> x in names && x !in optional
  {
    if names == [] then []
    else
      var last := names[|names| - 1];
      Needed(names[..|names| - 1], optional) + if last in optional then [] else [last]
  }

  /** The document for a type, or None when an absent type cannot be converted. */
  ghost function SchemaOf(t: Type): (r: Option<Schema>)
    ensures r.Some? && !t.Dynamic? ==> r.value.kind.Some?
  {
    match t
    case Nil => None
    case Dynamic => Some(Schema(None, map[], [], None, None))
    case String => Some(Leaf(KString))
    case Number => Some(Leaf(KNumber))
    case Boolean => Some(Leaf(KBoolean))
    case MapOf(_) => Some(Leaf(KObject))
    case Tuple(_) => Some(Leaf(KArray))
    case List(e) =>
      if SchemaOf(e).None? then None else Some(Schema(Some(KArray), map[], [], SchemaOf(e), None))
    case SetOf(e) =>
      if SchemaOf(e).None? then None else Some(Schema(Some(KArray), map[], [], SchemaOf(e), None))
    case Object(attrs, optional) =>
      if exists name :: name in attrs && SchemaOf(attrs[name]).None? then None
      else Some(Schema(Some(KObject), map name | name in attrs :: SchemaOf(attrs[name]).value,
          Needed(SortedKeys(attrs.Keys), optional), None, None))
  }

  /** An absent type stands where the document describes it: not in a map or a tuple. */
  ghost predicate Undescribable(t: Type) {
    match t
    case Nil => true
    case List(e) => Undescribable(e)
    case SetOf(e) => Undescribable(e)
    case Object(attrs, _) => exists name :: name in attrs && Undescribable(attrs[name])
    case _ => false
  }

  /** That alone keeps a type from having a document. */
  lemma {:induction false} DescribedIff(t: Type)
    ensures SchemaOf(t).None? <==> Undescribable(t)
  {
    match t
    case List(e) => DescribedIff(e);
    case SetOf(e) => DescribedIff(e);
    case Object(attrs, _) =>
      forall name | name in attrs
        ensures SchemaOf(attrs[name]).None? <==> Undescribable(attrs[name])
      {
        DescribedIff(attrs[name]);
      }
    case _ =>
  }

  /** The defaults of a type constraint: of its own attributes, as they are written to the wire, and those of each
      attribute or, under the empty name, of the elements. */
  datatype Defaults = Defaults(values: map<Name, Json>, children: map<Name, Defaults>)

  function ChildDefaults(defs: Option<Defaults>, key: Name): Option<Defaults> {
    if defs.Some? && key in defs.value.children then Some(defs.value.children[key]) else None
  }

  /** The document of an attribute, with its default if one is declared. */
  function WithPreset(n: Schema, defs: Option<Defaults>, name: Name): Schema {
    if defs.Some? && name in defs.value.values then n.(preset := Some(defs.value.values[name])) else n
  }

  /** A document with the defaults written in. */
  function Annotated(n: Schema, defs: Option<Defaults>): Schema
    decreases n
  {
    n.(properties := map name | name in n.properties ::
         WithPreset(Annotated(n.properties[name], ChildDefaults(defs, name)), defs, name),
       items := if n.items.None? then None else Some(Annotated(n.items.value, ChildDefaults(defs, ""))))
  }

  ghost function Document(t: Type, defs: Option<Defaults>): Option<Schema> {
    if SchemaOf(t).None? then None else Some(Annotated(SchemaOf(t).value, defs))
  }

  method CtyToSchemaNode(t: Type, defs: Option<Defaults>) returns (r: Option<Schema>)
    ensures r == Document(t, defs)
    decreases t, 1
  {
    match t
    case Nil => r := None;
    case Dynamic => r := Some(Schema(None, map[], [], None, None));
    case String => r := Some(Leaf(KString));
    case Number => r := Some(Leaf(KNumber));
    case Boolean => r := Some(Leaf(KBoolean));
    case MapOf(_) => r := Some(Leaf(KObject));
    case Tuple(_) => r := Some(Leaf(KArray));
    case List(e) =>
      var elem := CtyToSchemaNode(e, ChildDefaults(defs, ""));
      r := if elem.None? then None else Some(Schema(Some(KArray), map[], [], elem, None));
    case SetOf(e) =>
      var elem := CtyToSchemaNode(e, ChildDefaults(defs, ""));
      r := if elem.None? then None else Some(Schema(Some(KArray), map[], [], elem, None));
    case Object(_, _) => r := ObjectSchemaNode(t, defs);
  }

  method ObjectSchemaNode(t: Type, defs: Option<Defaults>) returns (r: Option<Schema>)
    requires t.Object?
    ensures r == Document(t, defs)
    decreases t, 0
  {
    hide SchemaOf, SortedKeys, Collected, Annotated;
    var names := SortedKeys(t.attrs.Keys);
    CollectNone(t, defs);
    if t.attrs == map[] {
      assert names == [];
      ObjectSchemaIs(t, defs, map[], []);
      return Some(Leaf(KObject));
    }
    var properties: map<Name, Schema> := map[];
    var needed: seq<Name> := [];
    for i := 0 to |names|
      invariant Collected(t, defs, names[..i], properties, needed)
    {
      var name := names[i];
      assert name in t.attrs.Keys;
      assert names[..i + 1] == names[..i] + [name];
      var child := CtyToSchemaNode(t.attrs[name], ChildDefaults(defs, name));
      if child.None? {
        ObjectSchemaFails(t, name);
        return None;
      }
      CollectOne(t, defs, names[..i], properties, needed, name);
      properties := properties[name := WithPreset(child.value, defs, name)];
      if name !in t.optional {
        needed := needed + [name];
      }
    }
    assert names[..|names|] == names;
    ObjectSchemaIs(t, defs, properties, needed);
    return Some(Schema(Some(KObject), properties, needed, None, None));
  }

  /** What the loop has collected from the attributes `names`. */
  ghost predicate Collected(t: Type, defs: Option<Defaults>, names: seq<Name>, p: map<Name, Schema>, needed: seq<Name>)
    requires t.Object?
  {
    Described(t, defs, p) && (forall x :: x in p <==> x in names) && needed == Needed(names, t.optional)
  }

  lemma CollectNone(t: Type, defs: Option<Defaults>)
    requires t.Object?
    ensures Collected(t, defs, [], map[], [])
  {
    hide SchemaOf;
  }

  lemma CollectOne(t: Type, defs: Option<Defaults>, names: seq<Name>, p: map<Name, Schema>, needed: seq<Name>,
                   name: Name)
    requires t.Object? && Collected(t, defs, names, p, needed)
    requires name in t.attrs && Document(t.attrs[name], ChildDefaults(defs, name)).Some?
    ensures var child := Document(t.attrs[name], ChildDefaults(defs, name)).value;
            Collected(t, defs, names + [name], p[name := WithPreset(child, defs, name)],
                if name in t.optional then needed else needed + [name])
  {
    hide SchemaOf, Annotated;
    assert (names + [name])[..|names|] == names;
  }

  /** `p` holds the documents of some of the attributes. */
  ghost predicate Described(t: Type, defs: Option<Defaults>, p: map<Name, Schema>)
    requires t.Object?
  {
    forall x :: x in p ==> x in t.attrs && Describes(t.attrs[x], defs, x, p[x])
  }

  ghost predicate Describes(t: Type, defs: Option<Defaults>, name: Name, n: Schema) {
    var doc := Document(t, ChildDefaults(defs, name));
    doc.Some? && n == WithPreset(doc.value, defs, name)
  }

  lemma ObjectSchemaIs(t: Type, defs: Option<Defaults>, p: map<Name, Schema>, needed: seq<Name>)
    requires t.Object? && Collected(t, defs, SortedKeys(t.attrs.Keys), p, needed)
    ensures Document(t, defs) == Some(Schema(Some(KObject), p, needed, None, None))
  {
    ObjectDocument(t, defs, p);
    hide SortedKeys, Needed, SchemaOf, Annotated;
    assert forall name :: name in t.attrs ==> name in p.Keys;
  }

  lemma ObjectDocument(t: Type, defs: Option<Defaults>, p: map<Name, Schema>)
    requires t.Object? && Described(t, defs, p) && p.Keys == t.attrs.Keys
    ensures Document(t, defs) ==
            Some(Schema(Some(KObject), p, Needed(SortedKeys(t.attrs.Keys), t.optional), None, None))
  {
    hide SortedKeys, Needed, SchemaOf, Annotated;
    assert forall name :: name in t.attrs ==> name in p.Keys && SchemaOf(t.attrs[name]).Some?;
    ObjectBare(t);
    AnnotatedObject(t, SchemaOf(t).value, defs, p);
  }

  lemma ObjectBare(t: Type)
    requires t.Object? && forall name :: name in t.attrs ==> SchemaOf(t.attrs[name]).Some?
    ensures SchemaOf(t).Some? && SchemaOf(t).value.properties.Keys == t.attrs.Keys
    ensures var n := SchemaOf(t).value;
            n == Schema(Some(KObject), n.properties, Needed(SortedKeys(t.attrs.Keys), t.optional), None, None)
    ensures forall name :: name in t.attrs ==> Some(SchemaOf(t).value.properties[name]) == SchemaOf(t.attrs[name])
  {
    hide SortedKeys, Needed;
  }

  lemma AnnotatedObject(t: Type, bare: Schema, defs: Option<Defaults>, p: map<Name, Schema>)
    requires t.Object? && Described(t, defs, p) && p.Keys == t.attrs.Keys && bare.items == None
    requires bare.properties.Keys == t.attrs.Keys
    requires forall name :: name in t.attrs ==> Some(bare.properties[name]) == SchemaOf(t.attrs[name])
    ensures Annotated(bare, defs) == bare.(properties := p)
  {
    hide SchemaOf, Annotated, WithPreset, ChildDefaults, Describes, Document;
    AnnotatedIs(bare, defs);
    var q := Annotated(bare, defs).properties;
    assert q.Keys == p.Keys;
    forall name | name in p.Keys
      ensures q[name] == p[name]
    {
      AttributeIs(t.attrs[name], defs, name, bare.properties[name], p[name]);
    }
    assert q == p;
  }

  lemma AttributeIs(t: Type, defs: Option<Defaults>, name: Name, bare: Schema, n: Schema)
    requires Describes(t, defs, name, n) && SchemaOf(t) == Some(bare)
    ensures n == WithPreset(Annotated(bare, ChildDefaults(defs, name)), defs, name)
  {
    hide SchemaOf, Annotated, WithPreset, ChildDefaults;
  }

  lemma AnnotatedIs(n: Schema, defs: Option<Defaults>)
    ensures var m := Annotated(n, defs);
            && m == n.(properties := m.properties, items := m.items) && m.properties.Keys == n.properties.Keys
            && (n.items.None? ==> m.items.None?)
            && forall name :: name in n.properties ==>
                 m.properties[name] ==
                 WithPreset(Annotated(n.properties[name], ChildDefaults(defs, name)), defs, name)
  {
  }

  lemma ObjectSchemaFails(t: Type, name: Name)
    requires t.Object? && name in t.attrs && SchemaOf(t.attrs[name]).None?
    ensures SchemaOf(t).None?
  {
  }

  // ------------------------------------------------------- which default stands where

  /** A place in a document: an attribute, or the elements of a collection. */
  datatype Place = Attribute(name: Name) | Elements

  /** The part of a document at the end of a path. */
  function At(n: Schema, path: seq<Place>): Option<Schema> {
    if path == [] then Some(n)
    else
      match path[0]
      case Attribute(name) => if name in n.properties then At(n.properties[name], path[1..]) else None
      case Elements => if n.items.Some? then At(n.items.value, path[1..]) else None
  }

  /** The default a constraint declares for that place: in the defaults of the object around it. */
  function DefaultAt(defs: Option<Defaults>, path: seq<Place>): Option<Json>
    decreases |path|
  {
    if path == [] || defs.None? then None
    else if |path| == 1 then
      if path[0].Attribute? && path[0].name in defs.value.values then Some(defs.value.values[path[0].name]) else None
    else
      var key := if path[0].Attribute? then path[0].name else "";
      if key in defs.value.children then DefaultAt(Some(defs.value.children[key]), path[1..]) else None
  }

  lemma {:induction false} NoPresets(t: Type, path: seq<Place>)
    requires SchemaOf(t).Some? && At(SchemaOf(t).value, path).Some?
    ensures At(SchemaOf(t).value, path).value.preset == None
    decreases t
  {
    hide SortedKeys, Needed;
    if path != [] {
      match t
      case List(e) => NoPresets(e, path[1..]);
      case SetOf(e) => NoPresets(e, path[1..]);
      case Object(attrs, _) => NoPresets(attrs[path[0].name], path[1..]);
      case _ =>
    }
  }

  /** Every part of the document carries the default declared for it, and is otherwise that of the type alone. */
  lemma {:induction false} AnnotatedAt(n: Schema, defs: Option<Defaults>, path: seq<Place>)
    ensures At(Annotated(n, defs), path).Some? <==> At(n, path).Some?
    ensures At(n, path).Some? ==>
              var m, bare := At(Annotated(n, defs), path).value, At(n, path).value;
              && m.kind == bare.kind && m.needed == bare.needed && m.properties.Keys == bare.properties.Keys
              && m.preset == if DefaultAt(defs, path).Some? then DefaultAt(defs, path) else bare.preset
    decreases |path|
  {
    if path != [] {
      match path[0]
      case Attribute(name) =>
        if name in n.properties {
          AnnotatedAt(n.properties[name], ChildDefaults(defs, name), path[1..]);
        }
      case Elements =>
        if n.items.Some? {
          AnnotatedAt(n.items.value, ChildDefaults(defs, ""), path[1..]);
        }
    }
  }

  /** So a document carries exactly the declared defaults, each where it is declared. */
  lemma DefaultsInPlace(t: Type, defs: Option<Defaults>, path: seq<Place>)
    requires Document(t, defs).Some? && At(Document(t, defs).value, path).Some?
    ensures At(Document(t, defs).value, path).value.preset == DefaultAt(defs, path)
  {
    AnnotatedAt(SchemaOf(t).value, defs, path);
    NoPresets(t, path);
  }

  // ---------------------------------------------------------------------- payloads

  predicate HasKind(p: Json, kind: Kind) {
    match kind
    case KString => p.JString?
    case KNumber => p.JNumber?
    case KBoolean => p.JBoolean?
    case KArray => p.JArray?
    case KObject => p.JObject?
  }

  /** JSON Schema validity: properties and needed names speak of objects only, items of arrays only. */
  predicate Validates(p: Json, n: Schema)
    decreases n
  {
    && (n.kind.Some? ==> HasKind(p, n.kind.value))
    && (p.JObject? ==>
          && (forall name :: name in n.needed ==> name in p.members)
          && (forall name :: name in n.properties && name in p.members ==>
              Validates(p.members[name], n.properties[name])))
    && (p.JArray? && n.items.Some? ==> forall v :: v in p.items ==> Validates(v, n.items.value))
  }

  /** Defaults are annotations: they change neither which types have a document nor which payloads are valid. */
  lemma {:induction false} DefaultsDoNotValidate(p: Json, n: Schema, defs: Option<Defaults>)
    ensures Validates(p, Annotated(n, defs)) <==> Validates(p, n)
    decreases n
  {
    var m := Annotated(n, defs);
    if p.JObject? {
      forall name | name in n.properties && name in p.members
        ensures Validates(p.members[name], m.properties[name]) <==> Validates(p.members[name], n.properties[name])
      {
        DefaultsDoNotValidate(p.members[name], n.properties[name], ChildDefaults(defs, name));
        PresetDoesNotValidate(p.members[name], Annotated(n.properties[name], ChildDefaults(defs, name)), defs, name);
      }
    }
    if p.JArray? && n.items.Some? {
      forall v | v in p.items
        ensures Validates(v, m.items.value) <==> Validates(v, n.items.value)
      {
        DefaultsDoNotValidate(v, n.items.value, ChildDefaults(defs, ""));
      }
    }
  }

  lemma PresetDoesNotValidate(p: Json, n: Schema, defs: Option<Defaults>, name: Name)
    ensures Validates(p, WithPreset(n, defs, name)) <==> Validates(p, n)
  {
  }

  /** A payload a producer of type `t` can emit: null only where it is untyped, records
      open, optional members possibly absent. */
  predicate Inhabits(p: Json, t: Type)
    decreases t
  {
    match t
    case Nil => true
    case Dynamic => true
    case String => p.JString?
    case Number => p.JNumber?
    case Boolean => p.JBoolean?
    case List(e) => p.JArray? && forall v :: v in p.items ==> Inhabits(v, e)
    case SetOf(e) => p.JArray? && forall v :: v in p.items ==> Inhabits(v, e)
    case MapOf(e) => p.JObject? && forall k :: k in p.members ==> Inhabits(p.members[k], e)
    case Tuple(es) => p.JArray? && |p.items| == |es| && forall i :: 0 <= i < |es| ==> Inhabits(p.items[i], es[i])
    case Object(attrs, optional) =>
      p.JObject? && forall name :: name in attrs ==>
                                   if name in p.members then Inhabits(p.members[name], attrs[name])
                                       else name in optional
  }

  /** Every type has a payload. */
  function Sample(t: Type): (p: Json)
    ensures Inhabits(p, t)
  {
    match t
    case Nil => JString("")
    case Dynamic => JString("")
    case String => JString("")
    case Number => JNumber(0.0)
    case Boolean => JBoolean(true)
    case List(_) => JArray([])
    case SetOf(_) => JArray([])
    case MapOf(_) => JObject(map[])
    case Tuple(es) => JArray(seq(|es|, i requires 0 <= i < |es| => Sample(es[i])))
    case Object(attrs, _) => JObject(map name | name in attrs :: Sample(attrs[name]))
  }

  // ------------------------------------------------------------------- when it is sound

  /** Somewhere the comparison trusts an untyped producer although the schema constrains that place. */
  ghost predicate Overtrusts(sub: Type, sup: Type) {
    if sup.Nil? || sup.Dynamic? then !sub.Dynamic?
    else if sub.Object? && sup.Object? then
      exists name :: name in sub.attrs && name in sup.attrs && Overtrusts(sub.attrs[name], sup.attrs[name])
    else ((sub.List? && sup.List?) || (sub.SetOf? && sup.SetOf?)) && Overtrusts(sub.elem, sup.elem)
  }

  lemma {:induction false} PayloadsValidate(sub: Type, sup: Type, p: Json)
    requires TypeCompatSubset(sub, sup) && SchemaOf(sub).Some? && !Overtrusts(sub, sup) && Inhabits(p, sup)
    ensures Validates(p, SchemaOf(sub).value)
  {
    if sub.Object? && sup.Object? {
      var n := SchemaOf(sub).value;
      forall name | name in sub.attrs && name in p.members
        ensures Validates(p.members[name], n.properties[name])
      {
        PayloadsValidate(sub.attrs[name], sup.attrs[name], p.members[name]);
      }
    } else if (sub.List? && sup.List?) || (sub.SetOf? && sup.SetOf?) {
      forall v | v in p.items
        ensures Validates(v, SchemaOf(sub.elem).value)
      {
        PayloadsValidate(sub.elem, sup.elem, v);
      }
    }
  }

  /** A payload of a kind no schema for `t` accepts. */
  function Foreign(t: Type): (p: Json)
    ensures !p.JNull?
    ensures !t.Nil? && !t.Dynamic? ==> !Inhabits(p, t)
  {
    if t.String? then JBoolean(true) else JString("")
  }

  lemma ForeignFails(t: Type)
    requires SchemaOf(t).Some? && !t.Dynamic?
    ensures !Validates(Foreign(t), SchemaOf(t).value)
  {
  }

  /** A payload of object type `t` with the given member. */
  function WithMember(t: Type, name: Name, v: Json): (p: Json)
    requires t.Object? && name in t.attrs
    ensures p.JObject? && name in p.members && p.members[name] == v
    ensures forall k :: k in t.attrs ==> k in p.members
    ensures forall k :: k in p.members && k != name ==> k in Sample(t).members && p.members[k] == Sample(t).members[k]
    ensures Inhabits(p, t) <==> Inhabits(v, t.attrs[name])
  {
    var s := Sample(t);
    JObject(s.members[name := v])
  }

  lemma MemberFails(t: Type, p: Json, name: Name)
    requires t.Object? && SchemaOf(t).Some? && p.JObject? && name in t.attrs && name in p.members
    requires !Validates(p.members[name], SchemaOf(t.attrs[name]).value)
    ensures !Validates(p, SchemaOf(t).value)
  {
    hide SortedKeys, Needed;
    assert SchemaOf(t).value.properties[name] == SchemaOf(t.attrs[name]).value;
  }

  lemma ItemFails(t: Type, v: Json)
    requires t.List? || t.SetOf?
    requires SchemaOf(t).Some? && !Validates(v, SchemaOf(t.elem).value)
    ensures !Validates(JArray([v]), SchemaOf(t).value)
  {
    assert v in JArray([v]).items;
  }

  lemma {:induction false} TrustedPayloadFails(sub: Type, sup: Type) returns (p: Json)
    requires TypeCompatSubset(sub, sup) && SchemaOf(sub).Some? && Overtrusts(sub, sup)
    ensures Inhabits(p, sup) && !Validates(p, SchemaOf(sub).value)
  {
    if sup.Nil? || sup.Dynamic? {
      ForeignFails(sub);
      p := Foreign(sub);
    } else if sub.Object? && sup.Object? {
      var name :| name in sub.attrs && name in sup.attrs && Overtrusts(sub.attrs[name], sup.attrs[name]);
      var v := TrustedPayloadFails(sub.attrs[name], sup.attrs[name]);
      p := WithMember(sup, name, v);
      MemberFails(sub, p, name);
    } else {
      var v := TrustedPayloadFails(sub.elem, sup.elem);
      p := JArray([v]);
      ItemFails(sub, v);
    }
  }

  /** Where the comparison holds, every payload of the producer validates exactly when no
      untyped part of the producer is trusted with a constrained part of the schema. */
  lemma SubtypingSoundIff(sub: Type, sup: Type)
    requires TypeCompatSubset(sub, sup) && SchemaOf(sub).Some?
    ensures (forall p :: Inhabits(p, sup) ==> Validates(p, SchemaOf(sub).value)) <==> !Overtrusts(sub, sup)
  {
    if Overtrusts(sub, sup) {
      var p := TrustedPayloadFails(sub, sup);
    } else {
      forall p | Inhabits(p, sup)
        ensures Validates(p, SchemaOf(sub).value)
      {
        PayloadsValidate(sub, sup, p);
      }
    }
  }

  // ------------------------------------------------------------------ when it is complete

  predicate Untyped(t: Type) {
    t.Nil? || t.Dynamic?
  }

  /** Every payload of the producer is one of the schema's type. */
  ghost predicate Contains(sub: Type, sup: Type) {
    forall p :: Inhabits(p, sup) ==> Inhabits(p, sub)
  }

  /** The same by structure: payloads of lists and sets are alike, tuples are arrays of one length, records are open,
      and maps may be empty. */
  ghost predicate Covers(sub: Type, sup: Type)
    decreases sub, 0
  {
    if Untyped(sub) then true
    else if Untyped(sup) then false
    else
      match sub
      case List(e) => ItemsCover(e, sup)
      case SetOf(e) => ItemsCover(e, sup)
      case MapOf(e) => if sup.MapOf? then Covers(e, sup.elem) else sup.Object? && Untyped(e)
      case Tuple(es) => sup.Tuple? && |es| == |sup.elems| && forall i :: 0 <= i < |es| ==> Covers(es[i], sup.elems[i])
      case Object(attrs, optional) =>
        if sup.MapOf? then forall name :: name in attrs ==> name in optional && Covers(attrs[name], sup.elem)
        else sup.Object? && forall name :: name in attrs ==> AttributeCovers(attrs[name], name in optional, sup, name)
      case _ => sub == sup
  }

  ghost predicate ItemsCover(e: Type, sup: Type)
    decreases e, 1
  {
    if sup.List? || sup.SetOf? then Covers(e, sup.elem)
    else sup.Tuple? && forall i :: 0 <= i < |sup.elems| ==> Covers(e, sup.elems[i])
  }

  /** What an open record promises about one of its names. */
  ghost predicate AttributeCovers(t: Type, optional: bool, sup: Type, name: Name)
    requires sup.Object?
    decreases t, 1
  {
    if name in sup.attrs then (name in sup.optional ==> optional) && Covers(t, sup.attrs[name])
    else optional && Untyped(t)
  }

  lemma {:induction false} CoversSound(sub: Type, sup: Type, p: Json)
    requires Covers(sub, sup) && Inhabits(p, sup)
    ensures Inhabits(p, sub)
    decreases sub, 0
  {
    if !Untyped(sub) {
      match sub
      case List(e) => ItemsSound(e, sup, p);
      case SetOf(e) => ItemsSound(e, sup, p);
      case MapOf(e) =>
        forall k | k in p.members
          ensures Inhabits(p.members[k], e)
        {
          if sup.MapOf? {
            CoversSound(e, sup.elem, p.members[k]);
          }
        }
      case Tuple(es) =>
        forall i | 0 <= i < |es|
          ensures Inhabits(p.items[i], es[i])
        {
          CoversSound(es[i], sup.elems[i], p.items[i]);
        }
      case Object(attrs, optional) =>
        forall name | name in attrs && name in p.members
          ensures Inhabits(p.members[name], attrs[name])
        {
          if sup.MapOf? {
            CoversSound(attrs[name], sup.elem, p.members[name]);
          } else if name in sup.attrs {
            CoversSound(attrs[name], sup.attrs[name], p.members[name]);
          }
        }
      case _ =>
    }
  }

  lemma {:induction false} ItemsSound(e: Type, sup: Type, p: Json)
    requires ItemsCover(e, sup) && Inhabits(p, sup)
    ensures p.JArray? && forall v :: v in p.items ==> Inhabits(v, e)
    decreases e, 1
  {
    forall v | v in p.items
      ensures Inhabits(v, e)
    {
      var i :| 0 <= i < |p.items| && p.items[i] == v;
      CoversSound(e, if sup.Tuple? then sup.elems[i] else sup.elem, v);
    }
  }

  /** A tuple's payload with one item given. */
  function WithItem(t: Type, i: nat, v: Json): (p: Json)
    requires t.Tuple? && i < |t.elems|
    ensures p.JArray? && |p.items| == |t.elems| && p.items[i] == v
    ensures Inhabits(v, t.elems[i]) ==> Inhabits(p, t)
  {
    JArray(seq(|t.elems|, k requires 0 <= k < |t.elems| => if k == i then v else Sample(t.elems[k])))
  }

  lemma {:induction false} SomeName(names: set<Name>) returns (n: Name)
    ensures n !in names && forall m :: m in names ==> |m| < |n|
    decreases names
  {
    if names == {} {
      n := "x";
    } else {
      var m :| m in names;
      var k := SomeName(names - {m});
      n := k + m + "x";
      assert |n| == |k| + |m| + 1;
    }
  }

  /** Where the structure does not cover, some payload of the producer is none of the schema's. */
  lemma {:induction false} CoversComplete(sub: Type, sup: Type) returns (p: Json)
    requires !Covers(sub, sup)
    ensures Inhabits(p, sup) && !Inhabits(p, sub)
    decreases sub, 1
  {
    if Untyped(sup) {
      p := Foreign(sub);
    } else {
      match sub
      case List(e) => p := ItemsComplete(e, sup);
      case SetOf(e) => p := ItemsComplete(e, sup);
      case Tuple(es) => p := TupleComplete(sub, sup);
      case MapOf(e) =>
        if sup.MapOf? {
          var v := CoversComplete(e, sup.elem);
          p := JObject(map["" := v]);
          assert "" in p.members;
        } else {
          p := MapComplete(e, sup);
        }
      case Object(attrs, optional) =>
        if sup.MapOf? {
          p := RecordOverMap(sub, sup);
        } else {
          p := RecordComplete(sub, sup);
        }
      case _ => p := Sample(sup);
    }
  }

  lemma {:induction false} ItemsComplete(e: Type, sup: Type) returns (p: Json)
    requires !ItemsCover(e, sup) && !Untyped(sup)
    ensures Inhabits(p, sup) && !(p.JArray? && forall v :: v in p.items ==> Inhabits(v, e))
    decreases e, 2
  {
    if sup.List? || sup.SetOf? {
      var v := CoversComplete(e, sup.elem);
      p := JArray([v]);
      assert v in p.items;
    } else if sup.Tuple? {
      var i :| 0 <= i < |sup.elems| && !Covers(e, sup.elems[i]);
      var v := CoversComplete(e, sup.elems[i]);
      p := WithItem(sup, i, v);
      assert p.items[i] in p.items;
    } else {
      p := Sample(sup);
    }
  }

  lemma {:induction false} TupleComplete(sub: Type, sup: Type) returns (p: Json)
    requires sub.Tuple? && !Untyped(sup) && !Covers(sub, sup)
    ensures Inhabits(p, sup) && !Inhabits(p, sub)
    decreases sub, 0
  {
    if sup.Tuple? && |sub.elems| == |sup.elems| {
      var i :| 0 <= i < |sub.elems| && !Covers(sub.elems[i], sup.elems[i]);
      var v := CoversComplete(sub.elems[i], sup.elems[i]);
      p := WithItem(sup, i, v);
    } else if (sup.List? || sup.SetOf?) && sub.elems == [] {
      p := JArray([Sample(sup.elem)]);
    } else if sup.List? || sup.SetOf? {
      p := JArray([]);
    } else {
      p := Sample(sup);
    }
  }

  /** A typed map is not what an open record promises: it may have a member of any name. */
  lemma MapComplete(e: Type, sup: Type) returns (p: Json)
    requires !Untyped(sup) && !sup.MapOf? && !(sup.Object? && Untyped(e))
    ensures Inhabits(p, sup) && !Inhabits(p, MapOf(e))
  {
    if sup.Object? {
      var n := SomeName(sup.attrs.Keys);
      p := JObject(Sample(sup).members[n := Foreign(e)]);
      assert n in p.members && forall k :: k in sup.attrs ==> k in p.members && p.members[k] == Sample(sup.attrs[k]);
    } else {
      p := Sample(sup);
    }
  }

  lemma {:induction false} RecordOverMap(sub: Type, sup: Type) returns (p: Json)
    requires sub.Object? && sup.MapOf? && !Covers(sub, sup)
    ensures Inhabits(p, sup) && !Inhabits(p, sub)
    decreases sub, 0
  {
    var name :| name in sub.attrs && !(name in sub.optional && Covers(sub.attrs[name], sup.elem));
    if name !in sub.optional {
      p := JObject(map[]);
    } else {
      var v := CoversComplete(sub.attrs[name], sup.elem);
      p := JObject(map[name := v]);
      assert name in p.members;
    }
  }

  lemma {:induction false} RecordComplete(sub: Type, sup: Type) returns (p: Json)
    requires sub.Object? && !Untyped(sup) && !sup.MapOf? && !Covers(sub, sup)
    ensures Inhabits(p, sup) && !Inhabits(p, sub)
    decreases sub, 0
  {
    if !sup.Object? {
      p := Sample(sup);
    } else {
      var name :| name in sub.attrs && !AttributeCovers(sub.attrs[name], name in sub.optional, sup, name);
      var s := Sample(sup).members;
      if name in sup.attrs && (name in sup.optional ==> name in sub.optional) {
        var v := CoversComplete(sub.attrs[name], sup.attrs[name]);
        p := WithMember(sup, name, v);
      } else if name in sub.optional {
        p := JObject(s[name := Foreign(sub.attrs[name])]);
        assert name in p.members;
      } else {
        p := JObject(s - {name});
        assert name !in p.members;
      }
    }
  }

  /** So the structure decides it. */
  lemma ContainsIff(sub: Type, sup: Type)
    ensures Contains(sub, sup) <==> Covers(sub, sup)
  {
    if Covers(sub, sup) {
      forall p | Inhabits(p, sup)
        ensures Inhabits(p, sub)
      {
        CoversSound(sub, sup, p);
      }
    } else {
      var p := CoversComplete(sub, sup);
    }
  }

  /** Somewhere the comparison trusts an untyped producer with a typed part of the schema. */
  ghost predicate Trusts(sub: Type, sup: Type)
    decreases sub
  {
    if Untyped(sup) then !Untyped(sub)
    else
      match sub
      case List(e) => sup.List? && Trusts(e, sup.elem)
      case SetOf(e) => sup.SetOf? && Trusts(e, sup.elem)
      case MapOf(e) => sup.MapOf? && Trusts(e, sup.elem)
      case Object(attrs, _) => sup.Object? && exists name :: name in attrs && name in sup.attrs &&
                                                             Trusts(attrs[name], sup.attrs[name])
      case _ => false
  }

  /** The types are built alike wherever they are compared: no list meets a set or a tuple, no map an object, no
      untyped part of the schema a typed one of the producer, no attribute is missing, and tuples are the same. */
  ghost predicate Alike(sub: Type, sup: Type)
    decreases sub
  {
    if sub.Nil? || Untyped(sup) then true
    else
      match sub
      case List(e) => sup.List? && Alike(e, sup.elem)
      case SetOf(e) => sup.SetOf? && Alike(e, sup.elem)
      case MapOf(e) => sup.MapOf? && Alike(e, sup.elem)
      case Object(attrs, _) => sup.Object? && forall name :: name in attrs ==>
                                                             name in sup.attrs && Alike(attrs[name], sup.attrs[name])
      case _ => sub == sup
  }

  lemma {:induction false} CoversSelf(t: Type)
    ensures Covers(t, t)
  {
    ContainsIff(t, t);
  }

  /** Lists, sets and maps are compared by their elements. */
  lemma ElementsExact(sub: Type, sup: Type)
    requires (sub.List? && sup.List?) || (sub.SetOf? && sup.SetOf?) || (sub.MapOf? && sup.MapOf?)
    ensures TypeCompatSubset(sub, sup) <==> TypeCompatSubset(sub.elem, sup.elem)
    ensures Trusts(sub, sup) <==> Trusts(sub.elem, sup.elem)
    ensures Covers(sub, sup) <==> Covers(sub.elem, sup.elem)
    ensures Alike(sub, sup) <==> Alike(sub.elem, sup.elem)
  {
  }

  lemma OthersExact(sub: Type, sup: Type)
    requires !(sub.Object? && sup.Object?) && !(sub.List? && sup.List?)
    requires !(sub.SetOf? && sup.SetOf?) && !(sub.MapOf? && sup.MapOf?)
    ensures TypeCompatSubset(sub, sup) && !Trusts(sub, sup) <==> Covers(sub, sup) && Alike(sub, sup)
  {
    CoversSelf(sub);
  }

  lemma {:induction false} AlikeExact(sub: Type, sup: Type)
    ensures TypeCompatSubset(sub, sup) && !Trusts(sub, sup) <==> Covers(sub, sup) && Alike(sub, sup)
    decreases sub
  {
    hide TypeCompatSubset, Trusts, Covers, Alike;
    if (sub.List? && sup.List?) || (sub.SetOf? && sup.SetOf?) || (sub.MapOf? && sup.MapOf?) {
      ElementsExact(sub, sup);
      AlikeExact(sub.elem, sup.elem);
    } else if sub.Object? && sup.Object? {
      RecordsExact(sub, sup);
    } else {
      OthersExact(sub, sup);
    }
  }

  lemma {:induction false} RecordsExact(sub: Type, sup: Type)
    requires sub.Object? && sup.Object?
    ensures TypeCompatSubset(sub, sup) && !Trusts(sub, sup) <==> Covers(sub, sup) && Alike(sub, sup)
    decreases sub, 0
  {
    forall name | name in sub.attrs && name in sup.attrs
      ensures var a, b := sub.attrs[name], sup.attrs[name];
              TypeCompatSubset(a, b) && !Trusts(a, b) <==> Covers(a, b) && Alike(a, b)
    {
      AlikeExact(sub.attrs[name], sup.attrs[name]);
    }
  }

  /** What the comparison decides: it accepts without trusting an untyped producer exactly when every payload of the
      producer is one of the schema's type and the types are built alike. */
  lemma SubtypingExactIff(sub: Type, sup: Type)
    ensures TypeCompatSubset(sub, sup) && !Trusts(sub, sup) <==> Contains(sub, sup) && Alike(sub, sup)
  {
    AlikeExact(sub, sup);
    ContainsIff(sub, sup);
  }

  /** A schema that accepts anything is refused for every typed producer. */
  lemma AnythingIsRefused(sup: Type)
    requires !Untyped(sup)
    ensures Contains(Dynamic, sup) && !TypeCompatSubset(Dynamic, sup)
  {
  }

  /** Built from primitives, lists and objects. */
  ghost predicate Plain(t: Type) {
    match t
    case List(e) => Plain(e)
    case Object(attrs, _) => forall name :: name in attrs ==> Plain(attrs[name])
    case _ => t.String? || t.Number? || t.Boolean?
  }

  lemma {:induction false} PlainAlike(sub: Type, sup: Type)
    requires Plain(sub) && Plain(sup)
    ensures !Trusts(sub, sup) && (Covers(sub, sup) ==> Alike(sub, sup))
    decreases sub
  {
    match sub
    case List(e) =>
      assert Covers(sub, sup) <==> ItemsCover(e, sup);
      if sup.List? {
        PlainAlike(e, sup.elem);
      }
    case Object(attrs, optional) =>
      forall name | sup.Object? && name in attrs && name in sup.attrs
        ensures !Trusts(attrs[name], sup.attrs[name])
        ensures Covers(attrs[name], sup.attrs[name]) ==> Alike(attrs[name], sup.attrs[name])
      {
        PlainAlike(attrs[name], sup.attrs[name]);
      }
      if Covers(sub, sup) {
        forall name | name in attrs
          ensures name in sup.attrs && Alike(attrs[name], sup.attrs[name])
        {
          assert AttributeCovers(attrs[name], name in optional, sup, name);
        }
      }
    case _ =>
  }

  /** On such types the comparison is exactly containment of payloads. */
  lemma PlainSubtypingIff(sub: Type, sup: Type)
    requires Plain(sub) && Plain(sup)
    ensures TypeCompatSubset(sub, sup) <==> Contains(sub, sup)
  {
    PlainAlike(sub, sup);
    SubtypingExactIff(sub, sup);
    ContainsIff(sub, sup);
  }

  // ----------------------------------------------------------- what the document forgets

  /** Map values and tuple elements are not written into the document. */
  ghost predicate Lossless(t: Type) {
    match t
    case Tuple(_) => false
    case MapOf(e) => e.Nil? || e.Dynamic?
    case List(e) => Lossless(e)
    case SetOf(e) => Lossless(e)
    case Object(attrs, _) => forall name :: name in attrs ==> Lossless(attrs[name])
    case _ => true
  }

  lemma {:induction false} ValidPayloadInhabits(t: Type, p: Json)
    requires SchemaOf(t).Some? && Lossless(t) && Validates(p, SchemaOf(t).value)
    ensures Inhabits(p, t)
  {
    match t
    case Object(attrs, optional) =>
      forall name | name in attrs && name in p.members
        ensures Inhabits(p.members[name], attrs[name])
      {
        ValidPayloadInhabits(attrs[name], p.members[name]);
      }
    case List(e) =>
      forall v | v in p.items
        ensures Inhabits(v, e)
      {
        ValidPayloadInhabits(e, v);
      }
    case SetOf(e) =>
      forall v | v in p.items
        ensures Inhabits(v, e)
      {
        ValidPayloadInhabits(e, v);
      }
    case _ =>
  }

  lemma {:induction false} NoOvertrustInSelf(t: Type)
    ensures SchemaOf(t).Some? ==> !Overtrusts(t, t)
  {
    match t
    case List(e) => NoOvertrustInSelf(e);
    case SetOf(e) => NoOvertrustInSelf(e);
    case Object(attrs, _) =>
      forall name | name in attrs
        ensures SchemaOf(t).Some? ==> !Overtrusts(attrs[name], attrs[name])
      {
        NoOvertrustInSelf(attrs[name]);
      }
    case _ =>
  }

  lemma SampleValidates(t: Type)
    requires SchemaOf(t).Some?
    ensures Validates(Sample(t), SchemaOf(t).value)
  {
    Reflexive(t);
    NoOvertrustInSelf(t);
    PayloadsValidate(t, t, Sample(t));
  }

  lemma MemberValidates(t: Type, name: Name, v: Json)
    requires t.Object? && SchemaOf(t).Some? && name in t.attrs
    requires Validates(v, SchemaOf(t.attrs[name]).value)
    ensures Validates(WithMember(t, name, v), SchemaOf(t).value)
  {
    hide SortedKeys, Needed, WithMember, Inhabits;
    SampleValidates(t);
  }

  lemma {:induction false} ForgottenPart(t: Type) returns (p: Json)
    requires SchemaOf(t).Some? && !Lossless(t)
    ensures Validates(p, SchemaOf(t).value) && !Inhabits(p, t)
  {
    match t
    case Tuple(es) => p := JArray(seq(|es| + 1, _ => JNull));
    case MapOf(e) =>
      p := JObject(map["" := Foreign(e)]);
      assert "" in p.members;
    case List(e) =>
      var v := ForgottenPart(e);
      p := JArray([v]);
      assert v in p.items;
    case SetOf(e) =>
      var v := ForgottenPart(e);
      p := JArray([v]);
      assert v in p.items;
    case Object(attrs, _) =>
      var name :| name in attrs && !Lossless(attrs[name]);
      var v := ForgottenPart(attrs[name]);
      p := WithMember(t, name, v);
      MemberValidates(t, name, v);
  }

  /** The document accepts nothing but payloads of the type exactly when the type has no
      tuple, and no map with typed values, that the document would have to describe. */
  lemma SchemaExactIff(t: Type)
    requires SchemaOf(t).Some?
    ensures (forall p :: Validates(p, SchemaOf(t).value) <==> Inhabits(p, t)) <==> Lossless(t)
  {
    Reflexive(t);
    NoOvertrustInSelf(t);
    if Lossless(t) {
      forall p
        ensures Validates(p, SchemaOf(t).value) <==> Inhabits(p, t)
      {
        if Inhabits(p, t) {
          PayloadsValidate(t, t, p);
        } else if Validates(p, SchemaOf(t).value) {
          ValidPayloadInhabits(t, p);
        }
      }
    } else {
      var p := ForgottenPart(t);
    }
  }
}
