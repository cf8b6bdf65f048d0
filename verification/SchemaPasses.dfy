/** apps/server/scripts/openapi-schema-normalizer.ts and export-openapi.ts: the two rewriting passes
    as functions of a document. */
module SchemaPasses {
  import opened Wrappers
  import opened Json

  predicate IsNullSchema(v: Value) {
    v.Obj? && Has(v.fields, "type", Str("null"))
  }

  function StringConst(v: Value): Option<string> {
    if !v.Obj? then None
    else if "type" in v.fields && v.fields["type"] != Str("string") then None
    else if "const" in v.fields && v.fields["const"].Str? then Some(v.fields["const"].s)
    else None
  }

  // ------------------------------------------------------------------------------ const pass

  datatype Scan = Fails | Union(values: seq<string>, nullable: bool)

  /** The loop over `anyOf`: null members set the flag, string constants are collected, anything
      else ends it. */
  function ScanUnion(items: seq<Value>): Scan {
    if items == [] then Union([], false)
    else
      match ScanUnion(items[1..])
      case Fails => Fails
      case Union(values, nullable) =>
        if IsNullSchema(items[0]) then Union(values, true)
        else
          match StringConst(items[0])
          case None => Fails
          case Some(c) => Union([c] + values, nullable)
  }

  /** Each value once, in the order of first occurrence. */
  function Dedupe(values: seq<string>): seq<string> {
    if values == [] then []
    else
      var rest := Dedupe(values[..|values| - 1]);
      var last := values[|values| - 1];
      if last in rest then rest else rest + [last]
  }

  predicate Collapses(m: Fields) {
    HasArray(m, "anyOf") && var scan := ScanUnion(m["anyOf"].items); scan.Union? && scan.values != []
  }

  function Strings(values: seq<string>): seq<Value> {
    seq(|values|, i requires 0 <= i < |values| => Str(values[i]))
  }

  predicate CollapseNullable(m: Fields)
    requires Collapses(m)
  {
    ScanUnion(m["anyOf"].items).nullable || Has(m, "nullable", Bool(true))
  }

  function Collapse(m: Fields): Fields
    requires Collapses(m)
  {
    var nullable := CollapseNullable(m);
    var enum := Strings(Dedupe(ScanUnion(m["anyOf"].items).values)) + if nullable then [Null] else [];
    var r := (m - {"anyOf"})["type" := Str("string")]["enum" := Arr(enum)];
    if nullable then r["nullable" := Bool(true)] else r
  }

  function RewriteConst(m: Fields): Fields {
    match StringConst(Obj(m))
    case None => m
    case Some(c) => (m - {"const"})["type" := Str("string")]["enum" := Arr([Str(c)])]
  }

  function ConstPass(v: Value): Value {
    match v
    case Arr(items) => Arr(seq(|items|, i requires 0 <= i < |items| => ConstPass(items[i])))
    case Obj(m) =>
      if Collapses(m) then Obj(Collapse(m))
      else Obj(RewriteConst(map k | k in m :: ConstPass(m[k])))
    case _ => v
  }

  // --------------------------------------------------------------------------- nullable pass

  /** The other member of a two-member union with null, when it is a record. */
  function NullPartner(m: Fields): Option<Fields> {
    if !HasArray(m, "anyOf") || |m["anyOf"].items| != 2 then None
    else
      var items := m["anyOf"].items;
      if IsNullSchema(items[0]) then (if items[1].Obj? then Some(items[1].fields) else None)
      else if IsNullSchema(items[1]) then (if items[0].Obj? then Some(items[0].fields) else None)
      else None
  }

  function ListNull(m: Fields): Fields {
    if HasArray(m, "enum") && Null !in m["enum"].items then m["enum" := Arr(m["enum"].items + [Null])] else m
  }

  function MergeNullable(m: Fields): Fields {
    match NullPartner(m)
    case None => m
    case Some(schema) => ListNull((m - {"anyOf"}) + schema + map["nullable" := Bool(true)])
  }

  function NullablePass(v: Value): Value {
    match v
    case Arr(items) => Arr(seq(|items|, i requires 0 <= i < |items| => NullablePass(items[i])))
    case Obj(m) => Obj(MergeNullable(map k | k in m :: NullablePass(m[k])))
    case _ => v
  }

  // -------------------------------------------------------------------------------- fragment

  function MapConst(m: Fields): Fields {
    map k | k in m :: ConstPass(m[k])
  }

  function MapNullable(m: Fields): Fields {
    map k | k in m :: NullablePass(m[k])
  }

  /** Data in which the passes find no record to rewrite. */
  predicate Plain(v: Value) {
    match v
    case Arr(items) => forall i :: 0 <= i < |items| ==> Plain(items[i])
    case Obj(m) =>
      && !Collapses(m) && StringConst(v).None? && NullPartner(m).None?
      && forall k :: k in m ==> Plain(m[k])
    case _ => true
  }

  /** No keywords but these and annotations. */
  predicate Only(m: Fields, keys: set<string>) {
    forall k :: k in m ==> k in keys || k in ANNOTATIONS
  }

  /** The nullable pass will merge a member of this union into it. */
  predicate Merges(m: Fields) {
    NullPartner(MapNullable(m)).Some?
  }

  /** A null schema or a string constant that says nothing else, or some other schema. */
  predicate BareMember(s: Value) {
    && (IsNullSchema(s) ==> Only(s.fields, {"type"}))
    && (StringConst(s).Some? ==> Only(s.fields, {"type", "const"}))
  }

  /** A union beside which nothing is said, apart from annotations and `nullable`. */
  predicate StandsAlone(m: Fields) {
    HasArray(m, "anyOf") && Only(m, {"anyOf", "nullable"})
    && forall i :: 0 <= i < |m["anyOf"].items| ==> BareMember(m["anyOf"].items[i])
  }

  /** The schemas in which no rewriting overwrites or drops what another keyword says: unions that a pass takes
      apart stand alone, and a string constant has no enum beside it that excludes it and is not marked
      nullable. Keywords that hold no schema hold data in which there is nothing to rewrite. */
  predicate InFragment(s: Value)
    decreases s, 2
  {
    s.Bool? || (s.Obj? && FieldsInFragment(s))
  }

  predicate FieldsInFragment(s: Value)
    requires s.Obj?
    decreases s, 1
  {
    var m := s.fields;
    && (forall k :: k in m && k !in SCHEMA_KEYWORDS ==> Plain(m[k]))
    && (StringConst(s).Some? ==> EnumOk(m, Str(StringConst(s).value)) && !Has(m, "nullable", Bool(true)))
    && (Collapses(m) || Merges(m) ==> StandsAlone(m))
    && PartsInFragment(s)
  }

  predicate PartsInFragment(s: Value)
    requires s.Obj?
    decreases s, 0
  {
    var m := s.fields;
    && (forall k :: k in m && k in {"anyOf", "allOf", "oneOf"} ==>
          m[k].Arr? && forall i :: 0 <= i < |m[k].items| ==> InFragment(m[k].items[i]))
    && (forall k :: k in m && k in {"not", "items", "additionalProperties"} ==> InFragment(m[k]))
    && (forall k :: k in m && k in {"properties", "patternProperties"} ==>
          m[k].Obj? && forall name :: name in m[k].fields ==> InFragment(m[k].fields[name]))
  }
}
