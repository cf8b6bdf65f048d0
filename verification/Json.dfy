/** JSON documents as trees, and what a schema document accepts. */
module Json {

  datatype Value =
    | Null
    | Bool(b: bool)
    | Num(n: real)
    | Str(s: string)
    | Arr(items: seq<Value>)
    | Obj(fields: map<string, Value>)

  type Fields = map<string, Value>

  predicate Has(m: Fields, key: string, v: Value) {
    key in m && m[key] == v
  }

  predicate HasArray(m: Fields, key: string) {
    key in m && m[key].Arr?
  }

  // ----------------------------------------------------------------------- schema semantics

  /** The keywords whose values hold schemas: in a list, by themselves, or under names or patterns of names. */
  const SCHEMA_KEYWORDS :=
    {"anyOf", "allOf", "oneOf", "not", "items", "additionalProperties", "properties", "patternProperties"}

  /** Those, and the others that the two passes read or write. */
  const KNOWN := SCHEMA_KEYWORDS + {"type", "const", "enum", "nullable"}

  predicate IsKind(kind: string, v: Value) {
    match kind
    case "null" => v.Null?
    case "boolean" => v.Bool?
    case "number" => v.Num?
    case "integer" => v.Num? && v.n == v.n.Floor as real
    case "string" => v.Str?
    case "array" => v.Arr?
    case "object" => v.Obj?
    case _ => false
  }

  /** `type`: section 6.1.1 of JSON Schema Validation 2020-12; a name, or a list of names. */
  predicate OfType(names: Value, v: Value) {
    match names
    case Str(name) => IsKind(name, v)
    case Arr(items) => exists i :: 0 <= i < |items| && items[i].Str? && IsKind(items[i].s, v)
    case _ => false
  }

  predicate KindOk(m: Fields, v: Value) {
    "type" in m ==> OfType(m["type"], v)
  }

  /** `const`: section 6.1.3 of JSON Schema Validation 2020-12. */
  predicate ConstOk(m: Fields, v: Value) {
    "const" in m ==> v == m["const"]
  }

  /** `enum`: section 6.1.2 of JSON Schema Validation 2020-12. */
  predicate EnumOk(m: Fields, v: Value) {
    HasArray(m, "enum") ==> v in m["enum"].items
  }

  /** Section 9 of JSON Schema Validation 2020-12, and `example` of OpenAPI 3.0.3: they describe. */
  const ANNOTATIONS := {"default", "deprecated", "description", "example", "examples", "readOnly", "title", "writeOnly"}

  /** What the verdict of a schema depends on besides the schema: how keywords outside KNOWN (formats, lengths, ...)
      judge an instance, given keyword, its value and the instance; which names a pattern matches; and the
      reading of `nullable`. */
  datatype Oracle = Oracle(judge: (string, Value, Value) -> bool, matches: (string, string) -> bool, strict: bool)

  ghost predicate OthersOk(m: Fields, v: Value, other: Oracle) {
    forall key :: key in m && key !in KNOWN ==> other.judge(key, m[key], v)
  }

  /** Annotations reject nothing. */
  ghost predicate Lenient(other: Oracle) {
    forall key, value, v :: key in ANNOTATIONS ==> other.judge(key, value, v)
  }

  ghost predicate ExactlyOne(verdicts: seq<bool>) {
    exists i :: 0 <= i < |verdicts| && verdicts[i] && forall k :: 0 <= k < |verdicts| && verdicts[k] ==> k == i
  }

  /** The verdicts of a list of schemas, in order. */
  ghost function Verdicts(list: Value, v: Value, other: Oracle): seq<bool>
    requires list.Arr?
    decreases list, 0
  {
    seq(|list.items|, i requires 0 <= i < |list.items| => Accepts(list.items[i], v, other))
  }

  /** Read strictly, as OpenAPI 3.0.3 has it, `nullable: true` adds null to the `type` given beside it, and
      without a `type` it says nothing. */
  predicate KindAllows(m: Fields, v: Value, other: Oracle) {
    KindOk(m, v) || (other.strict && v.Null? && "type" in m && Has(m, "nullable", Bool(true)))
  }

  /** Read widely, `nullable: true` admits null past every keyword but `enum`, which must list it. */
  predicate NullAllowed(m: Fields, v: Value, other: Oracle) {
    !other.strict && v.Null? && Has(m, "nullable", Bool(true)) && EnumOk(m, v)
  }

  ghost predicate Accepts(s: Value, v: Value, other: Oracle)
    decreases s, 2
  {
    if s.Bool? then s.b
    else if !s.Obj? then false
    else
      || NullAllowed(s.fields, v, other)
      || (&& KindAllows(s.fields, v, other) && ConstOk(s.fields, v) && EnumOk(s.fields, v)
          && OthersOk(s.fields, v, other) && NestedOk(s, v, other))
  }

  ghost predicate NestedOk(s: Value, v: Value, other: Oracle)
    requires s.Obj?
    decreases s, 1
  {
    var m := s.fields;
    && (HasArray(m, "anyOf") ==> true in Verdicts(m["anyOf"], v, other))
    && (HasArray(m, "allOf") ==> false !in Verdicts(m["allOf"], v, other))
    && (HasArray(m, "oneOf") ==> ExactlyOne(Verdicts(m["oneOf"], v, other)))
    && ("not" in m ==> !Accepts(m["not"], v, other))
    && ("items" in m && v.Arr? ==> forall i :: 0 <= i < |v.items| ==> Accepts(m["items"], v.items[i], other))
    && (v.Obj? ==> FieldsOk(s, v, other))
  }

  predicate HasFields(m: Fields, key: string) {
    key in m && m[key].Obj?
  }

  /** The field is neither named nor matched by a pattern. */
  ghost predicate IsAdditional(m: Fields, key: string, other: Oracle) {
    && (HasFields(m, "properties") ==> key !in m["properties"].fields)
    && (HasFields(m, "patternProperties") ==>
          forall pattern :: pattern in m["patternProperties"].fields ==> !other.matches(pattern, key))
  }

  /** `properties`, `patternProperties` and `additionalProperties`: section 10.3.2 of JSON Schema 2020-12. */
  ghost predicate FieldsOk(s: Value, v: Value, other: Oracle)
    requires s.Obj? && v.Obj?
    decreases s, 0
  {
    var m := s.fields;
    && (HasFields(m, "properties") ==>
          forall key :: key in m["properties"].fields && key in v.fields ==>
            Accepts(m["properties"].fields[key], v.fields[key], other))
    && (HasFields(m, "patternProperties") ==>
          forall pattern, key ::
            pattern in m["patternProperties"].fields && key in v.fields && other.matches(pattern, key) ==>
            Accepts(m["patternProperties"].fields[pattern], v.fields[key], other))
    && ("additionalProperties" in m ==>
          forall key :: key in v.fields && IsAdditional(m, key, other) ==>
            Accepts(m["additionalProperties"], v.fields[key], other))
  }
}
