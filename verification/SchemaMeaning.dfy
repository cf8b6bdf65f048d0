/** Both schema passes keep the accepted instances of every schema in the fragment. */
module SchemaMeaning {
  import opened Wrappers
  import opened Json
  import opened SchemaPasses

  // ----------------------------------------------------------------------- schemas in a schema

  /** `p` holds of the schema and of every schema within it. */
  ghost predicate Everywhere(s: Value, p: Value -> bool)
    decreases s, 1
  {
    p(s) && (s.Obj? ==> InParts(s, p))
  }

  ghost predicate InParts(s: Value, p: Value -> bool)
    requires s.Obj?
    decreases s, 0
  {
    var m := s.fields;
    && (forall k :: k in m && k in {"anyOf", "allOf", "oneOf"} && m[k].Arr? ==>
          forall i :: 0 <= i < |m[k].items| ==> Everywhere(m[k].items[i], p))
    && (forall k :: k in m && k in {"not", "items", "additionalProperties"} ==> Everywhere(m[k], p))
    && (forall k :: k in m && k in {"properties", "patternProperties"} && m[k].Obj? ==>
          forall name :: name in m[k].fields ==> Everywhere(m[k].fields[name], p))
  }

  /** A union of constants that is marked nullable lists null too. The collapse turns the mark into a null
      that counts, which under the wide reading it was already. */
  predicate MarkIsListed(s: Value, other: Oracle) {
    other.strict && s.Obj? && Collapses(s.fields) && Has(s.fields, "nullable", Bool(true)) ==>
      ScanUnion(s.fields["anyOf"].items).nullable
  }

  ghost function ConstSafe(other: Oracle): Value -> bool {
    s => MarkIsListed(s, other)
  }

  /** What is asked of a schema besides its type and its enum lets null through. */
  ghost predicate TakesNull(schema: Fields, other: Oracle) {
    ConstOk(schema, Null) && OthersOk(schema, Null, other) && NestedOk(Obj(schema), Null, other)
  }

  /** The schema that the nullable pass brings up out of a union with null takes null once it is marked. */
  ghost predicate PartnerTakesNull(s: Value, other: Oracle) {
    other.strict && s.Obj? && NullPartner(MapNullable(s.fields)).Some? ==>
      TakesNull(NullPartner(MapNullable(s.fields)).value, other)
  }

  ghost function NullableSafe(other: Oracle): Value -> bool {
    s => PartnerTakesNull(s, other)
  }

  // ------------------------------------------------------------------------------- annotations

  lemma OnlyOthers(m: Fields, keys: set<string>, v: Value, other: Oracle)
    requires Only(m, keys) && keys <= KNOWN && Lenient(other)
    ensures OthersOk(m, v, other)
  {
  }

  lemma OnlyLacks(m: Fields, keys: set<string>, key: string)
    requires Only(m, keys) && key in KNOWN && key !in keys
    ensures key !in m
  {
  }

  ghost predicate NoParts(m: Fields) {
    forall k :: k in SCHEMA_KEYWORDS ==> k !in m
  }

  lemma OnlyNoParts(m: Fields, keys: set<string>)
    requires Only(m, keys) && keys <= {"type", "const", "enum", "nullable"}
    ensures NoParts(m)
  {
  }

  lemma NoPartsNested(m: Fields, v: Value, other: Oracle)
    requires NoParts(m)
    ensures NestedOk(Obj(m), v, other)
  {
    assert forall k :: k in SCHEMA_KEYWORDS ==> k !in m;
  }

  /** A union and nothing beside it. */
  ghost predicate BareUnion(m: Fields) {
    && HasArray(m, "anyOf") && "type" !in m && "const" !in m && "enum" !in m
    && forall k :: k in SCHEMA_KEYWORDS && k != "anyOf" ==> k !in m
  }

  lemma OnlyUnion(m: Fields)
    requires Only(m, {"anyOf", "nullable"}) && HasArray(m, "anyOf")
    ensures BareUnion(m)
  {
  }

  lemma BareUnionNested(m: Fields, v: Value, other: Oracle)
    requires BareUnion(m)
    ensures NestedOk(Obj(m), v, other) <==> true in Verdicts(m["anyOf"], v, other)
  {
    assert forall k :: k in SCHEMA_KEYWORDS && k != "anyOf" ==> k !in m;
  }

  lemma BareUnionVerdict(m: Fields, v: Value, other: Oracle)
    requires BareUnion(m) && OthersOk(m, v, other)
    ensures Accepts(Obj(m), v, other) <==>
            (v.Null? && !other.strict && Has(m, "nullable", Bool(true))) || true in Verdicts(m["anyOf"], v, other)
  {
    BareUnionNested(m, v, other);
  }

  /** A record that only states its type and an enum. */
  lemma EnumVerdict(m: Fields, v: Value, other: Oracle)
    requires NoParts(m) && "const" !in m && Has(m, "type", Str("string")) && HasArray(m, "enum")
        && OthersOk(m, v, other)
    ensures Accepts(Obj(m), v, other) <==>
            v in m["enum"].items && (v.Str? || (v.Null? && Has(m, "nullable", Bool(true))))
  {
    NoPartsNested(m, v, other);
  }

  // ------------------------------------------------------------------------- collected unions

  ghost predicate InUnion(scan: Scan, v: Value) {
    scan.Union? && ((v.Null? && scan.nullable) || (v.Str? && v.s in scan.values))
  }

  /** A schema that states one type and nothing else. */
  lemma TypeVerdict(m: Fields, name: string, v: Value, other: Oracle)
    requires Has(m, "type", Str(name)) && Only(m, {"type"}) && Lenient(other)
    ensures Accepts(Obj(m), v, other) <==> IsKind(name, v)
  {
    OnlyOthers(m, {"type"}, v, other);
    OnlyNoParts(m, {"type"});
    OnlyLacks(m, {"type"}, "const");
    OnlyLacks(m, {"type"}, "enum");
    OnlyLacks(m, {"type"}, "nullable");
    NoPartsNested(m, v, other);
  }

  lemma ConstMember(s: Value, v: Value, other: Oracle)
    requires StringConst(s).Some? && Only(s.fields, {"type", "const"}) && Lenient(other)
    ensures Accepts(s, v, other) <==> v == Str(StringConst(s).value)
  {
    var m := s.fields;
    OnlyOthers(m, {"type", "const"}, v, other);
    OnlyNoParts(m, {"type", "const"});
    OnlyLacks(m, {"type", "const"}, "enum");
    OnlyLacks(m, {"type", "const"}, "nullable");
    NoPartsNested(m, v, other);
  }

  lemma MemberVerdict(s: Value, v: Value, other: Oracle)
    requires BareMember(s) && (IsNullSchema(s) || StringConst(s).Some?) && Lenient(other)
    ensures Accepts(s, v, other) <==>
            if IsNullSchema(s) then v.Null? else v == Str(StringConst(s).value)
  {
    if IsNullSchema(s) {
      TypeVerdict(s.fields, "null", v, other);
    } else {
      ConstMember(s, v, other);
    }
  }

  /** Some member accepts `v` exactly when the collected constants or the null flag admit it. */
  lemma {:induction false} ScanIsMeaning(items: seq<Value>, v: Value, other: Oracle)
    requires forall i :: 0 <= i < |items| ==> BareMember(items[i])
    requires ScanUnion(items).Union? && Lenient(other)
    ensures InUnion(ScanUnion(items), v) <==> exists i :: 0 <= i < |items| && Accepts(items[i], v, other)
  {
    if items != [] {
      ScanIsMeaning(items[1..], v, other);
      var s := items[0];
      assert BareMember(s);
      MemberVerdict(s, v, other);
      assert InUnion(ScanUnion(items), v) <==> Accepts(s, v, other) || InUnion(ScanUnion(items[1..]), v);
      if exists i :: 0 <= i < |items| && Accepts(items[i], v, other) {
        var i :| 0 <= i < |items| && Accepts(items[i], v, other);
        assert i == 0 || Accepts(items[1..][i - 1], v, other);
      }
      if exists i :: 0 <= i < |items[1..]| && Accepts(items[1..][i], v, other) {
        var i :| 0 <= i < |items[1..]| && Accepts(items[1..][i], v, other);
        assert Accepts(items[i + 1], v, other);
      }
    }
  }

  lemma {:induction false} DedupeKeeps(values: seq<string>)
    ensures forall x :: x in Dedupe(values) <==> x in values
    ensures forall i, j :: 0 <= i < j < |Dedupe(values)| ==> Dedupe(values)[i] != Dedupe(values)[j]
  {
    if values != [] {
      DedupeKeeps(values[..|values| - 1]);
      assert values == values[..|values| - 1] + [values[|values| - 1]];
    }
  }

  lemma StringsMembers(values: seq<string>, v: Value)
    ensures v in Strings(values) <==> v.Str? && v.s in values
  {
    if v.Str? && v.s in values {
      var i :| 0 <= i < |values| && values[i] == v.s;
      assert Strings(values)[i] == v;
    }
  }

  lemma UnionVerdict(m: Fields, v: Value, other: Oracle)
    requires StandsAlone(m) && Collapses(m) && Lenient(other)
    ensures Accepts(Obj(m), v, other) <==>
            (v.Null? && !other.strict && Has(m, "nullable", Bool(true))) || InUnion(ScanUnion(m["anyOf"].items), v)
  {
    OnlyUnion(m);
    OnlyOthers(m, {"anyOf", "nullable"}, v, other);
    BareUnionVerdict(m, v, other);
    MembersVerdict(m["anyOf"], v, other);
  }

  lemma MembersVerdict(list: Value, v: Value, other: Oracle)
    requires list.Arr? && ScanUnion(list.items).Union? && Lenient(other)
    requires forall i :: 0 <= i < |list.items| ==> BareMember(list.items[i])
    ensures true in Verdicts(list, v, other) <==> InUnion(ScanUnion(list.items), v)
  {
    var items, verdicts := list.items, Verdicts(list, v, other);
    ScanIsMeaning(items, v, other);
    if exists i :: 0 <= i < |items| && Accepts(items[i], v, other) {
      var i :| 0 <= i < |items| && Accepts(items[i], v, other);
      assert verdicts[i];
    }
  }

  lemma CollapsedFields(m: Fields)
    requires StandsAlone(m) && Collapses(m)
    ensures var c := Collapse(m);
            && Only(c, {"type", "enum", "nullable"})
            && Has(c, "type", Str("string")) && HasArray(c, "enum")
            && (Has(c, "nullable", Bool(true)) <==> CollapseNullable(m))
  {
  }

  lemma CollapsedEnum(m: Fields, v: Value)
    requires Collapses(m)
    ensures HasArray(Collapse(m), "enum")
    ensures v in Collapse(m)["enum"].items
       <==> (v.Str? && v.s in ScanUnion(m["anyOf"].items).values) || (v.Null? && CollapseNullable(m))
  {
    var values := ScanUnion(m["anyOf"].items).values;
    DedupeKeeps(values);
    StringsMembers(Dedupe(values), v);
  }

  lemma CollapsedVerdict(m: Fields, v: Value, other: Oracle)
    requires StandsAlone(m) && Collapses(m) && Lenient(other)
    ensures Accepts(Obj(Collapse(m)), v, other) <==>
            (v.Null? && Has(m, "nullable", Bool(true))) || InUnion(ScanUnion(m["anyOf"].items), v)
  {
    var c := Collapse(m);
    CollapsedFields(m);
    CollapsedEnum(m, v);
    OnlyOthers(c, {"type", "enum", "nullable"}, v, other);
    OnlyNoParts(c, {"type", "enum", "nullable"});
    OnlyLacks(c, {"type", "enum", "nullable"}, "const");
    EnumVerdict(c, v, other);
  }

  /** A collapse changes at most the verdict on null, and that exactly when only the mark spoke of null and
      is read strictly. */
  lemma CollapseMeaning(m: Fields, v: Value, other: Oracle)
    requires StandsAlone(m) && Collapses(m) && Lenient(other)
    ensures (Accepts(Obj(Collapse(m)), v, other) <==> Accepts(Obj(m), v, other)) <==>
            !v.Null? || MarkIsListed(Obj(m), other)
  {
    UnionVerdict(m, v, other);
    CollapsedVerdict(m, v, other);
  }

  // --------------------------------------------------------------------------------- plain data

  lemma {:induction false} PlainUnchanged(v: Value)
    requires Plain(v)
    ensures ConstPass(v) == v && NullablePass(v) == v
  {
    if v.Arr? {
      forall i | 0 <= i < |v.items|
        ensures ConstPass(v.items[i]) == v.items[i] && NullablePass(v.items[i]) == v.items[i]
      {
        PlainUnchanged(v.items[i]);
      }
    } else if v.Obj? {
      forall k | k in v.fields
        ensures ConstPass(v.fields[k]) == v.fields[k] && NullablePass(v.fields[k]) == v.fields[k]
      {
        PlainUnchanged(v.fields[k]);
      }
      assert MapConst(v.fields) == v.fields && MapNullable(v.fields) == v.fields;
    }
  }

  // ---------------------------------------------------------------- equal parts, equal verdict

  ghost predicate SameVerdicts(s: Value, t: Value, other: Oracle) {
    forall v :: Accepts(s, v, other) <==> Accepts(t, v, other)
  }

  /** The keywords that hold a list of schemas, one schema, or schemas under names have the same verdicts. */
  ghost predicate SameLists(m: Fields, n: Fields, other: Oracle) {
    forall k :: k in m && k in n && k in {"anyOf", "allOf", "oneOf"} ==>
      && m[k].Arr? && n[k].Arr? && |m[k].items| == |n[k].items|
      && forall i :: 0 <= i < |m[k].items| ==> SameVerdicts(m[k].items[i], n[k].items[i], other)
  }

  ghost predicate SameSingles(m: Fields, n: Fields, other: Oracle) {
    forall k :: k in m && k in n && k in {"not", "items", "additionalProperties"} ==> SameVerdicts(m[k], n[k], other)
  }

  ghost predicate SameMaps(m: Fields, n: Fields, other: Oracle) {
    forall k :: k in m && k in n && k in {"properties", "patternProperties"} ==>
      && m[k].Obj? && n[k].Obj? && m[k].fields.Keys == n[k].fields.Keys
      && forall name :: name in m[k].fields ==> SameVerdicts(m[k].fields[name], n[k].fields[name], other)
  }

  /** `n` has the keywords of `m`: plain ones unchanged, schema-valued ones with equal verdicts. */
  ghost predicate SameParts(m: Fields, n: Fields, other: Oracle) {
    && m.Keys == n.Keys
    && (forall k :: k in m && k !in SCHEMA_KEYWORDS ==> n[k] == m[k])
    && SameLists(m, n, other) && SameSingles(m, n, other) && SameMaps(m, n, other)
  }

  lemma SameListVerdicts(m: Fields, n: Fields, k: string, v: Value, other: Oracle)
    requires m.Keys == n.Keys && SameLists(m, n, other) && k in {"anyOf", "allOf", "oneOf"}
    ensures HasArray(m, k) <==> HasArray(n, k)
    ensures HasArray(m, k) ==> Verdicts(m[k], v, other) == Verdicts(n[k], v, other)
  {
    assert k in m.Keys <==> k in n.Keys;
    if HasArray(m, k) {
      forall i | 0 <= i < |m[k].items|
        ensures Accepts(m[k].items[i], v, other) <==> Accepts(n[k].items[i], v, other)
      {
        assert SameVerdicts(m[k].items[i], n[k].items[i], other);
      }
    }
  }

  lemma SameNamed(m: Fields, n: Fields, k: string, name: string, v: Value, other: Oracle)
    requires SameMaps(m, n, other) && k in {"properties", "patternProperties"} && k in m && k in n
    requires m[k].Obj? && name in m[k].fields
    ensures n[k].Obj? && name in n[k].fields
    ensures Accepts(m[k].fields[name], v, other) <==> Accepts(n[k].fields[name], v, other)
  {
    assert SameVerdicts(m[k].fields[name], n[k].fields[name], other);
  }

  lemma SameAdditional(m: Fields, n: Fields, key: string, other: Oracle)
    requires m.Keys == n.Keys && SameMaps(m, n, other)
    ensures IsAdditional(m, key, other) <==> IsAdditional(n, key, other)
  {
    assert forall k :: k in m <==> k in n;
  }

  lemma SameFields(m: Fields, n: Fields, v: Value, other: Oracle)
    requires m.Keys == n.Keys && SameMaps(m, n, other) && SameSingles(m, n, other) && v.Obj?
    ensures FieldsOk(Obj(m), v, other) ==> FieldsOk(Obj(n), v, other)
  {
    assert forall k :: k in m <==> k in n;
    if FieldsOk(Obj(m), v, other) {
      if HasFields(n, "properties") {
        forall key | key in n["properties"].fields && key in v.fields
          ensures Accepts(n["properties"].fields[key], v.fields[key], other)
        {
          SameNamed(m, n, "properties", key, v.fields[key], other);
        }
      }
      if HasFields(n, "patternProperties") {
        forall pattern, key |
          pattern in n["patternProperties"].fields && key in v.fields && other.matches(pattern, key)
          ensures Accepts(n["patternProperties"].fields[pattern], v.fields[key], other)
        {
          SameNamed(m, n, "patternProperties", pattern, v.fields[key], other);
        }
      }
      if "additionalProperties" in n {
        forall key | key in v.fields && IsAdditional(n, key, other)
          ensures Accepts(n["additionalProperties"], v.fields[key], other)
        {
          SameAdditional(m, n, key, other);
          assert SameVerdicts(m["additionalProperties"], n["additionalProperties"], other);
        }
      }
    }
  }

  lemma SameSymmetric(m: Fields, n: Fields, other: Oracle)
    requires m.Keys == n.Keys && SameMaps(m, n, other) && SameSingles(m, n, other)
    ensures SameMaps(n, m, other) && SameSingles(n, m, other)
  {
  }

  lemma SameNested(m: Fields, n: Fields, v: Value, other: Oracle)
    requires SameParts(m, n, other)
    ensures NestedOk(Obj(m), v, other) <==> NestedOk(Obj(n), v, other)
  {
    assert forall k :: k in m <==> k in n;
    SameListVerdicts(m, n, "anyOf", v, other);
    SameListVerdicts(m, n, "allOf", v, other);
    SameListVerdicts(m, n, "oneOf", v, other);
    if "not" in m {
      assert SameVerdicts(m["not"], n["not"], other);
    }
    if "items" in m {
      assert SameVerdicts(m["items"], n["items"], other);
    }
    if v.Obj? {
      SameFields(m, n, v, other);
      SameSymmetric(m, n, other);
      SameFields(n, m, v, other);
    }
  }

  lemma SamePartsSameVerdict(m: Fields, n: Fields, v: Value, other: Oracle)
    requires SameParts(m, n, other)
    ensures Accepts(Obj(m), v, other) <==> Accepts(Obj(n), v, other)
  {
    SameNested(m, n, v, other);
    SamePlain(m, n, v, other);
  }

  lemma SamePlain(m: Fields, n: Fields, v: Value, other: Oracle)
    requires m.Keys == n.Keys && forall k :: k in m && k !in SCHEMA_KEYWORDS ==> n[k] == m[k]
    ensures OthersOk(m, v, other) <==> OthersOk(n, v, other)
    ensures forall k :: k in {"type", "const", "enum", "nullable"} ==> (k in m <==> k in n) && (k in m ==> m[k] == n[k])
  {
    assert forall k :: k in m.Keys <==> k in n.Keys;
  }

  // ------------------------------------------------------------------------------ const pass

  /** Schemas under names are no schema themselves, whatever the names are. */
  lemma NamesAreOrdinary(props: Fields)
    requires forall name :: name in props ==> InFragment(props[name])
    ensures ConstPass(Obj(props)) == Obj(MapConst(props)) && NullablePass(Obj(props)) == Obj(MapNullable(props))
  {
    assert !HasArray(props, "anyOf");
    if "const" in props {
      assert !ConstPass(props["const"]).Str?;
    }
    var n := MapNullable(props);
    assert "anyOf" in n ==> !n["anyOf"].Arr?;
  }

  lemma ConstPassParts(s: Value, other: Oracle)
    requires InFragment(s) && s.Obj? && Lenient(other) && InParts(s, ConstSafe(other))
    ensures SameParts(s.fields, MapConst(s.fields), other)
    decreases s, 0
  {
    var m := s.fields;
    assert FieldsInFragment(s);
    forall k | k in m && k !in SCHEMA_KEYWORDS ensures ConstPass(m[k]) == m[k] {
      PlainUnchanged(m[k]);
    }
    forall k, i | k in m && k in {"anyOf", "allOf", "oneOf"} && 0 <= i < |m[k].items|
      ensures SameVerdicts(m[k].items[i], ConstPass(m[k].items[i]), other)
    {
      ConstPassKeeps(m[k].items[i], other);
    }
    forall k | k in m && k in {"not", "items", "additionalProperties"}
      ensures SameVerdicts(m[k], ConstPass(m[k]), other)
    {
      ConstPassKeeps(m[k], other);
    }
    forall k | k in m && k in {"properties", "patternProperties"}
      ensures ConstPass(m[k]) == Obj(MapConst(m[k].fields))
    {
      NamesAreOrdinary(m[k].fields);
    }
    forall k, name | k in m && k in {"properties", "patternProperties"} && name in m[k].fields
      ensures SameVerdicts(m[k].fields[name], ConstPass(m[k].fields[name]), other)
    {
      ConstPassKeeps(m[k].fields[name], other);
    }
  }

  /** Keywords that speak of the type and of single values; all others agree. */
  ghost predicate SameBut(m: Fields, n: Fields) {
    forall k :: k !in {"type", "const", "enum", "nullable"} && k !in ANNOTATIONS ==>
      (k in n <==> k in m) && (k in n ==> n[k] == m[k])
  }

  lemma SameButVerdicts(m: Fields, n: Fields, v: Value, other: Oracle)
    requires SameBut(m, n) && Lenient(other)
    ensures NestedOk(Obj(n), v, other) <==> NestedOk(Obj(m), v, other)
    ensures OthersOk(n, v, other) <==> OthersOk(m, v, other)
  {
    SameButSchemas(m, n);
    SameSchemasNested(m, n, v, other);
    SameButOthers(m, n, v, other);
  }

  /** The keywords that hold schemas are the same. */
  ghost predicate SameSchemas(m: Fields, n: Fields) {
    forall k :: k in SCHEMA_KEYWORDS ==> (k in n <==> k in m) && (k in n ==> n[k] == m[k])
  }

  lemma SameButSchemas(m: Fields, n: Fields)
    requires SameBut(m, n)
    ensures SameSchemas(m, n)
  {
    assert SCHEMA_KEYWORDS !! ANNOTATIONS;
  }

  lemma SameSchemasNested(m: Fields, n: Fields, v: Value, other: Oracle)
    requires SameSchemas(m, n)
    ensures NestedOk(Obj(n), v, other) <==> NestedOk(Obj(m), v, other)
  {
    if v.Obj? {
      SameSchemasFields(m, n, v, other);
    }
  }

  lemma SameSchemasFields(m: Fields, n: Fields, v: Value, other: Oracle)
    requires SameSchemas(m, n) && v.Obj?
    ensures FieldsOk(Obj(n), v, other) <==> FieldsOk(Obj(m), v, other)
  {
    forall key ensures IsAdditional(m, key, other) <==> IsAdditional(n, key, other) {
      assert "properties" in SCHEMA_KEYWORDS && "patternProperties" in SCHEMA_KEYWORDS;
    }
  }

  lemma SameButOthers(m: Fields, n: Fields, v: Value, other: Oracle)
    requires SameBut(m, n) && Lenient(other)
    ensures OthersOk(n, v, other) <==> OthersOk(m, v, other)
  {
  }

  /** A string constant and its enum of one, whatever stands beside them. */
  lemma RewriteMeaning(m: Fields, c: string, v: Value, other: Oracle)
    requires StringConst(Obj(m)) == Some(c) && EnumOk(m, Str(c)) && !Has(m, "nullable", Bool(true)) && Lenient(other)
    ensures Accepts(Obj(RewriteConst(m)), v, other) <==> Accepts(Obj(m), v, other)
  {
    var r := RewriteConst(m);
    assert r["type"] == Str("string") && r["enum"] == Arr([Str(c)]) && "const" !in r;
    assert Has(r, "nullable", Bool(true)) <==> Has(m, "nullable", Bool(true));
    SameButVerdicts(m, r, v, other);
    EnumOfOne(m, r, c, v, other);
  }

  lemma EnumOfOne(m: Fields, r: Fields, c: string, v: Value, other: Oracle)
    requires StringConst(Obj(m)) == Some(c) && EnumOk(m, Str(c))
    requires !Has(m, "nullable", Bool(true)) && !Has(r, "nullable", Bool(true))
    requires Has(r, "type", Str("string")) && Has(r, "enum", Arr([Str(c)])) && "const" !in r
    requires NestedOk(Obj(r), v, other) <==> NestedOk(Obj(m), v, other)
    requires OthersOk(r, v, other) <==> OthersOk(m, v, other)
    ensures Accepts(Obj(r), v, other) <==> Accepts(Obj(m), v, other)
  {
  }

  /** Collapsing a union or rewriting the parts: only a collapse can change the verdict. */
  lemma ConstStep(s: Value, v: Value, other: Oracle)
    requires InFragment(s) && s.Obj? && Lenient(other) && InParts(s, ConstSafe(other))
    ensures (Accepts(ConstPass(s), v, other) <==> Accepts(s, v, other)) <==> !v.Null? || MarkIsListed(s, other)
    decreases s, 1
  {
    var m := s.fields;
    assert FieldsInFragment(s);
    if Collapses(m) {
      CollapseMeaning(m, v, other);
    } else {
      var n := MapConst(m);
      ConstPassParts(s, other);
      SamePartsSameVerdict(m, n, v, other);
      ConstStays(m, n);
      if StringConst(Obj(n)).Some? {
        RewriteMeaning(n, StringConst(Obj(n)).value, v, other);
      }
    }
  }

  lemma ConstStays(m: Fields, n: Fields)
    requires InFragment(Obj(m)) && m.Keys == n.Keys && forall k :: k in m && k !in SCHEMA_KEYWORDS ==> n[k] == m[k]
    ensures StringConst(Obj(n)) == StringConst(Obj(m))
    ensures StringConst(Obj(n)).Some? ==>
              EnumOk(n, Str(StringConst(Obj(n)).value)) && !Has(n, "nullable", Bool(true))
  {
    assert FieldsInFragment(Obj(m));
    SameValues(m, n, "type");
    SameValues(m, n, "const");
    SameValues(m, n, "enum");
    SameValues(m, n, "nullable");
  }

  lemma SameValues(m: Fields, n: Fields, k: string)
    requires m.Keys == n.Keys && (k in m ==> k in n && n[k] == m[k])
    ensures k in m <==> k in n
    ensures forall v :: Has(n, k, v) <==> Has(m, k, v)
  {
    assert k in m.Keys <==> k in n.Keys;
  }

  lemma ConstPassKeeps(s: Value, other: Oracle)
    requires InFragment(s) && Lenient(other) && Everywhere(s, ConstSafe(other))
    ensures SameVerdicts(s, ConstPass(s), other)
    decreases s, 3
  {
    forall v ensures Accepts(s, v, other) <==> Accepts(ConstPass(s), v, other) {
      ConstPassMeaning(s, v, other);
    }
  }

  /** The const pass keeps the accepted instances; under the strict reading, of documents in which each
      union of constants that is marked nullable lists null. */
  lemma ConstPassMeaning(s: Value, v: Value, other: Oracle)
    requires InFragment(s) && Lenient(other) && Everywhere(s, ConstSafe(other))
    ensures Accepts(ConstPass(s), v, other) <==> Accepts(s, v, other)
    decreases s, 2
  {
    if s.Obj? {
      assert ConstSafe(other)(s);
      ConstStep(s, v, other);
    }
  }

  // --------------------------------------------------------------- what the const pass leaves

  lemma CollapseInFragment(m: Fields)
    requires InFragment(Obj(m)) && Collapses(m)
    ensures InFragment(Obj(Collapse(m)))
  {
    var c := Collapse(m);
    assert FieldsInFragment(Obj(m));
    CollapsedFields(m);
    OnlyNoParts(c, {"type", "enum", "nullable"});
    OnlyLacks(c, {"type", "enum", "nullable"}, "const");
    CollapsedPlain(m);
    FlatInFragment(c);
  }

  lemma FlatInFragment(m: Fields)
    requires NoParts(m) && "const" !in m && forall k :: k in m && k !in SCHEMA_KEYWORDS ==> Plain(m[k])
    ensures InFragment(Obj(m))
  {
    NoUnionLeft(m);
    SamePartsInFragment(map[], m);
  }

  lemma CollapsedPlain(m: Fields)
    requires InFragment(Obj(m)) && Collapses(m)
    ensures forall k :: k in Collapse(m) && k !in SCHEMA_KEYWORDS ==> Plain(Collapse(m)[k])
  {
    assert FieldsInFragment(Obj(m));
    assert Plain(Collapse(m)["enum"]);
  }

  lemma NoUnionLeft(m: Fields)
    requires NoParts(m)
    ensures !Collapses(m) && !Merges(m)
  {
    assert "anyOf" in SCHEMA_KEYWORDS;
    assert MapNullable(m).Keys == m.Keys;
  }

  /** No string constant comes out of the pass. */
  lemma NoConstLeft(s: Value)
    requires InFragment(s)
    ensures StringConst(ConstPass(s)).None?
  {
    if s.Obj? {
      var m := s.fields;
      assert FieldsInFragment(s);
      if Collapses(m) {
        OnlyLacks(m, {"anyOf", "nullable"}, "const");
      } else {
        assert "const" !in RewriteConst(MapConst(m)) || StringConst(Obj(MapConst(m))).None?;
      }
    }
  }

  lemma {:induction false} ScanWithoutConstants(items: seq<Value>)
    requires forall i :: 0 <= i < |items| ==> StringConst(items[i]).None?
    ensures ScanUnion(items).Union? ==> ScanUnion(items).values == []
  {
    if items != [] {
      ScanWithoutConstants(items[1..]);
    }
  }

  /** A schema that is a null schema after the pass is one before it, with the same keywords. */
  lemma NullBefore(s: Value)
    requires InFragment(s) && IsNullSchema(ConstPass(s))
    ensures IsNullSchema(s) && ConstPass(s).fields.Keys == s.fields.Keys
  {
    var m := s.fields;
    assert FieldsInFragment(s);
    if !Collapses(m) {
      assert MapConst(m).Keys == m.Keys;
      PlainUnchanged(m["type"]);
    }
  }

  lemma StringsStay(v: Value)
    ensures NullablePass(v).Str? ==> NullablePass(v) == v
    ensures ConstPass(v).Str? ==> ConstPass(v) == v
  {
  }

  /** A schema that the nullable pass makes a null schema would have become one without the const pass. */
  lemma {:induction false} NullEitherWay(s: Value)
    requires InFragment(s) && IsNullSchema(NullablePass(ConstPass(s)))
    ensures IsNullSchema(NullablePass(s))
    decreases s, 1
  {
    var m := s.fields;
    assert FieldsInFragment(s);
    if Collapses(m) {
      NotNullCollapsed(m);
      assert false;
    } else {
      var y := RewriteConst(MapConst(m));
      assert ConstPass(s) == Obj(y);
      if Merges(y) {
        UnionInPlace(m, y);
        MergesEitherWay(s, y);
        NullComesUp(m, y);
      } else {
        NullUnmerged(m, y);
      }
    }
  }

  lemma UnionInPlace(m: Fields, y: Fields)
    requires y == RewriteConst(MapConst(m)) && Merges(y)
    ensures "anyOf" in y && "anyOf" in m && y["anyOf"] == ConstPass(m["anyOf"])
  {
    assert MapNullable(y).Keys == y.Keys && MapConst(m).Keys == m.Keys;
  }

  lemma NotNullCollapsed(m: Fields)
    requires InFragment(Obj(m)) && Collapses(m)
    ensures !IsNullSchema(NullablePass(Obj(Collapse(m))))
  {
    var c := Collapse(m);
    assert FieldsInFragment(Obj(m));
    CollapsedFields(m);
    OnlyNoParts(c, {"type", "enum", "nullable"});
    NoUnionLeft(c);
    assert NullablePass(Obj(c)) == Obj(MapNullable(c));
  }

  /** The union keeps the pair that the nullable pass looks for. */
  lemma MergesEitherWay(s: Value, y: Fields)
    requires InFragment(s) && s.Obj? && Merges(y)
    requires "anyOf" in y && "anyOf" in s.fields && y["anyOf"] == ConstPass(s.fields["anyOf"])
    ensures Merges(s.fields)
    ensures Has(NullPartner(MapNullable(y)).value, "type", Str("null")) ==>
              Has(NullPartner(MapNullable(s.fields)).value, "type", Str("null"))
    decreases s, 0
  {
    var m := s.fields;
    assert FieldsInFragment(s);
    var items := m["anyOf"].items;
    assert |items| == 2;
    forall i | 0 <= i < 2 && IsNullSchema(NullablePass(ConstPass(items[i])))
      ensures IsNullSchema(NullablePass(items[i]))
    {
      NullEitherWay(items[i]);
    }
    assert MapNullable(y)["anyOf"].items == [NullablePass(ConstPass(items[0])), NullablePass(ConstPass(items[1]))];
    assert MapNullable(m)["anyOf"].items == [NullablePass(items[0]), NullablePass(items[1])];
  }

  lemma NullComesUp(m: Fields, y: Fields)
    requires InFragment(Obj(m)) && Merges(m) && Merges(y) && y == RewriteConst(MapConst(m))
    requires IsNullSchema(NullablePass(Obj(y)))
    requires Has(NullPartner(MapNullable(y)).value, "type", Str("null")) ==>
               Has(NullPartner(MapNullable(m)).value, "type", Str("null"))
    ensures IsNullSchema(NullablePass(Obj(m)))
  {
    assert FieldsInFragment(Obj(m));
    OnlyLacks(m, {"anyOf", "nullable"}, "type");
    OnlyLacks(m, {"anyOf", "nullable"}, "const");
    NoTypeYet(m, y);
    TypeOfPartner(MapNullable(y));
    TypeOfPartner(MapNullable(m));
  }

  lemma NoTypeYet(m: Fields, y: Fields)
    requires "type" !in m && "const" !in m && y == RewriteConst(MapConst(m))
    ensures "type" !in MapNullable(y) && "type" !in MapNullable(m)
  {
    assert MapConst(m).Keys == m.Keys && y == MapConst(m);
    assert MapNullable(y).Keys == y.Keys && MapNullable(m).Keys == m.Keys;
  }

  lemma TypeOfPartner(n: Fields)
    requires NullPartner(n).Some? && "type" !in n
    ensures Has(MergeNullable(n), "type", Str("null")) <==> Has(NullPartner(n).value, "type", Str("null"))
  {
  }

  lemma NullUnmerged(m: Fields, y: Fields)
    requires InFragment(Obj(m)) && !Merges(y) && y == RewriteConst(MapConst(m)) && IsNullSchema(NullablePass(Obj(y)))
    ensures IsNullSchema(NullablePass(Obj(m)))
  {
    NullTypeBefore(m, y);
    NotMergedWithType(m);
    assert NullablePass(Obj(m)) == Obj(MapNullable(m));
  }

  lemma NullTypeBefore(m: Fields, y: Fields)
    requires !Merges(y) && y == RewriteConst(MapConst(m)) && IsNullSchema(NullablePass(Obj(y)))
    ensures Has(m, "type", Str("null"))
  {
    assert NullablePass(Obj(y)) == Obj(MapNullable(y));
    StringsStay(y["type"]);
    assert y == MapConst(m);
    StringsStay(m["type"]);
  }

  lemma NotMergedWithType(m: Fields)
    requires InFragment(Obj(m)) && "type" in m
    ensures !Merges(m)
  {
    assert FieldsInFragment(Obj(m));
    if Merges(m) {
      OnlyLacks(m, {"anyOf", "nullable"}, "type");
      assert false;
    }
  }

  /** A record that the pass does not collapse, after its parts have been rewritten. */
  lemma MappedUnion(s: Value, n: Fields)
    requires InFragment(s) && s.Obj? && !Collapses(s.fields) && n == MapConst(s.fields)
    ensures !Collapses(n) && (Merges(n) ==> StandsAlone(n))
  {
    var m := s.fields;
    assert FieldsInFragment(s) && n.Keys == m.Keys;
    if "anyOf" in n {
      var items := m["anyOf"].items;
      forall i | 0 <= i < |items| ensures StringConst(n["anyOf"].items[i]).None? {
        NoConstLeft(items[i]);
      }
      ScanWithoutConstants(n["anyOf"].items);
      if Merges(n) {
        MergesEitherWay(s, n);
        forall i | 0 <= i < |items| ensures BareMember(n["anyOf"].items[i]) {
          if IsNullSchema(ConstPass(items[i])) {
            NullBefore(items[i]);
            assert BareMember(items[i]);
          }
        }
      }
    }
  }

  lemma MappedFragment(s: Value)
    requires InFragment(s) && s.Obj? && !Collapses(s.fields)
    ensures InFragment(Obj(MapConst(s.fields)))
    decreases s, 0
  {
    var m := s.fields;
    var n := MapConst(m);
    assert FieldsInFragment(s);
    assert n.Keys == m.Keys;
    forall k | k in m && k !in SCHEMA_KEYWORDS ensures n[k] == m[k] {
      PlainUnchanged(m[k]);
    }
    ConstStays(m, n);
    MappedUnion(s, n);
    forall k | k in m && k in {"anyOf", "allOf", "oneOf"}
      ensures n[k].Arr? && forall i :: 0 <= i < |n[k].items| ==> InFragment(n[k].items[i])
    {
      forall i | 0 <= i < |m[k].items| ensures InFragment(ConstPass(m[k].items[i])) {
        ConstPassFragment(m[k].items[i]);
      }
    }
    forall k | k in m && k in {"not", "items", "additionalProperties"} ensures InFragment(n[k]) {
      ConstPassFragment(m[k]);
    }
    forall k | k in m && k in {"properties", "patternProperties"} ensures n[k] == Obj(MapConst(m[k].fields)) {
      NamesAreOrdinary(m[k].fields);
    }
    forall k, name | k in m && k in {"properties", "patternProperties"} && name in m[k].fields
      ensures InFragment(ConstPass(m[k].fields[name]))
    {
      ConstPassFragment(m[k].fields[name]);
    }
    assert PartsInFragment(Obj(n));
  }

  lemma RewrittenFragment(m: Fields)
    requires InFragment(Obj(m)) && !Collapses(m)
    ensures InFragment(Obj(RewriteConst(m)))
  {
    if StringConst(Obj(m)).Some? {
      var r := RewriteConst(m);
      assert FieldsInFragment(Obj(m));
      RewrittenUnion(m);
      RewrittenPlain(m);
      SamePartsInFragment(m, r);
    }
  }

  lemma SamePartsInFragment(m: Fields, n: Fields)
    requires PartsInFragment(Obj(m)) && forall k :: k in SCHEMA_KEYWORDS ==> (k in n ==> k in m && n[k] == m[k])
    ensures PartsInFragment(Obj(n))
  {
    forall k | k in n && k in SCHEMA_KEYWORDS ensures k in m && n[k] == m[k] {
    }
  }

  lemma RewrittenUnion(m: Fields)
    requires InFragment(Obj(m)) && !Collapses(m) && StringConst(Obj(m)).Some?
    ensures !Collapses(RewriteConst(m)) && !Merges(RewriteConst(m))
  {
    var r := RewriteConst(m);
    assert FieldsInFragment(Obj(m));
    if Merges(m) {
      OnlyLacks(m, {"anyOf", "nullable"}, "const");
      assert false;
    }
    assert HasArray(MapNullable(r), "anyOf") ==>
        HasArray(MapNullable(m), "anyOf") && MapNullable(r)["anyOf"] == MapNullable(m)["anyOf"];
  }

  lemma RewrittenPlain(m: Fields)
    requires InFragment(Obj(m)) && StringConst(Obj(m)).Some?
    ensures StringConst(Obj(RewriteConst(m))).None?
    ensures forall k :: k in RewriteConst(m) && k !in SCHEMA_KEYWORDS ==> Plain(RewriteConst(m)[k])
  {
    assert FieldsInFragment(Obj(m));
    assert Plain(RewriteConst(m)["enum"]);
  }

  /** What the const pass leaves is in the fragment again, ready for the nullable pass. */
  lemma ConstPassFragment(s: Value)
    requires InFragment(s)
    ensures InFragment(ConstPass(s))
    decreases s, 1
  {
    if s.Obj? {
      var m := s.fields;
      if Collapses(m) {
        CollapseInFragment(m);
      } else {
        MappedFragment(s);
        MappedUnion(s, MapConst(m));
        RewrittenFragment(MapConst(m));
      }
    }
  }

  // --------------------------------------------------------------------------- nullable pass

  /** A null schema that comes out of the pass is bare, up to a `nullable` mark and annotations. */
  lemma NullStaysBare(s: Value)
    requires InFragment(s) && BareMember(s) && IsNullSchema(NullablePass(s))
    ensures Only(NullablePass(s).fields, {"type", "nullable"})
    decreases s
  {
    var m := s.fields;
    var n := MapNullable(m);
    assert n.Keys == m.Keys;
    if Merges(m) {
      var partner := NullPartner(n).value;
      assert NullablePass(s).fields == MergeNullable(n);
      var k := PartnerFrom(s, partner);
      MergedType(n, partner);
      NullStaysBare(m["anyOf"].items[k]);
      MergedBare(n, partner);
    } else {
      StringsStay(m["type"]);
    }
  }

  /** The member that comes up. */
  lemma PartnerFrom(s: Value, partner: Fields) returns (k: nat)
    requires InFragment(s) && s.Obj? && NullPartner(MapNullable(s.fields)) == Some(partner)
    ensures Only(MapNullable(s.fields), {"anyOf", "nullable"})
    ensures "anyOf" in s.fields && s.fields["anyOf"].Arr? && k < |s.fields["anyOf"].items|
    ensures var x := s.fields["anyOf"].items[k]; InFragment(x) && BareMember(x) && NullablePass(x) == Obj(partner)
  {
    var m := s.fields;
    var n := MapNullable(m);
    assert FieldsInFragment(s) && n.Keys == m.Keys;
    var items := m["anyOf"].items;
    assert n["anyOf"].items[0] == NullablePass(items[0]) && n["anyOf"].items[1] == NullablePass(items[1]);
    k := if IsNullSchema(n["anyOf"].items[0]) then 1 else 0;
  }

  lemma MergedType(n: Fields, partner: Fields)
    requires NullPartner(n) == Some(partner) && Only(n, {"anyOf", "nullable"})
        && Has(MergeNullable(n), "type", Str("null"))
    ensures Has(partner, "type", Str("null"))
  {
    OnlyLacks(n, {"anyOf", "nullable"}, "type");
  }

  lemma MergedBare(n: Fields, partner: Fields)
    requires NullPartner(n) == Some(partner) && Only(n, {"anyOf", "nullable"}) && Only(partner, {"type", "nullable"})
    ensures Only(MergeNullable(n), {"type", "nullable"})
  {
    OnlyLacks(n, {"anyOf", "nullable"}, "enum");
    OnlyLacks(partner, {"type", "nullable"}, "enum");
  }

  lemma BareNullVerdict(t: Value, v: Value, other: Oracle)
    requires IsNullSchema(t) && Only(t.fields, {"type", "nullable"}) && Lenient(other)
    ensures Accepts(t, v, other) <==> v.Null?
  {
    OnlyOthers(t.fields, {"type", "nullable"}, v, other);
    OnlyNoParts(t.fields, {"type", "nullable"});
    OnlyLacks(t.fields, {"type", "nullable"}, "const");
    OnlyLacks(t.fields, {"type", "nullable"}, "enum");
    NoPartsNested(t.fields, v, other);
  }

  /** The same keywords, apart from the null of a merge and from annotations. */
  ghost predicate SameButNull(m: Fields, n: Fields) {
    forall k :: k !in {"nullable", "enum"} && k !in ANNOTATIONS ==> (k in n <==> k in m) && (k in n ==> n[k] == m[k])
  }

  /** Merging a schema into its union with null. */
  lemma MergedFields(n: Fields, schema: Fields, r: Fields)
    requires Only(n, {"anyOf", "nullable"}) && "anyOf" in n
    requires r == ListNull((n - {"anyOf"}) + schema + map["nullable" := Bool(true)])
    ensures SameButNull(schema, r) && Has(r, "nullable", Bool(true))
    ensures forall v: Value :: EnumOk(r, v) <==> v.Null? || EnumOk(schema, v)
  {
  }

  lemma MergedVerdict(schema: Fields, r: Fields, v: Value, other: Oracle)
    requires SameButNull(schema, r) && Has(r, "nullable", Bool(true)) && Lenient(other)
    requires EnumOk(r, v) <==> v.Null? || EnumOk(schema, v)
    ensures Accepts(Obj(r), v, other) <==>
            if v.Null? then !other.strict || TakesNull(schema, other) else Accepts(Obj(schema), v, other)
  {
    assert SameBut(schema, r);
    SameButVerdicts(schema, r, v, other);
    SameKindAndConst(schema, r, v);
  }

  lemma SameKindAndConst(schema: Fields, r: Fields, v: Value)
    requires SameButNull(schema, r)
    ensures ConstOk(r, v) <==> ConstOk(schema, v)
    ensures KindOk(r, v) <==> KindOk(schema, v)
    ensures "type" in r <==> "type" in schema
  {
  }

  lemma PairVerdict(n: Fields, v: Value, other: Oracle)
    requires Only(n, {"anyOf", "nullable"}) && HasArray(n, "anyOf") && |n["anyOf"].items| == 2 && Lenient(other)
    requires exists i :: 0 <= i < 2 && (Accepts(n["anyOf"].items[i], Null, other))
    ensures Accepts(Obj(n), v, other)
       <==> v.Null? || Accepts(n["anyOf"].items[0], v, other) || Accepts(n["anyOf"].items[1], v, other)
  {
    OnlyUnion(n);
    OnlyOthers(n, {"anyOf", "nullable"}, v, other);
    BareUnionVerdict(n, v, other);
    var verdicts := Verdicts(n["anyOf"], v, other);
    assert verdicts == [Accepts(n["anyOf"].items[0], v, other), Accepts(n["anyOf"].items[1], v, other)];
  }

  /** A merge changes at most the verdict on null, and that exactly when `nullable` is read strictly and the
      schema that comes up turns null down by something else than its type or enum. */
  lemma MergeMeaning(n: Fields, v: Value, other: Oracle)
    requires NullPartner(n).Some? && Only(n, {"anyOf", "nullable"}) && Lenient(other)
    requires forall i :: 0 <= i < 2 && IsNullSchema(n["anyOf"].items[i]) ==>
        Only(n["anyOf"].items[i].fields, {"type", "nullable"})
    ensures (Accepts(Obj(MergeNullable(n)), v, other) <==> Accepts(Obj(n), v, other)) <==>
            !v.Null? || !other.strict || TakesNull(NullPartner(n).value, other)
  {
    var items := n["anyOf"].items;
    var nullAt := if IsNullSchema(items[0]) then 0 else 1;
    var schema := NullPartner(n).value;
    var r := MergeNullable(n);
    BareNullVerdict(items[nullAt], v, other);
    BareNullVerdict(items[nullAt], Null, other);
    PairVerdict(n, v, other);
    MergedFields(n, schema, r);
    MergedVerdict(schema, r, v, other);
  }

  lemma NullablePassParts(s: Value, other: Oracle)
    requires InFragment(s) && s.Obj? && Lenient(other) && InParts(s, NullableSafe(other))
    ensures SameParts(s.fields, MapNullable(s.fields), other)
    decreases s, 0
  {
    var m := s.fields;
    assert FieldsInFragment(s);
    forall k | k in m && k !in SCHEMA_KEYWORDS ensures NullablePass(m[k]) == m[k] {
      PlainUnchanged(m[k]);
    }
    forall k, i | k in m && k in {"anyOf", "allOf", "oneOf"} && 0 <= i < |m[k].items|
      ensures SameVerdicts(m[k].items[i], NullablePass(m[k].items[i]), other)
    {
      NullablePassKeeps(m[k].items[i], other);
    }
    forall k | k in m && k in {"not", "items", "additionalProperties"}
      ensures SameVerdicts(m[k], NullablePass(m[k]), other)
    {
      NullablePassKeeps(m[k], other);
    }
    forall k | k in m && k in {"properties", "patternProperties"}
      ensures NullablePass(m[k]) == Obj(MapNullable(m[k].fields))
    {
      NamesAreOrdinary(m[k].fields);
    }
    forall k, name | k in m && k in {"properties", "patternProperties"} && name in m[k].fields
      ensures SameVerdicts(m[k].fields[name], NullablePass(m[k].fields[name]), other)
    {
      NullablePassKeeps(m[k].fields[name], other);
    }
  }

  lemma NullablePassKeeps(s: Value, other: Oracle)
    requires InFragment(s) && Lenient(other) && Everywhere(s, NullableSafe(other))
    ensures SameVerdicts(s, NullablePass(s), other)
    decreases s, 3
  {
    forall v ensures Accepts(s, v, other) <==> Accepts(NullablePass(s), v, other) {
      NullablePassMeaning(s, v, other);
    }
  }

  /** Rewriting the parts and then merging: the merge alone decides whether the verdict changes. */
  lemma NullableStep(s: Value, v: Value, other: Oracle)
    requires InFragment(s) && s.Obj? && Lenient(other) && InParts(s, NullableSafe(other))
    ensures (Accepts(NullablePass(s), v, other) <==> Accepts(s, v, other)) <==> !v.Null? || PartnerTakesNull(s, other)
    decreases s, 1
  {
    var m := s.fields;
    var n := MapNullable(m);
    NullablePassParts(s, other);
    SamePartsSameVerdict(m, n, v, other);
    if Merges(m) {
      assert FieldsInFragment(s) && n.Keys == m.Keys;
      forall i | 0 <= i < 2 && IsNullSchema(n["anyOf"].items[i])
        ensures Only(n["anyOf"].items[i].fields, {"type", "nullable"})
      {
        assert BareMember(m["anyOf"].items[i]);
        NullStaysBare(m["anyOf"].items[i]);
      }
      MergeMeaning(n, v, other);
    }
  }

  /** The nullable pass keeps the accepted instances; under the strict reading, of documents in which every
      schema that comes up takes null. */
  lemma NullablePassMeaning(s: Value, v: Value, other: Oracle)
    requires InFragment(s) && Lenient(other) && Everywhere(s, NullableSafe(other))
    ensures Accepts(NullablePass(s), v, other) <==> Accepts(s, v, other)
    decreases s, 2
  {
    if s.Obj? {
      assert NullableSafe(other)(s);
      NullableStep(s, v, other);
    }
  }

  /** Main result: the document that is written accepts what the generated one did. Under the wide reading
      the two conditions hold of every document. */
  lemma BothPassesKeepMeaning(s: Value, v: Value, other: Oracle)
    requires InFragment(s) && Lenient(other)
    requires other.strict ==> Everywhere(s, ConstSafe(other)) && Everywhere(ConstPass(s), NullableSafe(other))
    ensures Accepts(NullablePass(ConstPass(s)), v, other) <==> Accepts(s, v, other)
  {
    if !other.strict {
      HoldsEverywhere(s, ConstSafe(other));
      HoldsEverywhere(ConstPass(s), NullableSafe(other));
    }
    ConstPassMeaning(s, v, other);
    ConstPassFragment(s);
    NullablePassMeaning(ConstPass(s), v, other);
  }

  lemma {:induction false} HoldsEverywhere(s: Value, p: Value -> bool)
    requires forall t :: p(t)
    ensures Everywhere(s, p)
    decreases s, 1
  {
    if s.Obj? {
      var m := s.fields;
      forall k, i | k in m && k in {"anyOf", "allOf", "oneOf"} && m[k].Arr? && 0 <= i < |m[k].items|
        ensures Everywhere(m[k].items[i], p)
      {
        HoldsEverywhere(m[k].items[i], p);
      }
      forall k | k in m && k in {"not", "items", "additionalProperties"} ensures Everywhere(m[k], p) {
        HoldsEverywhere(m[k], p);
      }
      forall k, name | k in m && k in {"properties", "patternProperties"} && m[k].Obj? && name in m[k].fields
        ensures Everywhere(m[k].fields[name], p)
      {
        HoldsEverywhere(m[k].fields[name], p);
      }
    }
  }

  // ---------------------------------------------------------------- exactness, schema by schema

  ghost function ConstKeeps(other: Oracle): Value -> bool {
    s => SameVerdicts(s, ConstPass(s), other)
  }

  ghost function NullableKeeps(other: Oracle): Value -> bool {
    s => SameVerdicts(s, NullablePass(s), other)
  }

  /** Two conditions that agree on a schema whose parts meet the first, and on what is no record. */
  ghost predicate AgreeAt(s: Value, p: Value -> bool, q: Value -> bool) {
    InFragment(s) && (s.Obj? ==> InParts(s, p)) ==> (p(s) <==> q(s))
  }

  /** If so everywhere, one holds throughout a schema exactly when the other does. */
  lemma {:induction false} SameThroughout(s: Value, p: Value -> bool, q: Value -> bool)
    requires InFragment(s) && forall t :: AgreeAt(t, p, q)
    ensures Everywhere(s, p) <==> Everywhere(s, q)
    decreases s, 2
  {
    assert AgreeAt(s, p, q);
    if s.Obj? {
      SameInParts(s, p, q);
    }
  }

  lemma {:induction false} SameInParts(s: Value, p: Value -> bool, q: Value -> bool)
    requires InFragment(s) && s.Obj? && forall t :: AgreeAt(t, p, q)
    ensures InParts(s, p) <==> InParts(s, q)
    decreases s, 1
  {
    var m := s.fields;
    assert FieldsInFragment(s);
    forall k, i | k in m && k in {"anyOf", "allOf", "oneOf"} && m[k].Arr? && 0 <= i < |m[k].items|
      ensures Everywhere(m[k].items[i], p) <==> Everywhere(m[k].items[i], q)
    {
      SameThroughout(m[k].items[i], p, q);
    }
    forall k | k in m && k in {"not", "items", "additionalProperties"}
      ensures Everywhere(m[k], p) <==> Everywhere(m[k], q)
    {
      SameThroughout(m[k], p, q);
    }
    forall k, name | k in m && k in {"properties", "patternProperties"} && m[k].Obj? && name in m[k].fields
      ensures Everywhere(m[k].fields[name], p) <==> Everywhere(m[k].fields[name], q)
    {
      SameThroughout(m[k].fields[name], p, q);
    }
  }

  /** The const pass keeps the verdicts of a schema and of all schemas in it exactly when every union of
      constants that is marked nullable lists null, or `nullable` is read widely. */
  lemma ConstPassExactly(s: Value, other: Oracle)
    requires InFragment(s) && Lenient(other)
    ensures Everywhere(s, ConstKeeps(other)) <==> Everywhere(s, ConstSafe(other))
  {
    var p, q := ConstSafe(other), ConstKeeps(other);
    forall t ensures AgreeAt(t, p, q) {
      if InFragment(t) && t.Obj? && InParts(t, p) {
        forall v ensures (Accepts(ConstPass(t), v, other) <==> Accepts(t, v, other)) <==> !v.Null? || p(t) {
          ConstStep(t, v, other);
        }
        assert q(t) ==> (Accepts(ConstPass(t), Null, other) <==> Accepts(t, Null, other));
      }
    }
    SameThroughout(s, p, q);
  }

  /** The nullable pass keeps them exactly when every schema it brings up out of a union with null takes null
      once marked, or `nullable` is read widely. */
  lemma NullablePassExactly(s: Value, other: Oracle)
    requires InFragment(s) && Lenient(other)
    ensures Everywhere(s, NullableKeeps(other)) <==> Everywhere(s, NullableSafe(other))
  {
    var p, q := NullableSafe(other), NullableKeeps(other);
    forall t ensures AgreeAt(t, p, q) {
      if InFragment(t) && t.Obj? && InParts(t, p) {
        forall v ensures (Accepts(NullablePass(t), v, other) <==> Accepts(t, v, other)) <==> !v.Null? || p(t) {
          NullableStep(t, v, other);
        }
        assert q(t) ==> (Accepts(NullablePass(t), Null, other) <==> Accepts(t, Null, other));
      }
    }
    SameThroughout(s, p, q);
  }

  /** A schema with no constant and no combination of schemas takes null as far as its other keywords do;
      of a bare union, exactly when some member accepts null. */
  lemma WhatTakesNull(schema: Fields, other: Oracle)
    requires OthersOk(schema, Null, other)
    ensures "const" !in schema && "anyOf" !in schema && "allOf" !in schema && "oneOf" !in schema && "not" !in schema ==>
              TakesNull(schema, other)
    ensures BareUnion(schema) ==> (TakesNull(schema, other) <==> true in Verdicts(schema["anyOf"], Null, other))
  {
  }

  lemma TypeOnly(s: Value, name: string, v: Value, other: Oracle)
    requires s == Obj(map["type" := Str(name)])
    ensures NullablePass(s) == s && NullPartner(s.fields).None?
    ensures Accepts(s, v, other) <==> IsKind(name, v)
  {
    assert MapNullable(s.fields) == s.fields;
    NoPartsNested(s.fields, v, other);
  }

  lemma UnionOfFixed(m: Fields, items: seq<Value>)
    requires m == map["anyOf" := Arr(items)] && forall i :: 0 <= i < |items| ==> NullablePass(items[i]) == items[i]
    ensures MapNullable(m) == m
  {
    assert NullablePass(Arr(items)) == Arr(items);
  }

  /** Under the strict reading a union of two typed schemas beside null loses null. */
  lemma UnionLosesNull(a: Value, b: Value, none: Value, inner: Fields, outer: Fields, other: Oracle)
    requires a == Obj(map["type" := Str("string")]) && b == Obj(map["type" := Str("number")])
    requires none == Obj(map["type" := Str("null")]) && other.strict
    requires inner == map["anyOf" := Arr([a, b])] && outer == map["anyOf" := Arr([Obj(inner), none])]
    ensures NullablePass(Obj(outer)) == Obj(map["anyOf" := Arr([a, b]), "nullable" := Bool(true)])
    ensures Accepts(Obj(outer), Null, other) && !Accepts(NullablePass(Obj(outer)), Null, other)
  {
    TypeOnly(a, "string", Null, other);
    TypeOnly(b, "number", Null, other);
    TypeOnly(none, "null", Null, other);
    InnerComesUp(a, b, none, inner, outer);
    LosesNull(a, b, none, inner, outer, other);
  }

  lemma InnerComesUp(a: Value, b: Value, none: Value, inner: Fields, outer: Fields)
    requires NullablePass(a) == a && NullablePass(b) == b && NullablePass(none) == none
    requires !IsNullSchema(a) && !IsNullSchema(b) && none == Obj(map["type" := Str("null")])
    requires inner == map["anyOf" := Arr([a, b])] && outer == map["anyOf" := Arr([Obj(inner), none])]
    ensures NullablePass(Obj(outer)) == Obj(inner["nullable" := Bool(true)])
  {
    UnionOfFixed(inner, [a, b]);
    assert NullablePass(Obj(inner)) == Obj(inner);
    UnionOfFixed(outer, [Obj(inner), none]);
    NullBeside(inner, outer, none);
  }

  lemma LosesNull(a: Value, b: Value, none: Value, inner: Fields, outer: Fields, other: Oracle)
    requires !Accepts(a, Null, other) && !Accepts(b, Null, other) && Accepts(none, Null, other) && other.strict
    requires inner == map["anyOf" := Arr([a, b])] && outer == map["anyOf" := Arr([Obj(inner), none])]
    ensures Accepts(Obj(outer), Null, other) && !Accepts(Obj(inner["nullable" := Bool(true)]), Null, other)
  {
    assert Verdicts(outer["anyOf"], Null, other)[1];
    BareUnionVerdict(outer, Null, other);
    assert Verdicts(inner["anyOf"], Null, other) == [false, false];
    BareUnionVerdict(inner["nullable" := Bool(true)], Null, other);
  }

  lemma NullBeside(inner: Fields, outer: Fields, none: Value)
    requires none == Obj(map["type" := Str("null")]) && !IsNullSchema(Obj(inner)) && "enum" !in inner
    requires outer == map["anyOf" := Arr([Obj(inner), none])]
    ensures MergeNullable(outer) == inner["nullable" := Bool(true)]
  {
    assert NullPartner(outer) == Some(inner);
    assert outer - {"anyOf"} == map[];
  }

  /** Under the strict reading a literal beside null loses null as well, although it has a type. */
  lemma ConstantLosesNull(one: Value, none: Value, outer: Fields, other: Oracle)
    requires one == Obj(map["type" := Str("number"), "const" := Num(1.0)]) && none == Obj(map["type" := Str("null")])
    requires outer == map["anyOf" := Arr([one, none])] && other.strict
    ensures NullablePass(ConstPass(Obj(outer)))
         == Obj(map["type" := Str("number"), "const" := Num(1.0), "nullable" := Bool(true)])
    ensures Accepts(Obj(outer), Null, other) && !Accepts(NullablePass(ConstPass(Obj(outer))), Null, other)
  {
    TypeOnly(none, "null", Null, other);
    ConstantUntouched(one, none, outer);
    assert Verdicts(outer["anyOf"], Null, other)[1];
    BareUnionVerdict(outer, Null, other);
  }

  lemma ConstantUntouched(one: Value, none: Value, outer: Fields)
    requires one == Obj(map["type" := Str("number"), "const" := Num(1.0)]) && none == Obj(map["type" := Str("null")])
    requires outer == map["anyOf" := Arr([one, none])]
    ensures NullablePass(ConstPass(Obj(outer))) == Obj(one.fields["nullable" := Bool(true)])
  {
    LiteralStays(one, none);
    UnionNotCollapsed(outer, [one, none]);
    UnionOfFixed(outer, [one, none]);
    NullBeside(one.fields, outer, none);
  }

  lemma UnionNotCollapsed(m: Fields, items: seq<Value>)
    requires m == map["anyOf" := Arr(items)] && ScanUnion(items) == Fails
    requires forall i :: 0 <= i < |items| ==> ConstPass(items[i]) == items[i]
    ensures ConstPass(Obj(m)) == Obj(m)
  {
    assert ConstPass(Arr(items)) == Arr(items);
    assert MapConst(m) == m;
    assert RewriteConst(m) == m;
  }

  lemma LiteralStays(one: Value, none: Value)
    requires one == Obj(map["type" := Str("number"), "const" := Num(1.0)]) && none == Obj(map["type" := Str("null")])
    ensures ConstPass(one) == one && NullablePass(one) == one && ConstPass(none) == none && NullablePass(none) == none
    ensures ScanUnion([one, none]) == Fails
  {
    assert Plain(one);
    assert Plain(none);
    PlainUnchanged(one);
    PlainUnchanged(none);
    assert [one, none][1..] == [none] && [none][1..] == [];
    assert ScanUnion([none]) == Union([], true);
  }
}
