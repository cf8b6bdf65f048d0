/** Field by field, what the two passes make of one record: what they write, and that everything else stays. */
module SchemaRecords {
  import opened Wrappers
  import opened Sequences
  import opened Json
  import opened SchemaPasses

  // --------------------------------------------------------------------------- nullable pass

  predicate SaysNull(v: Value) {
    v.Obj? && "type" in v.fields && v.fields["type"] == Str("null")
  }

  /** A list of two, the first schema of type null in it at place `i`, and a record at the other. */
  predicate NullAt(list: Value, i: nat) {
    && list.Arr? && |list.items| == 2 && i < 2 && SaysNull(list.items[i]) && list.items[1 - i].Obj?
    && (i == 1 ==> !SaysNull(list.items[0]))
  }

  /** The values of these keys are the pass's results on what `m` has there. */
  predicate Visited(m: Fields, k: string, r: Fields) {
    k in m && k in r && r[k] == NullablePass(m[k])
  }

  /** A record without such a union keeps all its keys, and its values are visited. */
  lemma OthersKeepTheirFields(m: Fields)
    requires "anyOf" !in m || (!NullAt(NullablePass(m["anyOf"]), 0) && !NullAt(NullablePass(m["anyOf"]), 1))
    ensures NullablePass(Obj(m)).Obj? && NullablePass(Obj(m)).fields.Keys == m.Keys
    ensures forall k :: k in m ==> Visited(m, k, NullablePass(Obj(m)).fields)
  {
    var n := MapNullable(m);
    assert NullPartner(n).None?;
    assert NullablePass(Obj(m)) == Obj(n);
  }

  /** A list of values that has null in it, once more than before only if it had none. */
  predicate NullListed(before: Value, after: Value) {
    if before.Arr? && Null !in before.items then after == Arr(before.items + [Null]) else after == before
  }

  /** A record with such a union loses it and gets the fields of the other member, marked nullable; they win over
      its own fields, of which all others stay. An enum, whichever of the two it comes from, lists null. */
  lemma FoldedFields(m: Fields, i: nat)
    requires "anyOf" in m && NullAt(NullablePass(m["anyOf"]), i)
    ensures NullablePass(Obj(m)).Obj?
    ensures var p, r := NullablePass(m["anyOf"]).items[1 - i].fields, NullablePass(Obj(m)).fields;
            && r.Keys == (m.Keys - {"anyOf"}) + p.Keys + {"nullable"} && r["nullable"] == Bool(true)
            && (forall k :: k in p && k != "nullable" && k != "enum" ==> r[k] == p[k])
            && (forall k :: k in m && k !in p && k !in {"anyOf", "nullable", "enum"} ==> Visited(m, k, r))
            && ("enum" in p ==> NullListed(p["enum"], r["enum"]))
            && ("enum" in m && "enum" !in p ==> NullListed(NullablePass(m["enum"]), r["enum"]))
  {
    var n := MapNullable(m);
    var p := n["anyOf"].items[1 - i].fields;
    assert NullPartner(n) == Some(p);
    MergedFields(n, p);
    assert NullablePass(Obj(m)) == Obj(MergeNullable(n));
  }

  lemma MergedFields(n: Fields, p: Fields)
    requires NullPartner(n) == Some(p)
    ensures var r := MergeNullable(n);
            && r.Keys == (n.Keys - {"anyOf"}) + p.Keys + {"nullable"} && r["nullable"] == Bool(true)
            && (forall k :: k in p && k != "nullable" && k != "enum" ==> r[k] == p[k])
            && (forall k :: k in n && k !in p && k !in {"anyOf", "nullable", "enum"} ==> r[k] == n[k])
            && ("enum" in p ==> NullListed(p["enum"], r["enum"]))
            && ("enum" in n && "enum" !in p ==> NullListed(n["enum"], r["enum"]))
  {
    var merged := (n - {"anyOf"}) + p + map["nullable" := Bool(true)];
    assert MergeNullable(n) == ListNull(merged);
  }

  /** Lists are visited entry by entry, and anything that is neither list nor record stays. */
  lemma ListsAndScalars(v: Value)
    requires !v.Obj?
    ensures v.Arr? ==> NullablePass(v).Arr? && |NullablePass(v).items| == |v.items|
                       && forall i :: 0 <= i < |v.items| ==> NullablePass(v).items[i] == NullablePass(v.items[i])
    ensures v.Arr? ==> ConstPass(v).Arr? && |ConstPass(v).items| == |v.items|
                       && forall i :: 0 <= i < |v.items| ==> ConstPass(v).items[i] == ConstPass(v.items[i])
    ensures !v.Arr? ==> NullablePass(v) == v && ConstPass(v) == v
  {
  }

  lemma TypeStays(v: Value, name: string)
    requires v == Obj(map["type" := Str(name)])
    ensures NullablePass(v) == v
  {
    OthersKeepTheirFields(v.fields);
    assert Visited(v.fields, "type", NullablePass(v).fields);
    assert NullablePass(v).fields == v.fields;
  }

  lemma PairStays(list: Value, a: Value, b: Value)
    requires list == Arr([a, b]) && NullablePass(a) == a && NullablePass(b) == b
    ensures NullablePass(list) == list
  {
  }

  lemma PairFolds(list: Value, text: Value, none: Value)
    requires list == Arr([text, none]) && text == Obj(map["type" := Str("string")])
    requires none == Obj(map["type" := Str("null")])
    ensures NullAt(list, 1) && list.items[0].fields.Keys == {"type"} && list.items[0].fields["type"] == Str("string")
  {
  }

  /** A string or null with a default keeps the default. */
  lemma DefaultStays(text: Value, none: Value, m: Fields)
    requires text == Obj(map["type" := Str("string")]) && none == Obj(map["type" := Str("null")])
    requires m == map["default" := Null, "anyOf" := Arr([text, none])]
    ensures NullablePass(Obj(m))
         == Obj(map["default" := Null, "type" := Str("string"), "nullable" := Bool(true)])
  {
    TypeStays(text, "string");
    TypeStays(none, "null");
    PairStays(m["anyOf"], text, none);
    PairFolds(m["anyOf"], text, none);
    FoldedFields(m, 1);
    ThreeFields(m, NullablePass(Obj(m)).fields, Str("string"));
  }

  lemma ThreeFields(m: Fields, r: Fields, kind: Value)
    requires r.Keys == {"default", "type", "nullable"} && m.Keys == {"default", "anyOf"} && m["default"] == Null
    requires Visited(m, "default", r) && r["type"] == kind && r["nullable"] == Bool(true)
    ensures r == map["default" := Null, "type" := kind, "nullable" := Bool(true)]
  {
  }

  // ------------------------------------------------------------------------------ const pass

  /** A constant of this string, of type string or of no type. */
  predicate IsConstant(v: Value, c: string) {
    && v.Obj? && "const" in v.fields && v.fields["const"] == Str(c)
    && ("type" in v.fields ==> v.fields["type"] == Str("string"))
  }

  /** Each member of the list says null or is a string constant, and one is a constant. */
  ghost predicate Constants(list: Value) {
    && list.Arr?
    && (forall i :: 0 <= i < |list.items| ==> SaysNull(list.items[i]) || exists c :: IsConstant(list.items[i], c))
    && exists i, c :: 0 <= i < |list.items| && IsConstant(list.items[i], c)
  }

  ghost function ConstantAt(items: seq<Value>): nat -> bool {
    (k: nat) => k < |items| && !SaysNull(items[k])
  }

  ghost function ConstantOf(items: seq<Value>): (nat, string) -> bool {
    (k: nat, c: string) => k < |items| && IsConstant(items[k], c)
  }

  lemma StringConstIs(v: Value)
    ensures StringConst(v).Some? <==> exists c :: IsConstant(v, c)
    ensures forall c :: StringConst(v) == Some(c) <==> IsConstant(v, c)
    ensures IsNullSchema(v) <==> SaysNull(v)
  {
    if StringConst(v).Some? {
      assert IsConstant(v, StringConst(v).value);
    }
  }

  lemma {:induction false} ScanSnoc(items: seq<Value>, x: Value)
    ensures ScanUnion(items + [x]) ==
            match ScanUnion(items)
            case Fails => Fails
            case Union(values, nullable) =>
              if IsNullSchema(x) then Union(values, true)
              else if StringConst(x).Some? then Union(values + [StringConst(x).value], nullable) else Fails
  {
    if items == [] {
      assert [] + [x] == [x] && [x][1..] == [];
      assert ScanUnion([]) == Union([], false);
    } else {
      assert (items + [x])[0] == items[0] && (items + [x])[1..] == items[1..] + [x];
      ScanSnoc(items[1..], x);
      if ScanUnion(items[1..]).Union? && StringConst(items[0]).Some? && StringConst(x).Some? {
        Regroup([StringConst(items[0]).value], ScanUnion(items[1..]).values, [StringConst(x).value]);
      }
    }
  }

  /** The scan of the first `n` members: their constants in order, and whether one of them says null. */
  lemma {:induction false} ScanIs(items: seq<Value>, n: nat)
    requires n <= |items|
    ensures ScanUnion(items[..n]).Fails? <==>
            exists i :: 0 <= i < n && !SaysNull(items[i]) && forall c :: !IsConstant(items[i], c)
    ensures ScanUnion(items[..n]).Union? ==>
              && Picks(n, ConstantAt(items), ConstantOf(items), ScanUnion(items[..n]).values)
              && (ScanUnion(items[..n]).nullable <==> exists i :: 0 <= i < n && SaysNull(items[i]))
  {
    var keep, says := ConstantAt(items), ConstantOf(items);
    if n == 0 {
      PicksNothing(keep, says);
    } else {
      ScanIs(items, n - 1);
      var x := items[n - 1];
      assert items[..n] == items[..n - 1] + [x];
      ScanSnoc(items[..n - 1], x);
      StringConstIs(x);
      if ScanUnion(items[..n - 1]).Union? {
        var values := ScanUnion(items[..n - 1]).values;
        if IsNullSchema(x) {
          PicksSame(n - 1, keep, says, values);
        } else if StringConst(x).Some? {
          PicksMore(n - 1, keep, says, values, StringConst(x).value);
        }
      }
    }
  }

  ghost function FirstTime(values: seq<string>): nat -> bool {
    (k: nat) => k < |values| && values[k] !in values[..k]
  }

  ghost function ValueAt(values: seq<string>): (nat, string) -> bool {
    (k: nat, c: string) => k < |values| && c == values[k]
  }

  lemma {:induction false} DedupeMembers(values: seq<string>)
    ensures forall c :: c in Dedupe(values) <==> c in values
  {
    if values != [] {
      DedupeMembers(values[..|values| - 1]);
      assert values == values[..|values| - 1] + [values[|values| - 1]];
    }
  }

  /** Of the first `n` values each one where it comes first. */
  lemma {:induction false} DedupeIs(values: seq<string>, n: nat)
    requires n <= |values|
    ensures Picks(n, FirstTime(values), ValueAt(values), Dedupe(values[..n]))
  {
    var keep, says := FirstTime(values), ValueAt(values);
    if n == 0 {
      PicksNothing(keep, says);
    } else {
      DedupeIs(values, n - 1);
      DedupeMembers(values[..n - 1]);
      assert values[..n][..n - 1] == values[..n - 1];
      if values[n - 1] in values[..n - 1] {
        PicksSame(n - 1, keep, says, Dedupe(values[..n - 1]));
      } else {
        PicksMore(n - 1, keep, says, Dedupe(values[..n - 1]), values[n - 1]);
      }
    }
  }

  ghost predicate EnumeratesBy(items: seq<Value>, nullable: bool, enum: Value, values: seq<string>,
          firsts: seq<string>)
  {
    && Picks(|items|, ConstantAt(items), ConstantOf(items), values)
    && Picks(|values|, FirstTime(values), ValueAt(values), firsts)
    && enum.Arr? && |enum.items| == |firsts| + (if nullable then 1 else 0)
    && (forall i :: 0 <= i < |firsts| ==> enum.items[i] == Str(firsts[i]))
    && (nullable ==> enum.items[|firsts|] == Null)
  }

  /** The constants of the members in their order, each where it comes first, and null at the end if asked for. */
  ghost predicate Enumerates(items: seq<Value>, nullable: bool, enum: Value) {
    exists values, firsts :: EnumeratesBy(items, nullable, enum, values, firsts)
  }

  /** The record is marked nullable, or a member of its union says null. */
  ghost predicate TakesNull(m: Fields)
    requires HasArray(m, "anyOf")
  {
    var items := m["anyOf"].items;
    Has(m, "nullable", Bool(true)) || exists i :: 0 <= i < |items| && SaysNull(items[i])
  }

  lemma CollapsesIs(m: Fields)
    ensures Collapses(m) <==> "anyOf" in m && Constants(m["anyOf"])
  {
    if HasArray(m, "anyOf") {
      var items := m["anyOf"].items;
      assert items[..|items|] == items;
      ScanIs(items, |items|);
      if ScanUnion(items).Union? {
        SomeConstant(items, ScanUnion(items).values);
      }
    }
  }

  /** There is a value exactly when some member is not null. */
  lemma SomeConstant(items: seq<Value>, values: seq<string>)
    requires Picks(|items|, ConstantAt(items), ConstantOf(items), values)
    ensures values != [] <==> exists i, c :: 0 <= i < |items| && IsConstant(items[i], c)
  {
    var places :| PickedAt(|items|, ConstantAt(items), ConstantOf(items), values, places);
    if values != [] {
      assert ConstantOf(items)(places[0], values[0]);
      assert IsConstant(items[places[0]], values[0]);
    }
    forall i: nat, c | i < |items| && IsConstant(items[i], c) ensures values != [] {
      assert ConstantAt(items)(i);
      assert i in places;
    }
  }

  /** A record with a union of string constants, and maybe nulls, becomes an enum: the union goes, type, enum and,
      if null is among them or the record was nullable, the mark are written, and all else stays as it is. */
  lemma CollapsedFields(m: Fields)
    requires "anyOf" in m && Constants(m["anyOf"])
    ensures ConstPass(Obj(m)).Obj?
    ensures var r := ConstPass(Obj(m)).fields;
            && r.Keys == (m.Keys - {"anyOf"}) + {"type", "enum"} + (if TakesNull(m) then {"nullable"} else {})
            && r["type"] == Str("string") && Enumerates(m["anyOf"].items, TakesNull(m), r["enum"])
            && (TakesNull(m) ==> r["nullable"] == Bool(true))
            && forall k :: k in m && k !in {"anyOf", "type", "enum", "nullable"} ==> r[k] == m[k]
  {
    CollapsesIs(m);
    CollapseNullableIs(m);
    CollapseEnumerates(m);
    CollapseKeeps(m);
  }

  lemma CollapseNullableIs(m: Fields)
    requires Collapses(m)
    ensures CollapseNullable(m) <==> TakesNull(m)
  {
    var items := m["anyOf"].items;
    assert items[..|items|] == items;
    ScanIs(items, |items|);
  }

  lemma CollapseEnumerates(m: Fields)
    requires Collapses(m)
    ensures "enum" in Collapse(m) && Enumerates(m["anyOf"].items, TakesNull(m), Collapse(m)["enum"])
  {
    CollapseNullableIs(m);
    var items := m["anyOf"].items;
    assert items[..|items|] == items;
    ScanIs(items, |items|);
    var values := ScanUnion(items).values;
    DedupeIs(values, |values|);
    assert values[..|values|] == values;
    EnumIs(items, values, TakesNull(m));
  }

  lemma CollapseKeeps(m: Fields)
    requires Collapses(m)
    ensures var r := Collapse(m);
            && r.Keys == (m.Keys - {"anyOf"}) + {"type", "enum"} + (if CollapseNullable(m) then {"nullable"} else {})
            && r["type"] == Str("string") && (CollapseNullable(m) ==> r["nullable"] == Bool(true))
            && forall k :: k in m && k !in {"anyOf", "type", "enum", "nullable"} ==> r[k] == m[k]
  {
  }

  lemma EnumIs(items: seq<Value>, values: seq<string>, nullable: bool)
    requires Picks(|items|, ConstantAt(items), ConstantOf(items), values)
    requires Picks(|values|, FirstTime(values), ValueAt(values), Dedupe(values))
    ensures Enumerates(items, nullable, Arr(Strings(Dedupe(values)) + if nullable then [Null] else []))
  {
    var firsts := Dedupe(values);
    var enum := Arr(Strings(firsts) + if nullable then [Null] else []);
    assert EnumeratesBy(items, nullable, enum, values, firsts);
  }

  /** Any other record is visited below, and a string constant itself becomes an enum of one. */
  lemma ConstantFields(m: Fields)
    requires !("anyOf" in m && Constants(m["anyOf"]))
    ensures ConstPass(Obj(m)).Obj?
    ensures var r := ConstPass(Obj(m)).fields;
            && (forall c :: IsConstant(Obj(m), c) ==>
                  && r.Keys == (m.Keys - {"const"}) + {"type", "enum"}
                  && r["type"] == Str("string") && r["enum"] == Arr([Str(c)])
                  && forall k :: k in m && k !in {"const", "type", "enum"} ==> r[k] == ConstPass(m[k]))
            && ((forall c :: !IsConstant(Obj(m), c)) ==>
                  r.Keys == m.Keys && forall k :: k in m ==> r[k] == ConstPass(m[k]))
  {
    CollapsesIs(m);
    var n := MapConst(m);
    assert ConstPass(Obj(m)) == Obj(RewriteConst(n));
    StringConstIs(Obj(n));
    forall c ensures IsConstant(Obj(n), c) <==> IsConstant(Obj(m), c) {
    }
  }
}
