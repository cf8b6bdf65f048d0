/** When running a schema pass twice changes nothing more, for every JSON document. */
module SchemaIdempotence {
  import opened Wrappers
  import opened Json
  import opened SchemaPasses
  import opened SchemaMeaning

  // ------------------------------------------------------------------------------- const pass

  /** Nothing in the document asks the const pass for a rewrite. */
  predicate Clean(v: Value) {
    match v
    case Arr(items) => forall i :: 0 <= i < |items| ==> Clean(items[i])
    case Obj(m) => !Collapses(m) && StringConst(v).None? && forall k :: k in m ==> Clean(m[k])
    case _ => true
  }

  /** A collapsed union returns before its siblings are visited: they must need no rewrite
      themselves. Keys the collapse overwrites or deletes do not matter. */
  predicate Settles(v: Value) {
    match v
    case Arr(items) => forall i :: 0 <= i < |items| ==> Settles(items[i])
    case Obj(m) =>
      if Collapses(m) then
        && !("const" in m && m["const"].Str?)
        && (forall k :: k in m && k !in {"anyOf", "type", "enum"} && !(k == "nullable" && CollapseNullable(m)) ==>
             Clean(m[k]))
      else
        forall k :: k in m && !(k == "enum" && StringConst(v).Some?) ==> Settles(m[k])
    case _ => true
  }

  /** A clean document is a fixed point of the pass, and there are no others. */
  lemma CleanIsFixed(v: Value)
    ensures Clean(v) <==> ConstPass(v) == v
  {
    match v
    case Arr(items) =>
      forall i | 0 <= i < |items| ensures Clean(items[i]) <==> ConstPass(items[i]) == items[i] {
        CleanIsFixed(items[i]);
      }
      if Clean(v) {
        assert ConstPass(v).items == items;
      } else {
        var i :| 0 <= i < |items| && !Clean(items[i]);
        assert ConstPass(v).items[i] != items[i];
      }
    case Obj(m) =>
      forall k | k in m ensures Clean(m[k]) <==> ConstPass(m[k]) == m[k] {
        CleanIsFixed(m[k]);
      }
      RecordIsFixed(m);
    case _ =>
  }

  lemma RecordIsFixed(m: Fields)
    requires forall k :: k in m ==> (Clean(m[k]) <==> ConstPass(m[k]) == m[k])
    ensures Clean(Obj(m)) <==> ConstPass(Obj(m)) == Obj(m)
  {
    var n := MapConst(m);
    ConstSurvives(m);
    if Collapses(m) {
      assert "anyOf" !in Collapse(m);
    } else if StringConst(Obj(n)).Some? {
      assert "const" !in RewriteConst(n);
      assert "const" in m;
    } else if forall k :: k in m ==> Clean(m[k]) {
      assert n == m;
    } else {
      var k :| k in m && !Clean(m[k]);
      assert n[k] != m[k];
    }
  }

  /** Rewriting the children does not change whether a record is a string constant. */
  lemma ConstSurvives(m: Fields)
    ensures StringConst(Obj(MapConst(m))) == StringConst(Obj(m))
  {
    var n := MapConst(m);
    assert n.Keys == m.Keys;
    assert forall k :: k in m <==> k in n;
    if "type" in m {
      PassKeepsStrings(m["type"]);
    }
    if "const" in m {
      PassKeepsStrings(m["const"]);
    }
  }

  lemma PassKeepsStrings(v: Value)
    ensures v.Str? <==> ConstPass(v).Str?
    ensures v.Str? ==> ConstPass(v) == v
  {
  }

  /** Clean members that were no union of constants before the pass are none after it. */
  lemma {:induction false} ScanStaysEmpty(items: seq<Value>, after: seq<Value>)
    requires |after| == |items| && forall i :: 0 <= i < |items| ==> after[i] == ConstPass(items[i]) && Clean(after[i])
    ensures ScanUnion(after).Union? ==> ScanUnion(after).values == []
  {
    if items != [] {
      ScanStaysEmpty(items[1..], after[1..]);
      assert Clean(after[0]);
      assert StringConst(after[0]).None?;
    }
  }

  lemma CollapseIsClean(m: Fields)
    requires Collapses(m)
    ensures Clean(Obj(Collapse(m))) <==> Settles(Obj(m))
  {
    var c := Collapse(m);
    assert Clean(c["enum"]) by {
      assert forall i :: 0 <= i < |c["enum"].items| ==> c["enum"].items[i].Str? || c["enum"].items[i].Null?;
    }
    assert "const" in c <==> "const" in m;
    assert StringConst(Obj(c)).Some? <==> "const" in m && m["const"].Str?;
    if Clean(Obj(c)) {
      forall k | k in m && k !in {"anyOf", "type", "enum"} && !(k == "nullable" && CollapseNullable(m))
        ensures Clean(m[k])
      {
        assert k in c && c[k] == m[k];
      }
    }
    if Settles(Obj(m)) {
      forall k | k in c ensures Clean(c[k]) {
        if k !in {"type", "enum"} && !(k == "nullable" && CollapseNullable(m)) {
          assert k in m && c[k] == m[k];
        }
      }
    }
  }

  lemma MappedIsClean(m: Fields)
    requires !Collapses(m)
    requires forall k :: k in m ==> (Clean(ConstPass(m[k])) <==> Settles(m[k]))
    ensures Clean(Obj(RewriteConst(MapConst(m)))) <==> Settles(Obj(m))
  {
    var n := MapConst(m);
    var r := RewriteConst(n);
    ConstSurvives(m);
    assert forall k :: k in m <==> k in n;
    if StringConst(Obj(m)).Some? {
      RewrittenIsClean(m);
    } else {
      assert r == n;
      if forall k :: k in m ==> Settles(m[k]) {
        if HasArray(n, "anyOf") {
          var items := m["anyOf"].items;
          assert forall i :: 0 <= i < |items| ==>
              n["anyOf"].items[i] == ConstPass(items[i]) && Clean(n["anyOf"].items[i]) by {
            assert Clean(n["anyOf"]);
          }
          ScanStaysEmpty(items, n["anyOf"].items);
        }
      } else {
        var k :| k in m && !Settles(m[k]);
        assert !Clean(n[k]);
      }
    }
  }

  lemma RewrittenIsClean(m: Fields)
    requires !Collapses(m) && StringConst(Obj(m)).Some?
    requires forall k :: k in m ==> (Clean(ConstPass(m[k])) <==> Settles(m[k]))
    ensures Clean(Obj(RewriteConst(MapConst(m)))) <==> Settles(Obj(m))
  {
    var n := MapConst(m);
    var r := RewriteConst(n);
    ConstSurvives(m);
    assert Clean(r["enum"]) && Clean(r["type"]);
    if Settles(Obj(m)) {
      forall k | k in r ensures Clean(r[k]) {
        if k != "type" && k != "enum" {
          assert k in m && r[k] == ConstPass(m[k]);
        }
      }
      if HasArray(r, "anyOf") {
        var items := m["anyOf"].items;
        assert Clean(r["anyOf"]);
        ScanStaysEmpty(items, r["anyOf"].items);
      }
    } else {
      var k :| k in m && k != "enum" && !Settles(m[k]);
      assert k != "type" && k != "const";
      assert r[k] == ConstPass(m[k]);
    }
  }

  lemma SettlesMeansClean(v: Value)
    ensures Clean(ConstPass(v)) <==> Settles(v)
  {
    match v
    case Arr(items) =>
      forall i | 0 <= i < |items| ensures Clean(ConstPass(items[i])) <==> Settles(items[i]) {
        SettlesMeansClean(items[i]);
      }
      var after := ConstPass(v).items;
      if Settles(v) {
        forall i | 0 <= i < |after| ensures Clean(after[i]) {
          assert Settles(items[i]);
        }
      } else {
        var i :| 0 <= i < |items| && !Settles(items[i]);
        assert !Clean(after[i]);
      }
    case Obj(m) =>
      if Collapses(m) {
        CollapseIsClean(m);
      } else {
        forall k | k in m ensures Clean(ConstPass(m[k])) <==> Settles(m[k]) {
          SettlesMeansClean(m[k]);
        }
        MappedIsClean(m);
      }
    case _ =>
  }

  /** Running the const pass twice equals running it once exactly when no collapsed union has a
      sibling that needs a rewrite. */
  lemma ConstPassIdempotence(v: Value)
    ensures ConstPass(ConstPass(v)) == ConstPass(v) <==> Settles(v)
  {
    SettlesMeansClean(v);
    CleanIsFixed(ConstPass(v));
  }

  lemma {:induction false} PlainIsClean(v: Value)
    requires Plain(v)
    ensures Clean(v)
  {
    if v.Arr? {
      forall i | 0 <= i < |v.items| ensures Clean(v.items[i]) {
        PlainIsClean(v.items[i]);
      }
    } else if v.Obj? {
      forall k | k in v.fields ensures Clean(v.fields[k]) {
        PlainIsClean(v.fields[k]);
      }
    }
  }

  lemma {:induction false} CleanSettles(v: Value)
    requires Clean(v)
    ensures Settles(v)
  {
    if v.Arr? {
      forall i | 0 <= i < |v.items| ensures Settles(v.items[i]) {
        CleanSettles(v.items[i]);
      }
    } else if v.Obj? {
      forall k | k in v.fields ensures Settles(v.fields[k]) {
        CleanSettles(v.fields[k]);
      }
    }
  }

  lemma CollapsingSettles(m: Fields)
    requires InFragment(Obj(m)) && Collapses(m)
    ensures Settles(Obj(m))
  {
    assert FieldsInFragment(Obj(m));
    OnlyLacks(m, {"anyOf", "nullable"}, "const");
    forall k | k in m && k !in {"anyOf", "type", "enum"} ensures Clean(m[k]) {
      PlainBeside(m, k);
      PlainIsClean(m[k]);
    }
  }

  lemma PlainBeside(m: Fields, k: string)
    requires FieldsInFragment(Obj(m)) && Only(m, {"anyOf", "nullable"}) && k in m && k != "anyOf"
    ensures Plain(m[k])
  {
    assert k !in SCHEMA_KEYWORDS;
  }

  /** Every schema the passes are written for settles. */
  lemma {:induction false} FragmentSettles(s: Value)
    requires InFragment(s)
    ensures Settles(s)
    decreases s, 1
  {
    if s.Obj? {
      var m := s.fields;
      if Collapses(m) {
        CollapsingSettles(m);
      } else {
        forall k | k in m ensures Settles(m[k]) {
          FieldSettles(s, k);
        }
      }
    }
  }

  lemma {:induction false} FieldSettles(s: Value, k: string)
    requires InFragment(s) && s.Obj? && k in s.fields
    ensures Settles(s.fields[k])
    decreases s, 0
  {
    var m := s.fields;
    assert FieldsInFragment(s);
    if k in {"anyOf", "allOf", "oneOf"} {
      forall i | 0 <= i < |m[k].items| ensures Settles(m[k].items[i]) {
        FragmentSettles(m[k].items[i]);
      }
    } else if k in {"not", "items", "additionalProperties"} {
      FragmentSettles(m[k]);
    } else if k in {"properties", "patternProperties"} {
      forall name | name in m[k].fields ensures Settles(m[k].fields[name]) && InFragment(m[k].fields[name]) {
        FragmentSettles(m[k].fields[name]);
      }
      assert !Collapses(m[k].fields);
    } else {
      assert k !in SCHEMA_KEYWORDS;
      PlainIsClean(m[k]);
      CleanSettles(m[k]);
    }
  }

  /** On them the const pass is idempotent. */
  lemma ConstPassIdempotentOnSchemas(s: Value)
    requires InFragment(s)
    ensures ConstPass(ConstPass(s)) == ConstPass(s)
  {
    FragmentSettles(s);
    ConstPassIdempotence(s);
  }

  /** A union with an unvisited sibling: the second run still finds a constant to rewrite. */
  lemma UnvisitedSibling(m: Fields, a: Value, b: Value)
    requires a == Obj(map["const" := Str("a")]) && b == Obj(map["const" := Str("b")])
    requires m == map["anyOf" := Arr([a]), "items" := b]
    ensures ConstPass(ConstPass(Obj(m))) != ConstPass(Obj(m))
  {
    assert StringConst(b) == Some("b");
    assert ScanUnion([a][1..]) == Union([], false);
    assert ScanUnion(m["anyOf"].items) == Union(["a"], false);
    assert Collapses(m) && !Clean(m["items"]);
    assert !Settles(Obj(m));
    ConstPassIdempotence(Obj(m));
  }

  // ----------------------------------------------------------------------------- nullable pass

  /** No two-member union with null is left anywhere. */
  predicate Merged(v: Value) {
    match v
    case Arr(items) => forall i :: 0 <= i < |items| ==> Merged(items[i])
    case Obj(m) => NullPartner(m).None? && forall k :: k in m ==> Merged(m[k])
    case _ => true
  }

  lemma {:induction false} MergedIsFixed(v: Value)
    requires Merged(v)
    ensures NullablePass(v) == v
  {
    if v.Arr? {
      forall i | 0 <= i < |v.items| ensures NullablePass(v.items[i]) == v.items[i] {
        MergedIsFixed(v.items[i]);
      }
    } else if v.Obj? {
      forall k | k in v.fields ensures NullablePass(v.fields[k]) == v.fields[k] {
        MergedIsFixed(v.fields[k]);
      }
      assert MapNullable(v.fields) == v.fields;
    }
  }

  lemma MergeIsMerged(n: Fields)
    requires forall k :: k in n ==> Merged(n[k])
    ensures Merged(Obj(MergeNullable(n)))
  {
    if NullPartner(n).Some? {
      var items := n["anyOf"].items;
      var schema := NullPartner(n).value;
      assert Merged(n["anyOf"]);
      assert Obj(schema) == items[0] || Obj(schema) == items[1];
      assert Merged(Obj(schema));
      var r := (n - {"anyOf"}) + schema + map["nullable" := Bool(true)];
      assert forall k :: k in r ==> Merged(r[k]);
      assert "anyOf" in r <==> "anyOf" in schema;
      var t := ListNull(r);
      if HasArray(r, "enum") {
        assert Merged(r["enum"]);
      }
      assert forall k :: k in t ==> Merged(t[k]);
    }
  }

  /** One run leaves nothing to merge: not in the children, and not in what a merge brings up. */
  lemma {:induction false} PassMerges(v: Value)
    ensures Merged(NullablePass(v))
  {
    if v.Arr? {
      forall i | 0 <= i < |v.items| ensures Merged(NullablePass(v.items[i])) {
        PassMerges(v.items[i]);
      }
    } else if v.Obj? {
      forall k | k in v.fields ensures Merged(NullablePass(v.fields[k])) {
        PassMerges(v.fields[k]);
      }
      MergeIsMerged(MapNullable(v.fields));
    }
  }

  /** The nullable pass is idempotent on every document. */
  lemma NullablePassIdempotence(v: Value)
    ensures NullablePass(NullablePass(v)) == NullablePass(v)
    ensures NullablePass(v) == v <==> Merged(v)
  {
    PassMerges(v);
    MergedIsFixed(NullablePass(v));
    if Merged(v) {
      MergedIsFixed(v);
    }
  }
}
