/** apps/server/scripts/export-openapi.ts: the second pass, which folds `anyOf [S, null]` into S, run in
    place and bottom-up, and the export that runs both passes. */
module NullableInPlace {
  import opened Wrappers
  import opened Json
  import opened SchemaPasses
  import opened SchemaInPlace

  function Mark<T>(fields: map<string, T>, yes: T): map<string, T> {
    fields["nullable" := yes]
  }

  lemma MarkIsAssign<T>(fields: map<string, T>, yes: T)
    ensures fields + map["nullable" := yes] == Mark(fields, yes)
  {
  }

  /** The partner's fields move up into the record that held the union. */
  ghost function MergedShapes(before: map<string, Shape>, partner: map<string, Shape>): map<string, Shape> {
    Mark((before - {"anyOf"}) + partner, LeafShape(Bool(true)))
  }

  /** Each field of the merged record comes from the partner, from a sibling of the union, or is new. */
  lemma MergedField(record: Record, before: map<string, Shape>, partner: Shape, k: string)
    requires Tree(RecShape(record, before)) && "anyOf" in before && before["anyOf"].ListShape?
    requires partner in before["anyOf"].items && partner.RecShape?
    requires k in MergedShapes(before, partner.fields)
    ensures var x := MergedShapes(before, partner.fields)[k];
            && Tree(x) && record !in Foot(x) && Foot(x) <= Foot(RecShape(record, before))
            && (if k == "nullable" then Foot(x) == {}
                else if k in partner.fields then x == partner.fields[k] && Foot(x) <= Foot(before["anyOf"])
                else k in before && k != "anyOf" && x == before[k])
  {
    var i :| 0 <= i < |before["anyOf"].items| && before["anyOf"].items[i] == partner;
    assert Tree(partner) && Foot(partner) <= Foot(before["anyOf"]);
    if k in partner.fields {
      assert Foot(partner.fields[k]) <= Foot(partner);
    }
  }

  lemma MergedTree(record: Record, before: map<string, Shape>, partner: Shape)
    requires Tree(RecShape(record, before)) && "anyOf" in before && before["anyOf"].ListShape?
    requires partner in before["anyOf"].items && partner.RecShape?
    ensures var now := MergedShapes(before, partner.fields);
            Tree(RecShape(record, now)) && Foot(RecShape(record, now)) <= Foot(RecShape(record, before))
  {
    var now := MergedShapes(before, partner.fields);
    assert Tree(partner) by { var i :| 0 <= i < |before["anyOf"].items| && before["anyOf"].items[i] == partner; }
    forall k | k in now
      ensures Tree(now[k]) && record !in Foot(now[k]) && Foot(now[k]) <= Foot(RecShape(record, before))
    {
      MergedField(record, before, partner, k);
    }
    forall k, l | k in now && l in now && k != l ensures Foot(now[k]) !! Foot(now[l]) {
      MergedField(record, before, partner, k);
      MergedField(record, before, partner, l);
    }
  }

  lemma MergedContents(before: map<string, Shape>, partner: map<string, Shape>)
    ensures Nodes(MergedShapes(before, partner)) == Mark((Nodes(before) - {"anyOf"}) + Nodes(partner), Leaf(Bool(true)))
    ensures Jsons(MergedShapes(before, partner)) == Mark((Jsons(before) - {"anyOf"}) + Jsons(partner), Bool(true))
  {
    DeleteContents(before, {"anyOf"});
    MergeNodes(before - {"anyOf"}, partner);
    MergeJsons(before - {"anyOf"}, partner);
    UpdateContents((before - {"anyOf"}) + partner, "nullable", LeafShape(Bool(true)));
  }

  /** An enum that does not list null gets it at the end. */
  ghost function WithNull(shapes: map<string, Shape>): map<string, Shape> {
    if "enum" in shapes && shapes["enum"].ListShape? && Leaf(Null) !in NodeOf(shapes["enum"]).items
    then shapes["enum" := ListShape(shapes["enum"].items + [LeafShape(Null)])]
    else shapes
  }

  function ListNullNode(fields: map<string, Node>): map<string, Node> {
    if "enum" in fields && fields["enum"].List? && Leaf(Null) !in fields["enum"].items
    then fields["enum" := List(fields["enum"].items + [Leaf(Null)])]
    else fields
  }

  lemma NullMembers(s: Shape)
    requires s.ListShape? && Tree(s)
    ensures Leaf(Null) in NodeOf(s).items <==> Null in JsonOf(s).items
  {
    forall i | 0 <= i < |s.items| ensures NodeOf(s).items[i] == Leaf(Null) <==> JsonOf(s).items[i] == Null {
      LeafAgrees(s.items[i], Null);
    }
    if Null in JsonOf(s).items {
      var i :| 0 <= i < |s.items| && JsonOf(s).items[i] == Null;
      assert NodeOf(s).items[i] == Leaf(Null);
    }
    if Leaf(Null) in NodeOf(s).items {
      var i :| 0 <= i < |s.items| && NodeOf(s).items[i] == Leaf(Null);
      assert JsonOf(s).items[i] == Null;
    }
  }

  lemma AppendNull(s: Shape)
    requires s.ListShape? && Tree(s)
    ensures var t := ListShape(s.items + [LeafShape(Null)]);
            && Tree(t) && Foot(t) <= Foot(s)
            && NodeOf(t) == List(NodeOf(s).items + [Leaf(Null)]) && JsonOf(t) == Arr(JsonOf(s).items + [Null])
  {
    var t := ListShape(s.items + [LeafShape(Null)]);
    assert NodeOf(t).items == NodeOf(s).items + [Leaf(Null)];
    assert JsonOf(t).items == JsonOf(s).items + [Null];
  }

  lemma WithNullContents(record: Record, shapes: map<string, Shape>)
    requires Tree(RecShape(record, shapes))
    ensures Nodes(WithNull(shapes)) == ListNullNode(Nodes(shapes))
    ensures Jsons(WithNull(shapes)) == ListNull(Jsons(shapes))
  {
    if "enum" in shapes && shapes["enum"].ListShape? {
      NullMembers(shapes["enum"]);
      AppendNull(shapes["enum"]);
      UpdateContents(shapes, "enum", ListShape(shapes["enum"].items + [LeafShape(Null)]));
    }
  }

  lemma WithNullTree(record: Record, shapes: map<string, Shape>)
    requires Tree(RecShape(record, shapes))
    ensures Tree(RecShape(record, WithNull(shapes)))
        && Foot(RecShape(record, WithNull(shapes))) <= Foot(RecShape(record, shapes))
  {
    if "enum" in shapes && shapes["enum"].ListShape? {
      AppendNull(shapes["enum"]);
      ShrunkRecord(record, shapes, shapes["enum" := ListShape(shapes["enum"].items + [LeafShape(Null)])]);
    }
  }

  // ------------------------------------------------------------------------------ one record

  /** The place of the first null schema, if there is one. */
  method FindNull(n: Node, ghost s: Shape) returns (index: int)
    requires n.List? && s.ListShape? && Holds(s, n)
    ensures Holds(s, n)
    ensures |JsonOf(s).items| == |n.items| && -1 <= index < |n.items|
    ensures index >= 0 ==> IsNullSchema(JsonOf(s).items[index])
    ensures forall j :: 0 <= j < (if index < 0 then |n.items| else index) ==> !IsNullSchema(JsonOf(s).items[j])
  {
    ListLengths(s);
    ghost var items := JsonOf(s).items;
    var i := 0;
    while i < |n.items|
      invariant i <= |n.items| && Holds(s, n)
      invariant forall j :: 0 <= j < i ==> !IsNullSchema(items[j])
    {
      assert Holds(s.items[i], n.items[i]) && items[i] == JsonOf(s.items[i]);
      FieldAgrees(s.items[i], "type", Str("null"));
      if FieldIs(n.items[i], "type", Str("null")) {
        return i;
      }
      i := i + 1;
    }
    return -1;
  }

  /** The guards of the pass: the record next to null in a two-member union, if there is one. */
  method FindPartner(record: Record, ghost s: Shape) returns (r: Option<Record>, ghost p: Shape)
    requires s.RecShape? && Holds(s, Rec(record))
    ensures Holds(s, Rec(record))
    ensures r.None? ==> NullPartner(Jsons(s.fields)).None?
    ensures r.Some? ==>
              && "anyOf" in s.fields && s.fields["anyOf"].ListShape? && p in s.fields["anyOf"].items
              && p.RecShape? && Holds(p, Rec(r.value)) && NullPartner(Jsons(s.fields)) == Some(Jsons(p.fields))
  {
    p := s;
    ArrayField(s, "anyOf");
    assert JsonOf(s) == Obj(Jsons(s.fields));
    if "anyOf" !in record.fields || !record.fields["anyOf"].List? {
      return None, s;
    }
    var anyOf := record.fields["anyOf"];
    ListLengths(s.fields["anyOf"]);
    if |anyOf.items| != 2 {
      return None, s;
    }
    assert Holds(s.fields["anyOf"], anyOf);
    assert allocated(s) && allocated(Foot(s));
    var nullIndex := FindNull(anyOf, s.fields["anyOf"]);
    if nullIndex == -1 {
      return None, s;
    }
    ghost var at := if nullIndex == 0 then 1 else 0;
    p := s.fields["anyOf"].items[at];
    var schema := anyOf.items[if nullIndex == 0 then 1 else 0];
    assert Holds(p, schema) && JsonOf(s.fields["anyOf"]).items[at] == JsonOf(p);
    if !schema.Rec? {
      return None, s;
    }
    assert JsonOf(p) == Obj(Jsons(p.fields));
    return Some(schema.record), p;
  }

  /** Replaces the fields of one record by fields that belong to it already. */
  method Rewrite(record: Record, fields: map<string, Node>, ghost s: Shape, ghost now: map<string, Shape>)
    requires s.RecShape? && Holds(s, Rec(record))
    requires Tree(RecShape(record, now)) && Foot(RecShape(record, now)) <= Foot(s)
    requires forall k :: k in now ==> Live(now[k])
    requires fields == Nodes(now)
    modifies record
    ensures Holds(RecShape(record, now), Rec(record))
  {
    record.fields := fields;
    forall k | k in now ensures Live(now[k]) {
      assert record !in Foot(now[k]);
    }
  }

  lemma MergedIsLive(record: Record, s: Shape, partner: Shape)
    requires s.RecShape? && Holds(s, Rec(record)) && "anyOf" in s.fields && s.fields["anyOf"].ListShape?
    requires partner in s.fields["anyOf"].items && partner.RecShape? && Holds(partner, Rec(partner.record))
    ensures forall k :: k in MergedShapes(s.fields, partner.fields) ==> Live(MergedShapes(s.fields, partner.fields)[k])
    ensures record.fields == Nodes(s.fields) && partner.record.fields == Nodes(partner.fields)
  {
    FieldsHold(record, s);
    FieldsHold(partner.record, partner);
  }

  /** The union goes, the fields of the partner come in over those of the record, and the mark is set. */
  method Absorb(record: Record, schema: Record, ghost s: Shape, ghost p: Shape) returns (ghost t: Shape)
    requires s.RecShape? && Holds(s, Rec(record)) && "anyOf" in s.fields && s.fields["anyOf"].ListShape?
    requires p in s.fields["anyOf"].items && p.RecShape? && Holds(p, Rec(schema))
    modifies record
    ensures t.RecShape? && Holds(t, Rec(record)) && Foot(t) <= Foot(s)
    ensures Jsons(t.fields) == (Jsons(s.fields) - {"anyOf"}) + Jsons(p.fields) + map["nullable" := Bool(true)]
  {
    ghost var now := MergedShapes(s.fields, p.fields);
    MergedIsLive(record, s, p);
    MergedTree(record, s.fields, p);
    MergedContents(s.fields, p.fields);
    MarkIsAssign((record.fields - {"anyOf"}) + schema.fields, Leaf(Bool(true)));
    MarkIsAssign((Jsons(s.fields) - {"anyOf"}) + Jsons(p.fields), Bool(true));
    Rewrite(record, (record.fields - {"anyOf"}) + schema.fields + map["nullable" := Leaf(Bool(true))], s, now);
    t := RecShape(record, now);
  }

  lemma WithNullIsLive(record: Record, s: Shape)
    requires s.RecShape? && Holds(s, Rec(record))
    ensures record.fields == Nodes(s.fields) && forall k :: k in WithNull(s.fields) ==> Live(WithNull(s.fields)[k])
  {
    FieldsHold(record, s);
  }

  /** The enum of a record just marked nullable has to list null, once. */
  method AdmitNull(record: Record, ghost s: Shape) returns (ghost t: Shape)
    requires s.RecShape? && Holds(s, Rec(record))
    modifies record
    ensures t.RecShape? && Holds(t, Rec(record)) && Foot(t) <= Foot(s)
    ensures Jsons(t.fields) == ListNull(Jsons(s.fields))
  {
    ghost var now := WithNull(s.fields);
    FieldsHold(record, s);
    WithNullIsLive(record, s);
    WithNullTree(record, s.fields);
    WithNullContents(record, s.fields);
    Rewrite(record, ListNullNode(record.fields), s, now);
    t := RecShape(record, now);
  }

  method MergeRecord(record: Record, ghost s: Shape) returns (ghost t: Shape)
    requires s.RecShape? && Holds(s, Rec(record))
    modifies record
    ensures t.RecShape? && Holds(t, Rec(record)) && Foot(t) <= Foot(s)
    ensures JsonOf(t) == Obj(MergeNullable(Jsons(s.fields)))
  {
    assert JsonOf(s) == Obj(Jsons(s.fields));
    assert allocated(s) && allocated(Foot(s));
    var partner, p := FindPartner(record, s);
    if partner.None? {
      return s;
    }
    t := Absorb(record, partner.value, s, p);
    t := AdmitNull(record, t);
    assert JsonOf(t) == Obj(Jsons(t.fields));
  }

  // ------------------------------------------------------------------------------- the walk

  lemma MappedNullable(s: Shape, t: Shape)
    requires s.RecShape? && t.RecShape? && t.fields.Keys == s.fields.Keys
    requires forall k :: k in s.fields ==> JsonOf(t.fields[k]) == NullablePass(JsonOf(s.fields[k]))
    ensures Obj(MergeNullable(Jsons(t.fields))) == NullablePass(JsonOf(s))
  {
    var m := Jsons(s.fields);
    var l, r := Jsons(t.fields), map k | k in m :: NullablePass(m[k]);
    assert forall k :: k in l <==> k in r;
    assert l == r;
    assert JsonOf(s) == Obj(m);
  }

  method NormalizeNullableSchemas(n: Node, ghost s: Shape) returns (ghost t: Shape)
    requires Holds(s, n)
    modifies Foot(s)
    ensures Holds(t, n) && Foot(t) <= Foot(s)
    ensures JsonOf(t) == NullablePass(JsonOf(s))
    decreases s, 1
  {
    match n {
      case Leaf(_) => t := s;
      case List(items) => t := NormalizeNullableList(items, s);
      case Rec(record) =>
        t := NormalizeNullableFields(record, s);
        MappedNullable(s, t);
        t := MergeRecord(record, t);
    }
  }

  /** One item of the list; the others are disjoint from it and stay as they are. */
  method NullableItem(items: seq<Node>, i: nat, ghost s: Shape, ghost now: seq<Shape>) returns (ghost after: seq<Shape>)
    requires s.ListShape? && Tree(s) && |now| == |s.items| == |items| && i < |items|
    requires forall j :: 0 <= j < |items| ==> Holds(now[j], items[j]) && Foot(now[j]) <= Foot(s.items[j])
    requires now[i] == s.items[i]
    modifies Foot(now[i])
    ensures |after| == |now| && after == now[i := after[i]]
    ensures forall j :: 0 <= j < |items| ==> Holds(after[j], items[j]) && Foot(after[j]) <= Foot(s.items[j])
    ensures JsonOf(after[i]) == NullablePass(JsonOf(s.items[i]))
    decreases s.items[i], 2
  {
    ghost var u := NormalizeNullableSchemas(items[i], now[i]);
    after := now[i := u];
    forall j | 0 <= j < |items| && j != i ensures Holds(now[j], items[j]) {
      assert Foot(now[j]) !! Foot(now[i]);
      assert old(allocated(now[j])) && old(allocated(Foot(now[j])));
      assert Live(now[j]) == old(Live(now[j]));
    }
  }

  /** Part-way through the fields of a record: those in `rest` are still to come. */
  ghost predicate Walking(record: Record, s: Shape, now: map<string, Shape>, rest: set<string>)
    reads record, Foot(RecShape(record, now))
  {
    match s
    case RecShape(owner, fields) =>
      && owner == record && Tree(s) && now.Keys == fields.Keys && rest <= fields.Keys && record.fields == Nodes(fields)
      && (forall k :: k in fields ==> Holds(now[k], record.fields[k]) && Foot(now[k]) <= Foot(fields[k]))
      && (forall k :: k in fields ==>
            if k in rest then now[k] == fields[k] else JsonOf(now[k]) == NullablePass(JsonOf(fields[k])))
    case _ => false
  }

  method NullableField(record: Record, key: string, ghost s: Shape, ghost now: map<string, Shape>,
          ghost rest: set<string>)
    returns (ghost after: map<string, Shape>)
    requires s.RecShape? && key in s.fields && key in now && key in rest && Walking(record, s, now, rest)
    modifies Foot(now[key])
    ensures Walking(record, s, after, rest - {key})
    ensures record.fields == old(record.fields)
    decreases s.fields[key], 2
  {
    assert record !in Foot(now[key]);
    ghost var u := NormalizeNullableSchemas(record.fields[key], now[key]);
    after := now[key := u];
    forall k | k in s.fields && k != key ensures Holds(now[k], record.fields[k]) {
      assert Foot(now[k]) !! Foot(now[key]);
      assert old(allocated(now[k])) && old(allocated(Foot(now[k])));
      assert Live(now[k]) == old(Live(now[k]));
    }
  }

  method NormalizeNullableList(items: seq<Node>, ghost s: Shape) returns (ghost t: Shape)
    requires s.ListShape? && Holds(s, List(items))
    modifies Foot(s)
    ensures Holds(t, List(items)) && Foot(t) <= Foot(s)
    ensures JsonOf(t) == NullablePass(JsonOf(s))
    decreases s, 0
  {
    ListLengths(s);
    ghost var now := s.items;
    var i := 0;
    while i < |items|
      invariant i <= |items| == |now| == |s.items|
      invariant forall j :: 0 <= j < |items| ==> Holds(now[j], items[j]) && Foot(now[j]) <= Foot(s.items[j])
      invariant forall j :: 0 <= j < i ==> JsonOf(now[j]) == NullablePass(JsonOf(s.items[j]))
      invariant forall j :: i <= j < |items| ==> now[j] == s.items[j]
    {
      now := NullableItem(items, i, s, now);
      i := i + 1;
    }
    ShrunkList(s.items, now);
    t := ListShape(now);
    assert NodeOf(t).items == items;
    assert JsonOf(t).items == NullablePass(JsonOf(s)).items;
  }

  /** The walk over the children of a record. */
  method NormalizeNullableFields(record: Record, ghost s: Shape) returns (ghost t: Shape)
    requires s.RecShape? && Holds(s, Rec(record))
    modifies Foot(s)
    ensures t.RecShape? && Holds(t, Rec(record)) && Foot(t) <= Foot(s)
    ensures t.fields.Keys == s.fields.Keys && forall k :: k in s.fields ==>
        JsonOf(t.fields[k]) == NullablePass(JsonOf(s.fields[k]))
    decreases s, 0
  {
    FieldsHold(record, s);
    ghost var now := s.fields;
    var rest := record.fields.Keys;
    while rest != {}
      invariant Walking(record, s, now, rest)
    {
      var key :| key in rest;
      assert key in now && Foot(now[key]) <= Foot(s);
      now := NullableField(record, key, s, now, rest);
      rest := rest - {key};
    }
    RecordHolds(record, s, now);
    t := RecShape(record, now);
  }

  /** What the export does to the whole document before it writes it out. */
  method NormalizeDocument(document: Node, ghost s: Shape) returns (ghost t: Shape)
    requires Holds(s, document)
    modifies Foot(s)
    ensures Holds(t, document) && Foot(t) <= Foot(s)
    ensures JsonOf(t) == NullablePass(ConstPass(JsonOf(s)))
  {
    t := NormalizeConstSchemas(document, s);
    t := NormalizeNullableSchemas(document, t);
  }
}
