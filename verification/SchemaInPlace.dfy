/** The two schema passes as they run: records of a parsed document, rewritten in place. */
module SchemaInPlace {
  import opened Wrappers
  import opened Json
  import opened SchemaPasses

  class Record {
    var fields: map<string, Node>
  }

  datatype Node = Leaf(value: Value) | List(items: seq<Node>) | Rec(record: Record)

  predicate Primitive(v: Value) {
    !v.Arr? && !v.Obj?
  }

  /** The tree of records behind a node, with the contents the records should have. */
  datatype Shape =
    | LeafShape(value: Value)
    | ListShape(items: seq<Shape>)
    | RecShape(record: Record, fields: map<string, Shape>)

  ghost function Foot(s: Shape): set<Record> {
    match s
    case LeafShape(_) => {}
    case ListShape(items) => set i, r | 0 <= i < |items| && r in Foot(items[i]) :: r
    case RecShape(record, fields) => {record} + set k, r | k in fields && r in Foot(fields[k]) :: r
  }

  ghost function NodeOf(s: Shape): Node {
    match s
    case LeafShape(v) => Leaf(v)
    case ListShape(items) => List(seq(|items|, i requires 0 <= i < |items| => NodeOf(items[i])))
    case RecShape(record, _) => Rec(record)
  }

  ghost function JsonOf(s: Shape): Value {
    match s
    case LeafShape(v) => v
    case ListShape(items) => Arr(seq(|items|, i requires 0 <= i < |items| => JsonOf(items[i])))
    case RecShape(_, fields) => Obj(map k | k in fields :: JsonOf(fields[k]))
  }

  /** A parsed document: no record occurs twice. */
  ghost predicate Tree(s: Shape) {
    match s
    case LeafShape(v) => Primitive(v)
    case ListShape(items) =>
      && (forall i :: 0 <= i < |items| ==> Tree(items[i]))
      && (forall i, j :: 0 <= i < j < |items| ==> Foot(items[i]) !! Foot(items[j]))
    case RecShape(record, fields) =>
      && (forall k :: k in fields ==> Tree(fields[k]) && record !in Foot(fields[k]))
      && (forall k, l :: k in fields && l in fields && k != l ==> Foot(fields[k]) !! Foot(fields[l]))
  }

  /** Every record holds what the shape says. */
  ghost predicate Live(s: Shape)
    reads Foot(s)
  {
    match s
    case LeafShape(_) => true
    case ListShape(items) => forall i :: 0 <= i < |items| ==> Live(items[i])
    case RecShape(record, fields) =>
      && record.fields == (map k | k in fields :: NodeOf(fields[k]))
      && forall k :: k in fields ==> Live(fields[k])
  }

  ghost predicate Holds(s: Shape, n: Node)
    reads Foot(s)
  {
    Tree(s) && Live(s) && NodeOf(s) == n
  }

  // ------------------------------------------------------------------------- reading a record

  function FieldIs(n: Node, key: string, v: Value): bool
    reads if n.Rec? then {n.record} else {}
  {
    n.Rec? && key in n.record.fields && n.record.fields[key] == Leaf(v)
  }

  lemma LeafAgrees(s: Shape, v: Value)
    requires Tree(s) && Primitive(v)
    ensures NodeOf(s) == Leaf(v) <==> JsonOf(s) == v
  {
  }

  lemma FieldAgrees(s: Shape, key: string, v: Value)
    requires Tree(s) && Live(s) && Primitive(v)
    ensures FieldIs(NodeOf(s), key, v) <==> JsonOf(s).Obj? && Has(JsonOf(s).fields, key, v)
  {
    if s.RecShape? && key in s.fields {
      LeafAgrees(s.fields[key], v);
    }
  }

  /** `getStringConstSchemaValue` */
  function ReadStringConst(n: Node): Option<string>
    reads if n.Rec? then {n.record} else {}
  {
    if !n.Rec? then None
    else
      var m := n.record.fields;
      if "type" in m && m["type"] != Leaf(Str("string")) then None
      else if "const" in m && m["const"].Leaf? && m["const"].value.Str? then Some(m["const"].value.s)
      else None
  }

  lemma ReadsStringConst(s: Shape)
    requires Tree(s) && Live(s)
    ensures ReadStringConst(NodeOf(s)) == StringConst(JsonOf(s))
  {
    if s.RecShape? {
      FieldAgrees(s, "type", Str("string"));
      if "const" in s.fields && s.fields["const"].LeafShape? {
        assert NodeOf(s.fields["const"]) == Leaf(s.fields["const"].value);
      }
    }
  }

  // ------------------------------------------------------------------------ collecting a union

  function Joined(values: seq<string>, nullable: bool, rest: Scan): Scan {
    match rest
    case Fails => Fails
    case Union(vs, n) => Union(values + vs, nullable || n)
  }

  lemma JoinStep(values: seq<string>, nullable: bool, items: seq<Value>, i: nat)
    requires i < |items|
    ensures Joined(values, nullable, ScanUnion(items[i..]))
         == if IsNullSchema(items[i]) then Joined(values, true, ScanUnion(items[i + 1..]))
            else match StringConst(items[i])
                 case None => Fails
                 case Some(c) => Joined(values + [c], nullable, ScanUnion(items[i + 1..]))
  {
    assert items[i..][1..] == items[i + 1..];
    var rest := ScanUnion(items[i + 1..]);
    if rest.Union? && StringConst(items[i]).Some? {
      assert values + ([StringConst(items[i]).value] + rest.values)
          == (values + [StringConst(items[i]).value]) + rest.values;
    }
  }

  lemma ListLengths(s: Shape)
    requires s.ListShape?
    ensures |NodeOf(s).items| == |JsonOf(s).items| == |s.items|
  {
  }

  /** The loop over `anyOf`; `None` is the early end. */
  method CollectUnion(n: Node, ghost s: Shape) returns (r: Option<(seq<string>, bool)>)
    requires n.List? && s.ListShape? && Holds(s, n)
    ensures ScanUnion(JsonOf(s).items) == match r case None => Fails case Some((vs, b)) => Union(vs, b)
  {
    ListLengths(s);
    ghost var items := JsonOf(s).items;
    var enumValues: seq<string> := [];
    var nullable := false;
    assert items[0..] == items;
    var i := 0;
    assert Joined([], false, ScanUnion(items)) == ScanUnion(items) by {
      if ScanUnion(items).Union? {
        assert [] + ScanUnion(items).values == ScanUnion(items).values;
      }
    }
    while i < |n.items|
      invariant i <= |n.items| && Holds(s, n)
      invariant ScanUnion(items) == Joined(enumValues, nullable, ScanUnion(items[i..]))
    {
      var schema := n.items[i];
      JoinStep(enumValues, nullable, items, i);
      assert Holds(s.items[i], schema) && items[i] == JsonOf(s.items[i]);
      FieldAgrees(s.items[i], "type", Str("null"));
      ReadsStringConst(s.items[i]);
      if FieldIs(schema, "type", Str("null")) {
        nullable := true;
      } else {
        var enumValue := ReadStringConst(schema);
        if enumValue.None? {
          return None;
        }
        enumValues := enumValues + [enumValue.value];
      }
      i := i + 1;
    }
    assert items[i..] == [];
    assert enumValues + [] == enumValues;
    return Some((enumValues, nullable));
  }

  // --------------------------------------------------------------------------------- shapes

  ghost function LeafList(vs: seq<Value>): Shape {
    ListShape(seq(|vs|, i requires 0 <= i < |vs| => LeafShape(vs[i])))
  }

  function Leaves(vs: seq<Value>): Node {
    List(seq(|vs|, i requires 0 <= i < |vs| => Leaf(vs[i])))
  }

  lemma LeafListHolds(vs: seq<Value>)
    requires forall i :: 0 <= i < |vs| ==> Primitive(vs[i])
    ensures var s := LeafList(vs);
            Tree(s) && Live(s) && NodeOf(s) == Leaves(vs) && JsonOf(s) == Arr(vs) && Foot(s) == {}
  {
    var s := LeafList(vs);
    assert NodeOf(s).items == Leaves(vs).items;
    assert JsonOf(s).items == vs;
  }

  ghost function Nodes(shapes: map<string, Shape>): map<string, Node> {
    map k | k in shapes :: NodeOf(shapes[k])
  }

  ghost function Jsons(shapes: map<string, Shape>): Fields {
    map k | k in shapes :: JsonOf(shapes[k])
  }

  lemma UpdateContents(shapes: map<string, Shape>, key: string, x: Shape)
    ensures Nodes(shapes[key := x]) == Nodes(shapes)[key := NodeOf(x)]
    ensures Jsons(shapes[key := x]) == Jsons(shapes)[key := JsonOf(x)]
  {
  }

  lemma DeleteContents(shapes: map<string, Shape>, keys: set<string>)
    ensures Nodes(shapes - keys) == Nodes(shapes) - keys
    ensures Jsons(shapes - keys) == Jsons(shapes) - keys
  {
  }

  lemma MergeNodes(a: map<string, Shape>, b: map<string, Shape>)
    ensures Nodes(a + b) == Nodes(a) + Nodes(b)
  {
  }

  lemma MergeJsons(a: map<string, Shape>, b: map<string, Shape>)
    ensures Jsons(a + b) == Jsons(a) + Jsons(b)
  {
  }

  /** `now` differs from `before` in deleted fields and in fields written with plain data. */
  ghost predicate Edits(before: map<string, Shape>, written: map<string, Shape>, now: map<string, Shape>) {
    && (forall k :: k in written ==> Tree(written[k]) && Foot(written[k]) == {})
    && (forall k :: k in now ==> if k in written then now[k] == written[k] else k in before && now[k] == before[k])
  }

  lemma EditKeepsTree(record: Record, before: map<string, Shape>, written: map<string, Shape>, now: map<string, Shape>)
    requires Tree(RecShape(record, before)) && Edits(before, written, now)
    ensures Tree(RecShape(record, now)) && Foot(RecShape(record, now)) <= Foot(RecShape(record, before))
  {
  }

  /** Assigns and deletes fields of one record. */
  method Assign(record: Record, fields: map<string, Node>, ghost s: Shape, ghost written: map<string, Shape>,
          ghost now: map<string, Shape>)
    requires s.RecShape? && Holds(s, Rec(record)) && Edits(s.fields, written, now)
    requires forall k :: k in written ==> Live(written[k])
    requires fields == Nodes(now)
    modifies record
    ensures Holds(RecShape(record, now), Rec(record)) && Foot(RecShape(record, now)) <= Foot(s)
  {
    EditKeepsTree(record, s.fields, written, now);
    record.fields := fields;
    forall k | k in now ensures Live(now[k]) {
      assert record !in Foot(now[k]);
    }
  }

  // ------------------------------------------------------------------------------ const pass

  lemma ArrayField(s: Shape, key: string)
    requires Tree(s) && Live(s) && s.RecShape?
    ensures (key in s.record.fields <==> key in s.fields) && (key in JsonOf(s).fields <==> key in s.fields)
    ensures key in s.fields ==>
              && s.record.fields[key] == NodeOf(s.fields[key]) && JsonOf(s).fields[key] == JsonOf(s.fields[key])
              && (s.record.fields[key].List? <==> s.fields[key].ListShape?)
              && (s.record.fields[key].List? <==> JsonOf(s).fields[key].Arr?)
  {
  }

  /** The reading half of `normalizeStringConstUnion`: the new enum values and the null flag. */
  method ReadUnion(record: Record, ghost s: Shape) returns (r: Option<(seq<string>, bool)>)
    requires s.RecShape? && Holds(s, Rec(record))
    ensures Holds(s, Rec(record))
    ensures r.Some? <==> Collapses(JsonOf(s).fields)
    ensures r.Some? ==> r.value == (ScanUnion(JsonOf(s).fields["anyOf"].items).values,
        CollapseNullable(JsonOf(s).fields))
  {
    ArrayField(s, "anyOf");
    if "anyOf" !in record.fields || !record.fields["anyOf"].List? {
      return None;
    }
    var anyOf := record.fields["anyOf"];
    ListLengths(s.fields["anyOf"]);
    if |anyOf.items| == 0 {
      return None;
    }
    FieldAgrees(s, "nullable", Bool(true));
    var nullable := FieldIs(Rec(record), "nullable", Bool(true));
    assert Holds(s.fields["anyOf"], anyOf);
    assert allocated(s) && allocated(Foot(s));
    var collected := CollectUnion(anyOf, s.fields["anyOf"]);
    if collected.None? || collected.value.0 == [] {
      return None;
    }
    return Some((collected.value.0, nullable || collected.value.1));
  }

  ghost function UnionWrites(values: seq<Value>, nullable: bool): map<string, Shape> {
    var w := map["type" := LeafShape(Str("string")), "enum" := LeafList(values)];
    if nullable then w["nullable" := LeafShape(Bool(true))] else w
  }

  lemma UnionWritesAreData(values: seq<Value>, nullable: bool)
    requires forall i :: 0 <= i < |values| ==> Primitive(values[i])
    ensures var w := UnionWrites(values, nullable);
            && (forall k :: k in w ==> Tree(w[k]) && Live(w[k]) && Foot(w[k]) == {})
            && NodeOf(w["enum"]) == Leaves(values) && JsonOf(w["enum"]) == Arr(values)
  {
    LeafListHolds(values);
  }

  function WithUnion(fields: map<string, Node>, values: seq<Value>, nullable: bool): map<string, Node> {
    var r := (fields - {"anyOf"})["type" := Leaf(Str("string"))]["enum" := Leaves(values)];
    if nullable then r["nullable" := Leaf(Bool(true))] else r
  }

  ghost function WriteEnum(shapes: map<string, Shape>, values: seq<Value>): map<string, Shape> {
    shapes["type" := LeafShape(Str("string"))]["enum" := LeafList(values)]
  }

  ghost function AfterUnion(before: map<string, Shape>, values: seq<Value>, nullable: bool): map<string, Shape> {
    var r := WriteEnum(before - {"anyOf"}, values);
    if nullable then r["nullable" := LeafShape(Bool(true))] else r
  }

  lemma WriteEnumContents(shapes: map<string, Shape>, values: seq<Value>)
    requires forall i :: 0 <= i < |values| ==> Primitive(values[i])
    ensures Nodes(WriteEnum(shapes, values)) == Nodes(shapes)["type" := Leaf(Str("string"))]["enum" := Leaves(values)]
    ensures Jsons(WriteEnum(shapes, values)) == Jsons(shapes)["type" := Str("string")]["enum" := Arr(values)]
  {
    LeafListHolds(values);
    UpdateContents(shapes, "type", LeafShape(Str("string")));
    UpdateContents(shapes["type" := LeafShape(Str("string"))], "enum", LeafList(values));
  }

  lemma AfterUnionContents(before: map<string, Shape>, values: seq<Value>, nullable: bool)
    requires forall i :: 0 <= i < |values| ==> Primitive(values[i])
    ensures Nodes(AfterUnion(before, values, nullable)) == WithUnion(Nodes(before), values, nullable)
    ensures var c := (Jsons(before) - {"anyOf"})["type" := Str("string")]["enum" := Arr(values)];
            Jsons(AfterUnion(before, values, nullable)) == if nullable then c["nullable" := Bool(true)] else c
  {
    DeleteContents(before, {"anyOf"});
    WriteEnumContents(before - {"anyOf"}, values);
    UpdateContents(WriteEnum(before - {"anyOf"}, values), "nullable", LeafShape(Bool(true)));
  }

  /** The writing half: the union of constants becomes an enum. */
  method WriteUnion(record: Record, values: seq<string>, nullable: bool, ghost s: Shape) returns (ghost t: Shape)
    requires s.RecShape? && Holds(s, Rec(record))
    requires Collapses(JsonOf(s).fields)
    requires values == ScanUnion(JsonOf(s).fields["anyOf"].items).values
        && nullable == CollapseNullable(JsonOf(s).fields)
    modifies record
    ensures t.RecShape? && Holds(t, Rec(record)) && Foot(t) <= Foot(s)
    ensures JsonOf(t) == Obj(Collapse(JsonOf(s).fields))
  {
    var enumValues := Strings(Dedupe(values)) + if nullable then [Null] else [];
    var fields := WithUnion(record.fields, enumValues, nullable);
    UnionWritesAreData(enumValues, nullable);
    AfterUnionContents(s.fields, enumValues, nullable);
    ghost var now := AfterUnion(s.fields, enumValues, nullable);
    Assign(record, fields, s, UnionWrites(enumValues, nullable), now);
    t := RecShape(record, now);
    assert JsonOf(s).fields == Jsons(s.fields) && JsonOf(t).fields == Jsons(now);
  }

  /** `normalizeStringConstUnion`: true when the record was rewritten. */
  method NormalizeStringConstUnion(record: Record, ghost s: Shape) returns (done: bool, ghost t: Shape)
    requires s.RecShape? && Holds(s, Rec(record))
    modifies record
    ensures done <==> Collapses(JsonOf(s).fields)
    ensures t.RecShape? && Holds(t, Rec(record)) && Foot(t) <= Foot(s)
    ensures if done then JsonOf(t) == Obj(Collapse(JsonOf(s).fields)) else t == s
  {
    var union := ReadUnion(record, s);
    if union.None? {
      return false, s;
    }
    t := WriteUnion(record, union.value.0, union.value.1, s);
    done := true;
  }

  lemma RewriteContents(before: map<string, Shape>, c: string)
    ensures Nodes(WriteEnum(before - {"const"}, [Str(c)]))
         == (Nodes(before) - {"const"})["type" := Leaf(Str("string"))]["enum" := Leaves([Str(c)])]
    ensures StringConst(Obj(Jsons(before))) == Some(c) ==>
              Jsons(WriteEnum(before - {"const"}, [Str(c)])) == RewriteConst(Jsons(before))
  {
    DeleteContents(before, {"const"});
    WriteEnumContents(before - {"const"}, [Str(c)]);
  }

  /** A string constant, when there is one, gives way to an enum of one. */
  method RewriteConstRecord(record: Record, ghost s: Shape) returns (ghost t: Shape)
    requires s.RecShape? && Holds(s, Rec(record))
    modifies record
    ensures t.RecShape? && Holds(t, Rec(record)) && Foot(t) <= Foot(s)
    ensures JsonOf(t) == Obj(RewriteConst(Jsons(s.fields)))
  {
    t := s;
    assert JsonOf(s) == Obj(Jsons(s.fields));
    ReadsStringConst(s);
    var constant := ReadStringConst(Rec(record));
    if constant.None? {
      return;
    }
    var c := constant.value;
    RewriteContents(s.fields, c);
    UnionWritesAreData([Str(c)], false);
    ghost var now := WriteEnum(s.fields - {"const"}, [Str(c)]);
    Assign(record, (record.fields - {"const"})["type" := Leaf(Str("string"))]["enum" := Leaves([Str(c)])],
           s, UnionWrites([Str(c)], false), now);
    t := RecShape(record, now);
    assert JsonOf(t) == Obj(Jsons(now));
  }

  // ------------------------------------------------------------------------------- the walk

  lemma ShrunkList(items: seq<Shape>, now: seq<Shape>)
    requires Tree(ListShape(items)) && |now| == |items|
    requires forall i :: 0 <= i < |items| ==> Tree(now[i]) && Foot(now[i]) <= Foot(items[i])
    ensures Tree(ListShape(now)) && Foot(ListShape(now)) <= Foot(ListShape(items))
  {
  }

  lemma ShrunkRecord(record: Record, fields: map<string, Shape>, now: map<string, Shape>)
    requires Tree(RecShape(record, fields)) && now.Keys == fields.Keys
    requires forall k :: k in fields ==> Tree(now[k]) && Foot(now[k]) <= Foot(fields[k])
    ensures Tree(RecShape(record, now)) && Foot(RecShape(record, now)) <= Foot(RecShape(record, fields))
  {
    assert forall k :: k in now <==> k in fields;
  }

  lemma MappedConst(s: Shape, t: Shape)
    requires s.RecShape? && t.RecShape? && t.fields.Keys == s.fields.Keys
    requires forall k :: k in s.fields ==> JsonOf(t.fields[k]) == ConstPass(JsonOf(s.fields[k]))
    requires !Collapses(JsonOf(s).fields)
    ensures Obj(RewriteConst(Jsons(t.fields))) == ConstPass(JsonOf(s))
  {
    var m := Jsons(s.fields);
    var l, r := Jsons(t.fields), map k | k in m :: ConstPass(m[k]);
    assert forall k :: k in l <==> k in r;
    assert l == r;
    assert JsonOf(s) == Obj(m);
  }

  /** A record whose children have all been normalized in place. */
  lemma RecordHolds(record: Record, s: Shape, now: map<string, Shape>)
    requires s.RecShape? && s.record == record && Tree(s) && now.Keys == s.fields.Keys
    requires record.fields == Nodes(s.fields)
    requires forall k :: k in s.fields ==> Holds(now[k], record.fields[k]) && Foot(now[k]) <= Foot(s.fields[k])
    ensures Holds(RecShape(record, now), Rec(record)) && Foot(RecShape(record, now)) <= Foot(s)
  {
    ShrunkRecord(record, s.fields, now);
    assert forall k :: k in now <==> k in s.fields;
    assert record.fields == Nodes(now);
  }

  method NormalizeConstSchemas(n: Node, ghost s: Shape) returns (ghost t: Shape)
    requires Holds(s, n)
    modifies Foot(s)
    ensures Holds(t, n) && Foot(t) <= Foot(s)
    ensures JsonOf(t) == ConstPass(JsonOf(s))
    decreases s, 1
  {
    match n {
      case Leaf(_) => t := s;
      case List(items) => t := NormalizeConstList(items, s);
      case Rec(record) =>
        var done;
        done, t := NormalizeStringConstUnion(record, s);
        if !done {
          t := NormalizeConstFields(record, s);
          MappedConst(s, t);
          t := RewriteConstRecord(record, t);
        }
    }
  }

  /** One item of the list; the others are disjoint from it and stay as they are. */
  method NormalizeItem(items: seq<Node>, i: nat, ghost s: Shape, ghost now: seq<Shape>)
    returns (ghost after: seq<Shape>)
    requires s.ListShape? && Tree(s) && |now| == |s.items| == |items| && i < |items|
    requires forall j :: 0 <= j < |items| ==> Holds(now[j], items[j]) && Foot(now[j]) <= Foot(s.items[j])
    requires now[i] == s.items[i]
    modifies Foot(now[i])
    ensures |after| == |now| && after == now[i := after[i]]
    ensures forall j :: 0 <= j < |items| ==> Holds(after[j], items[j]) && Foot(after[j]) <= Foot(s.items[j])
    ensures JsonOf(after[i]) == ConstPass(JsonOf(s.items[i]))
    decreases s.items[i], 2
  {
    ghost var u := NormalizeConstSchemas(items[i], now[i]);
    after := now[i := u];
    forall j | 0 <= j < |items| && j != i ensures Holds(now[j], items[j]) {
      assert Foot(now[j]) !! Foot(now[i]);
      assert old(allocated(now[j])) && old(allocated(Foot(now[j])));
      assert Live(now[j]) == old(Live(now[j]));
    }
  }

  /** Part-way through the fields of a record: those in `rest` are still to come. */
  ghost predicate Walking(record: Record, s: Shape, now: map<string, Shape>, rest: set<string>)
    reads record, Foot(RecShape(record, now))
  {
    match s
    case RecShape(owner, fields) =>
      && owner == record && Tree(s) && now.Keys == fields.Keys && rest <= fields.Keys && record.fields == Nodes(fields)
      && (forall k :: k in fields ==> Holds(now[k], record.fields[k]) && Foot(now[k]) <= Foot(fields[k]))
      && (forall k :: k in fields ==>
            if k in rest then now[k] == fields[k] else JsonOf(now[k]) == ConstPass(JsonOf(fields[k])))
    case _ => false
  }

  method NormalizeField(record: Record, key: string, ghost s: Shape, ghost now: map<string, Shape>,
          ghost rest: set<string>)
    returns (ghost after: map<string, Shape>)
    requires s.RecShape? && key in s.fields && key in now && key in rest && Walking(record, s, now, rest)
    modifies Foot(now[key])
    ensures Walking(record, s, after, rest - {key})
    ensures record.fields == old(record.fields)
    decreases s.fields[key], 2
  {
    assert record !in Foot(now[key]);
    ghost var u := NormalizeConstSchemas(record.fields[key], now[key]);
    after := now[key := u];
    forall k | k in s.fields && k != key ensures Holds(now[k], record.fields[k]) {
      assert Foot(now[k]) !! Foot(now[key]);
      assert old(allocated(now[k])) && old(allocated(Foot(now[k])));
      assert Live(now[k]) == old(Live(now[k]));
    }
  }

  method NormalizeConstList(items: seq<Node>, ghost s: Shape) returns (ghost t: Shape)
    requires s.ListShape? && Holds(s, List(items))
    modifies Foot(s)
    ensures Holds(t, List(items)) && Foot(t) <= Foot(s)
    ensures JsonOf(t) == ConstPass(JsonOf(s))
    decreases s, 0
  {
    ListLengths(s);
    ghost var now := s.items;
    var i := 0;
    while i < |items|
      invariant i <= |items| == |now| == |s.items|
      invariant forall j :: 0 <= j < |items| ==> Holds(now[j], items[j]) && Foot(now[j]) <= Foot(s.items[j])
      invariant forall j :: 0 <= j < i ==> JsonOf(now[j]) == ConstPass(JsonOf(s.items[j]))
      invariant forall j :: i <= j < |items| ==> now[j] == s.items[j]
    {
      now := NormalizeItem(items, i, s, now);
      i := i + 1;
    }
    ShrunkList(s.items, now);
    t := ListShape(now);
    assert NodeOf(t).items == items;
    assert JsonOf(t).items == ConstPass(JsonOf(s)).items;
  }

  lemma FieldsHold(record: Record, s: Shape)
    requires s.RecShape? && Holds(s, Rec(record))
    ensures s.record == record && record.fields == Nodes(s.fields)
    ensures forall k :: k in s.fields ==> Holds(s.fields[k], record.fields[k]) && Foot(s.fields[k]) <= Foot(s)
  {
  }

  /** The walk over the children of a record. */
  method NormalizeConstFields(record: Record, ghost s: Shape) returns (ghost t: Shape)
    requires s.RecShape? && Holds(s, Rec(record))
    modifies Foot(s)
    ensures t.RecShape? && Holds(t, Rec(record)) && Foot(t) <= Foot(s)
    ensures t.fields.Keys == s.fields.Keys && forall k :: k in s.fields ==>
        JsonOf(t.fields[k]) == ConstPass(JsonOf(s.fields[k]))
    decreases s, 0
  {
    FieldsHold(record, s);
    ghost var now := s.fields;
    var rest := record.fields.Keys;
    while rest != {}
      invariant Walking(record, s, now, rest)
    {
      var key :| key in rest;
      assert key in now && Foot(now[key]) <= Foot(s);
      now := NormalizeField(record, key, s, now, rest);
      rest := rest - {key};
    }
    RecordHolds(record, s, now);
    t := RecShape(record, now);
  }
}
