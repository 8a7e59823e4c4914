/** create_full_tree_from_apoc and create_prerequisite_tree_from_apoc: for each
    query row, build one CourseNode per parsed node record, then wire every
    relationship of the row by appending its end node to its start node's
    children. The id -> node and code -> node tables live for one build call. */
module Materialize {
  import opened Wrappers
  import opened CourseNodes

  /** A node as parse_node returns it: the element id, the labels, and the
      properties the build reads (None when the property is absent). */
  datatype NodeRecord = NodeRecord(id: string, labels: seq<string>, code: Option<string>, fullName: Option<string>, index: Option<int>)

  /** A relationship as parse_relationship returns it; the build reads only its endpoints. */
  datatype RelRecord = RelRecord(startNode: string, endNode: string)

  /** One row of the query result. */
  datatype QueryRecord = QueryRecord(nodes: seq<NodeRecord>, relationships: seq<RelRecord>)

  /** The exceptions the build raises. */
  datatype BuildError =
    | NoLabel(id: string)                       // node["labels"][0] on an empty list
    | MissingProperty(id: string, name: string) // node_properties[name] is absent
    | UnknownNode(id: string)                   // dict_neo4j_all[id] is absent
    | CourseNotFound(code: string)              // dict_course[course_I_want] is absent

  /** The arena together with the two lookup tables of one build call:
      element id -> node (dict_neo4j_all) and course code -> node (dict_course). */
  datatype Tables = Tables(nodes: seq<CourseNode>, ids: map<string, nat>, courses: map<string, nat>)

  /** The kind the first label names, when it is one the build knows. */
  function KindOf(r: NodeRecord): Option<Label>
    requires |r.labels| > 0
  {
    if r.labels[0] == "Course" then Some(Course)
    else if r.labels[0] == "AND" then Some(And)
    else if r.labels[0] == "OR" then Some(Or)
    else None
  }

  /** The error reading a record raises, if any. A record with an unknown
      first label is skipped without error. */
  function RecordError(r: NodeRecord): Option<BuildError> {
    if |r.labels| == 0 then Some(NoLabel(r.id))
    else match KindOf(r)
      case Some(Course) =>
        if r.code.None? then Some(MissingProperty(r.id, "code"))
        else if r.fullName.None? then Some(MissingProperty(r.id, "full_name"))
        else None
      case Some(_) => if r.index.None? then Some(MissingProperty(r.id, "index")) else None
      case None => None
  }

  /** Whether the build creates a node for the record. */
  predicate Kept(r: NodeRecord) {
    |r.labels| > 0 && KindOf(r).Some?
  }

  /** Whether the record is a Course record, registered under its code too. */
  predicate IsCourseRecord(r: NodeRecord) {
    |r.labels| > 0 && KindOf(r) == Some(Course)
  }

  /** The node built from a kept record. */
  function NodeFor(r: NodeRecord): CourseNode
    requires Kept(r)
  {
    NewCourseNode(KindOf(r).value, r.code, r.fullName, r.index)
  }

  /** Every table entry points into an arena of n nodes. */
  ghost predicate Below(m: map<string, nat>, n: nat) {
    forall k :: k in m ==> m[k] < n
  }

  ghost predicate TablesValid(t: Tables) {
    Below(t.ids, |t.nodes|) && Below(t.courses, |t.nodes|)
  }

  /** Every code entry names a Course node, created at or after `base`,
      whose code is that code. */
  ghost predicate CoursesFrom(base: nat, t: Tables) {
    forall c :: c in t.courses ==>
      base <= t.courses[c] < |t.nodes| && t.nodes[t.courses[c]].kind == Course && t.nodes[t.courses[c]].code == Some(c)
  }

  // ---------------------------------------------------------------------------
  // Node records

  /** The error of the first record that raises one, scanning in order. */
  function FirstRecordError(recs: seq<NodeRecord>): (e: Option<BuildError>)
    ensures e.None? <==> forall i :: 0 <= i < |recs| ==> RecordError(recs[i]).None?
    ensures e.Some? ==> exists i :: 0 <= i < |recs| && RecordError(recs[i]) == e
                                    && forall i' :: 0 <= i' < i ==> RecordError(recs[i']).None?
  {
    if recs == [] then None
    else
      var pre := recs[..|recs| - 1];
      var e' := FirstRecordError(pre);
      assert forall i :: 0 <= i < |pre| ==> pre[i] == recs[i];
      if e'.Some? then e' else RecordError(recs[|recs| - 1])
  }

  /** Registering one kept record: a fresh node at the end of the arena, its id
      (and, for a Course, its code) now naming that node. */
  function RegisterOne(t: Tables, r: NodeRecord): (u: Tables)
    requires Kept(r) && RecordError(r).None?
  {
    var ref := |t.nodes|;
    Tables(t.nodes + [NodeFor(r)], t.ids[r.id := ref],
           if IsCourseRecord(r) then t.courses[r.code.value := ref] else t.courses)
  }

  /** The tables after the node loop over `recs`, none of which raises. */
  ghost function Registered(t: Tables, recs: seq<NodeRecord>): (u: Tables)
    requires forall i :: 0 <= i < |recs| ==> RecordError(recs[i]).None?
    ensures t.nodes <= u.nodes
    ensures TablesValid(t) ==> TablesValid(u)
    decreases |recs|
  {
    if recs == [] then t
    else
      var pre := recs[..|recs| - 1];
      var r := recs[|recs| - 1];
      assert forall i :: 0 <= i < |pre| ==> pre[i] == recs[i];
      var v := Registered(t, pre);
      if Kept(r) then RegisterOne(v, r) else v
  }

  /** The ids of the records the node loop keeps. */
  ghost function KeptIds(recs: seq<NodeRecord>): set<string> {
    set i | 0 <= i < |recs| && Kept(recs[i]) :: recs[i].id
  }

  /** The codes of the Course records the node loop keeps. */
  ghost function KeptCodes(recs: seq<NodeRecord>): set<string> {
    set i | 0 <= i < |recs| && IsCourseRecord(recs[i]) && recs[i].code.Some? :: recs[i].code.value
  }

  lemma KeptIdsSnoc(recs: seq<NodeRecord>)
    requires recs != []
    ensures var pre, r := recs[..|recs| - 1], recs[|recs| - 1];
      KeptIds(recs) == KeptIds(pre) + (if Kept(r) then {r.id} else {})
  {
    var pre, r := recs[..|recs| - 1], recs[|recs| - 1];
    forall id | id in KeptIds(recs) ensures id in KeptIds(pre) + (if Kept(r) then {r.id} else {}) {
      var i :| 0 <= i < |recs| && Kept(recs[i]) && recs[i].id == id;
      if i < |pre| { assert pre[i] == recs[i]; }
    }
    forall id | id in KeptIds(pre) ensures id in KeptIds(recs) {
      var i :| 0 <= i < |pre| && Kept(pre[i]) && pre[i].id == id;
      assert recs[i] == pre[i];
    }
  }

  lemma KeptCodesSnoc(recs: seq<NodeRecord>)
    requires recs != []
    ensures var pre, r := recs[..|recs| - 1], recs[|recs| - 1];
      KeptCodes(recs) == KeptCodes(pre) + (if IsCourseRecord(r) && r.code.Some? then {r.code.value} else {})
  {
    var pre, r := recs[..|recs| - 1], recs[|recs| - 1];
    forall c | c in KeptCodes(recs) ensures c in KeptCodes(pre) + (if IsCourseRecord(r) && r.code.Some? then {r.code.value} else {}) {
      var i :| 0 <= i < |recs| && IsCourseRecord(recs[i]) && recs[i].code.Some? && recs[i].code.value == c;
      if i < |pre| { assert pre[i] == recs[i]; }
    }
    forall c | c in KeptCodes(pre) ensures c in KeptCodes(recs) {
      var i :| 0 <= i < |pre| && IsCourseRecord(pre[i]) && pre[i].code.Some? && pre[i].code.value == c;
      assert recs[i] == pre[i];
    }
  }

  /** The node loop registers every kept id and every kept Course code, and
      leaves the entries of all other ids and codes as they were. */
  lemma {:induction false} RegisteredKeys(t: Tables, recs: seq<NodeRecord>)
    requires forall i :: 0 <= i < |recs| ==> RecordError(recs[i]).None?
    ensures Registered(t, recs).ids.Keys == t.ids.Keys + KeptIds(recs)
    ensures Registered(t, recs).courses.Keys == t.courses.Keys + KeptCodes(recs)
    ensures forall id :: id in t.ids && id !in KeptIds(recs) ==> Registered(t, recs).ids[id] == t.ids[id]
    ensures forall c :: c in t.courses && c !in KeptCodes(recs) ==> Registered(t, recs).courses[c] == t.courses[c]
    decreases |recs|
  {
    if recs != [] {
      var pre := recs[..|recs| - 1];
      assert forall i :: 0 <= i < |pre| ==> pre[i] == recs[i];
      RegisteredKeys(t, pre);
      KeptIdsSnoc(recs);
      KeptCodesSnoc(recs);
    }
  }

  /** Where the node of record i lands: the arena size once the records
      before it have been registered. */
  ghost function Slot(t: Tables, recs: seq<NodeRecord>, i: nat): nat
    requires i <= |recs| && forall j :: 0 <= j < |recs| ==> RecordError(recs[j]).None?
  {
    assert forall j :: 0 <= j < i ==> recs[..i][j] == recs[j];
    |Registered(t, recs[..i]).nodes|
  }

  /** The node built for a kept record sits at its slot, and stays there. */
  lemma {:induction false} RegisteredNodeAt(t: Tables, recs: seq<NodeRecord>, i: nat)
    requires forall j :: 0 <= j < |recs| ==> RecordError(recs[j]).None?
    requires i < |recs| && Kept(recs[i])
    ensures Slot(t, recs, i) < |Registered(t, recs).nodes|
    ensures Registered(t, recs).nodes[Slot(t, recs, i)] == NodeFor(recs[i])
    decreases |recs|
  {
    var pre := recs[..|recs| - 1];
    assert forall j :: 0 <= j < |pre| ==> pre[j] == recs[j];
    if i == |recs| - 1 {
      assert recs[..i] == pre;
    } else {
      assert pre[..i] == recs[..i];
      RegisteredNodeAt(t, pre, i);
    }
  }

  /** Last registration wins: the id of a kept record that no later kept
      record shares names the node built for that record. */
  lemma {:induction false} RegisteredIdLastWins(t: Tables, recs: seq<NodeRecord>, i: nat)
    requires forall j :: 0 <= j < |recs| ==> RecordError(recs[j]).None?
    requires i < |recs| && Kept(recs[i])
    requires forall j :: i < j < |recs| && Kept(recs[j]) ==> recs[j].id != recs[i].id
    ensures recs[i].id in Registered(t, recs).ids
    ensures Registered(t, recs).ids[recs[i].id] == Slot(t, recs, i)
    decreases |recs|
  {
    var pre := recs[..|recs| - 1];
    assert forall j :: 0 <= j < |pre| ==> pre[j] == recs[j];
    if i == |recs| - 1 {
      assert recs[..i] == pre;
    } else {
      assert pre[..i] == recs[..i];
      RegisteredIdLastWins(t, pre, i);
    }
  }

  /** Last registration wins for codes: the code of a Course record that no
      later Course record shares names the node built for that record. */
  lemma {:induction false} RegisteredCourseLastWins(t: Tables, recs: seq<NodeRecord>, i: nat)
    requires forall j :: 0 <= j < |recs| ==> RecordError(recs[j]).None?
    requires i < |recs| && IsCourseRecord(recs[i])
    requires forall j :: i < j < |recs| && IsCourseRecord(recs[j]) ==> recs[j].code != recs[i].code
    ensures recs[i].code.Some? && recs[i].code.value in Registered(t, recs).courses
    ensures Registered(t, recs).courses[recs[i].code.value] == Slot(t, recs, i)
    decreases |recs|
  {
    var pre := recs[..|recs| - 1];
    assert forall j :: 0 <= j < |pre| ==> pre[j] == recs[j];
    if i == |recs| - 1 {
      assert recs[..i] == pre;
    } else {
      assert pre[..i] == recs[..i];
      RegisteredCourseLastWins(t, pre, i);
    }
  }

  /** The node loop keeps every code entry pointing at a Course node with that code. */
  lemma {:induction false} RegisteredCoursesFrom(base: nat, t: Tables, recs: seq<NodeRecord>)
    requires forall j :: 0 <= j < |recs| ==> RecordError(recs[j]).None?
    requires base <= |t.nodes| && CoursesFrom(base, t)
    ensures CoursesFrom(base, Registered(t, recs))
    decreases |recs|
  {
    if recs != [] {
      var pre := recs[..|recs| - 1];
      assert forall j :: 0 <= j < |pre| ==> pre[j] == recs[j];
      RegisteredCoursesFrom(base, t, pre);
    }
  }

  /** A failing record stops the scan: the first error of a prefix is the first error of the whole. */
  lemma {:induction false} FirstRecordErrorPrefix(recs: seq<NodeRecord>, k: nat)
    requires k <= |recs| && FirstRecordError(recs[..k]).Some?
    ensures FirstRecordError(recs) == FirstRecordError(recs[..k])
    decreases |recs|
  {
    if k < |recs| {
      var pre := recs[..|recs| - 1];
      assert pre[..k] == recs[..k];
      FirstRecordErrorPrefix(pre, k);
    } else {
      assert recs[..k] == recs;
    }
  }

  /** The node loop of one query row. A record without labels, or without a
      property its label needs, stops the loop with the matching error. */
  method RegisterNodes(arena: NodeArena, recs: seq<NodeRecord>, ids: map<string, nat>, courses: map<string, nat>)
    returns (r: Result<(map<string, nat>, map<string, nat>), BuildError>)
    modifies arena
    ensures old(arena.nodes) <= arena.nodes
    ensures r.Failure? <==> FirstRecordError(recs).Some?
    ensures r.Failure? ==> r.error == FirstRecordError(recs).value
    ensures r.Success? ==> Tables(arena.nodes, r.value.0, r.value.1) == Registered(Tables(old(arena.nodes), ids, courses), recs)
  {
    ghost var t0 := Tables(arena.nodes, ids, courses);
    var curIds: map<string, nat>, curCourses: map<string, nat> := ids, courses;
    for i := 0 to |recs|
      invariant FirstRecordError(recs[..i]).None?
      invariant Tables(arena.nodes, curIds, curCourses) == Registered(t0, recs[..i])
    {
      var rec := recs[i];
      ghost var pre := recs[..i + 1];
      assert pre[..i] == recs[..i] && pre[i] == rec;
      if |rec.labels| == 0 {
        FirstRecordErrorPrefix(recs, i + 1);
        return Failure(NoLabel(rec.id));
      }
      var nodeLabel := rec.labels[0];
      if nodeLabel == "Course" {
        if rec.code.None? {
          FirstRecordErrorPrefix(recs, i + 1);
          return Failure(MissingProperty(rec.id, "code"));
        }
        if rec.fullName.None? {
          FirstRecordErrorPrefix(recs, i + 1);
          return Failure(MissingProperty(rec.id, "full_name"));
        }
        var ref := arena.NewNode(Course, rec.code, rec.fullName, None);
        curCourses := curCourses[rec.code.value := ref];
        curIds := curIds[rec.id := ref];
      } else if nodeLabel == "AND" {
        if rec.index.None? {
          FirstRecordErrorPrefix(recs, i + 1);
          return Failure(MissingProperty(rec.id, "index"));
        }
        var ref := arena.NewNode(And, None, None, rec.index);
        curIds := curIds[rec.id := ref];
      } else if nodeLabel == "OR" {
        if rec.index.None? {
          FirstRecordErrorPrefix(recs, i + 1);
          return Failure(MissingProperty(rec.id, "index"));
        }
        var ref := arena.NewNode(Or, None, None, rec.index);
        curIds := curIds[rec.id := ref];
      }
    }
    assert recs[..|recs|] == recs;
    return Success((curIds, curCourses));
  }

  // ---------------------------------------------------------------------------
  // Relationships

  /** Wiring one relationship: look up both endpoints, then append the end
      node to the start node's children. */
  function WireOne(nodes: seq<CourseNode>, ids: map<string, nat>, e: RelRecord): Result<seq<CourseNode>, BuildError>
    requires Below(ids, |nodes|)
  {
    if e.startNode !in ids then Failure(UnknownNode(e.startNode))
    else if e.endNode !in ids then Failure(UnknownNode(e.endNode))
    else
      var s := ids[e.startNode];
      Success(nodes[s := nodes[s].(children := nodes[s].children + [ids[e.endNode]])])
  }

  /** The arena after the relationship loop over `rels`, or the error of the first edge that fails. */
  function Wired(nodes: seq<CourseNode>, ids: map<string, nat>, rels: seq<RelRecord>): (w: Result<seq<CourseNode>, BuildError>)
    requires Below(ids, |nodes|)
    ensures w.Success? ==> |w.value| == |nodes|
    decreases |rels|
  {
    if rels == [] then Success(nodes)
    else match Wired(nodes, ids, rels[..|rels| - 1])
      case Failure(e) => Failure(e)
      case Success(ns) => WireOne(ns, ids, rels[|rels| - 1])
  }

  /** Both endpoints of the edge are registered. */
  predicate Resolves(ids: map<string, nat>, e: RelRecord) {
    e.startNode in ids && e.endNode in ids
  }

  /** The nodes that the edges in `rels` starting at node j append to it, in edge order. */
  function EdgeTargets(rels: seq<RelRecord>, ids: map<string, nat>, j: nat): seq<nat>
    requires forall k :: 0 <= k < |rels| ==> Resolves(ids, rels[k])
    decreases |rels|
  {
    if rels == [] then []
    else
      var pre, e := rels[..|rels| - 1], rels[|rels| - 1];
      assert forall k :: 0 <= k < |pre| ==> pre[k] == rels[k];
      assert Resolves(ids, rels[|rels| - 1]);
      EdgeTargets(pre, ids, j) + (if ids[e.startNode] == j then [ids[e.endNode]] else [])
  }

  /** The relationship loop fails exactly when some edge names an unregistered
      id; it then reports the first such edge, its start id when that one is
      missing and its end id otherwise. */
  lemma {:induction false} WiredFailsOnUnknown(nodes: seq<CourseNode>, ids: map<string, nat>, rels: seq<RelRecord>)
    requires Below(ids, |nodes|)
    ensures Wired(nodes, ids, rels).Success? <==> forall k :: 0 <= k < |rels| ==> Resolves(ids, rels[k])
    ensures Wired(nodes, ids, rels).Failure? ==>
      exists k :: 0 <= k < |rels| && !Resolves(ids, rels[k]) && (forall k' :: 0 <= k' < k ==> Resolves(ids, rels[k']))
        && Wired(nodes, ids, rels).error == UnknownNode(if rels[k].startNode !in ids then rels[k].startNode else rels[k].endNode)
    decreases |rels|
  {
    if rels != [] {
      var pre := rels[..|rels| - 1];
      assert forall k :: 0 <= k < |pre| ==> pre[k] == rels[k];
      WiredFailsOnUnknown(nodes, ids, pre);
    }
  }

  /** On success every node keeps its kind, attributes and flags, and its
      children are the old ones followed by the end nodes of the edges that
      start at it, in edge order. */
  lemma {:induction false} WiredChildren(nodes: seq<CourseNode>, ids: map<string, nat>, rels: seq<RelRecord>)
    requires Below(ids, |nodes|)
    requires Wired(nodes, ids, rels).Success?
    ensures forall k :: 0 <= k < |rels| ==> Resolves(ids, rels[k])
    ensures forall j :: 0 <= j < |nodes| ==>
      Wired(nodes, ids, rels).value[j] == nodes[j].(children := nodes[j].children + EdgeTargets(rels, ids, j))
    decreases |rels|
  {
    WiredFailsOnUnknown(nodes, ids, rels);
    if rels != [] {
      var pre, e := rels[..|rels| - 1], rels[|rels| - 1];
      assert forall k :: 0 <= k < |pre| ==> pre[k] == rels[k];
      WiredChildren(nodes, ids, pre);
      var ns := Wired(nodes, ids, pre).value;
      forall j | 0 <= j < |nodes|
        ensures Wired(nodes, ids, rels).value[j] == nodes[j].(children := nodes[j].children + EdgeTargets(rels, ids, j))
      {
        assert ns[j] == nodes[j].(children := nodes[j].children + EdgeTargets(pre, ids, j));
      }
    }
  }

  /** A failing edge stops the loop: a failing prefix decides the outcome. */
  lemma {:induction false} WiredPrefixFailure(nodes: seq<CourseNode>, ids: map<string, nat>, rels: seq<RelRecord>, k: nat)
    requires Below(ids, |nodes|)
    requires k <= |rels| && Wired(nodes, ids, rels[..k]).Failure?
    ensures Wired(nodes, ids, rels) == Wired(nodes, ids, rels[..k])
    decreases |rels|
  {
    if k < |rels| {
      var pre := rels[..|rels| - 1];
      assert pre[..k] == rels[..k];
      WiredPrefixFailure(nodes, ids, pre, k);
    } else {
      assert rels[..k] == rels;
    }
  }

  /** The relationship loop of one query row. An endpoint id that was never
      registered stops the loop with UnknownNode. */
  method WireEdges(arena: NodeArena, rels: seq<RelRecord>, ids: map<string, nat>) returns (r: Result<(), BuildError>)
    requires Below(ids, |arena.nodes|)
    modifies arena
    ensures |arena.nodes| == |old(arena.nodes)|
    ensures r.Failure? <==> Wired(old(arena.nodes), ids, rels).Failure?
    ensures r.Failure? ==> r.error == Wired(old(arena.nodes), ids, rels).error
    ensures r.Success? ==> arena.nodes == Wired(old(arena.nodes), ids, rels).value
  {
    ghost var n0 := arena.nodes;
    for k := 0 to |rels|
      invariant Wired(n0, ids, rels[..k]) == Success(arena.nodes)
    {
      var rel := rels[k];
      ghost var pre := rels[..k + 1];
      assert pre[..k] == rels[..k] && pre[k] == rel;
      if rel.startNode !in ids {
        WiredPrefixFailure(n0, ids, rels, k + 1);
        return Failure(UnknownNode(rel.startNode));
      }
      if rel.endNode !in ids {
        WiredPrefixFailure(n0, ids, rels, k + 1);
        return Failure(UnknownNode(rel.endNode));
      }
      var startNode, endNode := ids[rel.startNode], ids[rel.endNode];
      ghost var before := arena.nodes;
      arena.AddChild(startNode, endNode);
      assert arena.nodes == before[startNode := before[startNode].(children := before[startNode].children + [endNode])];
    }
    assert rels[..|rels|] == rels;
    return Success(());
  }

  // ---------------------------------------------------------------------------
  // The whole build

  /** One query row: its node loop, then its relationship loop. */
  ghost function BuildRow(t: Tables, q: QueryRecord): (b: Result<Tables, BuildError>)
    requires TablesValid(t)
    ensures b.Success? ==> TablesValid(b.value) && |t.nodes| <= |b.value.nodes|
  {
    match FirstRecordError(q.nodes)
      case Some(e) => Failure(e)
      case None =>
        var u := Registered(t, q.nodes);
        match Wired(u.nodes, u.ids, q.relationships)
          case Failure(e) => Failure(e)
          case Success(ns) => Success(u.(nodes := ns))
  }

  /** The tables after the rows `qs`, or the error of the first failing step. */
  ghost function Built(t: Tables, qs: seq<QueryRecord>): (b: Result<Tables, BuildError>)
    requires TablesValid(t)
    ensures b.Success? ==> TablesValid(b.value) && |t.nodes| <= |b.value.nodes|
    decreases |qs|
  {
    if qs == [] then Success(t)
    else match Built(t, qs[..|qs| - 1])
      case Failure(e) => Failure(e)
      case Success(u) => BuildRow(u, qs[|qs| - 1])
  }

  lemma {:induction false} BuiltPrefixFailure(t: Tables, qs: seq<QueryRecord>, k: nat)
    requires TablesValid(t)
    requires k <= |qs| && Built(t, qs[..k]).Failure?
    ensures Built(t, qs) == Built(t, qs[..k])
    decreases |qs|
  {
    if k < |qs| {
      var pre := qs[..|qs| - 1];
      assert pre[..k] == qs[..k];
      BuiltPrefixFailure(t, pre, k);
    } else {
      assert qs[..k] == qs;
    }
  }

  /** A row keeps every code entry pointing at a Course node with that code:
      wiring changes children only. */
  lemma BuildRowCoursesFrom(base: nat, t: Tables, q: QueryRecord)
    requires TablesValid(t) && base <= |t.nodes| && CoursesFrom(base, t)
    ensures BuildRow(t, q).Success? ==> CoursesFrom(base, BuildRow(t, q).value)
  {
    if BuildRow(t, q).Success? {
      RegisteredCoursesFrom(base, t, q.nodes);
      var u := Registered(t, q.nodes);
      WiredChildren(u.nodes, u.ids, q.relationships);
    }
  }

  /** The build's code table only ever names Course nodes it created itself,
      each carrying the code it is filed under. */
  lemma {:induction false} BuiltCoursesFrom(t: Tables, qs: seq<QueryRecord>)
    requires TablesValid(t) && t.courses == map[]
    ensures Built(t, qs).Success? ==> CoursesFrom(|t.nodes|, Built(t, qs).value)
    decreases |qs|
  {
    if qs != [] {
      BuiltCoursesFrom(t, qs[..|qs| - 1]);
      var b := Built(t, qs[..|qs| - 1]);
      if b.Success? {
        BuildRowCoursesFrom(|t.nodes|, b.value, qs[|qs| - 1]);
      }
    }
  }

  /** The codes of the Course records of all rows. */
  ghost function RowCodes(qs: seq<QueryRecord>): set<string>
    decreases |qs|
  {
    if qs == [] then {} else RowCodes(qs[..|qs| - 1]) + KeptCodes(qs[|qs| - 1].nodes)
  }

  /** A successful build files exactly the codes of its Course records, so
      the requested code is missing only when no row has a Course record
      with that code. */
  lemma {:induction false} BuiltCourseKeys(t: Tables, qs: seq<QueryRecord>)
    requires TablesValid(t)
    ensures Built(t, qs).Success? ==> Built(t, qs).value.courses.Keys == t.courses.Keys + RowCodes(qs)
    decreases |qs|
  {
    if qs != [] {
      BuiltCourseKeys(t, qs[..|qs| - 1]);
      var b := Built(t, qs[..|qs| - 1]);
      if b.Success? && FirstRecordError(qs[|qs| - 1].nodes).None? {
        RegisteredKeys(b.value, qs[|qs| - 1].nodes);
      }
    }
  }

  /** create_full_tree_from_apoc: run every query row through the node and
      relationship loops with fresh tables, then return the node filed under
      the requested code. */
  method CreateFullTreeFromApoc(arena: NodeArena, records: seq<QueryRecord>, courseIWant: string) returns (r: Result<nat, BuildError>)
    modifies arena
    ensures |old(arena.nodes)| <= |arena.nodes|
    ensures var b := Built(Tables(old(arena.nodes), map[], map[]), records);
      && (b.Failure? ==> r == Failure(b.error))
      && (b.Success? ==> arena.nodes == b.value.nodes
                         && r == if courseIWant in b.value.courses then Success(b.value.courses[courseIWant])
                                 else Failure(CourseNotFound(courseIWant)))
    ensures r.Success? ==> |old(arena.nodes)| <= r.value < |arena.nodes|
                           && arena.nodes[r.value].kind == Course && arena.nodes[r.value].code == Some(courseIWant)
  {
    ghost var t0 := Tables(arena.nodes, map[], map[]);
    var ids: map<string, nat>, courses: map<string, nat> := map[], map[];
    for k := 0 to |records|
      invariant Built(t0, records[..k]) == Success(Tables(arena.nodes, ids, courses))
      invariant |t0.nodes| <= |arena.nodes|
    {
      ghost var pre := records[..k + 1];
      assert pre[..k] == records[..k] && pre[k] == records[k];
      ghost var t := Tables(arena.nodes, ids, courses);
      var reg := RegisterNodes(arena, records[k].nodes, ids, courses);
      if reg.Failure? {
        BuiltPrefixFailure(t0, records, k + 1);
        return Failure(reg.error);
      }
      ids, courses := reg.value.0, reg.value.1;
      var wired := WireEdges(arena, records[k].relationships, ids);
      if wired.Failure? {
        BuiltPrefixFailure(t0, records, k + 1);
        return Failure(wired.error);
      }
    }
    assert records[..|records|] == records;
    BuiltCoursesFrom(t0, records);
    if courseIWant !in courses {
      return Failure(CourseNotFound(courseIWant));
    }
    return Success(courses[courseIWant]);
  }

  /** create_prerequisite_tree_from_apoc: the same two loops over the rows of
      the one-level query, so the same build. */
  method CreatePrerequisiteTreeFromApoc(arena: NodeArena, records: seq<QueryRecord>, courseIWant: string) returns (r: Result<nat, BuildError>)
    modifies arena
    ensures |old(arena.nodes)| <= |arena.nodes|
    ensures var b := Built(Tables(old(arena.nodes), map[], map[]), records);
      && (b.Failure? ==> r == Failure(b.error))
      && (b.Success? ==> arena.nodes == b.value.nodes
                         && r == if courseIWant in b.value.courses then Success(b.value.courses[courseIWant])
                                 else Failure(CourseNotFound(courseIWant)))
    ensures r.Success? ==> |old(arena.nodes)| <= r.value < |arena.nodes|
                           && arena.nodes[r.value].kind == Course && arena.nodes[r.value].code == Some(courseIWant)
  {
    r := CreateFullTreeFromApoc(arena, records, courseIWant);
  }
}
