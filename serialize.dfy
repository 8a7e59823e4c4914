/** course_node_to_dict: a requirement structure as nested JSON-like values. */
module Serialize {
  import opened Wrappers
  import opened CourseNodes
  import opened CourseSearch

  /** The JSON-like values the dictionary is made of. */
  datatype Value = Null | Bool(b: bool) | Int(i: int) | Str(s: string) | List(items: seq<Value>) | Dict(entries: map<string, Value>)

  /** The label as the node carries it. */
  function LabelName(k: Label): string {
    match k
    case Course => "Course"
    case And => "AND"
    case Or => "OR"
  }

  function StrOrNull(o: Option<string>): Value {
    match o
    case Some(x) => Str(x)
    case None => Null
  }

  function IntOrNull(o: Option<int>): Value {
    match o
    case Some(x) => Int(x)
    case None => Null
  }

  /** The keys a node dictionary may have. */
  const NodeKeys: set<string> := {"label", "marked", "ready_to_take", "completed", "code", "full_name", "index", "children"}

  /** The entries of a node's dictionary other than its children: the label
      and flags, then the Course attributes or the AND/OR index. */
  function OwnEntries(n: CourseNode): (e: map<string, Value>)
    ensures e.Keys <= NodeKeys && "children" !in e
    ensures "label" in e && e["label"] == Str(LabelName(n.kind))
    ensures "marked" in e && e["marked"] == Bool(n.marked)
    ensures "ready_to_take" in e && e["ready_to_take"] == Bool(n.readyToTake)
    ensures "completed" in e && e["completed"] == Bool(n.completed)
    ensures ("code" in e <==> n.kind == Course) && ("full_name" in e <==> n.kind == Course)
    ensures n.kind == Course ==> e["code"] == StrOrNull(n.code) && e["full_name"] == StrOrNull(n.fullName)
    ensures "index" in e <==> n.kind != Course
    ensures n.kind != Course ==> e["index"] == IntOrNull(n.index)
  {
    var base := map["label" := Str(LabelName(n.kind)), "marked" := Bool(n.marked),
                    "ready_to_take" := Bool(n.readyToTake), "completed" := Bool(n.completed)];
    if n.kind == Course then base["code" := StrOrNull(n.code)]["full_name" := StrOrNull(n.fullName)]
    else base["index" := IntOrNull(n.index)]
  }

  /** The dictionary of node `i`: its own entries and the dictionaries of its
      children, if any. */
  ghost function NodeDict(s: seq<CourseNode>, rank: seq<nat>, i: nat): (v: Value)
    requires Ranked(s, rank) && i < |s|
    ensures v.Dict? && v.entries.Keys <= NodeKeys
    ensures forall key :: key in OwnEntries(s[i]) ==> key in v.entries && v.entries[key] == OwnEntries(s[i])[key]
    ensures "children" in v.entries <==> s[i].children != []
    ensures "children" in v.entries ==> v.entries["children"].List? && |v.entries["children"].items| == |s[i].children|
    ensures forall key :: key in v.entries && key != "children" ==> key in OwnEntries(s[i])
    decreases rank[i], |s[i].children| + 1
  {
    var named := OwnEntries(s[i]);
    if s[i].children != [] then Dict(named["children" := List(ChildDicts(s, rank, i, |s[i].children|))]) else Dict(named)
  }

  /** The dictionaries of the first `k` children of `p`, in order. */
  ghost function ChildDicts(s: seq<CourseNode>, rank: seq<nat>, p: nat, k: nat): (r: seq<Value>)
    requires Ranked(s, rank) && p < |s| && k <= |s[p].children|
    ensures |r| == k
    decreases rank[p], k
  {
    if k == 0 then []
    else ChildDicts(s, rank, p, k - 1) + [NodeDict(s, rank, s[p].children[k - 1])]
  }

  /** course_node_to_dict: builds the dictionary, appending the children's
      dictionaries one by one. */
  method CourseNodeToDict(nodes: seq<CourseNode>, ghost rank: seq<nat>, node: nat) returns (v: Value)
    requires Ranked(nodes, rank) && node < |nodes|
    ensures v == NodeDict(nodes, rank, node)
    decreases rank[node]
  {
    var n := nodes[node];
    var nodeDict := map["label" := Str(LabelName(n.kind)), "marked" := Bool(n.marked),
                        "ready_to_take" := Bool(n.readyToTake), "completed" := Bool(n.completed)];
    if n.kind == Course {
      nodeDict := nodeDict["code" := StrOrNull(n.code)];
      nodeDict := nodeDict["full_name" := StrOrNull(n.fullName)];
    } else {
      nodeDict := nodeDict["index" := IntOrNull(n.index)];
    }
    if n.children != [] {
      var children: seq<Value> := [];
      for k := 0 to |n.children|
        invariant children == ChildDicts(nodes, rank, node, k)
      {
        var child := CourseNodeToDict(nodes, rank, n.children[k]);
        children := children + [child];
      }
      nodeDict := nodeDict["children" := List(children)];
    }
    v := Dict(nodeDict);
  }

  /** The children's dictionaries appear in the order of the children. */
  lemma ChildrenInOrder(s: seq<CourseNode>, rank: seq<nat>, i: nat, k: nat)
    requires Ranked(s, rank) && i < |s| && k < |s[i].children|
    ensures NodeDict(s, rank, i).entries["children"].items[k] == NodeDict(s, rank, s[i].children[k])
  {
    ChildDictsAt(s, rank, i, |s[i].children|, k);
  }

  lemma {:induction false} ChildDictsAt(s: seq<CourseNode>, rank: seq<nat>, p: nat, n: nat, k: nat)
    requires Ranked(s, rank) && p < |s| && k < n <= |s[p].children|
    ensures ChildDicts(s, rank, p, n)[k] == NodeDict(s, rank, s[p].children[k])
    decreases n
  {
    if k < n - 1 {
      ChildDictsAt(s, rank, p, n - 1, k);
    }
  }

  /** The codes of the Course dictionaries in `v`, in pre-order. */
  function DictCodes(v: Value): seq<Value>
    decreases v, 1
  {
    match v
    case Dict(e) =>
      (if "label" in e && e["label"] == Str("Course") && "code" in e then [e["code"]] else [])
      + (if "children" in e && e["children"].List? then ListCodes(e["children"].items) else [])
    case _ => []
  }

  function ListCodes(items: seq<Value>): seq<Value>
    decreases items, 0
  {
    if items == [] then [] else ListCodes(items[..|items| - 1]) + DictCodes(items[|items| - 1])
  }

  /** The codes of the listed nodes, as the dictionary writes them. */
  ghost function CodeValues(s: seq<CourseNode>, xs: seq<nat>): (r: seq<Value>)
    ensures |r| == |xs|
  {
    seq(|xs|, k requires 0 <= k < |xs| => if xs[k] < |s| then StrOrNull(s[xs[k]].code) else Null)
  }

  lemma CodeValuesAppend(s: seq<CourseNode>, a: seq<nat>, b: seq<nat>)
    ensures CodeValues(s, a + b) == CodeValues(s, a) + CodeValues(s, b)
  {
    var l, r := CodeValues(s, a + b), CodeValues(s, a) + CodeValues(s, b);
    forall k | 0 <= k < |l| ensures l[k] == r[k] {
      if k >= |a| { assert (a + b)[k] == b[k - |a|]; }
    }
  }

  /** The dictionary lists the same Course codes, in the same order, as
      find_all_course_nodes collects from the same node. */
  lemma {:induction false} SerializedCourses(s: seq<CourseNode>, rank: seq<nat>, i: nat)
    requires Ranked(s, rank) && i < |s|
    ensures DictCodes(NodeDict(s, rank, i)) == CodeValues(s, CoursesUnder(s, rank, i))
    decreases rank[i], |s[i].children| + 1
  {
    var n := s[i];
    var own: seq<nat> := if n.kind == Course then [i] else [];
    NodeDictCodes(s, rank, i);
    assert CodeValues(s, own) == if n.kind == Course then [StrOrNull(n.code)] else [];
    CodeValuesAppend(s, own, CoursesUnderChildren(s, rank, i, |n.children|));
    SerializedChildren(s, rank, i, |n.children|);
  }

  /** The codes a node's dictionary lists: its own, then its children's. */
  lemma NodeDictCodes(s: seq<CourseNode>, rank: seq<nat>, i: nat)
    requires Ranked(s, rank) && i < |s|
    ensures DictCodes(NodeDict(s, rank, i)) ==
      (if s[i].kind == Course then [StrOrNull(s[i].code)] else []) + ListCodes(ChildDicts(s, rank, i, |s[i].children|))
  {
    var e := NodeDict(s, rank, i).entries;
    assert "label" in e && e["label"] == Str("Course") <==> s[i].kind == Course;
    if s[i].children == [] {
      assert ChildDicts(s, rank, i, 0) == [];
    }
  }

  lemma {:induction false} SerializedChildren(s: seq<CourseNode>, rank: seq<nat>, p: nat, k: nat)
    requires Ranked(s, rank) && p < |s| && k <= |s[p].children|
    ensures ListCodes(ChildDicts(s, rank, p, k)) == CodeValues(s, CoursesUnderChildren(s, rank, p, k))
    decreases rank[p], k
  {
    if k > 0 {
      var c := s[p].children[k - 1];
      var items, prev := ChildDicts(s, rank, p, k), ChildDicts(s, rank, p, k - 1);
      assert items[..|items| - 1] == prev;
      assert ListCodes(items) == ListCodes(prev) + DictCodes(NodeDict(s, rank, c));
      SerializedChildren(s, rank, p, k - 1);
      SerializedCourses(s, rank, c);
      CodeValuesAppend(s, CoursesUnderChildren(s, rank, p, k - 1), CoursesUnder(s, rank, c));
    }
  }
}
