/** The requirement graph: CourseNode objects and the heap that holds them.

    A CourseNode object is a record; an object reference is its position in a
    NodeArena. Two edges that name the same node id lead to the same position,
    so a built structure is a directed graph whose nodes may be shared. */
module CourseNodes {
  import opened Wrappers

  /** The node label: "Course", "AND" or "OR". */
  datatype Label = Course | And | Or

  /** One CourseNode object. `code` and `fullName` belong to Course nodes,
      `index` to AND/OR nodes; `children` holds the arena positions of the
      child objects in the order they were appended. */
  datatype CourseNode = CourseNode(
    kind: Label,
    code: Option<string>,
    fullName: Option<string>,
    index: Option<int>,
    marked: bool,
    completed: bool,
    readyToTake: bool,
    children: seq<nat>)

  /** The attribute set of a node agrees with its label: a Course node has no
      index, an AND/OR node has no code and no full name. */
  predicate AttributesMatchLabel(n: CourseNode) {
    if n.kind == Course then n.index == None else n.code == None && n.fullName == None
  }

  /** The flag discipline the class documents: `marked` is only ever true on
      AND/OR nodes, `completed` and `readyToTake` only on Course nodes. */
  predicate FlagsMatchLabel(n: CourseNode) {
    if n.kind == Course then !n.marked else !n.completed && !n.readyToTake
  }

  /** CourseNode.__init__: the label picks which of the optional attributes are
      kept; every flag starts false and there are no children. */
  function NewCourseNode(kind: Label, code: Option<string>, fullName: Option<string>, index: Option<int>): (n: CourseNode)
    ensures n.kind == kind && n.children == []
    ensures !n.marked && !n.completed && !n.readyToTake
    ensures AttributesMatchLabel(n) && FlagsMatchLabel(n)
    ensures kind == Course ==> n.code == code && n.fullName == fullName
    ensures kind != Course ==> n.index == index
  {
    match kind
    case Or => CourseNode(Or, None, None, index, false, false, false, [])
    case And => CourseNode(And, None, None, index, false, false, false, [])
    case Course => CourseNode(Course, code, fullName, None, false, false, false, [])
  }

  /** Every child reference points at an object of the arena. */
  ghost predicate ChildrenInRange(s: seq<CourseNode>) {
    forall i, k :: 0 <= i < |s| && 0 <= k < |s[i].children| ==> s[i].children[k] < |s|
  }

  /** The graph is acyclic, witnessed by a rank that strictly decreases from
      every node to each of its children. The source never checks this; the
      recursive walks over the graph only terminate when it holds. */
  ghost predicate Ranked(s: seq<CourseNode>, rank: seq<nat>) {
    && |rank| == |s|
    && forall i, k :: 0 <= i < |s| && 0 <= k < |s[i].children| ==>
         s[i].children[k] < |s| && rank[s[i].children[k]] < rank[i]
  }

  /** Two arena states with the same labels, codes and child lists. */
  ghost predicate SameShape(s: seq<CourseNode>, t: seq<CourseNode>) {
    && |s| == |t|
    && forall j :: 0 <= j < |s| ==> s[j].kind == t[j].kind && s[j].code == t[j].code && s[j].children == t[j].children
  }

  /** The nodes a recursive walk from `i` visits: `i` and everything reachable
      from it through child references. */
  ghost function Reach(s: seq<CourseNode>, rank: seq<nat>, i: nat): (r: set<nat>)
    requires Ranked(s, rank) && i < |s|
    ensures i in r
    ensures forall j :: j in r ==> j < |s| && rank[j] <= rank[i]
    decreases rank[i], 1, 0
  {
    {i} + ReachBelow(s, rank, i, |s[i].children|)
  }

  /** The nodes reachable from the first `k` children of `p`. */
  ghost function ReachBelow(s: seq<CourseNode>, rank: seq<nat>, p: nat, k: nat): (r: set<nat>)
    requires Ranked(s, rank) && p < |s| && k <= |s[p].children|
    ensures forall j :: j in r ==> j < |s| && rank[j] < rank[p]
    decreases rank[p], 0, k
  {
    if k == 0 then {} else ReachBelow(s, rank, p, k - 1) + Reach(s, rank, s[p].children[k - 1])
  }

  /** The nodes reachable from any node of the list `cs`. */
  ghost function ReachFrom(s: seq<CourseNode>, rank: seq<nat>, cs: seq<nat>): (r: set<nat>)
    requires Ranked(s, rank) && forall k :: 0 <= k < |cs| ==> cs[k] < |s|
    ensures forall j :: j in r ==> j < |s|
  {
    set k, j | 0 <= k < |cs| && j in Reach(s, rank, cs[k]) :: j
  }

  /** Extending a list of start nodes by one extends what it reaches by the
      new node's reach. */
  lemma ReachFromSnoc(s: seq<CourseNode>, rank: seq<nat>, cs: seq<nat>, k: nat)
    requires Ranked(s, rank) && forall m :: 0 <= m < |cs| ==> cs[m] < |s|
    requires k < |cs|
    ensures ReachFrom(s, rank, cs[..k + 1]) == ReachFrom(s, rank, cs[..k]) + Reach(s, rank, cs[k])
  {
    var a, b := ReachFrom(s, rank, cs[..k + 1]), ReachFrom(s, rank, cs[..k]) + Reach(s, rank, cs[k]);
    forall j | j in a ensures j in b {
      var m :| 0 <= m < k + 1 && j in Reach(s, rank, cs[..k + 1][m]);
      if m < k { assert cs[..k + 1][m] == cs[..k][m]; }
    }
    forall j | j in b ensures j in a {
      if j in Reach(s, rank, cs[k]) {
        assert cs[..k + 1][k] == cs[k];
      } else {
        var m :| 0 <= m < k && j in Reach(s, rank, cs[..k][m]);
        assert cs[..k + 1][m] == cs[..k][m];
      }
    }
  }

  /** What one of the first `k` children reaches is reached from them. */
  lemma {:induction false} ReachBelowSub(s: seq<CourseNode>, rank: seq<nat>, p: nat, k: nat, m: nat)
    requires Ranked(s, rank) && p < |s| && m < k <= |s[p].children|
    ensures Reach(s, rank, s[p].children[m]) <= ReachBelow(s, rank, p, k)
  {
    if m < k - 1 {
      ReachBelowSub(s, rank, p, k - 1, m);
    }
  }

  /** A node reached from the first `k` children is reached from one of them. */
  lemma {:induction false} ReachBelowWitness(s: seq<CourseNode>, rank: seq<nat>, p: nat, k: nat, x: nat) returns (m: nat)
    requires Ranked(s, rank) && p < |s| && k <= |s[p].children|
    requires x in ReachBelow(s, rank, p, k)
    ensures m < k && x in Reach(s, rank, s[p].children[m])
  {
    if x in Reach(s, rank, s[p].children[k - 1]) {
      m := k - 1;
    } else {
      m := ReachBelowWitness(s, rank, p, k - 1, x);
    }
  }

  lemma ReachUnfold(s: seq<CourseNode>, rank: seq<nat>, i: nat)
    requires Ranked(s, rank) && i < |s|
    ensures Reach(s, rank, i) == {i} + ReachFrom(s, rank, s[i].children)
  {
    var ch := s[i].children;
    forall x | x in ReachBelow(s, rank, i, |ch|) ensures x in ReachFrom(s, rank, ch) {
      var m := ReachBelowWitness(s, rank, i, |ch|, x);
      assert 0 <= m < |ch| && x in Reach(s, rank, ch[m]);
    }
    forall x | x in ReachFrom(s, rank, ch) ensures x in ReachBelow(s, rank, i, |ch|) {
      var m :| 0 <= m < |ch| && x in Reach(s, rank, ch[m]);
      ReachBelowSub(s, rank, i, |ch|, m);
    }
  }

  /** Each of the first `k` children is among the nodes they reach. */
  lemma {:induction false} ChildBelow(s: seq<CourseNode>, rank: seq<nat>, p: nat, k: nat, m: nat)
    requires Ranked(s, rank) && p < |s| && m < k <= |s[p].children|
    ensures s[p].children[m] in ReachBelow(s, rank, p, k)
  {
    if m < k - 1 {
      ChildBelow(s, rank, p, k - 1, m);
    }
  }

  /** The reachable set is closed under taking children. */
  lemma {:induction false} ReachClosed(s: seq<CourseNode>, rank: seq<nat>, i: nat, j: nat, k: nat)
    requires Ranked(s, rank) && i < |s|
    requires j in Reach(s, rank, i) && k < |s[j].children|
    ensures s[j].children[k] in Reach(s, rank, i)
    decreases rank[i], 1, 0
  {
    if j == i {
      ChildBelow(s, rank, i, |s[i].children|, k);
    } else {
      ReachBelowClosed(s, rank, i, |s[i].children|, j, k);
    }
  }

  lemma {:induction false} ReachBelowClosed(s: seq<CourseNode>, rank: seq<nat>, p: nat, n: nat, j: nat, k: nat)
    requires Ranked(s, rank) && p < |s| && n <= |s[p].children|
    requires j in ReachBelow(s, rank, p, n) && k < |s[j].children|
    ensures s[j].children[k] in ReachBelow(s, rank, p, n)
    decreases rank[p], 0, n
  {
    var c := s[p].children[n - 1];
    if j in ReachBelow(s, rank, p, n - 1) {
      ReachBelowClosed(s, rank, p, n - 1, j, k);
    } else {
      ReachClosed(s, rank, c, j, k);
    }
  }

  /** Reachability depends only on the child lists, so it survives flag updates. */
  lemma {:induction false} ReachSameShape(s: seq<CourseNode>, t: seq<CourseNode>, rank: seq<nat>, i: nat)
    requires Ranked(s, rank) && SameShape(s, t) && i < |s|
    ensures Ranked(t, rank)
    ensures Reach(s, rank, i) == Reach(t, rank, i)
    decreases rank[i], 1, 0
  {
    RankedSameShape(s, t, rank);
    assert t[i].children == s[i].children;
    ReachBelowSameShape(s, t, rank, i, |s[i].children|);
  }

  lemma {:induction false} ReachBelowSameShape(s: seq<CourseNode>, t: seq<CourseNode>, rank: seq<nat>, p: nat, k: nat)
    requires Ranked(s, rank) && Ranked(t, rank) && SameShape(s, t) && p < |s| && k <= |s[p].children|
    ensures t[p].children == s[p].children
    ensures ReachBelow(s, rank, p, k) == ReachBelow(t, rank, p, k)
    decreases rank[p], 0, k
  {
    assert t[p].children == s[p].children;
    if k > 0 {
      ReachBelowSameShape(s, t, rank, p, k - 1);
      ReachSameShape(s, t, rank, s[p].children[k - 1]);
    }
  }

  lemma RankedSameShape(s: seq<CourseNode>, t: seq<CourseNode>, rank: seq<nat>)
    requires Ranked(s, rank) && SameShape(s, t)
    ensures Ranked(t, rank)
  {
    forall j, k | 0 <= j < |t| && 0 <= k < |t[j].children|
      ensures t[j].children[k] < |t| && rank[t[j].children[k]] < rank[j]
    {
      assert t[j].children == s[j].children;
    }
  }

  /** The heap of CourseNode objects. Allocation appends; a reference is a position. */
  class NodeArena {
    var nodes: seq<CourseNode>

    /** Every child reference points into the arena. */
    ghost predicate Valid()
      reads this
    {
      ChildrenInRange(nodes)
    }

    constructor ()
      ensures nodes == [] && Valid()
    {
      nodes := [];
    }

    /** Allocates `CourseNode(label, code, full_name, index)` and returns its reference. */
    method NewNode(kind: Label, code: Option<string>, fullName: Option<string>, index: Option<int>) returns (ref: nat)
      modifies this
      ensures ref == |old(nodes)|
      ensures nodes == old(nodes) + [NewCourseNode(kind, code, fullName, index)]
      ensures old(Valid()) ==> Valid()
    {
      ref := |nodes|;
      nodes := nodes + [NewCourseNode(kind, code, fullName, index)];
    }

    /** CourseNode.add_child: appends `child` at the end of the children of
        `parent` and changes nothing else. */
    method AddChild(parent: nat, child: nat)
      requires parent < |nodes|
      modifies this
      ensures |nodes| == |old(nodes)|
      ensures nodes[parent] == old(nodes[parent]).(children := old(nodes[parent]).children + [child])
      ensures forall j :: 0 <= j < |nodes| && j != parent ==> nodes[j] == old(nodes[j])
      ensures old(Valid()) && child < |nodes| ==> Valid()
    {
      nodes := nodes[parent := nodes[parent].(children := nodes[parent].children + [child])];
    }
  }
}
