/** mark_completion: given the codes of the completed courses, the first walk
    sets `completed` on every Course node it reaches; the second, children
    before parents, sets `marked` on AND/OR nodes and `readyToTake` on Course
    nodes. The walks change the arena in place. */
module Completion {
  import opened Wrappers
  import opened CourseNodes

  /** completed_courses_set: the list of completed codes as a set. */
  function CompletedCoursesSet(completedCoursesList: seq<string>): (r: set<string>)
    ensures forall c :: c in r <==> c in completedCoursesList
    ensures |r| <= |completedCoursesList|
  {
    SetOfListSize(completedCoursesList);
    set c | c in completedCoursesList
  }

  lemma {:induction false} SetOfListSize(xs: seq<string>)
    ensures |set c | c in xs| <= |xs|
  {
    if xs != [] {
      SetOfListSize(xs[1..]);
      assert (set c | c in xs) == (set c | c in xs[1..]) + {xs[0]};
    }
  }

  /** What the first walk does to one node it visits. */
  function CompletedStep(n: CourseNode, completedCourses: set<string>): CourseNode {
    if n.kind == Course then n.(completed := n.code.Some? && n.code.value in completedCourses) else n
  }

  /** The arena once the first walk from `root` is over. */
  ghost function AfterFirstWalk(s: seq<CourseNode>, rank: seq<nat>, root: nat, completedCourses: set<string>): (s1: seq<CourseNode>)
    requires Ranked(s, rank) && root < |s|
    ensures SameShape(s, s1)
  {
    var r := Reach(s, rank, root);
    seq(|s|, j requires 0 <= j < |s| => if j in r then CompletedStep(s[j], completedCourses) else s[j])
  }

  /** `child.completed or child.marked` as a parent reads it once the second
      walk has finished with the child, for the state `s` left by the first walk. */
  ghost function Satisfied(s: seq<CourseNode>, rank: seq<nat>, j: nat): bool
    requires Ranked(s, rank) && j < |s|
    decreases rank[j], 1
  {
    s[j].completed || MarkedAfter(s, rank, j)
  }

  /** The `marked` flag of node `j` after the second walk: for OR some child is
      satisfied, for AND every child is; a Course node's flag is never written. */
  ghost function MarkedAfter(s: seq<CourseNode>, rank: seq<nat>, j: nat): bool
    requires Ranked(s, rank) && j < |s|
    decreases rank[j], 0
  {
    var ch := s[j].children;
    match s[j].kind
    case Or => exists k :: 0 <= k < |ch| && Satisfied(s, rank, ch[k])
    case And => forall k :: 0 <= k < |ch| ==> Satisfied(s, rank, ch[k])
    case Course => s[j].marked
  }

  ghost predicate AllChildrenSatisfied(s: seq<CourseNode>, rank: seq<nat>, j: nat)
    requires Ranked(s, rank) && j < |s|
  {
    forall k :: 0 <= k < |s[j].children| ==> Satisfied(s, rank, s[j].children[k])
  }

  /** What the second walk leaves in node `j`. A Course node becomes ready when
      it has no children or all of them are satisfied, and is never made unready. */
  ghost function UpdatedNode(s: seq<CourseNode>, rank: seq<nat>, j: nat): CourseNode
    requires Ranked(s, rank) && j < |s|
  {
    var n := s[j];
    if n.kind == Course then n.(readyToTake := n.readyToTake || AllChildrenSatisfied(s, rank, j))
    else n.(marked := MarkedAfter(s, rank, j))
  }

  /** The arena after mark_completion(root, completed): nodes the walks reach
      carry their updated flags, all others are as they were. */
  ghost function Propagated(s: seq<CourseNode>, rank: seq<nat>, root: nat, completedCourses: set<string>): (p: seq<CourseNode>)
    requires Ranked(s, rank) && root < |s|
    ensures |p| == |s|
  {
    var s1 := AfterFirstWalk(s, rank, root, completedCourses);
    ReachSameShape(s, s1, rank, root);
    var r := Reach(s, rank, root);
    seq(|s|, j requires 0 <= j < |s| => if j in r then UpdatedNode(s1, rank, j) else s[j])
  }

  /** any(child.completed or child.marked for child in children) */
  function AnyChildDone(s: seq<CourseNode>, cs: seq<nat>): bool
    requires forall k :: 0 <= k < |cs| ==> cs[k] < |s|
  {
    exists k :: 0 <= k < |cs| && (s[cs[k]].completed || s[cs[k]].marked)
  }

  /** all(child.completed or child.marked for child in children) */
  function AllChildrenDone(s: seq<CourseNode>, cs: seq<nat>): bool
    requires forall k :: 0 <= k < |cs| ==> cs[k] < |s|
  {
    forall k :: 0 <= k < |cs| ==> s[cs[k]].completed || s[cs[k]].marked
  }

  /** mark_completion: runs the two walks from `root` on the arena in place. */
  method MarkCompletion(t: NodeArena, root: nat, completedCoursesList: seq<string>, ghost rank: seq<nat>)
    requires Ranked(t.nodes, rank) && root < |t.nodes|
    modifies t
    ensures t.nodes == Propagated(old(t.nodes), rank, root, CompletedCoursesSet(completedCoursesList))
  {
    var completedCourses := CompletedCoursesSet(completedCoursesList);
    ghost var s0 := t.nodes;
    MarkCompletedCourses(t, root, completedCourses, rank, s0);
    ghost var s1 := t.nodes;
    assert s1 == AfterFirstWalk(s0, rank, root, completedCourses);
    ReachSameShape(s0, s1, rank, root);
    UpdateParents(t, root, rank, s1);
    assert t.nodes == Propagated(s0, rank, root, completedCourses);
  }

  /** mark_completed_courses: the first walk, parent before children. A node
      shared by several parents is visited once per path; the step is idempotent. */
  method MarkCompletedCourses(t: NodeArena, node: nat, completedCourses: set<string>, ghost rank: seq<nat>, ghost s0: seq<CourseNode>)
    requires Ranked(s0, rank) && node < |s0| && |t.nodes| == |s0|
    requires forall j :: 0 <= j < |s0| ==> t.nodes[j] == s0[j] || t.nodes[j] == CompletedStep(s0[j], completedCourses)
    modifies t
    decreases rank[node], 1
    ensures |t.nodes| == |s0|
    ensures forall j :: 0 <= j < |s0| ==>
      t.nodes[j] == if j in Reach(s0, rank, node) then CompletedStep(s0[j], completedCourses) else old(t.nodes[j])
  {
    if t.nodes[node].kind == Course {
      var n := t.nodes[node];
      t.nodes := t.nodes[node := n.(completed := n.code.Some? && n.code.value in completedCourses)];
    }
    assert t.nodes[node] == CompletedStep(s0[node], completedCourses);
    ghost var mid := t.nodes;
    MarkChildren(t, node, completedCourses, rank, s0);
    ReachUnfold(s0, rank, node);
  }

  /** The loop of mark_completed_courses over the children of `node`. */
  method MarkChildren(t: NodeArena, node: nat, completedCourses: set<string>, ghost rank: seq<nat>, ghost s0: seq<CourseNode>)
    requires Ranked(s0, rank) && node < |s0| && |t.nodes| == |s0|
    requires forall j :: 0 <= j < |s0| ==> t.nodes[j] == s0[j] || t.nodes[j] == CompletedStep(s0[j], completedCourses)
    modifies t
    decreases rank[node], 0
    ensures |t.nodes| == |s0|
    ensures forall j :: 0 <= j < |s0| ==>
      t.nodes[j] == if j in ReachFrom(s0, rank, s0[node].children) then CompletedStep(s0[j], completedCourses) else old(t.nodes[j])
  {
    var children := t.nodes[node].children;
    assert children == s0[node].children;
    for k := 0 to |children|
      invariant |t.nodes| == |s0|
      invariant forall j :: 0 <= j < |s0| ==>
        t.nodes[j] == if j in ReachFrom(s0, rank, children[..k]) then CompletedStep(s0[j], completedCourses) else old(t.nodes[j])
    {
      ReachFromSnoc(s0, rank, children, k);
      MarkCompletedCourses(t, children[k], completedCourses, rank, s0);
    }
    assert children[..|children|] == children;
  }

  /** update_parents: the second walk, every child before its parent. */
  method UpdateParents(t: NodeArena, node: nat, ghost rank: seq<nat>, ghost s1: seq<CourseNode>)
    requires Ranked(s1, rank) && node < |s1| && |t.nodes| == |s1|
    requires forall j :: 0 <= j < |s1| ==> t.nodes[j] == s1[j] || t.nodes[j] == UpdatedNode(s1, rank, j)
    modifies t
    decreases rank[node], 1
    ensures |t.nodes| == |s1|
    ensures forall j :: 0 <= j < |s1| ==>
      t.nodes[j] == if j in Reach(s1, rank, node) then UpdatedNode(s1, rank, j) else old(t.nodes[j])
  {
    var children := t.nodes[node].children;
    UpdateChildren(t, node, rank, s1);
    ReachUnfold(s1, rank, node);
    var n := t.nodes[node];
    var updated := n;
    if n.kind == Or {
      updated := n.(marked := AnyChildDone(t.nodes, children));
    } else if n.kind == And {
      updated := n.(marked := AllChildrenDone(t.nodes, children));
    } else {
      if |children| > 0 {
        if AllChildrenDone(t.nodes, children) {
          updated := n.(readyToTake := true);
        }
      } else {
        updated := n.(readyToTake := true);
      }
    }
    SecondWalkStep(s1, rank, node, t.nodes);
    t.nodes := t.nodes[node := updated];
  }

  /** The loop of update_parents over the children of `node`: afterwards every
      child is finished, and `node` itself is untouched. */
  method UpdateChildren(t: NodeArena, node: nat, ghost rank: seq<nat>, ghost s1: seq<CourseNode>)
    requires Ranked(s1, rank) && node < |s1| && |t.nodes| == |s1|
    requires forall j :: 0 <= j < |s1| ==> t.nodes[j] == s1[j] || t.nodes[j] == UpdatedNode(s1, rank, j)
    modifies t
    decreases rank[node], 0
    ensures |t.nodes| == |s1| && t.nodes[node] == old(t.nodes[node])
    ensures t.nodes[node].children == s1[node].children
    ensures forall j :: 0 <= j < |s1| && j in ReachFrom(s1, rank, s1[node].children) ==> t.nodes[j] == UpdatedNode(s1, rank, j)
    ensures forall j :: 0 <= j < |s1| && j !in ReachFrom(s1, rank, s1[node].children) ==> t.nodes[j] == old(t.nodes[j])
    ensures forall k :: 0 <= k < |s1[node].children| ==> t.nodes[s1[node].children[k]] == UpdatedNode(s1, rank, s1[node].children[k])
  {
    var children := t.nodes[node].children;
    assert children == s1[node].children;
    for k := 0 to |children|
      invariant |t.nodes| == |s1|
      invariant forall j :: 0 <= j < |s1| && j in ReachFrom(s1, rank, children[..k]) ==> t.nodes[j] == UpdatedNode(s1, rank, j)
      invariant forall j :: 0 <= j < |s1| && j !in ReachFrom(s1, rank, children[..k]) ==> t.nodes[j] == old(t.nodes[j])
    {
      ReachFromSnoc(s1, rank, children, k);
      UpdateParents(t, children[k], rank, s1);
    }
    assert children[..|children|] == children;
    ReachUnfold(s1, rank, node);
    assert node !in ReachFrom(s1, rank, children);
    forall k | 0 <= k < |children|
      ensures t.nodes[children[k]] == UpdatedNode(s1, rank, children[k])
    {
      assert children[k] in Reach(s1, rank, children[k]);
    }
  }

  /** The values the second walk computes at `node` from its finished children
      are those of UpdatedNode. */
  lemma SecondWalkStep(s1: seq<CourseNode>, rank: seq<nat>, node: nat, cur: seq<CourseNode>)
    requires Ranked(s1, rank) && node < |s1| && |cur| == |s1|
    requires cur[node] == s1[node] || cur[node] == UpdatedNode(s1, rank, node)
    requires forall k :: 0 <= k < |s1[node].children| ==> cur[s1[node].children[k]] == UpdatedNode(s1, rank, s1[node].children[k])
    ensures var n, ch := cur[node], s1[node].children;
      && (n.kind == Or ==> n.(marked := AnyChildDone(cur, ch)) == UpdatedNode(s1, rank, node))
      && (n.kind == And ==> n.(marked := AllChildrenDone(cur, ch)) == UpdatedNode(s1, rank, node))
      && (n.kind == Course ==>
            (AllChildrenDone(cur, ch) ==> n.(readyToTake := true) == UpdatedNode(s1, rank, node))
            && (!AllChildrenDone(cur, ch) ==> n == UpdatedNode(s1, rank, node)))
  {
    var ch := s1[node].children;
    forall k | 0 <= k < |ch|
      ensures cur[ch[k]].completed || cur[ch[k]].marked <==> Satisfied(s1, rank, ch[k])
    {
    }
    assert AnyChildDone(cur, ch) <==> exists k :: 0 <= k < |ch| && Satisfied(s1, rank, ch[k]);
    assert AllChildrenDone(cur, ch) <==> AllChildrenSatisfied(s1, rank, node);
  }

  /** Which flags mark_completion writes: `completed` of the Course nodes it
      reaches (to membership of their code), `marked` of AND/OR nodes and
      `readyToTake` of Course nodes; everything else, and every node it does
      not reach, is left as it was. */
  lemma {:induction false} PropagatedWrites(s: seq<CourseNode>, rank: seq<nat>, root: nat, completedCourses: set<string>, j: nat)
    requires Ranked(s, rank) && root < |s| && j < |s|
    ensures var p := Propagated(s, rank, root, completedCourses);
      && p[j].kind == s[j].kind && p[j].code == s[j].code && p[j].children == s[j].children
      && p[j].fullName == s[j].fullName && p[j].index == s[j].index
      && (j !in Reach(s, rank, root) ==> p[j] == s[j])
      && (s[j].kind == Course ==> p[j].marked == s[j].marked)
      && (s[j].kind != Course ==> p[j].completed == s[j].completed && p[j].readyToTake == s[j].readyToTake)
      && (j in Reach(s, rank, root) && s[j].kind == Course ==>
            p[j].completed == (s[j].code.Some? && s[j].code.value in completedCourses))
  {
    var s1 := AfterFirstWalk(s, rank, root, completedCourses);
    ReachSameShape(s, s1, rank, root);
  }

  /** One node of the propagated arena. */
  lemma PropagatedAt(s: seq<CourseNode>, rank: seq<nat>, root: nat, completedCourses: set<string>, j: nat)
    requires Ranked(s, rank) && root < |s| && j < |s|
    ensures Ranked(AfterFirstWalk(s, rank, root, completedCourses), rank)
    ensures Propagated(s, rank, root, completedCourses)[j] ==
      if j in Reach(s, rank, root) then UpdatedNode(AfterFirstWalk(s, rank, root, completedCourses), rank, j) else s[j]
  {
    ReachSameShape(s, AfterFirstWalk(s, rank, root, completedCourses), rank, root);
  }

  /** What a parent reads from a finished child is the child's Satisfied value. */
  lemma UpdatedSatisfied(s1: seq<CourseNode>, rank: seq<nat>, j: nat)
    requires Ranked(s1, rank) && j < |s1|
    ensures UpdatedNode(s1, rank, j).completed || UpdatedNode(s1, rank, j).marked <==> Satisfied(s1, rank, j)
  {
  }

  /** The finished flags satisfy the rules node by node: an OR node is marked
      iff some child is completed or marked, an AND node iff every child is,
      and a Course node is ready iff it was ready before or every child is
      completed or marked. Hence an OR without children is unmarked, an AND
      without children is marked, and a Course node without children is ready. */
  lemma {:induction false} FlagsAgreeWithChildren(s: seq<CourseNode>, rank: seq<nat>, root: nat, completedCourses: set<string>, j: nat)
    requires Ranked(s, rank) && root < |s| && j in Reach(s, rank, root)
    ensures var p, ch := Propagated(s, rank, root, completedCourses), s[j].children;
      && (s[j].kind == Or ==> (p[j].marked <==> exists k :: 0 <= k < |ch| && (p[ch[k]].completed || p[ch[k]].marked)))
      && (s[j].kind == And ==> (p[j].marked <==> forall k :: 0 <= k < |ch| ==> p[ch[k]].completed || p[ch[k]].marked))
      && (s[j].kind == Course ==>
            (p[j].readyToTake <==> s[j].readyToTake || forall k :: 0 <= k < |ch| ==> p[ch[k]].completed || p[ch[k]].marked))
      && (ch == [] ==> (s[j].kind == Or ==> !p[j].marked) && (s[j].kind == And ==> p[j].marked) && (s[j].kind == Course ==> p[j].readyToTake))
  {
    var p, ch := Propagated(s, rank, root, completedCourses), s[j].children;
    var s1 := AfterFirstWalk(s, rank, root, completedCourses);
    PropagatedAt(s, rank, root, completedCourses, j);
    forall k | 0 <= k < |ch|
      ensures p[ch[k]].completed || p[ch[k]].marked <==> Satisfied(s1, rank, ch[k])
    {
      ReachClosed(s, rank, root, j, k);
      PropagatedAt(s, rank, root, completedCourses, ch[k]);
      UpdatedSatisfied(s1, rank, ch[k]);
    }
    assert s1[j].children == ch && s1[j].kind == s[j].kind && s1[j].readyToTake == s[j].readyToTake;
  }

  /** The second walk's verdicts are monotone in the state the first walk
      leaves: more completed courses never unsatisfy a node. */
  lemma {:induction false} SatisfiedMonotone(s: seq<CourseNode>, t: seq<CourseNode>, rank: seq<nat>, j: nat)
    requires Ranked(s, rank) && Ranked(t, rank) && SameShape(s, t) && j < |s|
    requires forall m :: 0 <= m < |s| && s[m].completed ==> t[m].completed
    requires forall m :: 0 <= m < |s| && s[m].kind == Course && s[m].marked ==> t[m].marked
    ensures MarkedAfter(s, rank, j) ==> MarkedAfter(t, rank, j)
    ensures Satisfied(s, rank, j) ==> Satisfied(t, rank, j)
    decreases rank[j]
  {
    var ch := s[j].children;
    assert t[j].children == ch && t[j].kind == s[j].kind;
    match s[j].kind
    case Or =>
      if MarkedAfter(s, rank, j) {
        var k :| 0 <= k < |ch| && Satisfied(s, rank, ch[k]);
        SatisfiedMonotone(s, t, rank, ch[k]);
      }
    case And =>
      forall k | 0 <= k < |ch| ensures Satisfied(s, rank, ch[k]) ==> Satisfied(t, rank, ch[k]) {
        SatisfiedMonotone(s, t, rank, ch[k]);
      }
    case Course =>
  }

  /** Two first-walk states that agree on `completed` and on Course nodes'
      `marked` give the same second-walk result at every node. */
  lemma UpdatedAgree(s1: seq<CourseNode>, t1: seq<CourseNode>, rank: seq<nat>, j: nat)
    requires Ranked(s1, rank) && Ranked(t1, rank) && SameShape(s1, t1) && j < |s1|
    requires forall m :: 0 <= m < |s1| ==> s1[m].completed == t1[m].completed
    requires forall m :: 0 <= m < |s1| && s1[m].kind == Course ==> s1[m].marked == t1[m].marked
    ensures MarkedAfter(s1, rank, j) == MarkedAfter(t1, rank, j)
    ensures AllChildrenSatisfied(s1, rank, j) == AllChildrenSatisfied(t1, rank, j)
  {
    SatisfiedMonotone(s1, t1, rank, j);
    SatisfiedMonotone(t1, s1, rank, j);
    var ch := s1[j].children;
    assert t1[j].children == ch;
    forall k | 0 <= k < |ch| ensures Satisfied(s1, rank, ch[k]) == Satisfied(t1, rank, ch[k]) {
      SatisfiedMonotone(s1, t1, rank, ch[k]);
      SatisfiedMonotone(t1, s1, rank, ch[k]);
    }
  }

  /** The first walk with a larger completed set marks at least the same nodes completed. */
  lemma FirstWalkMonotone(s: seq<CourseNode>, rank: seq<nat>, root: nat, fewer: set<string>, more: set<string>)
    requires Ranked(s, rank) && root < |s| && fewer <= more
    ensures var a, b := AfterFirstWalk(s, rank, root, fewer), AfterFirstWalk(s, rank, root, more);
      && Ranked(a, rank) && Ranked(b, rank) && SameShape(a, b)
      && (forall m :: 0 <= m < |s| && a[m].completed ==> b[m].completed)
      && (forall m :: 0 <= m < |s| ==> a[m].marked == b[m].marked && a[m].readyToTake == b[m].readyToTake)
  {
    var a, b := AfterFirstWalk(s, rank, root, fewer), AfterFirstWalk(s, rank, root, more);
    ReachSameShape(s, a, rank, root);
    ReachSameShape(s, b, rank, root);
    var r := Reach(s, rank, root);
    forall m | 0 <= m < |s|
      ensures a[m].completed ==> b[m].completed
      ensures a[m].marked == b[m].marked && a[m].readyToTake == b[m].readyToTake
    {
      if m in r {
        assert a[m] == CompletedStep(s[m], fewer) && b[m] == CompletedStep(s[m], more);
      } else {
        assert a[m] == s[m] && b[m] == s[m];
      }
    }
  }

  /** A second first walk with the same completed set changes nothing that the
      second walk reads. */
  lemma FirstWalkRepeated(s: seq<CourseNode>, rank: seq<nat>, root: nat, completedCourses: set<string>)
    requires Ranked(s, rank) && root < |s|
    ensures var p := Propagated(s, rank, root, completedCourses);
      var s1, p1 := AfterFirstWalk(s, rank, root, completedCourses), AfterFirstWalk(p, rank, root, completedCourses);
      && SameShape(s, p) && Ranked(p, rank) && Reach(s, rank, root) == Reach(p, rank, root)
      && Ranked(s1, rank) && Ranked(p1, rank) && SameShape(s1, p1)
      && (forall m :: 0 <= m < |s| ==> s1[m].completed == p1[m].completed)
      && (forall m :: 0 <= m < |s| && s1[m].kind == Course ==> s1[m].marked == p1[m].marked)
  {
    var p := Propagated(s, rank, root, completedCourses);
    forall j | 0 <= j < |s| ensures p[j].kind == s[j].kind && p[j].code == s[j].code && p[j].children == s[j].children {
      PropagatedWrites(s, rank, root, completedCourses, j);
    }
    ReachSameShape(s, p, rank, root);
    var s1, p1 := AfterFirstWalk(s, rank, root, completedCourses), AfterFirstWalk(p, rank, root, completedCourses);
    ReachSameShape(s, s1, rank, root);
    ReachSameShape(p, p1, rank, root);
    forall m | 0 <= m < |s|
      ensures s1[m].completed == p1[m].completed
      ensures s1[m].kind == Course ==> s1[m].marked == p1[m].marked
    {
      PropagatedWrites(s, rank, root, completedCourses, m);
    }
  }

  /** One node of the arena after a second run with the same completed list. */
  lemma IdempotentAt(s: seq<CourseNode>, rank: seq<nat>, root: nat, completedCourses: set<string>, j: nat)
    requires Ranked(s, rank) && root < |s| && j < |s|
    ensures Ranked(Propagated(s, rank, root, completedCourses), rank)
    ensures var p := Propagated(s, rank, root, completedCourses);
      Propagated(p, rank, root, completedCourses)[j] == p[j]
  {
    var p := Propagated(s, rank, root, completedCourses);
    var s1, p1 := AfterFirstWalk(s, rank, root, completedCourses), AfterFirstWalk(p, rank, root, completedCourses);
    FirstWalkRepeated(s, rank, root, completedCourses);
    PropagatedAt(s, rank, root, completedCourses, j);
    PropagatedAt(p, rank, root, completedCourses, j);
    if j in Reach(s, rank, root) {
      UpdatedAgree(s1, p1, rank, j);
      assert s1[j] == CompletedStep(s[j], completedCourses);
      assert p1[j] == CompletedStep(p[j], completedCourses);
      UpdatedStable(s1, p1, rank, j);
    }
  }

  /** A node whose first-walk state already holds its second-walk verdicts,
      read from children that agree, is left as it is. */
  lemma UpdatedStable(s1: seq<CourseNode>, p1: seq<CourseNode>, rank: seq<nat>, j: nat)
    requires Ranked(s1, rank) && Ranked(p1, rank) && j < |s1| && j < |p1|
    requires p1[j] == UpdatedNode(s1, rank, j)
    requires MarkedAfter(s1, rank, j) == MarkedAfter(p1, rank, j)
    requires AllChildrenSatisfied(s1, rank, j) == AllChildrenSatisfied(p1, rank, j)
    ensures UpdatedNode(p1, rank, j) == UpdatedNode(s1, rank, j)
  {
  }

  /** Running mark_completion twice with the same completed list leaves the
      same flags as running it once. */
  lemma PropagateIdempotent(s: seq<CourseNode>, rank: seq<nat>, root: nat, completedCourses: set<string>)
    requires Ranked(s, rank) && root < |s|
    ensures Ranked(Propagated(s, rank, root, completedCourses), rank)
    ensures var p := Propagated(s, rank, root, completedCourses);
      Propagated(p, rank, root, completedCourses) == p
  {
    var p := Propagated(s, rank, root, completedCourses);
    FirstWalkRepeated(s, rank, root, completedCourses);
    var q := Propagated(p, rank, root, completedCourses);
    forall j | 0 <= j < |s| ensures q[j] == p[j] {
      IdempotentAt(s, rank, root, completedCourses, j);
    }
  }

  /** On the same tree, enlarging the completed set never turns `completed`,
      `marked` or `readyToTake` from true to false. */
  lemma PropagateMonotone(s: seq<CourseNode>, rank: seq<nat>, root: nat, fewer: set<string>, more: set<string>, j: nat)
    requires Ranked(s, rank) && root < |s| && fewer <= more && j < |s|
    ensures var p1, p2 := Propagated(s, rank, root, fewer), Propagated(s, rank, root, more);
      && (p1[j].completed ==> p2[j].completed)
      && (p1[j].marked ==> p2[j].marked)
      && (p1[j].readyToTake ==> p2[j].readyToTake)
  {
    var a, b := AfterFirstWalk(s, rank, root, fewer), AfterFirstWalk(s, rank, root, more);
    FirstWalkMonotone(s, rank, root, fewer, more);
    PropagatedAt(s, rank, root, fewer, j);
    PropagatedAt(s, rank, root, more, j);
    if j in Reach(s, rank, root) {
      SatisfiedMonotone(a, b, rank, j);
      var ch := s[j].children;
      assert a[j].children == ch && b[j].children == ch;
      forall k | 0 <= k < |ch| ensures Satisfied(a, rank, ch[k]) ==> Satisfied(b, rank, ch[k]) {
        SatisfiedMonotone(a, b, rank, ch[k]);
      }
    }
  }

  /** Starting from nodes that keep the documented flag discipline (as every
      freshly built node does), mark_completion keeps it. */
  lemma PropagateKeepsFlagDiscipline(s: seq<CourseNode>, rank: seq<nat>, root: nat, completedCourses: set<string>)
    requires Ranked(s, rank) && root < |s|
    requires forall j :: 0 <= j < |s| ==> FlagsMatchLabel(s[j])
    ensures var p := Propagated(s, rank, root, completedCourses);
      forall j :: 0 <= j < |p| ==> FlagsMatchLabel(p[j])
  {
    forall j | 0 <= j < |s| { PropagatedWrites(s, rank, root, completedCourses, j); }
  }
}
