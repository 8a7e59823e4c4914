/** find_all_course_nodes: a pre-order walk from a root that collects every
    Course node it passes, in visiting order. A node shared by two parents is
    visited, and collected, once per path to it. */
module CourseSearch {
  import opened CourseNodes

  /** The Course nodes the walk from `i` collects, in order: `i` itself when it
      is a Course node, then those under each child in turn. */
  ghost function CoursesUnder(s: seq<CourseNode>, rank: seq<nat>, i: nat): seq<nat>
    requires Ranked(s, rank) && i < |s|
    decreases rank[i], |s[i].children| + 1
  {
    (if s[i].kind == Course then [i] else []) + CoursesUnderChildren(s, rank, i, |s[i].children|)
  }

  /** The Course nodes collected under the first `k` children of `p`. */
  ghost function CoursesUnderChildren(s: seq<CourseNode>, rank: seq<nat>, p: nat, k: nat): seq<nat>
    requires Ranked(s, rank) && p < |s| && k <= |s[p].children|
    decreases rank[p], k
  {
    if k == 0 then []
    else CoursesUnderChildren(s, rank, p, k - 1) + CoursesUnder(s, rank, s[p].children[k - 1])
  }

  /** The nested traverse: appends to `allNodes` the Course nodes under `node`. */
  method Traverse(nodes: seq<CourseNode>, ghost rank: seq<nat>, node: nat, allNodes: seq<nat>) returns (acc: seq<nat>)
    requires Ranked(nodes, rank) && node < |nodes|
    ensures acc == allNodes + CoursesUnder(nodes, rank, node)
    decreases rank[node]
  {
    acc := allNodes;
    if nodes[node].kind == Course {
      acc := acc + [node];
    }
    ghost var own := if nodes[node].kind == Course then [node] else [];
    var children := nodes[node].children;
    for k := 0 to |children|
      invariant acc == allNodes + own + CoursesUnderChildren(nodes, rank, node, k)
    {
      acc := Traverse(nodes, rank, children[k], acc);
    }
  }

  method FindAllCourseNodes(nodes: seq<CourseNode>, ghost rank: seq<nat>, root: nat) returns (allNodes: seq<nat>)
    requires Ranked(nodes, rank) && root < |nodes|
    ensures allNodes == CoursesUnder(nodes, rank, root)
  {
    allNodes := Traverse(nodes, rank, root, []);
  }

  /** The walk collects exactly the Course nodes reachable from the root
      (the root included). */
  lemma {:induction false} CoursesUnderReach(s: seq<CourseNode>, rank: seq<nat>, i: nat)
    requires Ranked(s, rank) && i < |s|
    ensures forall x :: x in CoursesUnder(s, rank, i) <==> x in Reach(s, rank, i) && s[x].kind == Course
    decreases rank[i], |s[i].children| + 1
  {
    CoursesUnderChildrenReach(s, rank, i, |s[i].children|);
  }

  lemma {:induction false} CoursesUnderChildrenReach(s: seq<CourseNode>, rank: seq<nat>, p: nat, k: nat)
    requires Ranked(s, rank) && p < |s| && k <= |s[p].children|
    ensures forall x :: x in CoursesUnderChildren(s, rank, p, k) <==>
      x in ReachBelow(s, rank, p, k) && s[x].kind == Course
    decreases rank[p], k
  {
    if k > 0 {
      var c := s[p].children[k - 1];
      CoursesUnderChildrenReach(s, rank, p, k - 1);
      CoursesUnderReach(s, rank, c);
      var a, b := CoursesUnderChildren(s, rank, p, k - 1), CoursesUnder(s, rank, c);
      forall x ensures x in a + b <==> x in a || x in b {
      }
    }
  }

  /** A Course root is collected from its own tree, so its own code is among
      the codes of that tree. */
  lemma RootCollected(s: seq<CourseNode>, rank: seq<nat>, root: nat)
    requires Ranked(s, rank) && root < |s| && s[root].kind == Course
    ensures root in CoursesUnder(s, rank, root)
  {
  }

  /** Every collected node is a Course node of the arena. */
  lemma CollectedAreCourses(s: seq<CourseNode>, rank: seq<nat>, i: nat)
    requires Ranked(s, rank) && i < |s|
    ensures forall k :: 0 <= k < |CoursesUnder(s, rank, i)| ==>
      CoursesUnder(s, rank, i)[k] < |s| && s[CoursesUnder(s, rank, i)[k]].kind == Course
  {
    CoursesUnderReach(s, rank, i);
    forall k | 0 <= k < |CoursesUnder(s, rank, i)|
      ensures CoursesUnder(s, rank, i)[k] < |s| && s[CoursesUnder(s, rank, i)[k]].kind == Course
    {
      assert CoursesUnder(s, rank, i)[k] in CoursesUnder(s, rank, i);
    }
  }
}
