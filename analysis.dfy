/** commonality_algorithm end to end, and what its result says about the
    trees it was given. */
module Analysis {
  import opened Wrappers
  import opened CourseNodes
  import opened CourseSearch
  import opened Commonality
  import opened Containments

  /** construct_dict: the two parts of the answer. The group keys and the
      containing codes are kept as values rather than rendered as strings. */
  datatype CommonalityResult = CommonalityResult(
    commonalityList: map<Group, seq<Key>>,
    containmentDict: map<Key, seq<Key>>)

  /** Root code -> the codes of the Course nodes in that root's tree. */
  ghost function CodesByRoot(s: seq<CourseNode>, rank: seq<nat>, roots: seq<nat>): map<Key, set<Key>>
    requires Ranked(s, rank) && forall i :: 0 <= i < |roots| ==> roots[i] < |s|
  {
    TreeCodes(s, TreeTable(s, rank, roots))
  }

  /** The root codes whose trees hold `c`. */
  ghost function Occurrence(tc: map<Key, set<Key>>, c: Key): set<Key> {
    set r | r in tc && c in tc[r]
  }

  /** The shared codes and their root sets: filtered_unique_set_course_codes. */
  ghost function SharedOf(tc: map<Key, set<Key>>): map<Key, Group> {
    Shared(Invert(tc))
  }

  /** A code is shared exactly when it occurs in two or more trees, and its
      root set is the set of those trees. */
  lemma SharedIsOccurrence(tc: map<Key, set<Key>>, c: Key)
    ensures c in SharedOf(tc) <==> |Occurrence(tc, c)| > 1
    ensures c in SharedOf(tc) ==> SharedOf(tc)[c] == Occurrence(tc, c)
  {
    if Occurrence(tc, c) != {} {
      var r :| r in Occurrence(tc, c);
      assert c in Values(tc);
    }
  }

  /** After pruning, a code is listed under a group exactly when it occurs
      in two or more trees and the group is the set of exactly those trees;
      in particular a code found in one tree only is listed nowhere. */
  lemma CommonalityExact(tc: map<Key, set<Key>>, t: Group, c: Key)
    ensures var m := CommonalityOf(SharedOf(tc));
      t in m && c in m[t] <==> |Occurrence(tc, c)| > 1 && t == Occurrence(tc, c)
  {
    var f := SharedOf(tc);
    SharedIsOccurrence(tc, c);
    if c in f && f[c] == t {
      assert t in GroupsOf(f, f.Keys);
    }
  }

  lemma SubsetSize<T>(a: set<T>, b: set<T>)
    requires a <= b
    ensures |a| <= |b|
  {
    assert b == a + (b - a);
  }

  /** With fewer than two distinct root codes nothing is shared. */
  lemma FewRoots(s: seq<CourseNode>, rank: seq<nat>, roots: seq<nat>)
    requires Ranked(s, rank) && forall i :: 0 <= i < |roots| ==> roots[i] < |s|
    requires |RootCodes(s, roots)| < 2
    ensures CommonalityOf(SharedOf(CodesByRoot(s, rank, roots))) == map[]
  {
    var tc := CodesByRoot(s, rank, roots);
    TreeTableKeys(s, rank, roots);
    assert tc.Keys == RootCodes(s, roots);
    var f := SharedOf(tc);
    forall c ensures c !in f {
      SharedIsOccurrence(tc, c);
      SubsetSize(Occurrence(tc, c), tc.Keys);
    }
    assert GroupsOf(f, f.Keys) == {};
  }

  /** Each root code's entry holds the Course nodes of the last root with
      that code, so a Course root's own code counts as in its own tree. */
  lemma {:induction false} OwnCodeCounted(s: seq<CourseNode>, rank: seq<nat>, roots: seq<nat>, r: Key)
    requires Ranked(s, rank) && forall i :: 0 <= i < |roots| ==> roots[i] < |s|
    requires forall i :: 0 <= i < |roots| ==> s[roots[i]].kind == Course
    requires r in CodesByRoot(s, rank, roots)
    ensures r in CodesByRoot(s, rank, roots)[r]
    decreases |roots|
  {
    var root := roots[|roots| - 1];
    var pre := roots[..|roots| - 1];
    assert forall i :: 0 <= i < |pre| ==> pre[i] == roots[i];
    var lst := CoursesUnder(s, rank, root);
    if s[root].code == r {
      RootCollected(s, rank, root);
      var k :| 0 <= k < |lst| && lst[k] == root;
      assert r in CodesOf(s, lst);
    } else {
      OwnCodeCounted(s, rank, pre, r);
      assert TreeTable(s, rank, roots)[r] == TreeTable(s, rank, pre)[r];
    }
  }

  /** commonality_algorithm: the trees' codes, inverted, filed and pruned,
      then listed together with the containment relation they imply. */
  method CommonalityAlgorithm(nodes: seq<CourseNode>, ghost rank: seq<nat>, rootNodes: seq<nat>) returns (result: CommonalityResult)
    requires Ranked(nodes, rank) && forall i :: 0 <= i < |rootNodes| ==> rootNodes[i] < |nodes|
    ensures var m := CommonalityOf(SharedOf(CodesByRoot(nodes, rank, rootNodes)));
      && result.commonalityList.Keys == m.Keys
      && (forall t :: t in result.commonalityList ==> Lists(result.commonalityList[t], m[t]))
    ensures var c := Containment(CommonalityOf(SharedOf(CodesByRoot(nodes, rank, rootNodes))));
      && result.containmentDict.Keys == c.Keys
      && (forall o :: o in result.containmentDict ==> Lists(result.containmentDict[o], c[o]))
  {
    var listOfCourseCodes := BuildTreeTable(nodes, rank, rootNodes);
    var uniqueSetCourseCodes := InvertTable(nodes, listOfCourseCodes);
    var filteredUniqueSetCourseCodes := Shared(uniqueSetCourseCodes);
    var combinations, pwrToSub := AddCombinations(filteredUniqueSetCourseCodes);
    combinations := Prune(filteredUniqueSetCourseCodes, combinations, pwrToSub);
    var commonalityDict := ConvertFrozensetSerializable(combinations);
    var containmentRelationships := CheckContainment(combinations);
    result := CommonalityResult(commonalityDict, containmentRelationships);
  }
}
