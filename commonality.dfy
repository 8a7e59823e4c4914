/** commonality_algorithm: which courses several requirement trees share.
    Each root's tree is reduced to the set of Course codes it contains; that
    is inverted into code -> set of root codes; codes found under two or more
    roots are filed under every subset (of two or more roots) of their root
    set; finally each code is pruned from every group smaller than its own
    root set. Dictionary iteration order is left open: every loop over a
    dictionary picks its next key arbitrarily. */
module Commonality {
  import opened Wrappers
  import opened CourseNodes
  import opened CourseSearch
  import opened Powersets

  /** A course code as a node carries it (None on AND/OR nodes). */
  type Key = Option<string>

  /** A set of root codes: the frozenset keys of `combinations`. */
  type Group = set<Key>

  /** Moving one element from the to-do part of a set to its done part. */
  lemma MoveDone<T>(todo: set<T>, done: set<T>, all: set<T>, x: T)
    requires todo !! done && todo + done == all && x in todo
    ensures (todo - {x}) !! (done + {x}) && (todo - {x}) + (done + {x}) == all
  {
  }

  // ---------------------------------------------------------------------------
  // Root table: list_of_course_codes

  /** Every listed node is a Course node of the arena. */
  ghost predicate TableInArena(s: seq<CourseNode>, table: map<Key, seq<nat>>) {
    forall r, k :: r in table && 0 <= k < |table[r]| ==> table[r][k] < |s| && s[table[r][k]].kind == Course
  }

  /** list_of_course_codes after the loop over `roots`: each root code names
      the Course nodes of the last root carrying that code. */
  ghost function TreeTable(s: seq<CourseNode>, rank: seq<nat>, roots: seq<nat>): (table: map<Key, seq<nat>>)
    requires Ranked(s, rank) && forall i :: 0 <= i < |roots| ==> roots[i] < |s|
    ensures TableInArena(s, table)
    decreases |roots|
  {
    if roots == [] then map[]
    else
      var pre, root := roots[..|roots| - 1], roots[|roots| - 1];
      assert forall i :: 0 <= i < |pre| ==> pre[i] == roots[i];
      CollectedAreCourses(s, rank, root);
      TreeTable(s, rank, pre)[s[root].code := CoursesUnder(s, rank, root)]
  }

  /** The codes of the given roots. */
  ghost function RootCodes(s: seq<CourseNode>, roots: seq<nat>): set<Key>
    requires forall i :: 0 <= i < |roots| ==> roots[i] < |s|
  {
    set i | 0 <= i < |roots| :: s[roots[i]].code
  }

  lemma RootCodesSnoc(s: seq<CourseNode>, roots: seq<nat>)
    requires roots != [] && forall i :: 0 <= i < |roots| ==> roots[i] < |s|
    ensures RootCodes(s, roots) == RootCodes(s, roots[..|roots| - 1]) + {s[roots[|roots| - 1]].code}
  {
    var pre := roots[..|roots| - 1];
    var a, b := RootCodes(s, roots), RootCodes(s, pre);
    forall r | r in a ensures r in b + {s[roots[|roots| - 1]].code} {
      var i :| 0 <= i < |roots| && s[roots[i]].code == r;
      if i < |pre| { assert pre[i] == roots[i]; }
    }
    forall r | r in b ensures r in a {
      var i :| 0 <= i < |pre| && s[pre[i]].code == r;
      assert pre[i] == roots[i];
    }
    assert |roots| - 1 < |roots|;
  }

  /** Roots are filed under their own code, so the table has one entry per
      distinct root code: two roots with one code count as one. */
  lemma {:induction false} TreeTableKeys(s: seq<CourseNode>, rank: seq<nat>, roots: seq<nat>)
    requires Ranked(s, rank) && forall i :: 0 <= i < |roots| ==> roots[i] < |s|
    ensures TreeTable(s, rank, roots).Keys == RootCodes(s, roots)
    decreases |roots|
  {
    if roots != [] {
      var pre := roots[..|roots| - 1];
      assert forall i :: 0 <= i < |pre| ==> pre[i] == roots[i];
      TreeTableKeys(s, rank, pre);
      RootCodesSnoc(s, roots);
    } else {
      assert RootCodes(s, roots) == {};
    }
  }

  /** The last root with a given code decides that code's entry. */
  lemma {:induction false} TreeTableLastWins(s: seq<CourseNode>, rank: seq<nat>, roots: seq<nat>, i: nat)
    requires Ranked(s, rank) && forall j :: 0 <= j < |roots| ==> roots[j] < |s|
    requires i < |roots| && forall j :: i < j < |roots| ==> s[roots[j]].code != s[roots[i]].code
    ensures s[roots[i]].code in TreeTable(s, rank, roots)
    ensures TreeTable(s, rank, roots)[s[roots[i]].code] == CoursesUnder(s, rank, roots[i])
    decreases |roots|
  {
    if i < |roots| - 1 {
      var pre := roots[..|roots| - 1];
      assert forall j :: 0 <= j < |pre| ==> pre[j] == roots[j];
      TreeTableLastWins(s, rank, pre, i);
    }
  }

  /** The table loop of commonality_algorithm. */
  method BuildTreeTable(nodes: seq<CourseNode>, ghost rank: seq<nat>, rootNodes: seq<nat>) returns (table: map<Key, seq<nat>>)
    requires Ranked(nodes, rank) && forall i :: 0 <= i < |rootNodes| ==> rootNodes[i] < |nodes|
    ensures table == TreeTable(nodes, rank, rootNodes)
  {
    table := map[];
    for i := 0 to |rootNodes|
      invariant table == TreeTable(nodes, rank, rootNodes[..i])
    {
      var root := rootNodes[i];
      assert rootNodes[..i + 1][..i] == rootNodes[..i];
      var found := FindAllCourseNodes(nodes, rank, root);
      table := table[nodes[root].code := found];
    }
    assert rootNodes[..|rootNodes|] == rootNodes;
  }

  // ---------------------------------------------------------------------------
  // Inversion: unique_set_course_codes

  /** The codes of the listed nodes. */
  ghost function CodesOf(s: seq<CourseNode>, lst: seq<nat>): set<Key>
    requires forall k :: 0 <= k < |lst| ==> lst[k] < |s|
  {
    set k | 0 <= k < |lst| :: s[lst[k]].code
  }

  /** Root code -> the codes in that root's tree. */
  ghost function TreeCodes(s: seq<CourseNode>, table: map<Key, seq<nat>>): map<Key, set<Key>>
    requires TableInArena(s, table)
  {
    map r | r in table :: CodesOf(s, table[r])
  }

  ghost function Values(m: map<Key, set<Key>>): set<Key> {
    set r, c | r in m && c in m[r] :: c
  }

  /** Code -> the roots whose code set holds it. */
  ghost function Invert(m: map<Key, set<Key>>): map<Key, set<Key>> {
    map c | c in Values(m) :: set r | r in m && c in m[r]
  }

  ghost function Restrict(m: map<Key, set<Key>>, d: set<Key>): map<Key, set<Key>> {
    map r | r in m && r in d :: m[r]
  }

  /** A root with no codes yet adds nothing to the inversion. */
  lemma InvertEmptyEntry(m: map<Key, set<Key>>, rc: Key)
    requires rc !in m
    ensures Invert(m[rc := {}]) == Invert(m)
  {
    var a := m[rc := {}];
    forall c | c in Values(m) ensures c in Values(a) {
      var r :| r in m && c in m[r];
      assert r in a && c in a[r];
    }
    forall c | c in Values(a) ensures c in Values(m) {
      var r :| r in a && c in a[r];
      assert r in m && c in m[r];
    }
    forall c | c in Values(a) ensures Invert(a)[c] == Invert(m)[c] {
      forall r | r in a && c in a[r] ensures r in m && c in m[r] { }
      forall r | r in m && c in m[r] ensures r in a && c in a[r] { }
    }
  }

  /** Adding a code to one root's set adds it to the values. */
  lemma ValuesAdd(m: map<Key, set<Key>>, rc: Key, codes: set<Key>, c: Key)
    ensures Values(m[rc := codes + {c}]) == Values(m[rc := codes]) + {c}
  {
    var a, b := m[rc := codes + {c}], m[rc := codes];
    forall x | x in Values(a) ensures x in Values(b) + {c} {
      var r :| r in a && x in a[r];
      if x != c { assert x in b[r]; }
    }
    forall x | x in Values(b) ensures x in Values(a) {
      var r :| r in b && x in b[r];
      assert x in a[r];
    }
    assert c in a[rc];
  }

  /** The roots holding `x` once `c` is added to the set of `rc`. */
  lemma InvertAddAt(m: map<Key, set<Key>>, rc: Key, codes: set<Key>, c: Key, x: Key)
    requires x in Values(m[rc := codes + {c}])
    ensures var inv := Invert(m[rc := codes]);
      Invert(m[rc := codes + {c}])[x] == (if x in inv then inv[x] else {}) + (if x == c then {rc} else {})
  {
    var a, b := m[rc := codes + {c}], m[rc := codes];
    var inv := Invert(b);
    var old' := if x in inv then inv[x] else {};
    forall r | r in a && x in a[r] ensures r in old' || (x == c && r == rc) {
      if r != rc || x != c {
        assert r in b && x in b[r];
      }
    }
    forall r | r in old' ensures r in a && x in a[r] {
      assert r in b && x in b[r];
    }
    if x == c {
      assert rc in a && x in a[rc];
    }
  }

  /** Adding a code to one root's set adds that root to the code's entry. */
  lemma InvertAdd(m: map<Key, set<Key>>, rc: Key, codes: set<Key>, c: Key)
    ensures var inv := Invert(m[rc := codes]);
      Invert(m[rc := codes + {c}]) == inv[c := (if c in inv then inv[c] else {}) + {rc}]
  {
    var a, b := m[rc := codes + {c}], m[rc := codes];
    var inv := Invert(b);
    var want := inv[c := (if c in inv then inv[c] else {}) + {rc}];
    ValuesAdd(m, rc, codes, c);
    forall x | x in Values(a) ensures Invert(a)[x] == want[x] {
      InvertAddAt(m, rc, codes, c, x);
    }
    assert Invert(a).Keys == want.Keys;
  }

  lemma CodesOfSnoc(s: seq<CourseNode>, lst: seq<nat>, m: nat)
    requires m < |lst| && forall k :: 0 <= k < |lst| ==> lst[k] < |s|
    ensures CodesOf(s, lst[..m + 1]) == CodesOf(s, lst[..m]) + {s[lst[m]].code}
  {
    var a, b := lst[..m + 1], lst[..m];
    assert forall k :: 0 <= k < m ==> a[k] == b[k];
    assert a[m] == lst[m];
    forall c | c in CodesOf(s, a) ensures c in CodesOf(s, b) + {s[lst[m]].code} {
      var k :| 0 <= k < |a| && s[a[k]].code == c;
    }
  }

  lemma RestrictGrow(m: map<Key, set<Key>>, d: set<Key>, r: Key)
    requires r in m
    ensures Restrict(m, d)[r := m[r]] == Restrict(m, d + {r})
  {
  }

  /** The inner loop over one root's nodes: the root is added to the entry
      of each code found, the entry created empty first if missing. */
  method InvertRoot(nodes: seq<CourseNode>, ghost base: map<Key, set<Key>>, rootCode: Key, lst: seq<nat>, unique0: map<Key, set<Key>>)
    returns (unique: map<Key, set<Key>>)
    requires forall k :: 0 <= k < |lst| ==> lst[k] < |nodes|
    requires rootCode !in base && unique0 == Invert(base)
    ensures unique == Invert(base[rootCode := CodesOf(nodes, lst)])
  {
    unique := unique0;
    InvertEmptyEntry(base, rootCode);
    assert CodesOf(nodes, lst[..0]) == {};
    for m := 0 to |lst|
      invariant unique == Invert(base[rootCode := CodesOf(nodes, lst[..m])])
    {
      var code := nodes[lst[m]].code;
      CodesOfSnoc(nodes, lst, m);
      InvertAdd(base, rootCode, CodesOf(nodes, lst[..m]), code);
      if code !in unique {
        unique := unique[code := {}];
      }
      unique := unique[code := unique[code] + {rootCode}];
    }
    assert lst[..|lst|] == lst;
  }

  /** The inversion loop of commonality_algorithm. */
  method InvertTable(nodes: seq<CourseNode>, table: map<Key, seq<nat>>) returns (unique: map<Key, set<Key>>)
    requires TableInArena(nodes, table)
    ensures unique == Invert(TreeCodes(nodes, table))
  {
    ghost var tc := TreeCodes(nodes, table);
    unique := map[];
    var remaining := table.Keys;
    ghost var done: set<Key> := {};
    assert Restrict(tc, done) == map[];
    assert Invert(map[]) == map[];
    while remaining != {}
      invariant remaining !! done && remaining + done == table.Keys
      invariant unique == Invert(Restrict(tc, done))
      decreases |remaining|
    {
      var rootCode :| rootCode in remaining;
      unique := InvertRoot(nodes, Restrict(tc, done), rootCode, table[rootCode], unique);
      RestrictGrow(tc, done, rootCode);
      MoveDone(remaining, done, table.Keys, rootCode);
      remaining := remaining - {rootCode};
      done := done + {rootCode};
    }
    assert Restrict(tc, done) == tc;
  }

  // ---------------------------------------------------------------------------
  // Groups: filtered_unique_set_course_codes, combinations, pwr_to_sub

  /** filtered_unique_set_course_codes: the codes found under two or more roots. */
  function Shared(unique: map<Key, set<Key>>): map<Key, Group> {
    map c | c in unique && |unique[c]| > 1 :: unique[c]
  }

  ghost predicate AllShared(f: map<Key, Group>) {
    forall c :: c in f ==> |f[c]| > 1
  }

  /** The subsets of two or more roots of a root set, other than the set itself. */
  function ProperSubsets(r: Group): set<Group> {
    set t | t in Powerset(r) && |t| > 1 && t != r
  }

  /** The root sets of the codes in `d`. */
  ghost function GroupsOf(f: map<Key, Group>, d: set<Key>): set<Group> {
    set c | c in d && c in f :: f[c]
  }

  /** Every group of two or more roots inside the root set of some code of `d`. */
  ghost function UpSets(f: map<Key, Group>, d: set<Key>): set<Group> {
    set c, t | c in d && c in f && t in Powerset(f[c]) && |t| > 1 :: t
  }

  /** combinations once the codes of `d` are filed: each group of two or more
      roots holds every code of `d` whose root set includes it. */
  ghost function Combos(f: map<Key, Group>, d: set<Key>): map<Group, set<Key>> {
    map t | t in UpSets(f, d) :: set c | c in d && c in f && t <= f[c]
  }

  /** pwr_to_sub once the codes of `d` are filed. */
  ghost function PwrMap(f: map<Key, Group>, d: set<Key>): map<Group, set<Group>> {
    map t | t in GroupsOf(f, d) :: ProperSubsets(t)
  }

  /** `m` with `code` filed under each group of `p`. */
  ghost function AddCode<K, V>(m: map<K, set<V>>, code: V, p: set<K>): map<K, set<V>> {
    map t | t in m.Keys + p :: (if t in m then m[t] else {}) + (if t in p then {code} else {})
  }

  lemma AddCodeNone(m: map<Group, set<Key>>, code: Key)
    ensures AddCode(m, code, {}) == m
  {
    var a := AddCode(m, code, {});
    assert a.Keys == m.Keys;
    forall t | t in m ensures a[t] == m[t] { }
  }

  lemma AddCodeStep(m: map<Group, set<Key>>, code: Key, p: set<Group>, t: Group)
    ensures var a := AddCode(m, code, p);
      AddCode(m, code, p + {t}) == a[t := (if t in a then a[t] else {}) + {code}]
  {
    var a := AddCode(m, code, p);
    var b, c := AddCode(m, code, p + {t}), a[t := (if t in a then a[t] else {}) + {code}];
    assert b.Keys == c.Keys;
    forall u | u in b.Keys ensures b[u] == c[u] {
      if u != t {
        assert u in a.Keys;
      }
    }
  }

  lemma PowersetMember(r: Group, t: Group)
    ensures t in Powerset(r) <==> t <= r
  {
  }

  /** The groups a code with root set r is filed under. */
  lemma FiledGroups(r: Group, t: Group)
    requires |r| > 1
    ensures t in ProperSubsets(r) + {r} <==> t <= r && |t| > 1
  {
    PowersetMember(r, t);
  }

  lemma UpSetsStep(f: map<Key, Group>, d: set<Key>, code: Key)
    requires code in f && |f[code]| > 1
    ensures UpSets(f, d + {code}) == UpSets(f, d) + (ProperSubsets(f[code]) + {f[code]})
  {
    var p := ProperSubsets(f[code]) + {f[code]};
    forall t | t in UpSets(f, d + {code}) ensures t in UpSets(f, d) + p {
      var c :| c in d + {code} && c in f && t in Powerset(f[c]) && |t| > 1;
      if c != code { assert t in UpSets(f, d); }
      else { PowersetMember(f[code], t); FiledGroups(f[code], t); }
    }
    forall t | t in p ensures t in UpSets(f, d + {code}) {
      FiledGroups(f[code], t);
      PowersetMember(f[code], t);
      assert code in d + {code} && t in Powerset(f[code]);
    }
  }

  /** A group that some code of `d` has inside its root set is a group of `d`. */
  lemma CodesInside(f: map<Key, Group>, d: set<Key>, t: Group)
    requires |t| > 1
    ensures (set c | c in d && c in f && t <= f[c]) != {} ==> t in UpSets(f, d)
  {
    var inD := set c | c in d && c in f && t <= f[c];
    if inD != {} {
      var c :| c in inD;
      PowersetMember(f[c], t);
    }
  }

  lemma CombosStepAt(f: map<Key, Group>, d: set<Key>, code: Key, t: Group)
    requires code in f && code !in d && |f[code]| > 1
    requires t in UpSets(f, d + {code})
    ensures t in AddCode(Combos(f, d), code, ProperSubsets(f[code]) + {f[code]})
    ensures AddCode(Combos(f, d), code, ProperSubsets(f[code]) + {f[code]})[t] == Combos(f, d + {code})[t]
  {
    var r := f[code];
    var p := ProperSubsets(r) + {r};
    var cd := Combos(f, d);
    UpSetsStep(f, d, code);
    FiledGroups(r, t);
    var inD := set c | c in d && c in f && t <= f[c];
    var all := set c | c in d + {code} && c in f && t <= f[c];
    assert all == inD + (if t <= r then {code} else {});
    CodesInside(f, d, t);
  }

  /** Filing a code under all groups inside its root set files it in `Combos`. */
  lemma CombosStep(f: map<Key, Group>, d: set<Key>, code: Key)
    requires code in f && code !in d && |f[code]| > 1
    ensures AddCode(Combos(f, d), code, ProperSubsets(f[code]) + {f[code]}) == Combos(f, d + {code})
  {
    var a, b := AddCode(Combos(f, d), code, ProperSubsets(f[code]) + {f[code]}), Combos(f, d + {code});
    UpSetsStep(f, d, code);
    forall t | t in b.Keys ensures t in a && a[t] == b[t] {
      CombosStepAt(f, d, code, t);
    }
    assert a.Keys == b.Keys;
  }

  /** `r` is `m` with `code` filed under each group of `p`, stated key by key. */
  ghost predicate FiledUnder<K(!new), V>(m: map<K, set<V>>, code: V, p: set<K>, r: map<K, set<V>>) {
    && (forall t :: t in r <==> t in m || t in p)
    && (forall t :: t in r ==> r[t] == (if t in m then m[t] else {}) + (if t in p then {code} else {}))
  }

  lemma FiledUnderIsAddCode<K(!new), V>(m: map<K, set<V>>, code: V, p: set<K>, r: map<K, set<V>>)
    requires FiledUnder(m, code, p, r)
    ensures r == AddCode(m, code, p)
  {
    assert r.Keys == AddCode(m, code, p).Keys;
  }

  /** One pass of the filing loop: create the entry if missing, then add the code. */
  lemma FiledStep<K(!new), V>(m: map<K, set<V>>, code: V, p: set<K>, r: map<K, set<V>>, t: K)
    requires FiledUnder(m, code, p, r)
    ensures var r1 := if t !in r then r[t := {}] else r;
      FiledUnder(m, code, p + {t}, r1[t := r1[t] + {code}])
  {
  }

  /** The inner loop over the proper groups of one root set: the code is
      added to each group's entry, the entry created empty first if missing. */
  method FileCode(combinations: map<Group, set<Key>>, code: Key, groups: set<Group>) returns (result: map<Group, set<Key>>)
    ensures result == AddCode(combinations, code, groups)
  {
    result := combinations;
    var todo := groups;
    ghost var put: set<Group> := {};
    while todo != {}
      invariant todo !! put && todo + put == groups
      invariant FiledUnder(combinations, code, put, result)
      decreases |todo|
    {
      var setCombo :| setCombo in todo;
      FiledStep(combinations, code, put, result, setCombo);
      MoveDone(todo, put, groups, setCombo);
      if setCombo !in result {
        result := result[setCombo := {}];
      }
      result := result[setCombo := result[setCombo] + {code}];
      todo := todo - {setCombo};
      put := put + {setCombo};
    }
    FiledUnderIsAddCode(combinations, code, groups, result);
  }

  /** The filing of the root set itself, as the loop writes it. */
  lemma AddCodeUpdate(m: map<Group, set<Key>>, code: Key, p: set<Group>, t: Group)
    ensures var r := AddCode(m, code, p);
      var r1 := if t !in r then r[t := {}] else r;
      r1[t := r1[t] + {code}] == AddCode(m, code, p + {t})
  {
    AddCodeStep(m, code, p, t);
  }

  lemma PwrMapStep(f: map<Key, Group>, d: set<Key>, code: Key)
    requires code in f
    ensures PwrMap(f, d + {code}) == PwrMap(f, d)[f[code] := ProperSubsets(f[code])]
  {
    assert GroupsOf(f, d + {code}) == GroupsOf(f, d) + {f[code]};
  }

  /** The combinations loop of commonality_algorithm: every shared code is
      filed under every group of two or more of its roots, and each root set
      records its proper groups. */
  method AddCombinations(filtered: map<Key, Group>) returns (combinations: map<Group, set<Key>>, pwrToSub: map<Group, set<Group>>)
    requires AllShared(filtered)
    ensures combinations == Combos(filtered, filtered.Keys)
    ensures pwrToSub == PwrMap(filtered, filtered.Keys)
  {
    combinations, pwrToSub := map[], map[];
    var remaining := filtered.Keys;
    ghost var done: set<Key> := {};
    assert Combos(filtered, done) == map[];
    assert PwrMap(filtered, done) == map[];
    while remaining != {}
      invariant remaining !! done && remaining + done == filtered.Keys
      invariant combinations == Combos(filtered, done)
      invariant pwrToSub == PwrMap(filtered, done)
      decreases |remaining|
    {
      var code :| code in remaining;
      var rootSet := filtered[code];
      var filteredRootPwrSet := ProperSubsets(rootSet);
      pwrToSub := pwrToSub[rootSet := filteredRootPwrSet];
      ghost var base := combinations;
      combinations := FileCode(combinations, code, filteredRootPwrSet);
      AddCodeUpdate(base, code, filteredRootPwrSet, rootSet);
      if rootSet !in combinations {
        combinations := combinations[rootSet := {}];
      }
      combinations := combinations[rootSet := combinations[rootSet] + {code}];
      CombosStep(filtered, done, code);
      PwrMapStep(filtered, done, code);
      MoveDone(remaining, done, filtered.Keys, code);
      remaining := remaining - {code};
      done := done + {code};
    }
  }

  // ---------------------------------------------------------------------------
  // Pruning: a code filed under a group is removed from every smaller group
  // of a root set it is also filed under.

  /** The codes left under group `t` once the root sets of `g` have pruned:
      those whose root set includes `t` and no root set of `g` lies strictly
      between the two. */
  ghost function Cut(f: map<Key, Group>, t: Group, g: set<Group>): set<Key> {
    set c | c in f && t <= f[c] && !(exists r :: r in g && t < r && r <= f[c])
  }

  /** `m` is combinations once the root sets of `g` have pruned, key by key. */
  ghost predicate Holds(m: map<Group, set<Key>>, f: map<Key, Group>, g: set<Group>) {
    && (forall t :: t in m <==> |t| > 1 && Cut(f, t, g) != {})
    && (forall t :: t in m ==> m[t] == Cut(f, t, g))
  }

  /** The pruning under root set `i` while it is in progress: the subsets of
      `q` are pruned by `i` as well, the other groups not yet. */
  ghost function CutPart(f: map<Key, Group>, t: Group, g: set<Group>, i: Group, q: set<Group>): set<Key> {
    if t in q then Cut(f, t, g + {i}) else Cut(f, t, g)
  }

  ghost predicate PartlyHolds(m: map<Group, set<Key>>, f: map<Key, Group>, g: set<Group>, i: Group, q: set<Group>) {
    && (forall t :: t in m <==> |t| > 1 && CutPart(f, t, g, i, q) != {})
    && (forall t :: t in m ==> m[t] == CutPart(f, t, g, i, q))
  }

  /** The commonality of the trees: every root set of a shared code maps to
      the codes whose root set is exactly that one. */
  ghost function CommonalityOf(f: map<Key, Group>): map<Group, set<Key>> {
    map t | t in GroupsOf(f, f.Keys) :: set c | c in f && f[c] == t
  }

  /** A root set that does not include `t` strictly cannot prune it. */
  lemma CutOutside(f: map<Key, Group>, t: Group, g: set<Group>, i: Group)
    requires !(t < i)
    ensures Cut(f, t, g + {i}) == Cut(f, t, g)
  {
  }

  /** Pruning `t` by a larger root set `i` removes exactly the codes still
      filed under `i`. */
  lemma CutDiff(f: map<Key, Group>, t: Group, g: set<Group>, i: Group)
    requires t < i
    ensures Cut(f, t, g + {i}) == Cut(f, t, g) - Cut(f, i, g)
  {
    forall c | c in Cut(f, t, g) && i <= f[c] ensures c in Cut(f, i, g) {
      forall r | r in g && i < r && r <= f[c] ensures t < r && r <= f[c] { }
    }
  }

  /** Before any pruning, combinations holds every code under every group of
      two or more roots inside its root set. */
  lemma CombosHolds(f: map<Key, Group>)
    ensures Holds(Combos(f, f.Keys), f, {})
  {
    var m := Combos(f, f.Keys);
    forall t ensures t in m <==> |t| > 1 && Cut(f, t, {}) != {} {
      if |t| > 1 {
        CodesInside(f, f.Keys, t);
        if t in UpSets(f, f.Keys) {
          var c :| c in f.Keys && c in f && t in Powerset(f[c]) && |t| > 1;
          PowersetMember(f[c], t);
          assert c in Cut(f, t, {});
        }
      }
    }
  }

  lemma PartlyStart(m: map<Group, set<Key>>, f: map<Key, Group>, g: set<Group>, i: Group)
    requires Holds(m, f, g)
    ensures PartlyHolds(m, f, g, i, {})
  {
  }

  /** Once every proper group of `i` has been pruned, `i` has pruned. */
  lemma PartlyEnd(m: map<Group, set<Key>>, f: map<Key, Group>, g: set<Group>, i: Group)
    requires PartlyHolds(m, f, g, i, ProperSubsets(i))
    ensures Holds(m, f, g + {i})
  {
    forall t ensures CutPart(f, t, g, i, ProperSubsets(i)) == Cut(f, t, g + {i}) || |t| <= 1 {
      if |t| > 1 && t !in ProperSubsets(i) {
        PowersetMember(i, t);
        CutOutside(f, t, g, i);
      }
    }
  }

  /** A root set whose entry is already gone prunes nothing. */
  lemma SkipGroup(m: map<Group, set<Key>>, f: map<Key, Group>, g: set<Group>, i: Group)
    requires Holds(m, f, g) && Cut(f, i, g) == {}
    ensures Holds(m, f, g + {i})
  {
    forall t ensures Cut(f, t, g + {i}) == Cut(f, t, g) {
      if t < i { CutDiff(f, t, g, i); } else { CutOutside(f, t, g, i); }
    }
  }

  /** One pass of the inner pruning loop, in each of its three outcomes:
      no entry, a smaller entry, or an entry deleted because nothing is left. */
  lemma PruneStep(m: map<Group, set<Key>>, f: map<Key, Group>, g: set<Group>, i: Group, q: set<Group>, s: Group, big: set<Key>)
    requires PartlyHolds(m, f, g, i, q)
    requires s in ProperSubsets(i) && s !in q && big == Cut(f, i, g)
    ensures s !in m ==> PartlyHolds(m, f, g, i, q + {s})
    ensures s in m && m[s] - big != {} ==> PartlyHolds(m[s := m[s] - big], f, g, i, q + {s})
    ensures s in m && m[s] - big == {} ==> PartlyHolds(m - {s}, f, g, i, q + {s})
  {
    PowersetMember(i, s);
    CutDiff(f, s, g, i);
    assert CutPart(f, s, g, i, q + {s}) == CutPart(f, s, g, i, q) - big;
    forall t | t != s ensures CutPart(f, t, g, i, q + {s}) == CutPart(f, t, g, i, q) { }
  }

  /** After every root set has pruned, each code is left under its own root
      set only. */
  lemma HoldsAll(m: map<Group, set<Key>>, f: map<Key, Group>)
    requires AllShared(f) && Holds(m, f, GroupsOf(f, f.Keys))
    ensures m == CommonalityOf(f)
  {
    var all := GroupsOf(f, f.Keys);
    var cm := CommonalityOf(f);
    forall t | |t| > 1 ensures Cut(f, t, all) == set c | c in f && f[c] == t {
      forall c | c in f && t <= f[c] && f[c] != t ensures c !in Cut(f, t, all) {
        assert f[c] in all;
      }
    }
    forall t ensures t in m <==> t in cm {
      if t in cm {
        var c :| c in f && f[c] == t;
        assert c in Cut(f, t, all);
      }
    }
    assert m.Keys == cm.Keys;
  }

  /** Each key of pwr_to_sub is a root set of two or more roots and maps to
      its proper groups. */
  lemma PwrMapAt(f: map<Key, Group>, i: Group)
    requires AllShared(f) && i in PwrMap(f, f.Keys)
    ensures |i| > 1 && PwrMap(f, f.Keys)[i] == ProperSubsets(i)
  {
    var c :| c in f && f[c] == i;
  }

  lemma PwrMapKeys(f: map<Key, Group>)
    ensures PwrMap(f, f.Keys).Keys == GroupsOf(f, f.Keys)
  {
  }

  /** The inner pruning loop: the codes of the root set `intersection` are
      removed from each of its proper groups. */
  method PruneUnder(ghost f: map<Key, Group>, ghost g: set<Group>, intersection: Group, biggest: set<Key>,
                    subsets: set<Group>, combinations0: map<Group, set<Key>>) returns (combinations: map<Group, set<Key>>)
    requires Holds(combinations0, f, g)
    requires subsets == ProperSubsets(intersection) && biggest == Cut(f, intersection, g)
    ensures Holds(combinations, f, g + {intersection})
  {
    combinations := combinations0;
    PartlyStart(combinations, f, g, intersection);
    var todo := subsets;
    ghost var pruned: set<Group> := {};
    while todo != {}
      invariant todo !! pruned && todo + pruned == subsets
      invariant PartlyHolds(combinations, f, g, intersection, pruned)
      decreases |todo|
    {
      var subset :| subset in todo;
      PruneStep(combinations, f, g, intersection, pruned, subset, biggest);
      if subset in combinations {
        var smaller := combinations[subset];
        var filteredCommonality := smaller - biggest;
        if filteredCommonality != {} {
          combinations := combinations[subset := filteredCommonality];
        } else {
          combinations := combinations - {subset};
        }
      }
      MoveDone(todo, pruned, subsets, subset);
      todo := todo - {subset};
      pruned := pruned + {subset};
    }
    PartlyEnd(combinations, f, g, intersection);
  }

  /** One pass of the pruning loop: the root set `intersection` prunes its
      proper groups when its own entry is still there. */
  method PruneGroup(ghost filtered: map<Key, Group>, ghost done: set<Group>, intersection: Group,
                    pwrToSub: map<Group, set<Group>>, combinations0: map<Group, set<Key>>)
    returns (combinations: map<Group, set<Key>>)
    requires AllShared(filtered) && pwrToSub == PwrMap(filtered, filtered.Keys)
    requires intersection in pwrToSub && Holds(combinations0, filtered, done)
    ensures Holds(combinations, filtered, done + {intersection})
  {
    combinations := combinations0;
    PwrMapAt(filtered, intersection);
    if intersection in combinations {
      var biggest := combinations[intersection];
      combinations := PruneUnder(filtered, done, intersection, biggest, pwrToSub[intersection], combinations);
    } else {
      SkipGroup(combinations, filtered, done, intersection);
    }
  }

  /** The pruning loop of commonality_algorithm, over the root sets in any order. */
  method Prune(ghost filtered: map<Key, Group>, combinations0: map<Group, set<Key>>, pwrToSub: map<Group, set<Group>>)
    returns (combinations: map<Group, set<Key>>)
    requires AllShared(filtered)
    requires combinations0 == Combos(filtered, filtered.Keys)
    requires pwrToSub == PwrMap(filtered, filtered.Keys)
    ensures combinations == CommonalityOf(filtered)
  {
    combinations := combinations0;
    CombosHolds(filtered);
    var remaining := pwrToSub.Keys;
    ghost var done: set<Group> := {};
    while remaining != {}
      invariant remaining !! done && remaining + done == pwrToSub.Keys
      invariant Holds(combinations, filtered, done)
      decreases |remaining|
    {
      var intersection :| intersection in remaining;
      combinations := PruneGroup(filtered, done, intersection, pwrToSub, combinations);
      MoveDone(remaining, done, pwrToSub.Keys, intersection);
      remaining := remaining - {intersection};
      done := done + {intersection};
    }
    PwrMapKeys(filtered);
    HoldsAll(combinations, filtered);
  }
}
