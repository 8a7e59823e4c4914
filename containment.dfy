/** check_containment and convert_frozenset_serializable: the containment
    relation read off the pruned combinations, and the conversion of set
    values into lists. */
module Containments {
  import opened Wrappers
  import opened Commonality

  // ---------------------------------------------------------------------------
  // Sets as lists

  /** `l` lists the elements of `s`, each once, in some order. */
  ghost predicate Lists<T(!new)>(l: seq<T>, s: set<T>) {
    && (forall x :: x in l <==> x in s)
    && (forall i, j :: 0 <= i < j < |l| ==> l[i] != l[j])
  }

  /** `list(value)`: the elements of a set in an order left open. */
  method ListOf<T(!new)>(s: set<T>) returns (l: seq<T>)
    ensures Lists(l, s) && |l| == |s|
  {
    l := [];
    var todo := s;
    ghost var seen: set<T> := {};
    while todo != {}
      invariant todo !! seen && todo + seen == s
      invariant Lists(l, seen) && |l| == |seen|
      decreases |todo|
    {
      var x :| x in todo;
      MoveDone(todo, seen, s, x);
      l := l + [x];
      todo := todo - {x};
      seen := seen + {x};
    }
  }

  /** convert_frozenset_serializable: one entry per key, its set value turned
      into a list of the same elements. The same loop ends check_containment. */
  method ConvertFrozensetSerializable<K, V(!new)>(m: map<K, set<V>>) returns (r: map<K, seq<V>>)
    ensures r.Keys == m.Keys
    ensures forall k :: k in r ==> Lists(r[k], m[k]) && |r[k]| == |m[k]|
  {
    r := map[];
    var todo := m.Keys;
    while todo != {}
      invariant todo <= m.Keys && r.Keys == m.Keys - todo
      invariant forall k :: k in r ==> Lists(r[k], m[k]) && |r[k]| == |m[k]|
      decreases |todo|
    {
      var key :| key in todo;
      var value := ListOf(m[key]);
      r := r[key := value];
      todo := todo - {key};
    }
  }

  // ---------------------------------------------------------------------------
  // Containment

  /** The codes `o` contains according to `m`: every code common to a group
      holding `o` that is itself one of that group's roots, `o` excepted. */
  ghost function ContainedIn(m: map<Group, set<Key>>, o: Key): set<Key> {
    set t, item | t in m && item in t && item in m[t] && o in t && o != item :: item
  }

  /** The codes that contain some other code according to `m`. */
  ghost function Containers(m: map<Group, set<Key>>): set<Key> {
    set t, item, o | t in m && item in t && item in m[t] && o in t && o != item :: o
  }

  /** containment_dict at the end of its loops. */
  ghost function Containment(m: map<Group, set<Key>>): map<Key, set<Key>> {
    map o | o in Containers(m) :: ContainedIn(m, o)
  }

  /** The codes the (group, item) pairs of `ps` make `o` contain. */
  ghost function Within(ps: set<(Group, Key)>, o: Key): set<Key> {
    set p | p in ps && o in p.0 && o != p.1 :: p.1
  }

  /** `cd` is containment_dict once the pairs of `ps` are accounted for. */
  ghost predicate AccountsFor(cd: map<Key, set<Key>>, ps: set<(Group, Key)>) {
    && (forall o :: o in cd <==> Within(ps, o) != {})
    && (forall o :: o in cd ==> cd[o] == Within(ps, o))
  }

  /** One more pair adds its item to what each other code of its group contains. */
  lemma WithinStep(ps: set<(Group, Key)>, t: Group, item: Key, o: Key)
    ensures Within(ps + {(t, item)}, o) == Within(ps, o) + (if o in t - {item} then {item} else {})
  {
    var a, b := Within(ps + {(t, item)}, o), Within(ps, o);
    forall x | x in a ensures x in b + (if o in t - {item} then {item} else {}) {
      var p :| p in ps + {(t, item)} && o in p.0 && o != p.1 && x == p.1;
      if p != (t, item) { assert x in b; }
    }
    if o in t - {item} { assert (t, item).1 in a; }
  }

  /** Accounting for one more pair files its item under the other codes of its group. */
  lemma AccountsStep(cd: map<Key, set<Key>>, ps: set<(Group, Key)>, t: Group, item: Key, cd': map<Key, set<Key>>)
    requires AccountsFor(cd, ps) && FiledUnder(cd, item, t - {item}, cd')
    ensures AccountsFor(cd', ps + {(t, item)})
  {
    var ps' := ps + {(t, item)};
    forall o ensures (o in cd' <==> Within(ps', o) != {}) && (o in cd' ==> cd'[o] == Within(ps', o)) {
      WithinStep(ps, t, item, o);
      if o in t - {item} {
        assert item in Within(ps', o);
      }
    }
  }

  /** Once every pair of `m` is accounted for, the dictionary is the containment of `m`. */
  lemma AccountsAll(cd: map<Key, set<Key>>, m: map<Group, set<Key>>, ps: set<(Group, Key)>)
    requires AccountsFor(cd, ps)
    requires forall p :: p in ps <==> p.0 in m && p.1 in p.0 && p.1 in m[p.0]
    ensures cd == Containment(m)
  {
    var c := Containment(m);
    forall o ensures Within(ps, o) == ContainedIn(m, o) {
      forall x | x in ContainedIn(m, o) ensures x in Within(ps, o) {
        var t, item :| t in m && item in t && item in m[t] && o in t && o != item && x == item;
        assert (t, item) in ps;
      }
    }
    forall o ensures o in cd <==> o in c {
      if o in c {
        var t, item :| t in m && item in t && item in m[t] && o in t && o != item;
        assert item in ContainedIn(m, o);
      }
      if o in cd {
        var x :| x in Within(ps, o);
        var t, item :| t in m && item in t && item in m[t] && o in t && o != item && x == item;
      }
    }
    assert cd.Keys == c.Keys;
  }

  /** One pass of the innermost loop: a code other than `item` gets `item`
      filed under it, `item` itself is skipped. */
  lemma FileOtherStep(m: map<Key, set<Key>>, item: Key, seen: set<Key>, r: map<Key, set<Key>>, other: Key)
    requires FiledUnder(m, item, seen - {item}, r)
    ensures other == item ==> FiledUnder(m, item, (seen + {other}) - {item}, r)
    ensures other != item ==> var r1 := if other !in r then r[other := {}] else r;
      FiledUnder(m, item, (seen + {other}) - {item}, r1[other := r1[other] + {item}])
  {
    if other == item {
      assert (seen + {other}) - {item} == seen - {item};
    } else {
      FiledStep(m, item, seen - {item}, r, other);
      assert (seen + {other}) - {item} == (seen - {item}) + {other};
    }
  }

  /** The innermost loop: `item` is filed under every other code of the group. */
  method FileContainers(cd0: map<Key, set<Key>>, item: Key, intersectingCourses: set<Key>) returns (cd: map<Key, set<Key>>)
    ensures FiledUnder(cd0, item, intersectingCourses - {item}, cd)
  {
    cd := cd0;
    var todo := intersectingCourses;
    ghost var seen: set<Key> := {};
    while todo != {}
      invariant todo !! seen && todo + seen == intersectingCourses
      invariant FiledUnder(cd0, item, seen - {item}, cd)
      decreases |todo|
    {
      var otherCourse :| otherCourse in todo;
      FileOtherStep(cd0, item, seen, cd, otherCourse);
      MoveDone(todo, seen, intersectingCourses, otherCourse);
      if otherCourse != item {
        if otherCourse !in cd {
          cd := cd[otherCourse := {}];
        }
        cd := cd[otherCourse := cd[otherCourse] + {item}];
      }
      todo := todo - {otherCourse};
      seen := seen + {otherCourse};
    }
  }

  /** The loop over one group's roots: each root that is also a common code
      of the group is contained by the group's other roots. */
  method ContainmentOfGroup(cd0: map<Key, set<Key>>, ghost ps0: set<(Group, Key)>, key: Group, value: set<Key>)
    returns (cd: map<Key, set<Key>>, ghost ps: set<(Group, Key)>)
    requires AccountsFor(cd0, ps0)
    ensures AccountsFor(cd, ps)
    ensures forall p :: p in ps <==> p in ps0 || (p.0 == key && p.1 in key && p.1 in value)
  {
    cd, ps := cd0, ps0;
    var intersectingCourses := key;
    var todo := intersectingCourses;
    ghost var seen: set<Key> := {};
    while todo != {}
      invariant todo !! seen && todo + seen == intersectingCourses
      invariant AccountsFor(cd, ps)
      invariant forall p :: p in ps <==> p in ps0 || (p.0 == key && p.1 in seen && p.1 in value)
      decreases |todo|
    {
      var item :| item in todo;
      if item in value {
        ghost var before := cd;
        cd := FileContainers(cd, item, intersectingCourses);
        AccountsStep(before, ps, key, item, cd);
        ps := ps + {(key, item)};
      }
      MoveDone(todo, seen, intersectingCourses, item);
      todo := todo - {item};
      seen := seen + {item};
    }
  }

  /** The accumulation loops of check_containment, over the groups in any order. */
  method ContainmentSets(combinations: map<Group, set<Key>>) returns (containmentDict: map<Key, set<Key>>)
    ensures containmentDict == Containment(combinations)
  {
    containmentDict := map[];
    ghost var ps: set<(Group, Key)> := {};
    var todo := combinations.Keys;
    ghost var done: set<Group> := {};
    while todo != {}
      invariant todo !! done && todo + done == combinations.Keys
      invariant AccountsFor(containmentDict, ps)
      invariant forall p :: p in ps <==> p.0 in done && p.1 in p.0 && p.1 in combinations[p.0]
      decreases |todo|
    {
      var key :| key in todo;
      containmentDict, ps := ContainmentOfGroup(containmentDict, ps, key, combinations[key]);
      MoveDone(todo, done, combinations.Keys, key);
      todo := todo - {key};
      done := done + {key};
    }
    AccountsAll(containmentDict, combinations, ps);
  }

  /** check_containment: the containment relation with its sets listed. */
  method CheckContainment(combinations: map<Group, set<Key>>) returns (converted: map<Key, seq<Key>>)
    ensures converted.Keys == Containment(combinations).Keys
    ensures forall o :: o in converted ==> Lists(converted[o], Containment(combinations)[o])
  {
    var containmentDict := ContainmentSets(combinations);
    converted := ConvertFrozensetSerializable(containmentDict);
  }

  /** On pruned combinations, `o` contains `item` exactly when `item` is a
      shared code that is one of the roots of its own root set, and `o` is
      another root of that set. */
  lemma ContainmentOfCommonality(f: map<Key, Group>, o: Key, item: Key)
    ensures var c := Containment(CommonalityOf(f));
      o in c && item in c[o] <==> item in f && item in f[item] && o in f[item] && o != item
  {
    var m := CommonalityOf(f);
    var c := Containment(m);
    if item in f && item in f[item] && o in f[item] && o != item {
      var t := f[item];
      assert t in GroupsOf(f, f.Keys);
      assert item in m[t];
      assert o in Containers(m);
      assert item in ContainedIn(m, o);
    }
  }
}
