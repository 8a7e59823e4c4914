/** powerset: all subsets of a set, each once. */
module Powersets {
  function Pow2(n: nat): nat {
    if n == 0 then 1 else 2 * Pow2(n - 1)
  }

  /** Every subset of `s`; the source lists them by size, one entry per subset. */
  function Powerset<T(==)>(s: set<T>): (p: set<set<T>>)
    ensures s in p && {} in p
  {
    set t | t <= s
  }

  /** Adding a fresh element to every set of a family keeps the family's size. */
  lemma {:induction false} AddToEachSize<T>(fam: set<set<T>>, x: T)
    requires forall t :: t in fam ==> x !in t
    ensures |set t | t in fam :: t + {x}| == |fam|
    decreases |fam|
  {
    if fam != {} {
      var t0 :| t0 in fam;
      var rest := fam - {t0};
      AddToEachSize(rest, x);
      var img, imgRest := set t | t in fam :: t + {x}, set t | t in rest :: t + {x};
      assert img == imgRest + {t0 + {x}};
      forall t | t in rest ensures t + {x} != t0 + {x} {
        assert (t + {x}) - {x} == t && (t0 + {x}) - {x} == t0;
      }
      assert t0 + {x} !in imgRest;
    } else {
      assert (set t | t in fam :: t + {x}) == {};
    }
  }

  /** The subsets of s split into those without x and those with x. */
  lemma PowersetSplit<T>(s: set<T>, x: T)
    requires x in s
    ensures var p := Powerset(s - {x});
      Powerset(s) == p + (set t | t in p :: t + {x})
    ensures var p := Powerset(s - {x});
      p !! (set t | t in p :: t + {x})
  {
    var p := Powerset(s - {x});
    var q := set t | t in p :: t + {x};
    forall t | t in Powerset(s) ensures t in p + q {
      if x in t {
        var u := t - {x};
        assert u in p && u + {x} == t;
      } else {
        assert t <= s - {x};
      }
    }
    forall t | t in p + q ensures t in Powerset(s) {
      if t in q {
        var u :| u in p && t == u + {x};
        assert t <= s;
      }
    }
    forall t | t in q ensures t !in p {
      var u :| u in p && t == u + {x};
      assert x in t;
    }
  }

  /** A set of n elements has 2^n subsets. */
  lemma {:induction false} PowersetSize<T>(s: set<T>)
    ensures |Powerset(s)| == Pow2(|s|)
    decreases |s|
  {
    if s == {} {
      forall t | t in Powerset(s) ensures t == {} { }
      assert Powerset(s) == {{}};
    } else {
      var x :| x in s;
      var r := s - {x};
      PowersetSize(r);
      var p := Powerset(r);
      var q := set t | t in p :: t + {x};
      AddToEachSize(p, x);
      PowersetSplit(s, x);
      assert |s| == |r| + 1;
      assert |p + q| == |p| + |q| by {
        assert p * q == {};
      }
    }
  }
}
