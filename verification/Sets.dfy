/** Facts about finite sets that several components need. */
module Sets {

  lemma ElementOf<V>(s: set<V>) returns (v: V)
    requires s != {}
    ensures v in s
  {
    v :| v in s;
  }

  lemma {:induction false} SubsetSmaller<V>(a: set<V>, b: set<V>)
    requires a <= b
    ensures |a| <= |b|
  {
    if x :| x in a {
      SubsetSmaller(a - {x}, b - {x});
    }
  }

  lemma SubsetOfEqualSize<V>(a: set<V>, b: set<V>)
    requires a <= b && |a| == |b|
    ensures a == b
  {
    if x :| x in b && x !in a {
      SubsetSmaller(a, b - {x});
    }
  }

  lemma {:induction false} Least(s: set<int>) returns (x: int)
    requires s != {}
    ensures x in s && forall y :: y in s ==> x <= y
  {
    x := ElementOf(s);
    var rest := s - {x};
    if rest != {} {
      var y := Least(rest);
      forall z | z in s ensures z == x || z in rest {
      }
      x := if x < y then x else y;
    } else {
      forall z | z in s ensures z == x {
        assert z !in rest;
      }
    }
  }

  lemma {:induction false} Greatest(s: set<int>) returns (x: int)
    requires s != {}
    ensures x in s && forall y :: y in s ==> y <= x
  {
    x := ElementOf(s);
    var rest := s - {x};
    if rest != {} {
      var y := Greatest(rest);
      forall z | z in s ensures z == x || z in rest {
      }
      x := if x < y then y else x;
    } else {
      forall z | z in s ensures z == x {
        assert z !in rest;
      }
    }
  }
}
