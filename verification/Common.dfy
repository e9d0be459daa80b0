/**
 Notions shared by all parts.
 */
module Common {
  datatype Option<T> = None | Some(value: T)

  ghost predicate Distinct<T>(q: seq<T>) {
    forall i, j :: 0 <= i < j < |q| ==> q[i] != q[j]
  }

  lemma {:induction false} SubsetSize<T>(a: set<T>, b: set<T>)
    requires a <= b
    ensures |a| <= |b|
    decreases |a|
  {
    if a != {} {
      var x :| x in a;
      SubsetSize(a - {x}, b - {x});
    }
  }

  ghost function Elements<T>(q: seq<T>): (s: set<T>) { set x | x in q }

  lemma {:induction false} ElementCount<T>(q: seq<T>)
    requires Distinct(q)
    ensures |Elements(q)| == |q|
    decreases |q|
  {
    if q != [] {
      var m := |q| - 1;
      ElementCount(q[..m]);
      assert q == q[..m] + [q[m]];
      assert Elements(q) == Elements(q[..m]) + {q[m]};
      assert q[m] !in q[..m];
    }
  }
}
