/** Counting through one-to-one images. */
module Sets {
  lemma {:induction false} ImageSize<A, B>(s: set<A>, f: A -> B, image: set<B>)
    requires image == set x | x in s :: f(x)
    requires forall x, y :: x in s && y in s && f(x) == f(y) ==> x == y
    ensures |image| == |s|
  {
    if s != {} {
      var x :| x in s;
      var rest := set y | y in s - {x} :: f(y);
      assert image == rest + {f(x)};
      ImageSize(s - {x}, f, rest);
    }
  }
}
