/** Sizes of finite sets. */
module SetFacts {

  lemma {:induction false} SubsetSize<T>(s: set<T>, t: set<T>)
    requires s <= t
    ensures |s| <= |t|
    decreases s
  {
    if s != {} {
      var x :| x in s;
      SubsetSize(s - {x}, t - {x});
    }
  }
}
