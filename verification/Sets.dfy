/**
  * The size of finite sets. A subset is not larger than the set; proofs of termination and of bounds use it where
  * a search visits only steps that it has not visited before, or where a table
  * only loses entries.
  */
module Sets {
  lemma {:induction false} SubsetSize<T>(a: set<T>, b: set<T>)
    requires a <= b
    ensures |a| <= |b|
  {
    if a == {} {
    } else {
      var x :| x in a;
      SubsetSize(a - {x}, b - {x});
    }
  }
}
