/** The signature comparison of plugins/connector-webhook/src/index.ts. */
module WebhookSignature {
  import opened Bits

  /** `s.charCodeAt(i) || 0` */
  function CodeAt(s: string, i: nat): nat {
    if i < |s| then s[i] as int else 0
  }

  /**
    * `timingSafeEqual`: every position up to the longer length is folded into
    * the answer, and the answer is equality.
    */
  method TimingSafeEqual(a: string, b: string) returns (equal: bool)
    ensures equal <==> a == b
  {
    var maxLen := if |a| > |b| then |a| else |b|;
    var mismatch: nat := if |a| != |b| then 1 else 0;
    for i := 0 to maxLen
      invariant mismatch == 0 <==> |a| == |b| && forall j | 0 <= j < i :: CodeAt(a, j) == CodeAt(b, j)
    {
      var difference := Xor(CodeAt(a, i), CodeAt(b, i));
      XorIsZero(CodeAt(a, i), CodeAt(b, i));
      OrIsZero(mismatch, difference);
      mismatch := Or(mismatch, difference);
    }
    equal := mismatch == 0;
    if equal {
      forall j | 0 <= j < |a|
        ensures a[j] == b[j]
      {
        assert CodeAt(a, j) == CodeAt(b, j);
      }
    }
  }
}
