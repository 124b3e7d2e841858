// The object store as its client sees it: operations are waited for one after another, and each
// succeeds or fails.
module MotrClient {

  type ReturnCode = r: int | r <= 0

  // What becomes of an operation: a return code and, if it fails, how many of its pieces were
  // transferred all the same.
  datatype Fate = Fate(rc: ReturnCode, moved: nat)

  class Motr {
    const fate: nat -> Fate
    var carried: nat    // operations waited for so far

    constructor (fate: nat -> Fate)
      ensures this.fate == fate && carried == 0
    {
      this.fate, carried := fate, 0;
    }

    method Wait() returns (f: Fate)
      modifies this
      ensures carried == old(carried) + 1 && f == fate(old(carried))
    {
      f := fate(carried);
      carried := carried + 1;
    }

    predicate Succeeds(n: nat) { fate(n).rc == 0 }

    ghost predicate AllSucceed(a: nat, b: nat) {
      forall n :: a <= n < b ==> Succeeds(n)
    }

    // What operations from `a` up to `b` come to: 0 exactly when all succeed, or else the code of the
    // last one, all others having succeeded.
    ghost predicate Ran(a: nat, b: nat, rc: int) {
      a <= b && if rc == 0 then AllSucceed(a, b) else a < b && AllSucceed(a, b - 1) && fate(b - 1).rc == rc < 0
    }

    // The same without the code.
    ghost predicate Went(a: nat, b: nat, rc: int) {
      a <= b && (rc == 0 <==> AllSucceed(a, b))
    }

    lemma RanWent(a: nat, b: nat, rc: int)
      requires Ran(a, b, rc)
      ensures Went(a, b, rc)
    {
      assert a < b ==> Succeeds(b - 1) || fate(b - 1).rc < 0;
    }

    lemma RanOn(a: nat, b: nat, c: nat, rc: int)
      requires Ran(a, b, 0) && Ran(b, c, rc)
      ensures Ran(a, c, rc)
    {}
  }
}
