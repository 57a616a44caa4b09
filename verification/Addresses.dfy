/** Addresses with the null one among them, and a new one for an allocator to hand out. */
module Addresses {

  type Addr = nat
  const NULL: Addr := 0

  ghost predicate NoDuplicates(s: seq<Addr>) {
    forall i, j :: 0 <= i < j < |s| ==> s[i] != s[j]
  }

  /** A finite memory always has an unused address left. */
  lemma {:induction false} SomeAddressLeft(used: set<nat>, above: nat)
    ensures exists a: nat :: a >= above && a !in used
  {
    if above in used {
      SomeAddressLeft(used - {above}, above + 1);
      var a: nat :| a >= above + 1 && a !in used - {above};
      assert a >= above && a !in used;
    } else {
      assert above >= above && above !in used;
    }
  }
}
