/** The order the database uses for `version.lt(..)` and `order(version.desc())`:
    plain lexicographic order on strings, character by character, where a
    proper prefix sorts first. (Dafny's own `<` on sequences means "proper
    prefix", so the order is written out here.) */
module LexOrder {

  /** `a` sorts strictly before `b`. */
  predicate Less(a: string, b: string)
    decreases |a|
  {
    if |b| == 0 then false
    else if |a| == 0 then true
    else if a[0] != b[0] then a[0] < b[0]
    else Less(a[1..], b[1..])
  }

  lemma {:induction false} Irreflexive(a: string)
    ensures !Less(a, a)
    decreases |a|
  {
    if |a| > 0 {
      Irreflexive(a[1..]);
    }
  }

  lemma {:induction false} Transitive(a: string, b: string, c: string)
    requires Less(a, b) && Less(b, c)
    ensures Less(a, c)
    decreases |a|
  {
    if |a| > 0 && a[0] == b[0] && b[0] == c[0] {
      Transitive(a[1..], b[1..], c[1..]);
    }
  }

  lemma {:induction false} Trichotomous(a: string, b: string)
    ensures a == b || Less(a, b) || Less(b, a)
    decreases |a|
  {
    if |a| > 0 && |b| > 0 && a[0] == b[0] {
      Trichotomous(a[1..], b[1..]);
      if a[1..] == b[1..] {
        assert a == [a[0]] + a[1..] && b == [b[0]] + b[1..];
      }
    }
  }

  /** `Less` is a strict total order; the quantified form is what the
      "greatest version below" search needs. */
  lemma StrictTotalOrder()
    ensures forall a, b, c :: Less(a, b) && Less(b, c) ==> Less(a, c)
    ensures forall a, b :: a == b || Less(a, b) || Less(b, a)
    ensures forall a :: !Less(a, a)
  {
    forall a, b, c | Less(a, b) && Less(b, c) ensures Less(a, c) {
      Transitive(a, b, c);
    }
    forall a, b ensures a == b || Less(a, b) || Less(b, a) {
      Trichotomous(a, b);
    }
    forall a ensures !Less(a, a) {
      Irreflexive(a);
    }
  }
}
