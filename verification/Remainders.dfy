/** Remainders modulo a variable divisor. */
module Remainders {
  lemma AtLeastOneMultiple(x: int, c: nat)
    requires x >= 1
    ensures x * c >= c
  {
    assert x * c == (x - 1) * c + c;
  }

  lemma RemainderUnique(n: nat, c: nat, q: nat, r: nat)
    requires c > 0 && r < c && n == q * c + r
    ensures n % c == r
  {
    var q', r' := n / c, n % c;
    assert n == q' * c + r';
    assert (q - q') * c == q * c - q' * c == -((q' - q) * c);
    if q' < q {
      AtLeastOneMultiple(q - q', c);
      assert false;
    } else if q' > q {
      AtLeastOneMultiple(q' - q, c);
      assert false;
    }
  }

  lemma SuccessorModulo(slot: nat, capacity: nat)
    requires slot < capacity
    ensures (slot + 1) % capacity == if slot + 1 == capacity then 0 else slot + 1
  {
    if slot + 1 == capacity {
      RemainderUnique(slot + 1, capacity, 1, 0);
    } else {
      RemainderUnique(slot + 1, capacity, 0, slot + 1);
    }
  }

  /** Fewer than c apart, two numbers have different remainders modulo c. */
  lemma RemaindersDiffer(a: nat, b: nat, c: nat)
    requires a < b < a + c
    ensures a % c != b % c
  {
    var qa, qb := a / c, b / c;
    assert a == qa * c + a % c && b == qb * c + b % c;
    assert (qb - qa) * c == qb * c - qa * c;
    assert qb <= qa ==> (qb - qa) * c <= 0;
    if qa < qb {
      AtLeastOneMultiple(qb - qa, c);
    }
  }
}
