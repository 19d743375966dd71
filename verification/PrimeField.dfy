/**
  The prime field in which RLN shares live. Elements are residues 0 <= x < p.
  Division is by the modular inverse, whose correctness is proved from the
  primality of p alone.
 */
module PrimeField {
  type Fr = int

  ghost predicate Prime(p: int) {
    p >= 2 && forall d :: 2 <= d < p ==> !DividedBy(p, d)
  }

  predicate DividedBy(n: int, d: int)
    requires d != 0
  {
    n % d == 0
  }

  ghost predicate Same(p: int, a: int, b: int)
    requires p > 0
  {
    a % p == b % p
  }

  lemma AtLeastOnce(p: int, k: int)
    requires p > 0 && k >= 1
    ensures p * k >= p
  {
  }

  lemma Distribute(p: int, a: int, b: int)
    ensures p * (a - b) == p * a - p * b
  {
  }

  lemma QuotientIsUnique(p: int, q1: int, r1: int, q2: int, r2: int)
    requires p > 0 && 0 <= r1 < p && 0 <= r2 < p
    requires p * q1 + r1 == p * q2 + r2
    ensures q1 == q2 && r1 == r2
  {
    if q1 > q2 {
      AtLeastOnce(p, q1 - q2);
      Distribute(p, q1, q2);
    } else if q1 < q2 {
      AtLeastOnce(p, q2 - q1);
      Distribute(p, q2, q1);
    }
  }

  /** Adding a multiple of the modulus changes nothing. */
  lemma Shifted(p: int, a: int, b: int, k: int)
    requires p > 0 && a == b + p * k
    ensures Same(p, a, b)
  {
    assert a == p * (b / p + k) + b % p;
    assert a == p * (a / p) + a % p;
    QuotientIsUnique(p, a / p, a % p, b / p + k, b % p);
  }

  lemma SameDiffers(p: int, a: int, b: int) returns (k: int)
    requires p > 0 && Same(p, a, b)
    ensures a == b + p * k
  {
    k := a / p - b / p;
    assert a == p * (a / p) + a % p && b == p * (b / p) + b % p;
    assert p * (a / p - b / p) == p * (a / p) - p * (b / p);
  }

  lemma SameAdd(p: int, a: int, a': int, b: int, b': int)
    requires p > 0 && Same(p, a, a') && Same(p, b, b')
    ensures Same(p, a + b, a' + b') && Same(p, a - b, a' - b')
  {
    var j := SameDiffers(p, a, a');
    var k := SameDiffers(p, b, b');
    assert p * (j + k) == p * j + p * k && p * (j - k) == p * j - p * k;
    Shifted(p, a + b, a' + b', j + k);
    Shifted(p, a - b, a' - b', j - k);
  }

  lemma SameMul(p: int, a: int, a': int, b: int, b': int)
    requires p > 0 && Same(p, a, a') && Same(p, b, b')
    ensures Same(p, a * b, a' * b')
  {
    var j := SameDiffers(p, a, a');
    var k := SameDiffers(p, b, b');
    calc {
      a * b;
      (a' + p * j) * (b' + p * k);
      a' * b' + a' * (p * k) + (p * j) * b' + (p * j) * (p * k);
      a' * b' + p * (a' * k + j * b' + j * (p * k));
    }
    Shifted(p, a * b, a' * b', a' * k + j * b' + j * (p * k));
  }

  lemma Reduced(p: int, a: int)
    requires p > 0
    ensures Same(p, a % p, a)
  {
    Shifted(p, a % p, a, -(a / p));
  }

  lemma Small(p: int, a: int)
    requires 0 <= a < p
    ensures a % p == a
  {
    QuotientIsUnique(p, a / p, a % p, 0, a);
  }

  predicate IsInverse(p: int, a: int, i: int)
    requires p > 0
  {
    0 <= i < p && (a * i) % p == 1
  }

  lemma InverseAlgebra(p: int, a: int, q: int, r: int, i: int)
    requires p == a * q + r
    ensures a * (-q * i) == r * i + p * (-i)
  {
    assert a * (-q * i) == -((a * q) * i);
    assert (a * q) * i == (p - r) * i;
  }

  lemma InverseStep(p: int, a: int, i: int)
    requires p >= 2 && 1 < a < p && ((p % a) * i) % p == 1
    ensures IsInverse(p, a, (-(p / a) * i) % p)
  {
    var q, r := p / a, p % a;
    Reduced(p, -q * i);
    SameMul(p, a, a, (-q * i) % p, -q * i);
    InverseAlgebra(p, a, q, r, i);
    Shifted(p, a * (-q * i), r * i, -i);
  }

  /** The inverse of a non-zero residue, by descent on the remainder of p. */
  function Inverse(p: int, a: int): (i: int)
    requires Prime(p) && 0 < a < p
    ensures IsInverse(p, a, i)
    decreases a
  {
    if a == 1 then Small(p, 1); 1
    else
      assert !DividedBy(p, a);
      var j := Inverse(p, p % a);
      InverseStep(p, a, j);
      (-(p / a) * j) % p
  }

  lemma Cancel(p: int, dy: int, a1: int, dx: int, i: int)
    requires p > 0 && Same(p, dy, a1 * dx) && Same(p, dx * i, 1)
    ensures Same(p, dy * i, a1)
  {
    SameMul(p, dy, a1 * dx, i, i);
    SameMul(p, a1, a1, dx * i, 1);
    assert (a1 * dx) * i == a1 * (dx * i);
  }

  /** An inverse of the residue is an inverse of the number. */
  lemma InverseOfResidue(p: int, d: int, i: int)
    requires p > 1 && ((d % p) * i) % p == 1
    ensures Same(p, d * i, 1)
  {
    Reduced(p, d);
    SameMul(p, d % p, d, i, i);
  }

  lemma DistinctResidues(p: int, a: int, b: int)
    requires p > 0 && 0 <= a < p && 0 <= b < p && a != b
    ensures 0 < (a - b) % p
  {
    if (a - b) % p == 0 {
      var k := SameDiffers(p, a - b, 0);
      if k >= 1 { AtLeastOnce(p, k); } else if k <= -1 { AtLeastOnce(p, -k); }
    }
  }
}
