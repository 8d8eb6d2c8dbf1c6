/** Why stepping by any non-zero amount through a prime number of slots visits each slot once. */
module Primes {

  ghost predicate Prime(p: nat) {
    2 <= p && forall d :: 2 <= d < p ==> p % d != 0
  }

  /** A product of two numbers below a prime is no multiple of it. */
  lemma {:induction false} ProductNotMultiple(a: nat, b: nat, p: nat)
    requires Prime(p) && 0 < a < p && 0 < b < p
    ensures (a * b) % p != 0
    decreases a
  {
    if a == 1 {
      SmallMultiple(b, p);
    } else {
      var r := RemainderOf(p, a);
      ProductNotMultiple(r, b, p);
      RemainderProduct(a, b, p, p / a, r, a * b, r * b);
    }
  }

  lemma SmallMultiple(b: nat, p: nat)
    requires 0 < b < p
    ensures (1 * b) % p != 0
  {
  }

  lemma RemainderOf(p: nat, a: nat) returns (r: nat)
    requires Prime(p) && 2 <= a < p
    ensures r == p % a && 0 < r < a
  {
    r := p % a;
  }

  /** If p = qa + r and ab = mp, then rb is a multiple of p too. */
  lemma RemainderProduct(a: nat, b: nat, p: nat, q: nat, r: nat, ab: nat, rb: nat)
    requires 0 < a && 0 < p && q == p / a && r == p % a && ab == a * b && rb == r * b
    ensures ab % p == 0 ==> rb % p == 0
  {
    if ab % p == 0 {
      var m := ab / p;
      Divided(ab, p);
      Divided(p, a);
      Descend(a, b, p, q, r, m, ab, b - q * m);
      EqualRemainders(rb, 0, p, b - q * m);
    }
  }

  lemma Divided(x: nat, n: nat)
    requires 0 < n
    ensures x == n * (x / n) + x % n
  {
  }

  lemma Descend(a: nat, b: nat, p: nat, q: nat, r: nat, m: nat, ab: nat, k: int)
    requires p == a * q + r && ab == a * b && ab == p * m && k == b - q * m
    ensures r * b == p * k
  {
    calc {
      r * b;
      (p - a * q) * b;
      p * b - q * (a * b);
      p * b - q * (p * m);
      p * (b - q * m);
    }
  }

  lemma MultipleHasNoRemainder(p: nat, k: int)
    requires 0 < p
    ensures (p * k) % p == 0
  {
    EqualRemainders(p * k, 0, p, k);
  }

  /** Numbers that differ by a multiple of p leave the same remainder. */
  lemma EqualRemainders(x: int, y: int, p: nat, k: int)
    requires 0 < p && x == y + p * k
    ensures x % p == y % p
  {
    var qx, qy := x / p, y / p;
    assert x == p * qx + x % p && y == p * qy + y % p;
    var d := qx - qy - k;
    assert p * d == y % p - x % p by {
      assert p * d == p * qx - p * qy - p * k;
    }
    assert d == 0;
  }

  /** The slot visited at step n of a backend's permutation. */
  function SlotAt(offset: nat, skip: nat, n: nat, size: nat): nat
    requires 0 < size
  {
    (offset + n * skip) % size
  }

  /** No slot is visited twice within one turn round the table. */
  lemma StepsDistinct(offset: nat, skip: nat, size: nat, n: nat, m: nat)
    requires Prime(size) && 0 < skip < size && n < m < size
    ensures SlotAt(offset, skip, n, size) != SlotAt(offset, skip, m, size)
  {
    if SlotAt(offset, skip, n, size) == SlotAt(offset, skip, m, size) {
      var x, y := offset + n * skip, offset + m * skip;
      Divided(x, size);
      Divided(y, size);
      Gap(offset, skip, size, n, m, x / size, y / size, x % size);
      MultipleHasNoRemainder(size, y / size - x / size);
      ProductNotMultiple(m - n, skip, size);
    }
  }

  lemma Gap(offset: nat, skip: nat, size: nat, n: nat, m: nat, a: nat, b: nat, r: nat)
    requires offset + n * skip == size * a + r && offset + m * skip == size * b + r
    ensures (m - n) * skip == size * (b - a)
  {
    calc {
      (m - n) * skip;
      m * skip - n * skip;
      size * b - size * a;
      size * (b - a);
    }
  }

  function FirstSlots(offset: nat, skip: nat, size: nat, steps: nat): set<nat>
    requires 0 < size
  {
    set n | 0 <= n < steps :: SlotAt(offset, skip, n, size)
  }

  lemma {:induction false} FirstSlotsSize(offset: nat, skip: nat, size: nat, steps: nat)
    requires Prime(size) && 0 < skip < size && steps <= size
    ensures |FirstSlots(offset, skip, size, steps)| == steps
  {
    if steps != 0 {
      var before := FirstSlots(offset, skip, size, steps - 1);
      var last := SlotAt(offset, skip, steps - 1, size);
      FirstSlotsSize(offset, skip, size, steps - 1);
      assert FirstSlots(offset, skip, size, steps) == before + {last};
      assert last !in before by {
        if last in before {
          var n :| 0 <= n < steps - 1 && SlotAt(offset, skip, n, size) == last;
          StepsDistinct(offset, skip, size, n, steps - 1);
        }
      }
    }
  }

  function Range(n: nat): set<nat> {
    if n == 0 then {} else Range(n - 1) + {n - 1}
  }

  lemma {:induction false} RangeCorrect(n: nat)
    ensures |Range(n)| == n && forall i: nat :: i in Range(n) <==> i < n
  {
    if n != 0 {
      RangeCorrect(n - 1);
    }
  }

  lemma SubsetOfSameSize<T>(a: set<T>, b: set<T>)
    requires a <= b && |a| == |b|
    ensures a == b
  {
    assert b == a + (b - a);
  }

  /** One turn round a table of prime size visits every slot. */
  lemma EverySlotVisited(offset: nat, skip: nat, size: nat, slot: nat)
    requires Prime(size) && 0 < skip < size && slot < size
    ensures exists n :: 0 <= n < size && SlotAt(offset, skip, n, size) == slot
  {
    FirstSlotsSize(offset, skip, size, size);
    RangeCorrect(size);
    SubsetOfSameSize(FirstSlots(offset, skip, size, size), Range(size));
    assert slot in FirstSlots(offset, skip, size, size);
  }

  // ---- 65537 ----

  /** None of the sixteen numbers from d on divides p. */
  predicate SixteenCoprime(p: nat, d: nat)
    requires 0 < d
  {
    && p % d != 0 && p % (d + 1) != 0 && p % (d + 2) != 0 && p % (d + 3) != 0
    && p % (d + 4) != 0 && p % (d + 5) != 0 && p % (d + 6) != 0 && p % (d + 7) != 0
    && p % (d + 8) != 0 && p % (d + 9) != 0 && p % (d + 10) != 0 && p % (d + 11) != 0
    && p % (d + 12) != 0 && p % (d + 13) != 0 && p % (d + 14) != 0 && p % (d + 15) != 0
  }

  lemma SixteenMeans(p: nat, d: nat, k: nat)
    requires 0 < d <= k < d + 16 && SixteenCoprime(p, d)
    ensures p % k != 0
  {
    assert k == d || k == d + 1 || k == d + 2 || k == d + 3 || k == d + 4 || k == d + 5 || k == d + 6 || k == d + 7
        || k == d + 8 || k == d + 9 || k == d + 10 || k == d + 11
        || k == d + 12 || k == d + 13 || k == d + 14 || k == d + 15;
  }

  lemma NoDivisorFrom2(d: nat)
    requires 2 <= d < 130
    ensures 65537 % d != 0
  {
    if d < 18 {
      SixteenMeans(65537, 2, d);
    } else if d < 34 {
      SixteenMeans(65537, 18, d);
    } else if d < 50 {
      SixteenMeans(65537, 34, d);
    } else if d < 66 {
      SixteenMeans(65537, 50, d);
    } else if d < 82 {
      SixteenMeans(65537, 66, d);
    } else if d < 98 {
      SixteenMeans(65537, 82, d);
    } else if d < 114 {
      SixteenMeans(65537, 98, d);
    } else if d < 130 {
      SixteenMeans(65537, 114, d);
    }
  }

  lemma NoDivisorFrom130(d: nat)
    requires 130 <= d < 258
    ensures 65537 % d != 0
  {
    if d < 146 {
      SixteenMeans(65537, 130, d);
    } else if d < 162 {
      SixteenMeans(65537, 146, d);
    } else if d < 178 {
      SixteenMeans(65537, 162, d);
    } else if d < 194 {
      SixteenMeans(65537, 178, d);
    } else if d < 210 {
      SixteenMeans(65537, 194, d);
    } else if d < 226 {
      SixteenMeans(65537, 210, d);
    } else if d < 242 {
      SixteenMeans(65537, 226, d);
    } else if d < 258 {
      SixteenMeans(65537, 242, d);
    }
  }

  lemma NoSmallDivisor(d: nat)
    requires 2 <= d <= 256
    ensures 65537 % d != 0
  {
    if d < 130 {
      NoDivisorFrom2(d);
    } else {
      NoDivisorFrom130(d);
    }
  }

  lemma ProductAtLeast(q: nat, d: nat)
    ensures q >= 257 && d >= 257 ==> q * d >= 257 * 257
  {
  }

  /** A number below 257 squared with a larger proper divisor has one of at most 256. */
  lemma CofactorIsSmall(n: nat, d: nat, q: nat)
    requires 256 < d < n < 257 * 257 && q * d == n
    ensures 2 <= q <= 256 && n % q == 0
  {
    ProductAtLeast(q, d);
    MultipleHasNoRemainder(q, d);
  }

  /** The Maglev table size is prime. */
  lemma TableSizeIsPrime()
    ensures Prime(65537)
  {
    forall d | 2 <= d < 65537 ensures 65537 % d != 0 {
      if d <= 256 {
        NoSmallDivisor(d);
      } else if 65537 % d == 0 {
        CofactorIsSmall(65537, d, 65537 / d);
        NoSmallDivisor(65537 / d);
      }
    }
  }
}
