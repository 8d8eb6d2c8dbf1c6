/** Mapping a ticket onto weight intervals, and how often each candidate is chosen over a block of
    consecutive tickets. */
module Rotation {

  function Sum(ws: seq<nat>): nat {
    if ws == [] then 0 else ws[0] + Sum(ws[1..])
  }

  function Prefix(ws: seq<nat>, i: nat): nat
    requires i <= |ws|
  {
    Sum(ws[..i])
  }

  /** The candidate whose interval holds the remainder. */
  function PickIndex(ws: seq<nat>, remaining: nat): nat
    requires remaining < Sum(ws)
  {
    if remaining < ws[0] then 0 else 1 + PickIndex(ws[1..], remaining - ws[0])
  }

  lemma {:induction false} PickIndexInInterval(ws: seq<nat>, r: nat)
    requires r < Sum(ws)
    ensures var i := PickIndex(ws, r);
            i < |ws| && Prefix(ws, i) <= r < Prefix(ws, i) + ws[i]
  {
    if ws[0] <= r {
      PickIndexInInterval(ws[1..], r - ws[0]);
      var i := PickIndex(ws[1..], r - ws[0]);
      assert ws[..i + 1][1..] == ws[1..][..i];
    }
  }

  lemma {:induction false} PrefixMonotone(ws: seq<nat>, i: nat, j: nat)
    requires i < j <= |ws|
    ensures Prefix(ws, i) + ws[i] <= Prefix(ws, j)
    decreases |ws|
  {
    if i == 0 {
      assert ws[..j][1..] == ws[1..][..j - 1];
    } else {
      PrefixMonotone(ws[1..], i - 1, j - 1);
      assert ws[..j][1..] == ws[1..][..j - 1] && ws[..i][1..] == ws[1..][..i - 1];
    }
  }

  /** Intervals are disjoint and cover everything below the sum. */
  lemma PickIndexIs(ws: seq<nat>, r: nat, i: nat)
    requires r < Sum(ws) && i < |ws|
    ensures PickIndex(ws, r) == i <==> Prefix(ws, i) <= r < Prefix(ws, i) + ws[i]
  {
    PickIndexInInterval(ws, r);
    var j := PickIndex(ws, r);
    if j < i {
      PrefixMonotone(ws, j, i);
    } else if i < j {
      PrefixMonotone(ws, i, j);
    }
  }

  lemma PrefixWithinSum(ws: seq<nat>, i: nat)
    requires i < |ws|
    ensures Prefix(ws, i) + ws[i] <= Sum(ws)
  {
    PrefixMonotone(ws, i, |ws|);
    assert ws[..|ws|] == ws;
  }

  // ---- Shares ----

  /** How many of the tickets start, start + 1, ... (len of them) go to candidate i. */
  function Picks(ws: seq<nat>, i: nat, start: nat, len: nat): nat
    requires 0 < Sum(ws)
  {
    if len == 0 then 0
    else Picks(ws, i, start, len - 1) + if PickIndex(ws, (start + len - 1) % Sum(ws)) == i then 1 else 0
  }

  function Part(r: nat, lo: nat, w: nat): nat {
    if r <= lo then 0 else if r < lo + w then r - lo else w
  }

  /** Candidate i's share of the first t tickets: whole turns and a part of the last. */
  function Share(ws: seq<nat>, i: nat, t: nat): nat
    requires 0 < Sum(ws) && i < |ws|
  {
    var q: nat, r: nat := t / Sum(ws), t % Sum(ws);
    q * ws[i] + Part(r, Prefix(ws, i), ws[i])
  }

  lemma DivModStep(t: nat, n: nat)
    requires 0 < n
    ensures t % n + 1 < n ==> (t + 1) / n == t / n && (t + 1) % n == t % n + 1
    ensures t % n + 1 == n ==> (t + 1) / n == t / n + 1 && (t + 1) % n == 0
  {
    var q, r := t / n, t % n;
    assert t == q * n + r;
    if r + 1 < n {
      DivModUnique(t + 1, n, q, r + 1);
    } else {
      assert t + 1 == (q + 1) * n;
      DivModUnique(t + 1, n, q + 1, 0);
    }
  }

  lemma DivModUnique(x: nat, n: nat, q: nat, r: nat)
    requires 0 < n && r < n && x == q * n + r
    ensures x / n == q && x % n == r
  {
    var d := x / n - q;
    assert x == (x / n) * n + x % n;
    assert d * n == r - x % n by {
      assert d * n == (x / n) * n - q * n;
    }
    assert d == 0;
  }

  lemma Distribute(a: nat, b: nat, c: nat)
    ensures (a + b) * c == a * c + b * c
  {
  }

  lemma OneTurnOn(t: nat, n: nat)
    requires 0 < n
    ensures (t + n) / n == t / n + 1 && (t + n) % n == t % n
  {
    var q, r := t / n, t % n;
    assert t == q * n + r;
    MulStep(q, n);
    DivModUnique(t + n, n, q + 1, r);
  }

  lemma MulStep(a: nat, b: nat)
    ensures (a + 1) * b == a * b + b
  {
  }

  lemma ShareIs(ws: seq<nat>, i: nat, t: nat, n: nat, q: nat, r: nat, lo: nat, w: nat)
    requires 0 < n == Sum(ws) && i < |ws| && q == t / n && r == t % n && lo == Prefix(ws, i) && w == ws[i]
    ensures Share(ws, i, t) == q * w + Part(r, lo, w)
  {
  }

  lemma PartStep(r: nat, lo: nat, w: nat, n: nat)
    requires r < n && lo + w <= n
    ensures Part(r + 1, lo, w) == Part(r, lo, w) + if lo <= r < lo + w then 1 else 0
    ensures r + 1 == n ==> w == Part(r, lo, w) + if lo <= r < lo + w then 1 else 0
  {
  }

  lemma ShareStep(ws: seq<nat>, i: nat, t: nat)
    requires 0 < Sum(ws) && i < |ws|
    ensures Share(ws, i, t + 1) == Share(ws, i, t) + if PickIndex(ws, t % Sum(ws)) == i then 1 else 0
  {
    var n, lo, w := Sum(ws), Prefix(ws, i), ws[i];
    var q, r := t / n, t % n;
    DivModStep(t, n);
    PickIndexIs(ws, r, i);
    PrefixWithinSum(ws, i);
    PartStep(r, lo, w, n);
    ShareIs(ws, i, t, n, q, r, lo, w);
    if r + 1 < n {
      ShareIs(ws, i, t + 1, n, q, r + 1, lo, w);
    } else {
      ShareIs(ws, i, t + 1, n, q + 1, 0, lo, w);
      MulStep(q, w);
    }
  }

  lemma {:induction false} PicksAreShares(ws: seq<nat>, i: nat, start: nat, len: nat)
    requires 0 < Sum(ws) && i < |ws|
    ensures Picks(ws, i, start, len) == Share(ws, i, start + len) - Share(ws, i, start)
  {
    if len != 0 {
      PicksAreShares(ws, i, start, len - 1);
      ShareStep(ws, i, start + len - 1);
    }
  }

  /** Over any block of consecutive tickets as long as the total weight, from any starting ticket,
      each candidate is chosen exactly its weight's worth of times. */
  lemma ExactShares(ws: seq<nat>, i: nat, start: nat)
    requires 0 < Sum(ws) && i < |ws|
    ensures Picks(ws, i, start, Sum(ws)) == ws[i]
  {
    var n := Sum(ws);
    PicksAreShares(ws, i, start, n);
    OneTurnOn(start, n);
    MulStep(start / n, ws[i]);
  }

  // ---- Shares against each other and in all ----

  lemma CrossParts(q: nat, a: nat, b: nat, x: nat, y: nat)
    requires x <= a && y <= b
    ensures -(a * b) <= (q * a + x) * b - (q * b + y) * a <= a * b
  {
    assert (q * a + x) * b - (q * b + y) * a == x * b - y * a by {
      assert (q * a + x) * b == q * a * b + x * b;
      assert (q * b + y) * a == q * a * b + y * a;
    }
    assert 0 <= x * b <= a * b;
    assert 0 <= y * a <= a * b;
  }

  /** Two shares are in proportion to their weights, to within one turn of each. */
  lemma CrossShares(ws: seq<nat>, i: nat, j: nat, t: nat)
    requires 0 < Sum(ws) && i < |ws| && j < |ws|
    ensures -(ws[i] * ws[j]) <= Share(ws, i, t) * ws[j] - Share(ws, j, t) * ws[i] <= ws[i] * ws[j]
  {
    var r := t % Sum(ws);
    CrossParts(t / Sum(ws), ws[i], ws[j], Part(r, Prefix(ws, i), ws[i]), Part(r, Prefix(ws, j), ws[j]));
  }

  lemma PositivePart(t: nat, n: nat, q: nat, r: nat, lo: nat, w: nat)
    requires t == q * n + r && r < n && lo + w <= n && 0 < w
    ensures 0 < q * w + Part(r, lo, w) <==> lo < t
  {
    if q == 0 {
      assert q * n == 0 && q * w == 0;
    } else {
      assert q * n >= n;
      assert q * w >= w;
    }
  }

  /** A candidate gets some of the first t tickets exactly when the weights before it leave room. */
  lemma SharePositive(ws: seq<nat>, i: nat, t: nat)
    requires 0 < Sum(ws) && i < |ws| && 0 < ws[i]
    ensures 0 < Share(ws, i, t) <==> Prefix(ws, i) < t
  {
    PrefixWithinSum(ws, i);
    DivMod(t, Sum(ws));
    PositivePart(t, Sum(ws), t / Sum(ws), t % Sum(ws), Prefix(ws, i), ws[i]);
  }

  lemma DivMod(t: nat, n: nat)
    requires 0 < n
    ensures t == (t / n) * n + t % n && t % n < n
  {
  }

  lemma {:induction false} PrefixStep(ws: seq<nat>, k: nat)
    requires 0 < k <= |ws|
    ensures Prefix(ws, k) == Prefix(ws, k - 1) + ws[k - 1]
    decreases k
  {
    if k == 1 {
      assert ws[..1] == [ws[0]] && ws[..1][1..] == [] && ws[..0] == [];
    } else {
      PrefixStep(ws[1..], k - 1);
      assert ws[..k][1..] == ws[1..][..k - 1] && ws[..k - 1][1..] == ws[1..][..k - 2];
    }
  }

  function SharesUpTo(ws: seq<nat>, k: nat, t: nat): nat
    requires 0 < Sum(ws) && k <= |ws|
  {
    if k == 0 then 0 else SharesUpTo(ws, k - 1, t) + Share(ws, k - 1, t)
  }

  function Min(a: nat, b: nat): nat {
    if a < b then a else b
  }

  lemma JoinParts(q: nat, r: nat, p: nat, w: nat, s: nat)
    requires s == p + w
    ensures (q * p + Min(r, p)) + (q * w + Part(r, p, w)) == q * s + Min(r, s)
  {
    assert q * s == q * p + q * w;
  }

  lemma {:induction false} SharesUpToIs(ws: seq<nat>, k: nat, t: nat, n: nat, q: nat, r: nat)
    requires 0 < n == Sum(ws) && k <= |ws| && q == t / n && r == t % n
    ensures SharesUpTo(ws, k, t) == q * Prefix(ws, k) + Min(r, Prefix(ws, k))
  {
    if k == 0 {
      assert Prefix(ws, 0) == 0 && q * 0 == 0;
    } else {
      var p, w := Prefix(ws, k - 1), ws[k - 1];
      SharesUpToIs(ws, k - 1, t, n, q, r);
      ShareIs(ws, k - 1, t, n, q, r, p, w);
      PrefixStep(ws, k);
      JoinParts(q, r, p, w, Prefix(ws, k));
    }
  }

  /** Every ticket goes to someone. */
  lemma SharesAddUp(ws: seq<nat>, t: nat)
    requires 0 < Sum(ws)
    ensures SharesUpTo(ws, |ws|, t) == t
  {
    SharesUpToIs(ws, |ws|, t, Sum(ws), t / Sum(ws), t % Sum(ws));
    assert ws[..|ws|] == ws;
    DivMod(t, Sum(ws));
  }
}
