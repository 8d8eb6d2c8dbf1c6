/** The round-robin balancers: a shared cursor hands out tickets, and a ticket modulo the total weight falls into one
    candidate's interval. The cursor is a machine word and wraps. */
module RoundRobins {
  import opened Options
  import opened Candidates
  import opened Rotation

  const MAX_WEIGHT: nat := 1000

  /** One past the largest cursor. */
  const WORD: nat := 0x1_0000_0000_0000_0000

  function Kept(eligible: seq<Member>, excluded: set<string>): seq<Member> {
    if eligible == [] then []
    else
      var init, last := Kept(eligible[..|eligible| - 1], excluded), eligible[|eligible| - 1];
      if last.id in excluded then init else init + [Member(last.id, Capped(last.weight, MAX_WEIGHT))]
  }

  function Weights(members: seq<Member>): seq<nat> {
    seq(|members|, i requires 0 <= i < |members| => members[i].weight)
  }

  /** Who a ticket goes to. */
  function Weighted(members: seq<Member>, ticket: nat): Option<string> {
    var ws := Weights(members);
    if Sum(ws) == 0 then None
    else
      PickIndexInInterval(ws, ticket % Sum(ws));
      Some(members[PickIndex(ws, ticket % Sum(ws))].id)
  }

  function Plain(members: seq<Member>, ticket: nat): Option<string> {
    if members == [] then None else Some(members[ticket % |members|].id)
  }

  function Next(cursor: nat): nat {
    (cursor + 1) % WORD
  }

  class WeightedRoundRobin {
    var cursor: nat

    constructor ()
      ensures cursor == 0
    {
      cursor := 0;
    }

    /** Takes a ticket when any weight is left, and walks the weights down to its interval. */
    method PickExcluding(eligible: seq<Member>, excluded: set<string>) returns (picked: Option<string>)
      modifies this
      ensures picked == Weighted(Kept(eligible, excluded), old(cursor))
      ensures picked == None <==> forall m <- eligible :: m.id in excluded || m.weight == 0
      ensures cursor == if picked == None then old(cursor) else Next(old(cursor))
    {
      var weighted := KeepWeighted(eligible, excluded);
      var total := Sum(Weights(weighted));
      NoneExactly(eligible, excluded);
      if total == 0 {
        return None;
      }
      var ticket := cursor;
      cursor := Next(cursor);
      var i := Walk(Weights(weighted), ticket % total);
      picked := Some(weighted[i].id);
    }
  }

  method KeepWeighted(eligible: seq<Member>, excluded: set<string>) returns (weighted: seq<Member>)
    ensures weighted == Kept(eligible, excluded)
  {
    weighted := [];
    for i := 0 to |eligible|
      invariant weighted == Kept(eligible[..i], excluded)
    {
      assert eligible[..i + 1][..i] == eligible[..i];
      if eligible[i].id !in excluded {
        weighted := weighted + [Member(eligible[i].id, Capped(eligible[i].weight, MAX_WEIGHT))];
      }
    }
    assert eligible[..|eligible|] == eligible;
  }

  /** The loop that takes weights off the remainder; it always stops inside an interval. */
  method Walk(ws: seq<nat>, ticket: nat) returns (i: nat)
    requires ticket < Sum(ws)
    ensures i < |ws| && i == PickIndex(ws, ticket) && Prefix(ws, i) <= ticket < Prefix(ws, i) + ws[i]
  {
    PickIndexInInterval(ws, ticket);
    var remaining := ticket;
    i := 0;
    assert ws[0..] == ws;
    while ws[i] <= remaining
      invariant i < |ws| && 0 <= remaining < Sum(ws[i..])
      invariant PickIndex(ws, ticket) == i + PickIndex(ws[i..], remaining)
      decreases |ws| - i
    {
      PickIndexInInterval(ws[i..], remaining);
      assert ws[i..][1..] == ws[i + 1..];
      remaining := remaining - ws[i];
      i := i + 1;
    }
  }

  class RoundRobin {
    var cursor: nat

    constructor ()
      ensures cursor == 0
    {
      cursor := 0;
    }

    method PickExcluding(eligible: seq<Member>, excluded: set<string>) returns (picked: Option<string>)
      modifies this
      ensures picked == Plain(Kept(eligible, excluded), old(cursor))
      ensures cursor == if picked == None then old(cursor) else Next(old(cursor))
    {
      var kept := KeepWeighted(eligible, excluded);
      if kept == [] {
        return None;
      }
      var ticket := cursor;
      cursor := Next(cursor);
      picked := Some(kept[ticket % |kept|].id);
    }
  }

  // ---- When nobody is picked ----

  lemma {:induction false} SumSnoc(ws: seq<nat>, w: nat)
    ensures Sum(ws + [w]) == Sum(ws) + w
  {
    if ws != [] {
      assert (ws + [w])[1..] == ws[1..] + [w];
      SumSnoc(ws[1..], w);
    }
  }

  lemma WeightsSnoc(members: seq<Member>, m: Member)
    ensures Weights(members + [m]) == Weights(members) + [m.weight]
  {
  }

  /** Nobody is picked exactly when every eligible backend is excluded or drained by weight 0. */
  lemma {:induction false} NoneExactly(eligible: seq<Member>, excluded: set<string>)
    ensures Sum(Weights(Kept(eligible, excluded))) == 0 <==>
            forall m <- eligible :: m.id in excluded || m.weight == 0
  {
    if eligible != [] {
      var init, last := eligible[..|eligible| - 1], eligible[|eligible| - 1];
      NoneExactly(init, excluded);
      assert eligible == init + [last];
      if last.id !in excluded {
        var m := Member(last.id, Capped(last.weight, MAX_WEIGHT));
        WeightsSnoc(Kept(init, excluded), m);
        SumSnoc(Weights(Kept(init, excluded)), m.weight);
      }
    }
  }

  // ---- All weights one ----

  predicate AllOnes(ws: seq<nat>) {
    forall i :: 0 <= i < |ws| ==> ws[i] == 1
  }

  lemma {:induction false} OnesSum(ws: seq<nat>)
    requires AllOnes(ws)
    ensures Sum(ws) == |ws|
  {
    if ws != [] {
      OnesSum(ws[1..]);
    }
  }

  lemma OnesPick(ws: seq<nat>, r: nat)
    requires AllOnes(ws) && r < |ws|
    ensures Sum(ws) == |ws| && PickIndex(ws, r) == r
  {
    OnesSum(ws);
    OnesSum(ws[..r]);
    PickIndexIs(ws, r, r);
  }

  /** With every weight one, the weighted balancer picks as the plain one, ticket by ticket. */
  lemma OnesPickPlainly(members: seq<Member>, ticket: nat)
    requires AllOnes(Weights(members))
    ensures Weighted(members, ticket) == Plain(members, ticket)
  {
    OnesSum(Weights(members));
    if members != [] {
      OnesPick(Weights(members), ticket % |members|);
    }
  }

  // ---- Shares when the cursor wraps ----

  function CursorAfter(cursor: nat, picks: nat): nat {
    if picks == 0 then cursor else Next(CursorAfter(cursor, picks - 1))
  }

  /** The k-th pick on from a cursor draws this ticket. */
  lemma {:induction false} TicketOf(cursor: nat, k: nat)
    requires cursor < WORD
    ensures CursorAfter(cursor, k) == (cursor + k) % WORD
  {
    if k != 0 {
      TicketOf(cursor, k - 1);
      DivModStep(cursor + k - 1, WORD);
    }
  }

  /** How many of `len` tickets drawn from a cursor at `start` go to candidate i. */
  function WordPicks(ws: seq<nat>, i: nat, start: nat, len: nat): nat
    requires 0 < Sum(ws)
  {
    if len == 0 then 0
    else WordPicks(ws, i, start, len - 1) + if PickIndex(ws, ((start + len - 1) % WORD) % Sum(ws)) == i then 1 else 0
  }

  lemma SmallModWord(t: nat)
    ensures t < WORD ==> t % WORD == t
    ensures WORD <= t < 2 * WORD ==> t % WORD == t - WORD
  {
  }

  lemma {:induction false} WordPicksBefore(ws: seq<nat>, i: nat, start: nat, len: nat)
    requires 0 < Sum(ws) && start + len <= WORD
    ensures WordPicks(ws, i, start, len) == Picks(ws, i, start, len)
  {
    if len != 0 {
      WordPicksBefore(ws, i, start, len - 1);
      SmallModWord(start + len - 1);
    }
  }

  lemma {:induction false} WordPicksAcross(ws: seq<nat>, i: nat, start: nat, len: nat)
    requires 0 < Sum(ws) && start < WORD < start + len <= 2 * WORD
    ensures WordPicks(ws, i, start, len) == Picks(ws, i, start, WORD - start) + Picks(ws, i, 0, start + len - WORD)
    decreases len
  {
    SmallModWord(start + len - 1);
    if start + len - 1 == WORD {
      WordPicksBefore(ws, i, start, len - 1);
      assert Picks(ws, i, 0, 0) == 0;
    } else {
      WordPicksAcross(ws, i, start, len - 1);
    }
  }

  /** Over a block as long as the total weight, what the wrap adds to a candidate's exact share: its share of the
      tickets after the wrap, less its share of those the block would have had. */
  lemma AcrossTheWrap(ws: seq<nat>, i: nat, start: nat)
    requires 0 < Sum(ws) && i < |ws| && start < WORD < start + Sum(ws) <= 2 * WORD
    ensures var past := start + Sum(ws) - WORD;
            WordPicks(ws, i, start, Sum(ws)) ==
            ws[i] + Share(ws, i, past) - (Share(ws, i, WORD + past) - Share(ws, i, WORD))
  {
    var n, past := Sum(ws), start + Sum(ws) - WORD;
    WordPicksAcross(ws, i, start, n);
    PicksAreShares(ws, i, start, WORD - start);
    PicksAreShares(ws, i, 0, past);
    PicksAreShares(ws, i, start, n);
    ExactShares(ws, i, start);
    ShareOfNothing(ws, i);
  }

  lemma ShareOfNothing(ws: seq<nat>, i: nat)
    requires 0 < Sum(ws) && i < |ws|
    ensures Share(ws, i, 0) == 0
  {
    DivModUnique(0, Sum(ws), 0, 0);
  }

  /** Whole turns shift shares by whole weights. */
  lemma ShareAfterTurns(ws: seq<nat>, i: nat, q: nat, t: nat)
    requires 0 < Sum(ws) && i < |ws|
    ensures Share(ws, i, q * Sum(ws) + t) == q * ws[i] + Share(ws, i, t)
  {
    var n := Sum(ws);
    DivMod(t, n);
    TurnsOn(q, t, n);
    Distribute(q, t / n, ws[i]);
  }

  lemma TurnsOn(q: nat, t: nat, n: nat)
    requires 0 < n
    ensures (q * n + t) / n == q + t / n && (q * n + t) % n == t % n
  {
    DivMod(t, n);
    Distribute(q, t / n, n);
    DivModUnique(q * n + t, n, q + t / n, t % n);
  }

  /** Shares are exact from any cursor whose block does not wrap, and from every cursor when the total weight divides
      the word. */
  lemma ExactWordShares(ws: seq<nat>, i: nat, start: nat)
    requires 0 < Sum(ws) <= WORD && i < |ws| && start < WORD
    requires start + Sum(ws) <= WORD || WORD % Sum(ws) == 0
    ensures WordPicks(ws, i, start, Sum(ws)) == ws[i]
  {
    if start + Sum(ws) <= WORD {
      WordPicksBefore(ws, i, start, Sum(ws));
      ExactShares(ws, i, start);
    } else {
      var past, q := start + Sum(ws) - WORD, WORD / Sum(ws);
      AcrossTheWrap(ws, i, start);
      DivMod(WORD, Sum(ws));
      ShareAfterTurns(ws, i, q, past);
      ShareAfterTurns(ws, i, q, 0);
      ShareOfNothing(ws, i);
    }
  }

  // ---- Exactly when a block is fair ----

  lemma ShareWithinTurn(ws: seq<nat>, i: nat, t: nat)
    requires i < |ws| && t < Sum(ws)
    ensures Share(ws, i, t) == Part(t, Prefix(ws, i), ws[i])
  {
    DivModUnique(t, Sum(ws), 0, t);
  }

  /** Candidate [lo, lo + w) loses and gains equally where a wrap cuts one turn of n at `left` and starts another that
      runs to `past`. */
  predicate Even(left: nat, past: nat, n: nat, lo: nat, w: nat) {
    Part(left, lo, w) + Part(past, lo, w) ==
    if left + past < n then Part(left + past, lo, w) else w + Part(left + past - n, lo, w)
  }

  lemma ShareFromTurn(ws: seq<nat>, i: nat, t: nat)
    requires i < |ws| && Sum(ws) <= t < 2 * Sum(ws)
    ensures Share(ws, i, t) == ws[i] + Part(t - Sum(ws), Prefix(ws, i), ws[i])
  {
    ShareAfterTurns(ws, i, 1, t - Sum(ws));
    ShareWithinTurn(ws, i, t - Sum(ws));
  }

  /** The word's whole turns cancel. */
  lemma WholeTurnsCancel(ws: seq<nat>, i: nat, past: nat)
    requires 0 < Sum(ws) && i < |ws|
    ensures var left := WORD % Sum(ws);
            Share(ws, i, WORD + past) - Share(ws, i, WORD) == Share(ws, i, left + past) - Share(ws, i, left)
  {
    var q, left := WORD / Sum(ws), WORD % Sum(ws);
    DivMod(WORD, Sum(ws));
    ShareAfterTurns(ws, i, q, left);
    ShareAfterTurns(ws, i, q, left + past);
  }

  lemma EvenShares(ws: seq<nat>, i: nat, left: nat, past: nat)
    requires i < |ws| && left < Sum(ws) && past < Sum(ws)
    ensures Share(ws, i, left) + Share(ws, i, past) == Share(ws, i, left + past) <==>
            Even(left, past, Sum(ws), Prefix(ws, i), ws[i])
  {
    ShareWithinTurn(ws, i, left);
    ShareWithinTurn(ws, i, past);
    if left + past < Sum(ws) {
      ShareWithinTurn(ws, i, left + past);
    } else {
      ShareFromTurn(ws, i, left + past);
    }
  }

  lemma EvenAcross(ws: seq<nat>, i: nat, start: nat, left: nat, past: nat)
    requires 0 < Sum(ws) <= WORD && i < |ws| && start < WORD < start + Sum(ws)
    requires left == WORD % Sum(ws) && past == start + Sum(ws) - WORD
    ensures WordPicks(ws, i, start, Sum(ws)) == ws[i] <==> Even(left, past, Sum(ws), Prefix(ws, i), ws[i])
  {
    AcrossTheWrap(ws, i, start);
    WholeTurnsCancel(ws, i, past);
    EvenShares(ws, i, left, past);
  }

  /** What a wrap does to the first and the last interval of a turn, and to those between. */
  lemma EvenFirst(left: nat, past: nat, n: nat, w: nat)
    requires 0 < left && 0 < past && 0 < w && left + past < n
    ensures Even(left, past, n, 0, w) <==> left + past <= w
  {
  }

  lemma EvenLast(left: nat, past: nat, n: nat, lo: nat)
    requires left < n && past < n && lo < n <= left + past
    ensures Even(left, past, n, lo, n - lo) <==> lo <= left && lo + n <= left + past
  {
  }

  lemma EvenBehind(left: nat, past: nat, n: nat, lo: nat, w: nat)
    requires left + past <= lo && lo + w <= n
    ensures Even(left, past, n, lo, w)
  {
  }

  lemma EvenAhead(left: nat, past: nat, n: nat, end: nat, lo: nat, w: nat)
    requires lo + w <= end <= left < n && past < n && end + n <= left + past
    ensures Even(left, past, n, lo, w)
  {
  }

  /** The first and the last candidate of positive weight. */
  function FirstOf(ws: seq<nat>): nat
    requires 0 < Sum(ws)
  {
    PickIndex(ws, 0)
  }

  function LastOf(ws: seq<nat>): nat
    requires 0 < Sum(ws)
  {
    PickIndex(ws, Sum(ws) - 1)
  }

  lemma FirstInterval(ws: seq<nat>, i: nat)
    requires 0 < Sum(ws) && i < |ws|
    ensures var first := FirstOf(ws);
            && first < |ws| && Prefix(ws, first) == 0 && 0 < ws[first]
            && (i == first || ws[i] == 0 || ws[first] <= Prefix(ws, i))
  {
    var first := FirstOf(ws);
    PickIndexInInterval(ws, 0);
    if i < first {
      PrefixMonotone(ws, i, first);
    } else if first < i {
      PrefixMonotone(ws, first, i);
    }
  }

  lemma LastInterval(ws: seq<nat>, i: nat)
    requires 0 < Sum(ws) && i < |ws|
    ensures var last := LastOf(ws);
            && last < |ws| && 0 < ws[last] && Prefix(ws, last) + ws[last] == Sum(ws)
            && (i == last || ws[i] == 0 || Prefix(ws, i) + ws[i] <= Prefix(ws, last))
  {
    var last := LastOf(ws);
    PickIndexInInterval(ws, Sum(ws) - 1);
    PrefixWithinSum(ws, last);
    PrefixWithinSum(ws, i);
    if i < last {
      PrefixMonotone(ws, i, last);
    } else if last < i {
      PrefixMonotone(ws, last, i);
    }
  }

  /** The tickets lost and gained at the wrap all fall to the first candidate. */
  predicate WithinFirst(ws: seq<nat>, left: nat, past: nat)
    requires 0 < Sum(ws)
  {
    FirstInterval(ws, 0);
    left + past <= ws[FirstOf(ws)]
  }

  /** They all fall to the last candidate. */
  predicate WithinLast(ws: seq<nat>, left: nat, past: nat)
    requires 0 < Sum(ws)
  {
    LastInterval(ws, 0);
    var lo := Prefix(ws, LastOf(ws));
    lo <= left && lo + Sum(ws) <= left + past
  }

  lemma EvenWithinFirst(ws: seq<nat>, i: nat, left: nat, past: nat)
    requires 0 < Sum(ws) && i < |ws| && WithinFirst(ws, left, past)
    ensures Even(left, past, Sum(ws), Prefix(ws, i), ws[i])
  {
    FirstInterval(ws, i);
    PrefixWithinSum(ws, i);
    if i != FirstOf(ws) && ws[i] != 0 {
      EvenBehind(left, past, Sum(ws), Prefix(ws, i), ws[i]);
    }
  }

  lemma EvenWithinLast(ws: seq<nat>, i: nat, left: nat, past: nat)
    requires 0 < Sum(ws) && i < |ws| && left < Sum(ws) && past < Sum(ws) && WithinLast(ws, left, past)
    ensures Even(left, past, Sum(ws), Prefix(ws, i), ws[i])
  {
    LastInterval(ws, i);
    if i == LastOf(ws) {
      EvenLast(left, past, Sum(ws), Prefix(ws, i));
    } else if ws[i] != 0 {
      EvenAhead(left, past, Sum(ws), Prefix(ws, LastOf(ws)), Prefix(ws, i), ws[i]);
    }
  }

  /** Some candidate, the first or the last, is treated unevenly otherwise. */
  lemma UnevenOtherwise(ws: seq<nat>, left: nat, past: nat) returns (i: nat)
    requires 0 < left < Sum(ws) && 0 < past < Sum(ws) && !WithinFirst(ws, left, past) && !WithinLast(ws, left, past)
    ensures i < |ws| && !Even(left, past, Sum(ws), Prefix(ws, i), ws[i])
  {
    FirstInterval(ws, 0);
    LastInterval(ws, 0);
    if left + past < Sum(ws) {
      i := FirstOf(ws);
      EvenFirst(left, past, Sum(ws), ws[i]);
    } else {
      i := LastOf(ws);
      EvenLast(left, past, Sum(ws), Prefix(ws, i));
    }
  }

  /** A block as long as the total weight gives every candidate exactly its weight. */
  ghost predicate Fair(ws: seq<nat>, start: nat)
    requires 0 < Sum(ws)
  {
    forall i :: 0 <= i < |ws| ==> WordPicks(ws, i, start, Sum(ws)) == ws[i]
  }

  predicate WrapsEvenly(ws: seq<nat>, left: nat, past: nat)
    requires 0 < Sum(ws)
  {
    left == 0 || WithinFirst(ws, left, past) || WithinLast(ws, left, past)
  }

  /** For all weights and every cursor: a block is fair if and only if it does not wrap, or the total weight divides the
      word, or what the wrap cuts off and repeats stays within the first candidate's tickets or within the last's. */
  lemma FairExactly(ws: seq<nat>, start: nat)
    requires 0 < Sum(ws) <= WORD && start < WORD
    ensures Fair(ws, start) <==>
            start + Sum(ws) <= WORD || WrapsEvenly(ws, WORD % Sum(ws), start + Sum(ws) - WORD)
  {
    var left := WORD % Sum(ws);
    if start + Sum(ws) <= WORD || left == 0 {
      forall i | 0 <= i < |ws| ensures WordPicks(ws, i, start, Sum(ws)) == ws[i] {
        ExactWordShares(ws, i, start);
      }
    } else {
      FairAcross(ws, start);
    }
  }

  lemma FairAcross(ws: seq<nat>, start: nat)
    requires 0 < Sum(ws) <= WORD && start < WORD < start + Sum(ws) && WORD % Sum(ws) != 0
    ensures var left, past := WORD % Sum(ws), start + Sum(ws) - WORD;
            Fair(ws, start) <==> WithinFirst(ws, left, past) || WithinLast(ws, left, past)
  {
    var left, past := WORD % Sum(ws), start + Sum(ws) - WORD;
    DivMod(WORD, Sum(ws));
    if WithinFirst(ws, left, past) || WithinLast(ws, left, past) {
      forall i | 0 <= i < |ws| ensures WordPicks(ws, i, start, Sum(ws)) == ws[i] {
        EvenAcross(ws, i, start, left, past);
        if WithinFirst(ws, left, past) {
          EvenWithinFirst(ws, i, left, past);
        } else {
          EvenWithinLast(ws, i, left, past);
        }
      }
    } else {
      var i := UnevenOtherwise(ws, left, past);
      EvenAcross(ws, i, start, left, past);
    }
  }

  // ---- All weights one, and two small cases ----

  lemma OnesPrefix(ws: seq<nat>, i: nat)
    requires AllOnes(ws) && i < |ws|
    ensures Prefix(ws, i) == i && Sum(ws) == |ws|
  {
    OnesSum(ws[..i]);
    OnesSum(ws);
  }

  lemma OnesWrapEvenly(ws: seq<nat>, left: nat, past: nat)
    requires AllOnes(ws) && left < |ws| && 0 < past < |ws|
    ensures Sum(ws) == |ws| && (WrapsEvenly(ws, left, past) <==> left == 0)
  {
    OnesSum(ws);
    FirstInterval(ws, 0);
    LastInterval(ws, 0);
    OnesPrefix(ws, LastOf(ws));
  }

  lemma OnesFair(ws: seq<nat>, start: nat)
    requires AllOnes(ws) && 0 < |ws| && Sum(ws) == |ws|
    ensures Fair(ws, start) <==> forall i :: 0 <= i < |ws| ==> WordPicks(ws, i, start, |ws|) == 1
  {
    if Fair(ws, start) {
      forall i | 0 <= i < |ws| ensures WordPicks(ws, i, start, |ws|) == 1 {
        assert WordPicks(ws, i, start, Sum(ws)) == ws[i];
      }
    } else {
      var i :| 0 <= i < |ws| && WordPicks(ws, i, start, Sum(ws)) != ws[i];
      assert WordPicks(ws, i, start, |ws|) != 1;
    }
  }

  lemma OnesFairAt(ws: seq<nat>, start: nat, left: nat)
    requires AllOnes(ws) && 0 < Sum(ws) == |ws| <= WORD && start < WORD && left == WORD % Sum(ws)
    ensures Fair(ws, start) <==> start + |ws| <= WORD || left == 0
  {
    FairExactly(ws, start);
    DivMod(WORD, Sum(ws));
    if WORD < start + |ws| {
      OnesWrapEvenly(ws, left, start + |ws| - WORD);
    }
  }

  /** With all weights one only the first two ways are left. */
  lemma OnesFairExactly(ws: seq<nat>, start: nat)
    requires AllOnes(ws) && 0 < |ws| <= WORD && start < WORD
    ensures Sum(ws) == |ws|
    ensures (forall i :: 0 <= i < |ws| ==> WordPicks(ws, i, start, |ws|) == 1) <==>
            start + |ws| <= WORD || WORD % |ws| == 0
  {
    OnesSum(ws);
    OnesFair(ws, start);
    OnesFairAt(ws, start, WORD % |ws|);
  }

  lemma PairSums(a: nat, b: nat)
    ensures Sum([a, b]) == a + b && Prefix([a, b], 0) == 0 && Prefix([a, b], 1) == a
  {
    assert [a, b][1..] == [b] && [a, b][..1] == [a] && [a, b][..0] == [];
    assert Sum([a]) == a && Sum([b]) == b;
  }

  /** Weights 1 and 2, a cursor about to wrap: the first is picked twice in three tickets, although the number of
      candidates divides the word. */
  lemma WeightedWrapIsUnfair()
    ensures WORD % |[1, 2]| == 0 && Sum([1, 2]) == 3 && WordPicks([1, 2], 0, WORD - 1, 3) == 2
  {
    var ws := [1, 2];
    PairSums(1, 2);
    PickIndexIs(ws, 0, 0);
    PickIndexIs(ws, 1, 0);
    SmallModWord(WORD - 1);
    SmallModWord(WORD);
    SmallModWord(WORD + 1);
    assert (WORD - 1) % 3 == 0;
    assert WordPicks(ws, 0, WORD - 1, 0) == 0;
    assert WordPicks(ws, 0, WORD - 1, 1) == 1;
    assert WordPicks(ws, 0, WORD - 1, 2) == 2;
  }

  /** Weights 3 and 2, one ticket past the wrap: fair, although the total does not divide the word. */
  lemma UnevenTotalCanBeFair()
    ensures Sum([3, 2]) == 5 && WORD % 5 == 1 && Fair([3, 2], WORD - 4)
  {
    PairSums(3, 2);
    PickIndexIs([3, 2], 0, 0);
    FairExactly([3, 2], WORD - 4);
  }

  /** Three backends and a cursor about to wrap: the first is picked twice in three tickets. */
  lemma WrapIsUnfair()
    ensures Sum([1, 1, 1]) == 3 && WordPicks([1, 1, 1], 0, WORD - 1, 3) == 2
  {
    var ws := [1, 1, 1];
    OnesSum(ws);
    OnesPick(ws, 0);
    OnesPick(ws, 1);
    SmallModWord(WORD - 1);
    SmallModWord(WORD);
    SmallModWord(WORD + 1);
    assert (WORD - 1) % 3 == 0;
    assert WordPicks(ws, 0, WORD - 1, 0) == 0;
    assert WordPicks(ws, 0, WORD - 1, 1) == 1;
    assert WordPicks(ws, 0, WORD - 1, 2) == 2;
  }

  // ---- On the balancers' own inputs ----

  ghost predicate DistinctIds(eligible: seq<Member>) {
    forall i, j :: 0 <= i < j < |eligible| ==> eligible[i].id != eligible[j].id
  }

  /** The capped weights of the backends a pick may choose from. */
  function TotalWeight(eligible: seq<Member>, excluded: set<string>): nat {
    if eligible == [] then 0
    else
      var last := eligible[|eligible| - 1];
      TotalWeight(eligible[..|eligible| - 1], excluded) +
      if last.id in excluded then 0 else Capped(last.weight, MAX_WEIGHT)
  }

  /** How many of `len` picks in a row, from a cursor, go to a backend. */
  function PicksOf(eligible: seq<Member>, excluded: set<string>, id: string, cursor: nat, len: nat): nat {
    if len == 0 then 0
    else
      var picked := Weighted(Kept(eligible, excluded), CursorAfter(cursor, len - 1));
      PicksOf(eligible, excluded, id, cursor, len - 1) + if picked == Some(id) then 1 else 0
  }

  lemma {:induction false} KeptTotal(eligible: seq<Member>, excluded: set<string>)
    ensures Sum(Weights(Kept(eligible, excluded))) == TotalWeight(eligible, excluded)
  {
    if eligible != [] {
      var init, last := eligible[..|eligible| - 1], eligible[|eligible| - 1];
      KeptTotal(init, excluded);
      if last.id !in excluded {
        var m := Member(last.id, Capped(last.weight, MAX_WEIGHT));
        WeightsSnoc(Kept(init, excluded), m);
        SumSnoc(Weights(Kept(init, excluded)), m.weight);
      }
    }
  }

  /** The kept are the eligible that are not excluded, each once, with its capped weight. */
  lemma {:induction false} KeptAre(eligible: seq<Member>, excluded: set<string>)
    requires DistinctIds(eligible)
    ensures DistinctIds(Kept(eligible, excluded))
    ensures forall m :: m in eligible && m.id !in excluded ==>
              Member(m.id, Capped(m.weight, MAX_WEIGHT)) in Kept(eligible, excluded)
    ensures forall k :: k in Kept(eligible, excluded) ==>
              k.id !in excluded && exists m :: m in eligible && m.id == k.id
  {
    if eligible != [] {
      var init, last := eligible[..|eligible| - 1], eligible[|eligible| - 1];
      KeptAre(init, excluded);
      assert eligible == init + [last];
      forall k | k in Kept(init, excluded) ensures k.id != last.id {
        var m :| m in init && m.id == k.id;
      }
    }
  }

  lemma WeightedIs(kept: seq<Member>, i: nat, ticket: nat)
    requires DistinctIds(kept) && i < |kept| && 0 < Sum(Weights(kept))
    ensures Weighted(kept, ticket) == Some(kept[i].id) <==> PickIndex(Weights(kept), ticket % Sum(Weights(kept))) == i
  {
    PickIndexInInterval(Weights(kept), ticket % Sum(Weights(kept)));
  }

  lemma {:induction false} PicksAreWordPicks(
      eligible: seq<Member>, excluded: set<string>, i: nat, cursor: nat, len: nat)
    requires var kept := Kept(eligible, excluded);
             DistinctIds(kept) && i < |kept| && 0 < Sum(Weights(kept)) && cursor < WORD
    ensures var kept := Kept(eligible, excluded);
            PicksOf(eligible, excluded, kept[i].id, cursor, len) == WordPicks(Weights(kept), i, cursor, len)
  {
    if len != 0 {
      var kept := Kept(eligible, excluded);
      PicksAreWordPicks(eligible, excluded, i, cursor, len - 1);
      TicketOf(cursor, len - 1);
      WeightedIs(kept, i, (cursor + len - 1) % WORD);
    }
  }

  lemma {:induction false} NeverPicked(eligible: seq<Member>, excluded: set<string>, id: string, cursor: nat, len: nat)
    requires forall k :: k in Kept(eligible, excluded) ==> k.id != id
    ensures PicksOf(eligible, excluded, id, cursor, len) == 0
  {
    if len != 0 {
      NeverPicked(eligible, excluded, id, cursor, len - 1);
      var kept, ticket := Kept(eligible, excluded), CursorAfter(cursor, len - 1);
      if Sum(Weights(kept)) != 0 {
        PickIndexInInterval(Weights(kept), ticket % Sum(Weights(kept)));
        assert kept[PickIndex(Weights(kept), ticket % Sum(Weights(kept)))] in kept;
      }
    }
  }

  /** As many picks in a row as the eligible, not excluded backends weigh together give each of them its weight, capped
      at a thousand, and the excluded none, from any cursor that does not wrap or if that weight divides the word. */
  lemma BlockShares(eligible: seq<Member>, excluded: set<string>, m: Member, cursor: nat)
    requires DistinctIds(eligible) && m in eligible && cursor < WORD
    requires var total := TotalWeight(eligible, excluded);
             0 < total <= WORD && (cursor + total <= WORD || WORD % total == 0)
    ensures PicksOf(eligible, excluded, m.id, cursor, TotalWeight(eligible, excluded)) ==
            if m.id in excluded then 0 else Capped(m.weight, MAX_WEIGHT)
  {
    KeptAre(eligible, excluded);
    KeptTotal(eligible, excluded);
    var kept, total := Kept(eligible, excluded), TotalWeight(eligible, excluded);
    if m.id in excluded {
      NeverPicked(eligible, excluded, m.id, cursor, total);
    } else {
      var i :| 0 <= i < |kept| && kept[i] == Member(m.id, Capped(m.weight, MAX_WEIGHT));
      PicksAreWordPicks(eligible, excluded, i, cursor, total);
      ExactWordShares(Weights(kept), i, cursor);
    }
  }

  /** The plain balancer goes through the kept backends one after the other. */
  lemma PlainInTurn(eligible: seq<Member>, excluded: set<string>, cursor: nat, k: nat)
    requires Kept(eligible, excluded) != [] && cursor + k < WORD
    ensures var kept := Kept(eligible, excluded);
            Plain(kept, CursorAfter(cursor, k)) == Some(kept[(cursor + k) % |kept|].id)
  {
    TicketOf(cursor, k);
    SmallModWord(cursor + k);
  }
}
