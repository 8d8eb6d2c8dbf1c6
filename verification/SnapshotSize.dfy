/** How long a snapshot is once written out as JSON, a list of keys each with its list of second and count pairs, and
    that the estimate it was cut by covers that. */
module SnapshotSize {
  import opened Sums
  import opened Slots
  import opened Counters
  import opened Snapshots

  const U64: nat := 0x1_0000_0000_0000_0000

  /** One byte of a string: quotes and backslashes are escaped, control characters more or less shortly. */
  function ByteLength(c: char): (n: nat)
    ensures n <= 6
  {
    if c == '"' || c == '\\' then 2
    else if 32 as char <= c then 1
    else if c as int in {8, 9, 10, 12, 13} then 2
    else 6
  }

  function BytesLength(s: string): nat {
    if s == [] then 0 else BytesLength(s[..|s| - 1]) + ByteLength(s[|s| - 1])
  }

  /** Brackets, a comma and two numbers. */
  function PairLength(epoch: nat, count: nat): nat {
    |Decimal(epoch)| + |Decimal(count)| + 3
  }

  function PairLengths(cells: KeyCounts): map<Cell, nat> {
    map c | c in cells :: PairLength(c.epoch, cells[c])
  }

  function Commas(n: nat): nat {
    if n == 0 then 0 else n - 1
  }

  ghost function CellsLength(cells: KeyCounts): nat {
    2 + MapSum(PairLengths(cells)) + Commas(|cells|)
  }

  /** A quoted key and its cells, in brackets with a comma between. */
  ghost function ItemLength(item: Item): nat {
    3 + (2 + BytesLength(item.key)) + CellsLength(item.cells)
  }

  ghost function ItemsLength(out: seq<Item>): nat {
    if out == [] then 0 else ItemsLength(out[..|out| - 1]) + ItemLength(out[|out| - 1])
  }

  ghost function SnapshotLength(out: seq<Item>): nat {
    2 + ItemsLength(out) + Commas(|out|)
  }

  /** Seconds and counts are 64-bit words. */
  ghost predicate Words(out: seq<Item>) {
    forall i, c :: 0 <= i < |out| && c in out[i].cells ==> c.epoch < U64 && out[i].cells[c] < U64
  }

  // ---- The estimate covers it ----

  function Ten(k: nat): nat {
    if k == 0 then 1 else 10 * Ten(k - 1)
  }

  lemma {:induction false} DecimalLength(n: nat, k: nat)
    requires 0 < k && n < Ten(k)
    ensures |Decimal(n)| <= k
  {
    if 10 <= n {
      DecimalLength(n / 10, k - 1);
    }
  }

  lemma {:induction false} TenTimes(a: nat, b: nat)
    ensures Ten(a + b) == Ten(a) * Ten(b)
  {
    if a != 0 {
      TenTimes(a - 1, b);
    }
  }

  lemma WordLength(n: nat)
    requires n < U64
    ensures |Decimal(n)| <= 20
  {
    assert Ten(1) == 10 && Ten(2) == 100 && Ten(3) == 1000 && Ten(4) == 10000 && Ten(5) == 100000;
    TenTimes(5, 5);
    TenTimes(10, 10);
    DecimalLength(n, 20);
  }

  lemma {:induction false} BytesCovered(s: string)
    ensures BytesLength(s) <= 6 * |s|
  {
    if s != [] {
      BytesCovered(s[..|s| - 1]);
    }
  }

  lemma ItemCovered(item: Item)
    requires forall c :: c in item.cells ==> c.epoch < U64 && item.cells[c] < U64
    ensures ItemLength(item) + 9 <= EstimatedBytes(item.key, |item.cells|)
  {
    BytesCovered(item.key);
    var lengths := PairLengths(item.cells);
    forall c | c in lengths ensures lengths[c] <= 43 {
      WordLength(c.epoch);
      WordLength(item.cells[c]);
    }
    MapSumBound(lengths, 43);
    assert lengths.Keys == item.cells.Keys;
    assert |lengths| == |item.cells|;
  }

  lemma {:induction false} ItemsCovered(out: seq<Item>)
    requires Words(out)
    ensures ItemsLength(out) + 9 * |out| <= BytesOf(out)
  {
    if out != [] {
      var init := out[..|out| - 1];
      assert forall i :: 0 <= i < |init| ==> init[i] == out[i];
      ItemsCovered(init);
      ItemCovered(out[|out| - 1]);
    }
  }

  /** Written out, a snapshot of two keys or more is no longer than the byte cap it was taken under. */
  lemma SnapshotWithinBytes(s: Store, x: Round)
    requires x.keys == s.keys && Words(TakeSnapshot(s, x).out) && 2 <= |TakeSnapshot(s, x).out|
    ensures SnapshotLength(TakeSnapshot(s, x).out) <= x.maxBytes
  {
    SnapshotExact(s, x);
    ItemsCovered(TakeSnapshot(s, x).out);
  }
}
