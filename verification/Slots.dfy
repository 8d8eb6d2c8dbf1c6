/** How the cluster names things: the slot a boot's counts are filed under, the
    listener-qualified key, and the shared key for newcomers past the key cap.
    A string is the sequence of its UTF-8 bytes. */
module Slots {

  const NUL: char := 0 as char
  const SEP: char := 1 as char

  function Digit(d: nat): char
    requires d < 10
  {
    (48 + d) as char
  }

  function Decimal(n: nat): string {
    if n < 10 then [Digit(n)] else Decimal(n / 10) + [Digit(n % 10)]
  }

  /** Reads back a numeral written by Decimal. */
  function Value(s: string): int {
    if s == [] then 0 else 10 * Value(s[..|s| - 1]) + (s[|s| - 1] as int - 48)
  }

  lemma {:induction false} DecimalRoundTrip(n: nat)
    ensures Decimal(n) != [] && Value(Decimal(n)) == n
  {
    if n < 10 {
      assert Decimal(n)[..0] == [];
    } else {
      DecimalRoundTrip(n / 10);
      assert Decimal(n)[..|Decimal(n)| - 1] == Decimal(n / 10);
    }
  }

  /** The slot a peer's counts are stored under. Incarnation 0 is a peer that predates incarnations. */
  function NodeSlot(id: string, incarnation: nat): string {
    if incarnation == 0 then id else id + [NUL] + Decimal(incarnation)
  }

  /** Two boots share a slot only if they are the same boot of the same node. */
  lemma NodeSlotInjective(a: string, i: nat, b: string, j: nat)
    requires NUL !in a && NUL !in b
    requires NodeSlot(a, i) == NodeSlot(b, j)
    ensures a == b && i == j
  {
    var s := NodeSlot(a, i);
    if i != 0 {
      assert s[|a|] == NUL && s[..|a|] == a && s[|a| + 1..] == Decimal(i);
    }
    if j != 0 {
      assert s[|b|] == NUL && s[..|b|] == b && s[|b| + 1..] == Decimal(j);
    }
    if i != 0 && j != 0 {
      assert |a| == |b|;
      DecimalRoundTrip(i);
      DecimalRoundTrip(j);
    }
  }

  /** The bytes of a key before its first separator. */
  function ListenerOf(key: string): string {
    if key == [] || key[0] == SEP then [] else [key[0]] + ListenerOf(key[1..])
  }

  function Namespaced(listener: string, key: string): string {
    listener + [SEP] + key
  }

  const OVERFLOW: string := [NUL] + "overflow"

  function OverflowKey(key: string): string {
    Namespaced(ListenerOf(key), OVERFLOW)
  }

  lemma {:induction false} ListenerOfNamespaced(listener: string, key: string)
    requires SEP !in listener
    ensures ListenerOf(Namespaced(listener, key)) == listener
  {
    var s := Namespaced(listener, key);
    if listener != [] {
      ListenerOfNamespaced(listener[1..], key);
      assert s[1..] == Namespaced(listener[1..], key);
    }
  }

  lemma {:induction false} ListenerOfHasNoSeparator(key: string)
    ensures SEP !in ListenerOf(key)
  {
    if key != [] && key[0] != SEP {
      ListenerOfHasNoSeparator(key[1..]);
    }
  }

  /** Listeners have separate budgets: a stored key names its listener and client key. */
  lemma NamespacedInjective(l1: string, k1: string, l2: string, k2: string)
    requires SEP !in l1 && SEP !in l2
    requires Namespaced(l1, k1) == Namespaced(l2, k2)
    ensures l1 == l2 && k1 == k2
  {
    ListenerOfNamespaced(l1, k1);
    ListenerOfNamespaced(l2, k2);
    assert Namespaced(l1, k1)[|l1| + 1..] == k1;
    assert Namespaced(l2, k2)[|l2| + 1..] == k2;
  }

  /** Newcomers past the key cap share a budget with newcomers of the same listener and nobody else. */
  lemma OverflowKeyStaysInListener(key: string)
    ensures ListenerOf(OverflowKey(key)) == ListenerOf(key)
  {
    ListenerOfHasNoSeparator(key);
    ListenerOfNamespaced(ListenerOf(key), OVERFLOW);
  }

  /** There is one overflow key for each listener. */
  lemma OverflowPerListener(a: string, b: string)
    ensures OverflowKey(a) == OverflowKey(b) <==> ListenerOf(a) == ListenerOf(b)
  {
    OverflowKeyStaysInListener(a);
    OverflowKeyStaysInListener(b);
  }
}
