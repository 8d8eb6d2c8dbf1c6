/** When a refreshed backend list counts as a change: sort both lists by id and compare them in step. With unique
    ids that is equality of the two lists as sets. */
module Membership {
  import opened Options
  import opened Ordering

  datatype Backend = Backend(id: string, address: string, weight: nat, serverName: Option<string>, priority: nat)

  function InsertById(b: Backend, s: seq<Backend>): seq<Backend> {
    if s == [] || StrLe(b.id, s[0].id) then [b] + s else [s[0]] + InsertById(b, s[1..])
  }

  function SortById(s: seq<Backend>): seq<Backend> {
    if s == [] then [] else InsertById(s[0], SortById(s[1..]))
  }

  predicate SetUnchanged(previous: seq<Backend>, backends: seq<Backend>) {
    |previous| == |backends| && SortById(previous) == SortById(backends)
  }

  ghost predicate DistinctIds(s: seq<Backend>) {
    forall i, j :: 0 <= i < j < |s| ==> s[i].id != s[j].id
  }

  ghost predicate Increasing(s: seq<Backend>) {
    forall i, j :: 0 <= i < j < |s| ==> StrLe(s[i].id, s[j].id) && s[i].id != s[j].id
  }

  lemma {:induction false} InsertKeeps(b: Backend, s: seq<Backend>)
    ensures forall x :: x in InsertById(b, s) <==> x == b || x in s
    ensures |InsertById(b, s)| == |s| + 1
  {
    if s != [] && !StrLe(b.id, s[0].id) {
      InsertKeeps(b, s[1..]);
      assert s == [s[0]] + s[1..];
    }
  }

  lemma {:induction false} SortKeeps(s: seq<Backend>)
    ensures forall x :: x in SortById(s) <==> x in s
    ensures |SortById(s)| == |s|
  {
    if s != [] {
      SortKeeps(s[1..]);
      InsertKeeps(s[0], SortById(s[1..]));
      assert s == [s[0]] + s[1..];
    }
  }

  lemma {:induction false} InsertIncreasing(b: Backend, s: seq<Backend>)
    requires Increasing(s) && forall x :: x in s ==> x.id != b.id
    ensures Increasing(InsertById(b, s))
  {
    if s == [] {
    } else if StrLe(b.id, s[0].id) {
      forall j | 0 <= j < |s| ensures StrLe(b.id, s[j].id) && b.id != s[j].id {
        assert s[j] in s;
        if j != 0 { StrLeTransitive(b.id, s[0].id, s[j].id); }
      }
    } else {
      StrLeTotal(b.id, s[0].id);
      InsertIncreasing(b, s[1..]);
      InsertKeeps(b, s[1..]);
      var rest := InsertById(b, s[1..]);
      forall j | 0 <= j < |rest| ensures StrLe(s[0].id, rest[j].id) && s[0].id != rest[j].id {
        assert rest[j] in rest;
        if rest[j] != b {
          var k :| 0 <= k < |s[1..]| && s[1..][k] == rest[j];
          assert s[k + 1] == rest[j];
        }
      }
    }
  }

  lemma {:induction false} SortIncreasing(s: seq<Backend>)
    requires DistinctIds(s)
    ensures Increasing(SortById(s))
  {
    if s != [] {
      SortIncreasing(s[1..]);
      SortKeeps(s[1..]);
      forall x | x in SortById(s[1..]) ensures x.id != s[0].id {
        var k :| 0 <= k < |s[1..]| && s[1..][k] == x;
        assert s[k + 1] == x;
      }
      InsertIncreasing(s[0], SortById(s[1..]));
    }
  }

  lemma HeadIsLeast(a: seq<Backend>, x: Backend)
    requires Increasing(a) && x in a
    ensures StrLe(a[0].id, x.id)
  {
    var i :| 0 <= i < |a| && a[i] == x;
    StrLeTotal(x.id, x.id);
  }

  lemma TailIs(a: seq<Backend>, x: Backend)
    requires Increasing(a) && a != []
    ensures x in a[1..] <==> x in a && x != a[0]
  {
    assert a == [a[0]] + a[1..];
    if x in a[1..] {
      var i :| 0 <= i < |a[1..]| && a[1..][i] == x;
      assert a[i + 1] == x;
    }
  }

  /** Two increasing lists with the same members are the same list. */
  lemma {:induction false} IncreasingUnique(a: seq<Backend>, b: seq<Backend>)
    requires Increasing(a) && Increasing(b) && forall x :: x in a <==> x in b
    ensures a == b
    decreases |a|
  {
    assert b != [] ==> b[0] in b;
    if a != [] {
      assert a[0] in a;
      HeadIsLeast(a, b[0]);
      HeadIsLeast(b, a[0]);
      StrLeAntisymmetric(a[0].id, b[0].id);
      var k :| 0 <= k < |b| && b[k] == a[0];
      assert k == 0;
      forall x ensures x in a[1..] <==> x in b[1..] {
        TailIs(a, x);
        TailIs(b, x);
      }
      IncreasingUnique(a[1..], b[1..]);
      assert a == [a[0]] + a[1..] && b == [b[0]] + b[1..];
    }
  }

  function AsSet(s: seq<Backend>): set<Backend> {
    set x | x in s
  }

  /** The lists compare equal exactly when they hold the same backends, in whatever order. */
  lemma SetUnchangedExactly(previous: seq<Backend>, backends: seq<Backend>)
    requires DistinctIds(previous) && DistinctIds(backends)
    ensures SetUnchanged(previous, backends) <==> AsSet(previous) == AsSet(backends)
  {
    SortKeeps(previous);
    SortKeeps(backends);
    SortIncreasing(previous);
    SortIncreasing(backends);
    if SetUnchanged(previous, backends) {
      assert forall x :: x in previous <==> x in backends;
    }
    if AsSet(previous) == AsSet(backends) {
      forall x ensures x in SortById(previous) <==> x in SortById(backends) {
        assert x in AsSet(previous) <==> x in previous;
        assert x in AsSet(backends) <==> x in backends;
      }
      IncreasingUnique(SortById(previous), SortById(backends));
    }
  }
}
