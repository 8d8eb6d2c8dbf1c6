/** Byte-wise string order and the sorted enumeration of a finite set of strings. */
module Ordering {

  predicate StrLe(a: string, b: string) {
    a == [] || (b != [] && (a[0] < b[0] || (a[0] == b[0] && StrLe(a[1..], b[1..]))))
  }

  lemma {:induction false} StrLeTotal(a: string, b: string)
    ensures StrLe(a, b) || StrLe(b, a)
  {
    if a != [] && b != [] && a[0] == b[0] {
      StrLeTotal(a[1..], b[1..]);
    }
  }

  lemma {:induction false} StrLeAntisymmetric(a: string, b: string)
    requires StrLe(a, b) && StrLe(b, a)
    ensures a == b
  {
    if a != [] && b != [] {
      StrLeAntisymmetric(a[1..], b[1..]);
      assert a == [a[0]] + a[1..] && b == [b[0]] + b[1..];
    }
  }

  lemma {:induction false} StrLeTransitive(a: string, b: string, c: string)
    requires StrLe(a, b) && StrLe(b, c)
    ensures StrLe(a, c)
  {
    if a != [] && a[0] == b[0] && b[0] == c[0] {
      StrLeTransitive(a[1..], b[1..], c[1..]);
    }
  }

  ghost predicate IsLeast(m: string, s: set<string>) {
    m in s && forall x :: x in s ==> StrLe(m, x)
  }

  lemma IsLeastUnique(m: string, n: string, s: set<string>)
    requires IsLeast(m, s) && IsLeast(n, s)
    ensures m == n
  {
    StrLeAntisymmetric(m, n);
  }

  lemma IsLeastExtend(m: string, s: set<string>, k: string) returns (n: string)
    requires IsLeast(m, s)
    ensures IsLeast(n, s + {k})
  {
    StrLeTotal(k, m);
    StrLeTotal(k, k);
    if StrLe(k, m) {
      n := k;
      forall x | x in s ensures StrLe(k, x) {
        StrLeTransitive(k, m, x);
      }
    } else {
      n := m;
    }
  }

  lemma {:induction false} LeastExists(s: set<string>) returns (m: string)
    requires s != {}
    ensures IsLeast(m, s)
    decreases |s|
  {
    var k :| k in s;
    StrLeTotal(k, k);
    if s == {k} {
      m := k;
    } else {
      var m' := LeastExists(s - {k});
      m := IsLeastExtend(m', s - {k}, k);
      assert s - {k} + {k} == s;
    }
  }

  lemma SomeLeast(s: set<string>)
    requires s != {}
    ensures exists m :: IsLeast(m, s)
  {
    var m := LeastExists(s);
  }

  /** The elements of s in increasing order. */
  ghost function SortedSeq(s: set<string>): (q: seq<string>)
    decreases |s|
  {
    if s == {} then [] else
      SomeLeast(s);
      var m :| IsLeast(m, s);
      [m] + SortedSeq(s - {m})
  }

  lemma SortedSeqFirst(s: set<string>, m: string)
    requires IsLeast(m, s)
    ensures SortedSeq(s) == [m] + SortedSeq(s - {m})
  {
    var n :| IsLeast(n, s) && SortedSeq(s) == [n] + SortedSeq(s - {n});
    IsLeastUnique(m, n, s);
  }

  /** SortedSeq lists each element of s once, in strictly increasing order. */
  lemma {:induction false} SortedSeqCorrect(s: set<string>)
    ensures |SortedSeq(s)| == |s|
    ensures forall x :: x in SortedSeq(s) <==> x in s
    ensures forall i, j :: 0 <= i < j < |s| ==>
              SortedSeq(s)[i] != SortedSeq(s)[j] && StrLe(SortedSeq(s)[i], SortedSeq(s)[j])
    decreases |s|
  {
    if s != {} {
      var m := LeastExists(s);
      SortedSeqFirst(s, m);
      SortedSeqCorrect(s - {m});
      var rest := SortedSeq(s - {m});
      forall j | 0 <= j < |rest| ensures rest[j] != m && StrLe(m, rest[j]) {
        assert rest[j] in rest;
      }
    }
  }

  method FindLeast(s: set<string>) returns (m: string)
    requires s != {}
    ensures IsLeast(m, s)
  {
    m :| m in s;
    StrLeTotal(m, m);
    var todo := s - {m};
    while todo != {}
      invariant todo <= s
      invariant IsLeast(m, s - todo)
      decreases |todo|
    {
      var x :| x in todo;
      ghost var seen := s - todo;
      StrLeTotal(x, x);
      StrLeTotal(x, m);
      if StrLe(x, m) {
        forall y | y in seen ensures StrLe(x, y) {
          StrLeTransitive(x, m, y);
        }
        m := x;
      }
      todo := todo - {x};
      assert s - todo == seen + {x};
    }
    assert s - todo == s;
  }

  /** `sort_unstable` on a vector of distinct strings. */
  method SortStrings(s: set<string>) returns (q: seq<string>)
    ensures q == SortedSeq(s)
  {
    q := [];
    var todo := s;
    while todo != {}
      invariant SortedSeq(s) == q + SortedSeq(todo)
      decreases |todo|
    {
      var m := FindLeast(todo);
      SortedSeqFirst(todo, m);
      q := q + [m];
      todo := todo - {m};
    }
  }
}
