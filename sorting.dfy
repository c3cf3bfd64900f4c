/**
 * Python's `sorted` on the sets the store collects: distinct month texts
 * and distinct `(name, id)` pairs, ordered by code point.
 */
module Sorting {
  import opened Text

  /** `m` comes before every other member of `s`. */
  predicate IsLeast(m: string, s: set<string>)
  {
    m in s && forall y :: y in s && y != m ==> StrLt(m, y)
  }

  predicate StrictlyAscending(r: seq<string>)
  {
    forall i, j :: 0 <= i < j < |r| ==> StrLt(r[i], r[j])
  }

  /** Every non-empty set of strings has a least member, and only one. */
  lemma {:induction false} LeastExists(s: set<string>)
    requires s != {}
    ensures exists m :: IsLeast(m, s)
    ensures forall m, n :: IsLeast(m, s) && IsLeast(n, s) ==> m == n
    decreases |s|
  {
    var x :| x in s;
    if s != {x} {
      var rest := s - {x};
      LeastExists(rest);
      var m :| IsLeast(m, rest);
      if StrLt(x, m) {
        forall y | y in s && y != x
          ensures StrLt(x, y)
        {
          if y != m {
            StrLtTransitive(x, m, y);
          }
        }
        assert IsLeast(x, s);
      } else {
        StrLtTotal(x, m);
        assert IsLeast(m, s);
      }
    } else {
      assert IsLeast(x, s);
    }
    forall m, n | IsLeast(m, s) && IsLeast(n, s)
      ensures m == n
    {
      if m != n {
        StrLtAsymmetric(m, n);
      }
    }
  }

  /** `sorted(s)`: the members of `s`, each once, in ascending order. */
  function SortStrings(s: set<string>): (r: seq<string>)
    ensures StrictlyAscending(r)
    ensures forall x :: x in r <==> x in s
    ensures |r| == |s|
    decreases |s|
  {
    if s == {} then []
    else
      LeastExists(s);
      var m :| IsLeast(m, s);
      var rest := SortStrings(s - {m});
      assert forall j :: 0 <= j < |rest| ==> rest[j] in s - {m};
      [m] + rest
  }

  /** `p` comes before every other member of `s`. */
  predicate IsLeastPair(p: (string, string), s: set<(string, string)>)
  {
    p in s && forall q :: q in s && q != p ==> PairLt(p, q)
  }

  predicate StrictlyAscendingPairs(r: seq<(string, string)>)
  {
    forall i, j :: 0 <= i < j < |r| ==> PairLt(r[i], r[j])
  }

  /** Every non-empty set of pairs has a least member, and only one. */
  lemma {:induction false} LeastPairExists(s: set<(string, string)>)
    requires s != {}
    ensures exists p :: IsLeastPair(p, s)
    ensures forall p, q :: IsLeastPair(p, s) && IsLeastPair(q, s) ==> p == q
    decreases |s|
  {
    var x :| x in s;
    if s != {x} {
      var rest := s - {x};
      LeastPairExists(rest);
      var m :| IsLeastPair(m, rest);
      if PairLt(x, m) {
        forall y | y in s && y != x
          ensures PairLt(x, y)
        {
          if y != m {
            PairLtTransitive(x, m, y);
          }
        }
        assert IsLeastPair(x, s);
      } else {
        PairLtTotal(x, m);
        assert IsLeastPair(m, s);
      }
    } else {
      assert IsLeastPair(x, s);
    }
    forall p, q | IsLeastPair(p, s) && IsLeastPair(q, s)
      ensures p == q
    {
      if p != q {
        PairLtTransitive(p, q, p);
        PairLtIrreflexive(p);
      }
    }
  }

  /** `sorted(s)` on `(name, id)` pairs: each once, by name and then by id. */
  function SortPairs(s: set<(string, string)>): (r: seq<(string, string)>)
    ensures StrictlyAscendingPairs(r)
    ensures forall x :: x in r <==> x in s
    ensures |r| == |s|
    decreases |s|
  {
    if s == {} then []
    else
      LeastPairExists(s);
      var m :| IsLeastPair(m, s);
      var rest := SortPairs(s - {m});
      assert forall j :: 0 <= j < |rest| ==> rest[j] in s - {m};
      [m] + rest
  }
}
