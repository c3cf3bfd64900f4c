/**
 * The string operations of Python's `str` that the ledger relies on:
 * `strip()`, `lower()`, `startswith`, the `in` substring test and the
 * code-point ordering that `sorted` uses.
 */
module Text {

  /**
   * The ASCII characters `str.isspace()` accepts, which `str.strip()`
   * removes: the space, tab, line feed, vertical tab, form feed, carriage
   * return and the four information separators 0x1C to 0x1F.
   */
  predicate IsSpace(c: char)
  {
    c == ' ' || '\t' <= c <= '\r' || '\U{1C}' <= c <= '\U{1F}'
  }

  /**
   * The characters C's `isspace` accepts, the only ones `int()` and
   * `float()` skip around a number: the space, tab, line feed, vertical tab,
   * form feed and carriage return.
   */
  predicate IsCSpace(c: char)
  {
    c == ' ' || '\t' <= c <= '\r'
  }

  /** Which whitespace a strip removes: that of `str.strip()` or that of the number parsers. */
  datatype Blanks = StrBlanks | NumberBlanks

  predicate IsBlank(b: Blanks, c: char)
  {
    match b
    case StrBlanks => IsSpace(c)
    case NumberBlanks => IsCSpace(c)
  }

  /** The number of leading whitespace characters. */
  function LeadingSpaces(s: string, b: Blanks): (n: nat)
    ensures n <= |s|
    ensures forall k :: 0 <= k < n ==> IsBlank(b, s[k])
    ensures n == |s| || !IsBlank(b, s[n])
    decreases |s|
  {
    if s != [] && IsBlank(b, s[0]) then
      var n := LeadingSpaces(s[1..], b);
      assert forall k :: 1 <= k < n + 1 ==> s[k] == s[1..][k - 1];
      n + 1
    else 0
  }

  /** The length of `s` without its trailing whitespace. */
  function TrailingStart(s: string, b: Blanks): (n: nat)
    ensures n <= |s|
    ensures forall k :: n <= k < |s| ==> IsBlank(b, s[k])
    ensures n == 0 || !IsBlank(b, s[n - 1])
    decreases |s|
  {
    if s != [] && IsBlank(b, s[|s| - 1]) then TrailingStart(s[..|s| - 1], b) else |s|
  }

  /** The string without leading and trailing whitespace of the given kind. */
  function StripBlanks(s: string, b: Blanks): (r: string)
    ensures |r| <= |s|
    ensures r == [] || (!IsBlank(b, r[0]) && !IsBlank(b, r[|r| - 1]))
  {
    var t := s[LeadingSpaces(s, b)..];
    t[..TrailingStart(t, b)]
  }

  /** Python's `s.strip()`. */
  function Strip(s: string): (r: string)
    ensures |r| <= |s|
    ensures r == [] || (!IsSpace(r[0]) && !IsSpace(r[|r| - 1]))
  {
    StripBlanks(s, StrBlanks)
  }

  /**
   * Stripping removes whitespace at both ends and nothing else: the result
   * is the slice of `s` between a run of leading and a run of trailing
   * whitespace.
   */
  lemma StripIsSlice(s: string, b: Blanks) returns (i: nat, j: nat)
    ensures i <= j <= |s| && StripBlanks(s, b) == s[i..j]
    ensures forall k :: 0 <= k < i ==> IsBlank(b, s[k])
    ensures forall k :: j <= k < |s| ==> IsBlank(b, s[k])
  {
    i := LeadingSpaces(s, b);
    var t := s[i..];
    j := i + TrailingStart(t, b);
    assert forall k :: j <= k < |s| ==> s[k] == t[k - i];
  }

  /** A string that starts and ends with a non-space character is its own strip. */
  lemma StripKeeps(s: string, b: Blanks)
    requires s == [] || (!IsBlank(b, s[0]) && !IsBlank(b, s[|s| - 1]))
    ensures StripBlanks(s, b) == s
  {
  }

  /** Stripping twice strips nothing more. */
  lemma StripIdempotent(s: string, b: Blanks)
    ensures StripBlanks(StripBlanks(s, b), b) == StripBlanks(s, b)
  {
    StripKeeps(StripBlanks(s, b), b);
  }

  /**
   * The two strips differ on the information separators: `str.strip()`
   * removes 0x1C around a digit, while `int()` and `float()` keep it and
   * so reject the text.
   */
  lemma SeparatorIsNoNumberBlank()
    ensures Strip("\U{1C}5") == "5"
    ensures StripBlanks("\U{1C}5", NumberBlanks) == "\U{1C}5"
  {
    assert LeadingSpaces("\U{1C}5"[1..], StrBlanks) == 0;
  }

  /** `str.lower()` on one character; only ASCII letters are folded. */
  function LowerChar(c: char): (r: char)
  {
    if 'A' <= c <= 'Z' then (c as int + 32) as char else c
  }

  /** `str.lower()`, folding the ASCII letters. */
  function Lower(s: string): (r: string)
    ensures |r| == |s|
    ensures forall i :: 0 <= i < |s| ==> r[i] == LowerChar(s[i])
  {
    seq(|s|, i requires 0 <= i < |s| => LowerChar(s[i]))
  }

  /** Python's `p in s` for strings: `p` occurs somewhere in `s`. */
  predicate IsSubstring(p: string, s: string)
    decreases |s|
  {
    p <= s || (s != [] && IsSubstring(p, s[1..]))
  }

  /** `p` occurs in `s` starting at index `i`. */
  predicate OccursAt(p: string, s: string, i: int)
  {
    0 <= i <= |s| - |p| && s[i..i + |p|] == p
  }

  /** A substring test that succeeds names a position where `p` occurs. */
  lemma {:induction false} SubstringOccurs(p: string, s: string) returns (i: int)
    requires IsSubstring(p, s)
    ensures OccursAt(p, s, i)
    decreases |s|
  {
    if p <= s {
      i := 0;
    } else {
      var j := SubstringOccurs(p, s[1..]);
      assert s[1..][j..j + |p|] == s[j + 1..j + 1 + |p|];
      i := j + 1;
    }
  }

  /** Wherever `p` occurs in `s`, the substring test succeeds. */
  lemma {:induction false} OccursInSubstring(p: string, s: string, i: int)
    requires OccursAt(p, s, i)
    ensures IsSubstring(p, s)
    decreases i
  {
    if i == 0 {
      assert s[..|p|] == p;
    } else {
      assert s[1..][i - 1..i - 1 + |p|] == s[i..i + |p|];
      OccursInSubstring(p, s[1..], i - 1);
    }
  }

  /** The substring test finds exactly the occurrences of `p` in `s`. */
  lemma IsSubstringIff(p: string, s: string)
    ensures IsSubstring(p, s) <==> exists i :: OccursAt(p, s, i)
  {
    if IsSubstring(p, s) {
      var i := SubstringOccurs(p, s);
    }
    if exists i :: OccursAt(p, s, i) {
      var i :| OccursAt(p, s, i);
      OccursInSubstring(p, s, i);
    }
  }

  /** Python's `a < b` on strings: lexicographic by code point, a proper prefix first. */
  predicate StrLt(a: string, b: string)
    decreases |a|
  {
    if a == [] then b != []
    else if b == [] then false
    else if a[0] != b[0] then a[0] < b[0]
    else StrLt(a[1..], b[1..])
  }

  lemma {:induction false} StrLtIrreflexive(a: string)
    ensures !StrLt(a, a)
    decreases |a|
  {
    if a != [] {
      StrLtIrreflexive(a[1..]);
    }
  }

  lemma {:induction false} StrLtTransitive(a: string, b: string, c: string)
    requires StrLt(a, b) && StrLt(b, c)
    ensures StrLt(a, c)
    decreases |a|
  {
    if a != [] && b != [] && c != [] && a[0] == b[0] && b[0] == c[0] {
      StrLtTransitive(a[1..], b[1..], c[1..]);
    }
  }

  /** Any two different strings are ordered one way round. */
  lemma {:induction false} StrLtTotal(a: string, b: string)
    requires a != b
    ensures StrLt(a, b) || StrLt(b, a)
    decreases |a|
  {
    if a != [] && b != [] && a[0] == b[0] {
      assert a == [a[0]] + a[1..] && b == [b[0]] + b[1..];
      StrLtTotal(a[1..], b[1..]);
    }
  }

  lemma {:induction false} StrLtAsymmetric(a: string, b: string)
    requires StrLt(a, b)
    ensures !StrLt(b, a)
  {
    if StrLt(b, a) {
      StrLtTransitive(a, b, a);
      StrLtIrreflexive(a);
    }
  }

  /** Python's ordering of `(name, id)` tuples: by name, then by id. */
  predicate PairLt(p: (string, string), q: (string, string))
  {
    StrLt(p.0, q.0) || (p.0 == q.0 && StrLt(p.1, q.1))
  }

  lemma PairLtIrreflexive(p: (string, string))
    ensures !PairLt(p, p)
  {
    StrLtIrreflexive(p.0);
    StrLtIrreflexive(p.1);
  }

  lemma PairLtTransitive(p: (string, string), q: (string, string), r: (string, string))
    requires PairLt(p, q) && PairLt(q, r)
    ensures PairLt(p, r)
  {
    if StrLt(p.0, q.0) && StrLt(q.0, r.0) {
      StrLtTransitive(p.0, q.0, r.0);
    } else if StrLt(p.0, q.0) {
    } else if StrLt(q.0, r.0) {
    } else {
      StrLtTransitive(p.1, q.1, r.1);
    }
  }

  lemma PairLtTotal(p: (string, string), q: (string, string))
    requires p != q
    ensures PairLt(p, q) || PairLt(q, p)
  {
    if p.0 != q.0 {
      StrLtTotal(p.0, q.0);
    } else {
      StrLtTotal(p.1, q.1);
    }
  }
}
