/** How fixed patterns can overlap in a text, and what a splice can create. */
module Patterns {
  import opened Text

  /** Laying `b` over `a` at offset `d` puts two different characters on one position. */
  ghost predicate Clash(a: string, b: string, d: int) {
    exists k: nat :: k < |b| && 0 <= k + d < |a| && a[k + d] != b[k]
  }

  /** No text holds overlapping occurrences of `a` and `b`. */
  ghost predicate NoOverlap(a: string, b: string) { forall d: int | -|b| < d < |a| :: Clash(a, b, d) }

  /** No text holds overlapping occurrences of `a` at two different positions. */
  ghost predicate NoSelfOverlap(a: string) { forall d: int | 0 < d < |a| :: Clash(a, a, d) }

  predicate Has(s: string, c: char) { exists k | 0 <= k < |s| :: s[k] == c }

  /** One character of an occurrence. */
  lemma CharAt(s: string, w: string, i: nat, k: nat)
    requires OccursAt(s, w, i) && k < |w|
    ensures i + k < |s| && s[i + k] == w[k]
  {}

  /** A pattern whose first character is not in a text does not occur in it. */
  lemma ForeignHeadDoesNotOccur(u: string, w: string, i: nat)
    requires w != [] && !Has(u, w[0])
    ensures !OccursAt(u, w, i)
  {
    hide OccursAt, Has;
    if OccursAt(u, w, i) { HeadOccurs(u, w, i); }
  }

  lemma HeadOccurs(u: string, w: string, i: nat)
    requires w != [] && OccursAt(u, w, i)
    ensures Has(u, w[0])
  {
    CharAt(u, w, i, 0);
  }

  lemma ForeignHeadsDoNotOverlap(a: string, b: string)
    requires a != [] && b != [] && !Has(a, b[0]) && !Has(b, a[0])
    ensures NoOverlap(a, b)
  {
    forall d: int | -|b| < d < |a| ensures Clash(a, b, d) {
      var k: nat := if d >= 0 then 0 else -d;
      assert a[k + d] != b[k];
    }
  }

  lemma UniqueHeadDoesNotSelfOverlap(a: string)
    requires a != [] && !Has(a[1..], a[0])
    ensures NoSelfOverlap(a)
  {
    forall d: int | 0 < d < |a| ensures Clash(a, a, d) {
      assert a[1..][d - 1] == a[d];
      assert a[0 + d] != a[0];
    }
  }

  lemma ClashIsImpossible(s: string, a: string, i: nat, b: string, j: nat)
    requires OccursAt(s, a, i) && OccursAt(s, b, j)
    ensures !Clash(a, b, j - i)
  {
    forall k: nat | k < |b| && 0 <= k + (j - i) < |a| ensures a[k + (j - i)] == b[k] {
      assert s[j + k] == b[k] && s[i + (k + (j - i))] == a[k + (j - i)];
    }
  }

  /** Occurrences of patterns that cannot overlap lie apart. */
  lemma OccurrencesApart(s: string, a: string, i: nat, b: string, j: nat)
    requires NoOverlap(a, b) && OccursAt(s, a, i) && OccursAt(s, b, j)
    ensures i + |a| <= j || j + |b| <= i
  {
    ClashIsImpossible(s, a, i, b, j);
  }

  lemma SelfOccurrencesApart(s: string, w: string, p: nat, i: nat)
    requires NoSelfOverlap(w) && OccursAt(s, w, p) && OccursAt(s, w, i) && p <= i < p + |w|
    ensures p == i
  {
    ClashIsImpossible(s, w, p, w, i);
  }

  lemma MatchIsAnElement(ps: seq<nat>, k: nat)
    requires k < |ps|
    ensures ps[k] in ps
  {}

  /** When a pattern cannot overlap itself, the non-overlapping scan misses nothing. */
  lemma FindAllIsExact(s: string, w: string)
    requires w != [] && NoSelfOverlap(w)
    ensures forall i: nat :: i in FindAll(s, w, 0) <==> OccursAt(s, w, i)
  {
    hide OccursAt, NoSelfOverlap, FindAll;
    FindAllSound(s, w, 0);
    forall i: nat | OccursAt(s, w, i) ensures i in FindAll(s, w, 0) {
      FindAllCovers(s, w, 0, i);
      var ps := FindAll(s, w, 0);
      var k: nat :| k < |ps| && ps[k] <= i < ps[k] + |w|;
      SelfOccurrencesApart(s, w, ps[k], i);
      MatchIsAnElement(ps, k);
    }
  }

  /** Around a pattern `m` that `w` cannot overlap, every `w` lies on one side. */
  lemma SpliceOccurrences(a: string, m: string, b: string, w: string, i: nat)
    requires NoOverlap(w, m)
    ensures OccursAt(a + m + b, w, i) <==>
            (i + |w| <= |a| && OccursAt(a, w, i)) || (|a + m| <= i && OccursAt(b, w, i - |a + m|))
  {
    var s := a + m + b;
    assert forall k | 0 <= k < |a| :: s[k] == a[k];
    assert forall k | 0 <= k < |m| :: s[|a| + k] == m[k];
    assert forall k | 0 <= k < |b| :: s[|a + m| + k] == b[k];
    assert OccursAt(s, m, |a|);
    if OccursAt(s, w, i) {
      OccurrencesApart(s, w, i, m, |a|);
      if |a + m| <= i {
        forall k | 0 <= k < |w| ensures b[i - |a + m| + k] == w[k] {
          assert s[i + k] == w[k];
        }
      }
    }
    if |a + m| <= i && OccursAt(b, w, i - |a + m|) {
      forall k | 0 <= k < |w| ensures s[i + k] == w[k] {
        assert b[i - |a + m| + k] == w[k];
      }
    }
  }

  // ----- Counting places

  /** How many of the positions from `lo` up to `hi` satisfy `p`. */
  function Tally(p: nat -> bool, lo: nat, hi: nat): nat
    decreases hi
  {
    if hi <= lo then 0 else Tally(p, lo, hi - 1) + (if p(hi - 1) then 1 else 0)
  }

  lemma {:induction false} TallySame(p: nat -> bool, q: nat -> bool, lo: nat, hi: nat, d: nat)
    requires forall i: nat | lo <= i < hi :: p(i) == q(d + i)
    ensures Tally(p, lo, hi) == Tally(q, d + lo, d + hi)
    decreases hi
  {
    if lo < hi { TallySame(p, q, lo, hi - 1, d); }
  }

  lemma {:induction false} TallySplits(p: nat -> bool, lo: nat, mid: nat, hi: nat)
    requires lo <= mid <= hi
    ensures Tally(p, lo, hi) == Tally(p, lo, mid) + Tally(p, mid, hi)
    decreases hi
  {
    if mid < hi { TallySplits(p, lo, mid, hi - 1); }
  }

  lemma {:induction false} TallyNone(p: nat -> bool, lo: nat, hi: nat)
    requires forall i: nat | lo <= i < hi :: !p(i)
    ensures Tally(p, lo, hi) == 0
    decreases hi
  {
    if lo < hi { TallyNone(p, lo, hi - 1); }
  }

  /** What holds of places in a splice adds up from its parts. */
  lemma TallySplice(p: nat -> bool, front: nat -> bool, back: nat -> bool, m: nat, n: nat, len: nat)
    requires m <= n
    requires forall i: nat | i < m :: p(i) == front(i)
    requires forall i: nat | m <= i < n :: !p(i)
    requires forall i: nat | i < len :: p(n + i) == back(i)
    ensures Tally(p, 0, n + len) == Tally(front, 0, m) + Tally(back, 0, len)
  {
    hide Tally;
    TallySplits(p, 0, m, n + len);
    TallySplits(p, m, n, n + len);
    TallySame(p, front, 0, m, 0);
    TallyNone(p, m, n);
    TallySame(back, p, 0, len, n);
  }

  function Occurs(s: string, w: string): nat -> bool { (i: nat) => OccursAt(s, w, i) }

  /** How many occurrences of `w` a text holds, overlapping ones included. */
  function OccurrenceCount(s: string, w: string): nat { Tally(Occurs(s, w), 0, |s|) }

  /** A splice that `w` cannot overlap neither adds nor loses an occurrence. */
  lemma SpliceCount(a: string, m: string, b: string, w: string)
    requires NoOverlap(w, m) && w != []
    ensures OccurrenceCount(a + m + b, w) == OccurrenceCount(a, w) + OccurrenceCount(b, w)
  {
    hide NoOverlap, OccursAt;
    var s, n := a + m + b, |a + m|;
    var p, front, back := Occurs(s, w), Occurs(a, w), Occurs(b, w);
    forall i: nat ensures p(i) <==> (i + |w| <= |a| && front(i)) || (n <= i && back(i - n)) {
      SpliceOccurrences(a, m, b, w, i);
    }
    forall i: nat | front(i) ensures i + |w| <= |a| { OccurrenceFits(a, w, i); }
    assert |s| == n + |b|;
    TallySplice(p, front, back, |a|, n, |b|);
  }

  lemma SpliceContains(a: string, m: string, b: string, w: string)
    requires NoOverlap(w, m)
    ensures Contains(a + m + b, w) <==> Contains(a, w) || Contains(b, w)
  {
    hide OccursAt, NoOverlap;
    if Contains(a + m + b, w) {
      var i: nat :| i <= |a + m + b| && OccursAt(a + m + b, w, i);
      SpliceOccurrences(a, m, b, w, i);
      OccursInside(a, m, b, w, i);
    }
    if Contains(a, w) {
      var i: nat :| i <= |a| && OccursAt(a, w, i);
      OccurrenceFits(a, w, i);
      SpliceOccurrences(a, m, b, w, i);
    }
    if Contains(b, w) {
      var i: nat :| i <= |b| && OccursAt(b, w, i);
      SpliceOccurrences(a, m, b, w, i + |a + m|);
      assert i + |a + m| <= |a + m + b|;
    }
  }

  lemma OccursInside(a: string, m: string, b: string, w: string, i: nat)
    requires (i + |w| <= |a| && OccursAt(a, w, i)) || (|a + m| <= i && OccursAt(b, w, i - |a + m|))
    ensures Contains(a, w) || Contains(b, w)
  {
    if !(i + |w| <= |a| && OccursAt(a, w, i)) {
      OccurrenceFits(b, w, i - |a + m|);
    }
  }

  lemma UpperConcat(a: string, b: string)
    ensures Upper(a + b) == Upper(a) + Upper(b)
  {}

  lemma UpperSlice(s: string, i: nat, j: nat)
    requires i <= j <= |s|
    ensures Upper(s[i..j]) == Upper(s)[i..j]
  {}

  lemma OccurrenceIsSlice(s: string, w: string, i: nat)
    requires OccursAt(s, w, i)
    ensures i + |w| <= |s| && s[i..i + |w|] == w
  {
    assert forall k | 0 <= k < |w| :: s[i..i + |w|][k] == w[k];
  }

  lemma OccurrenceInPrefix(s: string, p: nat, w: string, i: nat)
    requires p <= |s|
    ensures OccursAt(s[..p], w, i) <==> i + |w| <= p && OccursAt(s, w, i)
  {
    if i + |w| <= p {
      assert forall q | 0 <= q < p :: s[..p][q] == s[q];
    }
  }

  lemma OccurrenceInSuffix(s: string, p: nat, w: string, i: nat)
    requires p <= |s|
    ensures OccursAt(s[p..], w, i) <==> OccursAt(s, w, i + p)
  {
    if i + p + |w| <= |s| {
      assert forall q | 0 <= q < |s| - p :: s[p..][q] == s[p + q];
      assert forall q | p <= q < |s| :: s[q] == s[p..][q - p];
    }
  }

  /** First and last characters are no blanks, and blanks inside stand alone. */
  ghost predicate Solid(w: string) {
    && w != [] && w[0] != ' ' && w[|w| - 1] != ' '
    && forall k | 0 <= k < |w| - 1 :: w[k] == ' ' ==> w[k + 1] != ' '
  }
}
