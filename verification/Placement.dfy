/** Where a striped file's pages live. File segment s (seg pages long) sits in
    column s % n at column segment s / n; this module proves the placement a
    bijection and says exactly when column page counts agree with it. */
module Placement {

  function ColOf(f: nat, seg: nat, n: nat): (c: nat)
    requires seg > 0 && n > 0
    ensures c < n
  {
    (f / seg) % n
  }

  function XmOf(f: nat, seg: nat, n: nat): (xm: nat)
    requires seg > 0 && n > 0
    ensures f % seg <= xm <= f
  {
    var q := f / seg;
    DivMod(f, seg);
    DivMod(q, n);
    MulMono(q / n, q, seg);
    q / n * seg + f % seg
  }

  function FilePageOf(c: nat, xm: nat, seg: nat, n: nat): nat
    requires seg > 0 && n > 0
  {
    (xm / seg * n + c) * seg + xm % seg
  }

  // ---- arithmetic ----

  lemma {:induction false} DivMod(a: nat, b: nat)
    requires b > 0
    ensures a == a / b * b + a % b && 0 <= a % b < b && 0 <= a / b <= a
  {
    MulMono(1, b, a / b);
  }

  lemma {:induction false} MulMono(a: nat, b: nat, m: nat)
    requires a <= b
    ensures a * m <= b * m
  {
  }

  lemma {:induction false} MulSucc(a: nat, m: nat)
    ensures (a + 1) * m == a * m + m
  {
  }

  /** Pairs (quotient, remainder) compare lexicographically. */
  lemma {:induction false} LexLess(a: nat, b: nat, a': nat, b': nat, m: nat)
    requires b < m && b' < m
    ensures a * m + b < a' * m + b' <==> a < a' || (a == a' && b < b')
  {
    if a < a' {
      MulMono(a + 1, a', m);
      MulSucc(a, m);
    } else if a' < a {
      MulMono(a' + 1, a, m);
      MulSucc(a', m);
    }
  }

  lemma {:induction false} DivModUnique(a: nat, q: nat, r: nat, b: nat)
    requires r < b && a == q * b + r
    ensures a / b == q && a % b == r
  {
    DivMod(a, b);
    LexLess(q, r, a / b, a % b, b);
    LexLess(a / b, a % b, q, r, b);
  }

  // ---- the bijection ----

  lemma {:induction false} FilePageOfPlace(f: nat, seg: nat, n: nat)
    requires seg > 0 && n > 0
    ensures FilePageOf(ColOf(f, seg, n), XmOf(f, seg, n), seg, n) == f
  {
    var q := f / seg;
    DivMod(f, seg);
    DivMod(q, n);
    DivModUnique(XmOf(f, seg, n), q / n, f % seg, seg);
  }

  lemma {:induction false} PlaceOfFilePage(c: nat, xm: nat, seg: nat, n: nat)
    requires seg > 0 && c < n
    ensures ColOf(FilePageOf(c, xm, seg, n), seg, n) == c
    ensures XmOf(FilePageOf(c, xm, seg, n), seg, n) == xm
  {
    var q := xm / seg * n + c;
    DivMod(xm, seg);
    DivModUnique(FilePageOf(c, xm, seg, n), q, xm % seg, seg);
    DivModUnique(q, xm / seg, c, n);
  }

  /** Page b lies behind the beginning of segment q and no later than r pages into it. */
  lemma {:induction false} InsideSegment(b: nat, q: nat, r: nat, seg: nat)
    requires r < seg
    ensures q * seg < b <= q * seg + r <==> b / seg == q && 0 < b % seg <= r
  {
    DivMod(b, seg);
    LexLess(q, 0, b / seg, b % seg, seg);
    LexLess(q, r, b / seg, b % seg, seg);
  }

  // ---- conservation ----

  /** How many pages of column c the first `total` file pages occupy. */
  function Share(total: nat, seg: nat, n: nat, c: nat): nat
    requires seg > 0 && n > 0
  {
    var s := total / seg;
    s / n * seg + (if c < s % n then seg else if c == s % n then total % seg else 0)
  }

  /** A file page is below `total` exactly when its column page is inside the share. */
  lemma {:induction false} PlacedInShare(f: nat, total: nat, seg: nat, n: nat)
    requires seg > 0 && n > 0
    ensures f < total <==> XmOf(f, seg, n) < Share(total, seg, n, ColOf(f, seg, n))
  {
    var q, s := f / seg, total / seg;
    DivMod(f, seg);
    DivMod(total, seg);
    DivMod(q, n);
    DivMod(s, n);
    LexLess(q, f % seg, s, total % seg, seg);
    LexLess(q / n, q % n, s / n, s % n, n);
    var k, k', r := q / n, s / n, f % seg;
    if k < k' {
      MulMono(k + 1, k', seg);
      MulSucc(k, seg);
    } else if k > k' {
      MulMono(k' + 1, k, seg);
      MulSucc(k', seg);
    }
  }

  function Sum(counts: seq<nat>): nat {
    if counts == [] then 0 else Sum(counts[..|counts| - 1]) + counts[|counts| - 1]
  }

  function Shares(total: nat, seg: nat, n: nat, upTo: nat): (s: seq<nat>)
    requires seg > 0 && n > 0
    ensures |s| == upTo
    ensures forall c :: 0 <= c < upTo ==> s[c] == Share(total, seg, n, c)
  {
    seq(upTo, c requires 0 <= c < upTo => Share(total, seg, n, c))
  }

  /** Sum of the first `upTo` shares, for `full` pages from whole rounds, the
      broken round ending in column `c` after `rest` pages. */
  lemma {:induction false} SumOfShares(total: nat, seg: nat, n: nat, upTo: nat, full: nat, c: nat, rest: nat)
    requires seg > 0 && n > 0 && upTo <= n
    requires full == total / seg / n * seg && c == total / seg % n && rest == total % seg
    ensures Sum(Shares(total, seg, n, upTo)) == upTo * full + (if upTo <= c then upTo * seg else c * seg + rest)
  {
    if upTo > 0 {
      SumOfShares(total, seg, n, upTo - 1, full, c, rest);
      var sh := Shares(total, seg, n, upTo);
      assert sh[..upTo - 1] == Shares(total, seg, n, upTo - 1);
      MulSucc(upTo - 1, full);
      MulSucc(upTo - 1, seg);
    }
  }

  lemma {:induction false} MulAssoc(a: nat, b: nat, m: nat)
    ensures a * (b * m) == (b * a) * m
  {
  }

  lemma {:induction false} MulDist(a: nat, b: nat, m: nat)
    ensures a * m + b * m == (a + b) * m
  {
  }

  /** The shares partition the file: no page is lost or counted twice. */
  lemma {:induction false} SharesSumToTotal(total: nat, seg: nat, n: nat)
    requires seg > 0 && n > 0
    ensures Sum(Shares(total, seg, n, n)) == total
  {
    var s := total / seg;
    SumOfShares(total, seg, n, n, s / n * seg, s % n, total % seg);
    DivMod(total, seg);
    DivMod(s, n);
    MulAssoc(n, s / n, seg);
    MulDist(s / n * n, s % n, seg);
  }

  predicate Balanced(counts: seq<nat>, seg: nat)
    requires seg > 0 && |counts| > 0
  {
    forall c :: 0 <= c < |counts| ==> counts[c] == Share(Sum(counts), seg, |counts|, c)
  }

  /** File pages below the summed total and column pages below their counts
      correspond one to one. */
  predicate Conserves(counts: seq<nat>, seg: nat)
    requires seg > 0 && |counts| > 0
  {
    && (forall f: nat :: f < Sum(counts) ==> XmOf(f, seg, |counts|) < counts[ColOf(f, seg, |counts|)])
    && (forall c: nat, xm: nat :: c < |counts| && xm < counts[c] ==> FilePageOf(c, xm, seg, |counts|) < Sum(counts))
  }

  /** Summing the column counts is the right page total, in that no column page
      is lost and no file page falls outside its column, exactly when the
      columns are balanced. */
  lemma {:induction false} ConservationExact(counts: seq<nat>, seg: nat)
    requires seg > 0 && |counts| > 0
    ensures Conserves(counts, seg) <==> Balanced(counts, seg)
  {
    var n, total := |counts|, Sum(counts);
    if Balanced(counts, seg) {
      forall f: nat | f < total ensures XmOf(f, seg, n) < counts[ColOf(f, seg, n)] {
        PlacedInShare(f, total, seg, n);
      }
      forall c: nat, xm: nat | c < n && xm < counts[c] ensures FilePageOf(c, xm, seg, n) < total {
        PlaceOfFilePage(c, xm, seg, n);
        PlacedInShare(FilePageOf(c, xm, seg, n), total, seg, n);
      }
    }
    if Conserves(counts, seg) {
      forall c | 0 <= c < n ensures counts[c] == Share(total, seg, n, c) {
        var sh := Share(total, seg, n, c);
        if counts[c] < sh {
          PlaceOfFilePage(c, counts[c], seg, n);
          PlacedInShare(FilePageOf(c, counts[c], seg, n), total, seg, n);
        } else if counts[c] > sh {
          PlaceOfFilePage(c, sh, seg, n);
          PlacedInShare(FilePageOf(c, sh, seg, n), total, seg, n);
        }
      }
    }
  }

  /** A concrete unbalanced pair: page 3 of column 0 is lost. */
  lemma {:induction false} UnbalancedLosesPage()
    ensures !Conserves([4, 1], 1)
  {
    var counts: seq<nat> := [4, 1];
    assert counts[..1] == [4] && [4][..0] == [];
    assert Sum(counts) == 5;
    assert FilePageOf(0, 3, 1, 2) == 6;
    assert 3 < counts[0];
  }
}
