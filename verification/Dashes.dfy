// Cutting the dashed outline of a rounded rectangle into dashes, and each dash
// into the pieces of the outline it runs along.
// (native/tools/expand_icon_strokes.py)

module Dashes {
  // The outline of a rounded rectangle with equal corner radii, as drawings
  // have it: the corners fit its sides.
  datatype RoundedRect = RoundedRect(width: real, height: real, radius: real)

  predicate Fits(rect: RoundedRect) {
    rect.radius >= 0.0 && rect.width >= 2.0 * rect.radius && rect.height >= 2.0 * rect.radius
  }

  // Whatever is left of the sides between the corners, nothing at all included.
  lemma CornersFit(across: real, down: real, radius: real)
    ensures Fits(RoundedRect(across + 2.0 * radius, down + 2.0 * radius, radius)) <==> radius >= 0.0 && across >= 0.0 && down >= 0.0
  {
  }

  // The lengths of its sides and corners in path order; `pi` is any positive
  // number here.
  function Pieces(rect: RoundedRect, pi: real): (lengths: seq<real>)
    requires Fits(rect) && pi > 0.0
    ensures |lengths| == 8 && NotNegative(lengths)
  {
    var quarter := pi / 2.0 * rect.radius;
    var across, down := rect.width - 2.0 * rect.radius, rect.height - 2.0 * rect.radius;
    [across, quarter, down, quarter, across, quarter, down, quarter]
  }

  predicate NotNegative(lengths: seq<real>) {
    forall i :: 0 <= i < |lengths| ==> lengths[i] >= 0.0
  }

  // The sum of the first `n` lengths.
  function UpTo(lengths: seq<real>, n: nat): real
    requires n <= |lengths|
  {
    if n == 0 then 0.0 else UpTo(lengths, n - 1) + lengths[n - 1]
  }

  function Sum(lengths: seq<real>): real {
    UpTo(lengths, |lengths|)
  }

  lemma {:induction false} UpToGrows(lengths: seq<real>, m: nat, n: nat)
    requires NotNegative(lengths) && m <= n <= |lengths|
    ensures UpTo(lengths, m) <= UpTo(lengths, n)
    decreases n
  {
    if m < n {
      UpToGrows(lengths, m, n - 1);
    }
  }

  function Min(a: real, b: real): real {
    if a < b then a else b
  }

  function Max(a: real, b: real): real {
    if a < b then b else a
  }

  // ------------------------------------------------------------- the spans

  // A stretch of one piece, from and to along the piece.
  datatype Span = Span(piece: nat, from: real, to: real)

  ghost predicate OnPiece(lengths: seq<real>, span: Span) {
    span.piece < |lengths| && 0.0 <= span.from <= span.to <= lengths[span.piece]
  }

  // The spans run along the outline without a gap or overlap, from `start` to
  // `end`, their pieces in order and before `next`.
  ghost predicate Joined(lengths: seq<real>, spans: seq<Span>, start: real, end: real, next: nat)
    decreases |spans|
  {
    if spans == [] then start == end
    else
      var last := spans[|spans| - 1];
      && OnPiece(lengths, last) && last.piece < next
      && UpTo(lengths, last.piece) + last.to == end
      && Joined(lengths, spans[..|spans| - 1], start, UpTo(lengths, last.piece) + last.from, last.piece)
  }

  function TotalOf(spans: seq<Span>): real {
    if spans == [] then 0.0
    else TotalOf(spans[..|spans| - 1]) + (spans[|spans| - 1].to - spans[|spans| - 1].from)
  }

  lemma {:induction false} JoinedTotal(lengths: seq<real>, spans: seq<Span>, start: real, end: real, next: nat)
    requires Joined(lengths, spans, start, end, next)
    ensures TotalOf(spans) == end - start
    decreases |spans|
  {
    if spans != [] {
      var last := spans[|spans| - 1];
      JoinedTotal(lengths, spans[..|spans| - 1], start, UpTo(lengths, last.piece) + last.from, last.piece);
    }
  }

  lemma JoinedLater(lengths: seq<real>, spans: seq<Span>, start: real, end: real, next: nat, later: nat)
    requires Joined(lengths, spans, start, end, next) && next <= later
    ensures Joined(lengths, spans, start, end, later)
  {
  }

  // The stretches of the pieces that a dash from `start` to `end` runs along.
  method Spans(lengths: seq<real>, start: real, end: real) returns (spans: seq<Span>)
    requires NotNegative(lengths) && 0.0 <= start <= end <= Sum(lengths)
    ensures Joined(lengths, spans, start, end, |lengths|)
    ensures TotalOf(spans) == end - start
    ensures start < end ==> spans != []
  {
    spans := [];
    var position := 0.0;
    for i := 0 to |lengths|
      invariant position == UpTo(lengths, i) && position >= 0.0
      invariant Joined(lengths, spans, start, Max(start, Min(end, position)), i)
    {
      var length := lengths[i];
      var lo, hi := Max(start, position), Min(end, position + length);
      JoinedLater(lengths, spans, start, Max(start, Min(end, position)), i, i + 1);
      if hi > lo || (length == 0.0 && position >= start && position <= end) {
        ghost var before := spans;
        spans := spans + [Span(i, lo - position, hi - position)];
        assert spans[..|spans| - 1] == before;
      }
      position := position + length;
    }
    JoinedTotal(lengths, spans, start, end, |lengths|);
  }

  // ------------------------------------------------------------ the dashes

  // The dash lengths and gaps of one period: an odd pattern comes twice.
  function Period(pattern: seq<real>): (lengths: seq<real>)
    ensures |lengths| % 2 == 0
  {
    if |pattern| % 2 == 0 then pattern else pattern + pattern
  }

  // Where segment `j` of period `k` begins.
  function Begin(lengths: seq<real>, k: nat, j: nat): real
    requires j <= |lengths|
  {
    Times(k, Sum(lengths)) + UpTo(lengths, j)
  }

  function Times(k: nat, s: real): real {
    k as real * s
  }

  // Position `p` is in segment `j` of period `k`: its offset within the period
  // is p less k periods.
  ghost predicate InSegment(lengths: seq<real>, p: real, k: nat, j: nat) {
    j < |lengths| && Begin(lengths, k, j) <= p < Begin(lengths, k, j + 1)
  }

  lemma NextBegin(lengths: seq<real>, k: nat, j: nat)
    requires j < |lengths|
    ensures Begin(lengths, k, j + 1) == Begin(lengths, k, j) + lengths[j]
    ensures j + 1 == |lengths| ==> Begin(lengths, k + 1, 0) == Begin(lengths, k, j) + lengths[j]
  {
  }

  // SVG paints a position exactly when its offset within the period lies in
  // an even-numbered segment (section 13.5.6 of SVG 2).
  ghost predicate IsPainted(lengths: seq<real>, p: real) {
    exists k: nat, j: nat :: j % 2 == 0 && InSegment(lengths, p, k, j)
  }

  // A dash: where it is on the outline, and its spans.
  datatype Dash = Dash(start: real, end: real, spans: seq<Span>)

  ghost predicate Covers(dash: Dash, p: real) {
    dash.start <= p < dash.end
  }

  ghost predicate Covered(dashes: seq<Dash>, p: real) {
    exists i :: 0 <= i < |dashes| && Covers(dashes[i], p)
  }

  // In order, apart, inside the first `end` of the outline, and cut along it.
  ghost predicate InOrder(lengths: seq<real>, dashes: seq<Dash>, end: real) {
    && (forall i :: 0 <= i < |dashes| ==>
         && 0.0 <= dashes[i].start <= dashes[i].end <= end
         && Joined(lengths, dashes[i].spans, dashes[i].start, dashes[i].end, |lengths|)
         && TotalOf(dashes[i].spans) == dashes[i].end - dashes[i].start)
    && (forall i, j :: 0 <= i < j < |dashes| ==> dashes[i].end <= dashes[j].start)
  }

  lemma TimesGrows(k: nat, l: nat, s: real)
    requires s >= 0.0 && k <= l
    ensures Times(k, s) <= Times(l, s)
  {
  }

  lemma NextTimes(k: nat, s: real)
    ensures Times(k + 1, s) == Times(k, s) + s
  {
  }

  lemma NotEarlier(lengths: seq<real>, p: real, k: nat, j: nat, l: nat, i: nat)
    requires NotNegative(lengths) && InSegment(lengths, p, k, j) && InSegment(lengths, p, l, i)
    ensures l <= k && (k == l ==> i <= j)
  {
    hide Times;
    var s := Sum(lengths);
    UpToGrows(lengths, 0, i);
    UpToGrows(lengths, 0, |lengths|);
    UpToGrows(lengths, j + 1, |lengths|);
    NextTimes(k, s);
    assert UpTo(lengths, 0) == 0.0 && s >= 0.0;
    assert p < Times(k, s) + s && p >= Times(l, s);
    if k < l {
      TimesGrows(k + 1, l, s);
      assert false;
    } else if k == l && j < i {
      UpToGrows(lengths, j + 1, i);
    }
  }

  // A position is in one segment of one period only.
  lemma OneSegment(lengths: seq<real>, p: real, k: nat, j: nat, l: nat, i: nat)
    requires NotNegative(lengths) && InSegment(lengths, p, k, j) && InSegment(lengths, p, l, i)
    ensures k == l && j == i
  {
    NotEarlier(lengths, p, k, j, l, i);
    NotEarlier(lengths, p, l, i, k, j);
  }

  // Which segment of the period a loop over all segments is at.
  function Slot(index: nat, n: nat): (slot: nat)
    requires n > 0
    ensures slot < n
  {
    index % n
  }

  lemma {:induction false} Remainder(x: nat, n: nat)
    requires n > 0
    ensures Slot(x + 1, n) == if Slot(x, n) + 1 == n then 0 else Slot(x, n) + 1
  {
    var q, r := x / n, x % n;
    assert x == q * n + r;
    if r + 1 == n {
      assert x + 1 == (q + 1) * n;
      Quotient(x + 1, q + 1, 0, n);
    } else {
      Quotient(x + 1, q, r + 1, n);
    }
  }

  lemma {:induction false} Quotient(x: nat, q: nat, r: nat, n: nat)
    requires n > 0 && r < n && x == q * n + r
    ensures x % n == r
  {
    var d := q - x / n;
    assert d * n == x % n - r;
    if d >= 1 {
      AtLeastOnce(d, n);
    } else if d <= -1 {
      AtLeastOnce(-d, n);
    }
  }

  lemma AtLeastOnce(d: int, n: nat)
    requires d >= 1
    ensures d * n >= n
  {
  }

  // Enough periods to pass the end of the outline.
  lemma EnoughPeriods(total: real, s: real) returns (periods: nat)
    requires total >= 0.0 && s > 0.0
    ensures Times(periods, s) >= total
  {
    var quotient := total / s;
    assert quotient >= 0.0;
    periods := quotient.Floor + 1;
    assert periods as real >= quotient;
    assert quotient * s == total;
    Scale(quotient, periods as real, s);
  }

  lemma Scale(a: real, b: real, s: real)
    requires a <= b && s >= 0.0
    ensures a * s <= b * s
  {
  }

  // What the loop has done when it stands at segment `j` of period `k`.
  ghost predicate CutUpTo(lengths: seq<real>, dashes: seq<Dash>, position: real, total: real) {
    forall p: real :: 0.0 <= p < Min(position, total) ==> (Covered(dashes, p) <==> IsPainted(lengths, p))
  }

  lemma FirstBegin(lengths: seq<real>)
    ensures Begin(lengths, 0, 0) == 0.0
    ensures lengths != [] ==> Slot(0, |lengths|) == 0
  {
  }

  // Going over one segment paints it when it is a dash and leaves it when it
  // is a gap.
  lemma SegmentIsCut(lengths: seq<real>, pieces: seq<real>, before: seq<Dash>, after: seq<Dash>, position: real, total: real, k: nat, j: nat)
    requires NotNegative(lengths) && j < |lengths| && 0.0 <= position < total
    requires position == Begin(lengths, k, j)
    requires InOrder(pieces, before, position) && CutUpTo(lengths, before, position, total)
    requires j % 2 == 1 ==> after == before
    requires j % 2 == 0 ==> |after| == |before| + 1 && after[..|before|] == before
    requires j % 2 == 0 ==> after[|before|].start == position && after[|before|].end == Min(position + lengths[j], total)
    ensures CutUpTo(lengths, after, position + lengths[j], total)
  {
    NextBegin(lengths, k, j);
    forall p: real | 0.0 <= p < Min(position + lengths[j], total)
      ensures Covered(after, p) <==> IsPainted(lengths, p)
    {
      if p < position {
        BeforeSegment(before, after, p, position);
      } else {
        assert InSegment(lengths, p, k, j);
        if j % 2 == 0 {
          assert Covers(after[|before|], p);
        } else {
          assert !Covered(after, p);
          forall l: nat, i: nat | i % 2 == 0 && InSegment(lengths, p, l, i) ensures false {
            OneSegment(lengths, p, k, j, l, i);
          }
        }
      }
    }
  }

  lemma BeforeSegment(before: seq<Dash>, after: seq<Dash>, p: real, position: real)
    requires p < position && (after == before || (|after| == |before| + 1 && after[..|before|] == before && after[|before|].start == position))
    ensures Covered(after, p) <==> Covered(before, p)
  {
  }

  // Lays the pattern along the pieces, over and over, to the end of the outline.
  method CutDashes(pieces: seq<real>, pattern: seq<real>) returns (dashes: seq<Dash>)
    requires NotNegative(pieces) && NotNegative(pattern) && Sum(pattern) > 0.0
    ensures InOrder(pieces, dashes, Sum(pieces))
    ensures forall p: real :: 0.0 <= p < Sum(pieces) ==> (Covered(dashes, p) <==> IsPainted(Period(pattern), p))
  {
    hide Sum, Joined, IsPainted, Covered, InOrder, CutUpTo, NotNegative, Period, Begin, UpTo, Times, Slot, TotalOf;
    var total := Sum(pieces);
    SumNotNegative(pieces);
    var lengths := Period(pattern);
    PeriodSum(pattern);
    ghost var n := |lengths|;
    ghost var periods := EnoughPeriods(total, Sum(lengths));
    dashes := [];
    NothingCut(pieces, lengths, total);
    FirstBegin(lengths);
    var position, index := 0.0, 0;
    ghost var k: nat, j: nat := 0, 0;
    while position < total
      invariant 0.0 <= position && j < n && j == Slot(index, n) && j % 2 == index % 2
      invariant position == Begin(lengths, k, j)
      invariant InOrder(pieces, dashes, Min(position, total))
      invariant CutUpTo(lengths, dashes, position, total)
      decreases periods - k, n - j
    {
      NotPast(lengths, position, total, k, j, periods);
      assert lengths[j] >= 0.0 by { NotNegativeAt(lengths, j); }
      var length := lengths[Slot(index, |lengths|)];
      ghost var before := dashes;
      if index % 2 == 0 {
        var end := Min(position + length, total);
        var spans := Spans(pieces, position, end);
        dashes := dashes + [Dash(position, end, spans)];
        assert dashes[..|before|] == before;
        OneMoreInOrder(pieces, before, Dash(position, end, spans));
      } else {
        StillInOrder(pieces, before, position, Min(position + length, total));
      }
      SegmentIsCut(lengths, pieces, before, dashes, position, total, k, j);
      position := position + length;
      Remainder(index, n);
      index := index + 1;
      NextBegin(lengths, k, j);
      if j + 1 == n {
        k, j := k + 1, 0;
      } else {
        j := j + 1;
      }
    }
    CutToTheEnd(lengths, dashes, position, total);
  }

  lemma CutToTheEnd(lengths: seq<real>, dashes: seq<Dash>, position: real, total: real)
    requires CutUpTo(lengths, dashes, position, total) && position >= total
    ensures forall p: real :: 0.0 <= p < total ==> (Covered(dashes, p) <==> IsPainted(lengths, p))
  {
  }

  lemma SumNotNegative(lengths: seq<real>)
    requires NotNegative(lengths)
    ensures Sum(lengths) >= 0.0
  {
    UpToGrows(lengths, 0, |lengths|);
  }

  lemma NotNegativeAt(lengths: seq<real>, j: nat)
    requires NotNegative(lengths) && j < |lengths|
    ensures lengths[j] >= 0.0
  {
  }

  lemma NothingCut(pieces: seq<real>, lengths: seq<real>, total: real)
    requires total >= 0.0
    ensures InOrder(pieces, [], 0.0) && CutUpTo(lengths, [], 0.0, total)
  {
  }

  lemma OneMoreInOrder(pieces: seq<real>, dashes: seq<Dash>, dash: Dash)
    requires InOrder(pieces, dashes, dash.start) && 0.0 <= dash.start <= dash.end
    requires Joined(pieces, dash.spans, dash.start, dash.end, |pieces|) && TotalOf(dash.spans) == dash.end - dash.start
    ensures InOrder(pieces, dashes + [dash], dash.end)
  {
    hide Joined;
  }

  lemma StillInOrder(pieces: seq<real>, dashes: seq<Dash>, end: real, later: real)
    requires InOrder(pieces, dashes, end) && end <= later
    ensures InOrder(pieces, dashes, later)
  {
  }

  lemma NotPast(lengths: seq<real>, position: real, total: real, k: nat, j: nat, periods: nat)
    requires NotNegative(lengths) && j < |lengths| && position < total
    requires position == Begin(lengths, k, j)
    requires Times(periods, Sum(lengths)) >= total
    ensures k < periods
  {
    UpToGrows(lengths, 0, j);
    UpToGrows(lengths, 0, |lengths|);
    if periods <= k {
      TimesGrows(periods, k, Sum(lengths));
    }
  }

  lemma {:induction false} UpToConcat(a: seq<real>, b: seq<real>, n: nat)
    requires n <= |b|
    ensures UpTo(a + b, |a| + n) == UpTo(a, |a|) + UpTo(b, n)
    decreases n
  {
    if n > 0 {
      UpToConcat(a, b, n - 1);
    } else {
      UpToPrefix(a, b, |a|);
    }
  }

  lemma {:induction false} UpToPrefix(a: seq<real>, b: seq<real>, n: nat)
    requires n <= |a|
    ensures UpTo(a + b, n) == UpTo(a, n)
  {
    if n > 0 {
      UpToPrefix(a, b, n - 1);
    }
  }

  // The period of an even pattern is the pattern, of an odd one twice that.
  lemma PeriodSum(pattern: seq<real>)
    requires NotNegative(pattern) && Sum(pattern) > 0.0
    ensures NotNegative(Period(pattern)) && Period(pattern) != []
    ensures Sum(Period(pattern)) == if |pattern| % 2 == 0 then Sum(pattern) else 2.0 * Sum(pattern)
  {
    if |pattern| % 2 == 1 {
      UpToConcat(pattern, pattern, |pattern|);
    }
  }

  // A dashed stroke along a rounded rectangle.
  method DashedStroke(rect: RoundedRect, pi: real, pattern: seq<real>) returns (dashes: seq<Dash>)
    requires Fits(rect) && pi > 0.0 && NotNegative(pattern) && Sum(pattern) > 0.0
    ensures InOrder(Pieces(rect, pi), dashes, Sum(Pieces(rect, pi)))
    ensures forall p: real :: 0.0 <= p < Sum(Pieces(rect, pi)) ==> (Covered(dashes, p) <==> IsPainted(Period(pattern), p))
  {
    dashes := CutDashes(Pieces(rect, pi), pattern);
  }
}
