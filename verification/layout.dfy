/**
 * How an opened item lays its children's buttons out in rows: buttons are taken in
 * order and a row is closed when the next button, with its 18 units of padding, would
 * make the row wider than the screen.
 */
module Layout {

  /** Padding added to every button's measured width. */
  const ButtonPadding: real := 18.0

  /** The buttons `start` up to (not including) `end` form one row. */
  datatype Row = Row(start: nat, end: nat)

  /**
   * The outcome of laying out: the rows, or the index of the button at which the layout
   * loop stops making progress and would repeat forever.
   */
  datatype Packing = Rows(rows: seq<Row>) | Diverges(at: nat)

  predicate NonNegative(ws: seq<real>) {
    forall k | 0 <= k < |ws| :: ws[k] >= 0.0
  }

  /** Width of buttons `s` up to `e`, padding included. */
  function Span(ws: seq<real>, s: nat, e: nat): real
    requires s <= e <= |ws|
    decreases e - s
  {
    if s == e then 0.0 else Span(ws, s, e - 1) + ws[e - 1] + ButtonPadding
  }

  /** A button fits on a row of its own. */
  predicate Fits(ws: seq<real>, k: nat, screenWidth: real)
    requires k < |ws|
  {
    ws[k] + ButtonPadding <= screenWidth
  }

  /** The rows cover buttons 0 up to n in order, each row non-empty. */
  predicate Tiling(rows: seq<Row>, n: nat) {
    && (|rows| == 0 <==> n == 0)
    && (|rows| > 0 ==> rows[0].start == 0 && rows[|rows| - 1].end == n)
    && (forall k | 0 <= k < |rows| :: rows[k].start < rows[k].end <= n)
    && (forall k | 0 <= k < |rows| - 1 :: rows[k].end == rows[k + 1].start)
  }

  /** Every row fits, and a row ends early only because the next button would overflow it. */
  predicate Greedy(ws: seq<real>, screenWidth: real, rows: seq<Row>) {
    forall k | 0 <= k < |rows| ::
      && rows[k].start <= rows[k].end <= |ws|
      && Span(ws, rows[k].start, rows[k].end) <= screenWidth
      && (rows[k].end < |ws| ==> Span(ws, rows[k].start, rows[k].end + 1) > screenWidth)
  }

  /** A non-empty row starting where the tiling ends extends it. */
  lemma TilingSnoc(rows: seq<Row>, start: nat, end: nat)
    requires Tiling(rows, start) && start < end
    ensures Tiling(rows + [Row(start, end)], end)
  {
    var rs := rows + [Row(start, end)];
    assert forall k | 0 <= k < |rows| :: rs[k] == rows[k];
  }

  lemma GreedySnoc(ws: seq<real>, screenWidth: real, rows: seq<Row>, r: Row)
    requires Greedy(ws, screenWidth, rows)
    requires r.start <= r.end <= |ws| && Span(ws, r.start, r.end) <= screenWidth
    requires r.end < |ws| ==> Span(ws, r.start, r.end + 1) > screenWidth
    ensures Greedy(ws, screenWidth, rows + [r])
  {
    var rs := rows + [r];
    assert forall k | 0 <= k < |rows| :: rs[k] == rows[k];
  }

  lemma WrappedSnoc(ws: seq<real>, screenWidth: real, rows: seq<Row>, r: Row)
    requires Wrapped(ws, screenWidth, rows) && WrappedRow(ws, screenWidth, r)
    ensures Wrapped(ws, screenWidth, rows + [r])
  {
    var rs := rows + [r];
    assert forall k | 0 <= k < |rows| :: rs[k] == rows[k];
  }

  /** Each button inside a span, with its padding, is at most the span's width. */
  lemma {:induction false} SpanCovers(ws: seq<real>, s: nat, e: nat, k: nat)
    requires NonNegative(ws) && s <= k < e <= |ws|
    ensures ws[k] + ButtonPadding <= Span(ws, s, e)
    decreases e - s
  {
    if k < e - 1 {
      SpanCovers(ws, s, e - 1, k);
      assert ws[e - 1] >= 0.0;
    } else {
      SpanNonNegative(ws, s, e - 1);
    }
  }

  lemma {:induction false} SpanNonNegative(ws: seq<real>, s: nat, e: nat)
    requires NonNegative(ws) && s <= e <= |ws|
    ensures Span(ws, s, e) >= 0.0
    decreases e - s
  {
    if s < e {
      SpanNonNegative(ws, s, e - 1);
      assert ws[e - 1] >= 0.0;
    }
  }

  /**
   * Extends the row that began at button `start` from button `from` on, while the next
   * button still fits: stops at the end of the list or, with `full`, before the first
   * button that would make the row wider than the screen.
   */
  method FillRow(ws: seq<real>, screenWidth: real, start: nat, from: nat) returns (end: nat, full: bool)
    requires start <= from <= |ws|
    ensures from <= end <= |ws|
    ensures end > from ==> Span(ws, start, end) <= screenWidth
    ensures full <==> end < |ws|
    ensures full ==> Span(ws, start, end + 1) > screenWidth
  {
    end := from;
    full := false;
    var rowWidth := Span(ws, start, from);
    while end < |ws| && !full
      invariant from <= end <= |ws|
      invariant rowWidth == Span(ws, start, end)
      invariant end > from ==> rowWidth <= screenWidth
      invariant full ==> end < |ws| && Span(ws, start, end + 1) > screenWidth
      decreases |ws| - end, if full then 0 else 1
    {
      if rowWidth + ws[end] + ButtonPadding > screenWidth {
        full := true;
      } else {
        rowWidth := rowWidth + ws[end] + ButtonPadding;
        end := end + 1;
      }
    }
  }

  /**
   * The row loop as written. It finishes exactly when every button fits on a row of its
   * own; otherwise it stops making progress at the first button that does not.
   */
  method PackRows(ws: seq<real>, screenWidth: real) returns (p: Packing)
    requires NonNegative(ws)
    ensures p.Rows? <==> forall k | 0 <= k < |ws| :: Fits(ws, k, screenWidth)
    ensures p.Rows? ==> Tiling(p.rows, |ws|) && Greedy(ws, screenWidth, p.rows)
    ensures p.Diverges? ==> p.at < |ws| && !Fits(ws, p.at, screenWidth)
    ensures p.Diverges? ==> forall k | 0 <= k < p.at :: Fits(ws, k, screenWidth)
  {
    var rows: seq<Row> := [];
    var i: nat := 0;
    while i < |ws|
      invariant i <= |ws|
      invariant Tiling(rows, i) && Greedy(ws, screenWidth, rows)
      invariant forall k | 0 <= k < i :: Fits(ws, k, screenWidth)
      decreases |ws| - i
    {
      var start := i;
      var full;
      i, full := FillRow(ws, screenWidth, start, start);
      if i == start {
        assert Span(ws, i, i + 1) == ws[i] + ButtonPadding;
        assert !Fits(ws, i, screenWidth);
        return Diverges(i);
      }
      forall k | start <= k < i ensures Fits(ws, k, screenWidth) {
        SpanCovers(ws, start, i, k);
      }
      TilingSnoc(rows, start, i);
      GreedySnoc(ws, screenWidth, rows, Row(start, i));
      rows := rows + [Row(start, i)];
    }
    return Rows(rows);
  }

  /** Every row fits or is one button on its own, and a row ends early only because the next button would overflow it. */
  predicate Wrapped(ws: seq<real>, screenWidth: real, rows: seq<Row>) {
    forall k | 0 <= k < |rows| :: WrappedRow(ws, screenWidth, rows[k])
  }

  predicate WrappedRow(ws: seq<real>, screenWidth: real, r: Row) {
    && r.start < r.end <= |ws|
    && (Span(ws, r.start, r.end) <= screenWidth || r.end == r.start + 1)
    && (r.end < |ws| ==> Span(ws, r.start, r.end + 1) > screenWidth)
  }

  /** When every button fits on its own, wrapped rows are the greedy rows. */
  lemma WrappedIsGreedy(ws: seq<real>, screenWidth: real, rows: seq<Row>)
    requires Wrapped(ws, screenWidth, rows)
    requires forall k | 0 <= k < |ws| :: Fits(ws, k, screenWidth)
    ensures Greedy(ws, screenWidth, rows)
  {
    forall k | 0 <= k < |rows|
      ensures Span(ws, rows[k].start, rows[k].end) <= screenWidth
    {
      assert WrappedRow(ws, screenWidth, rows[k]);
      if rows[k].end == rows[k].start + 1 {
        assert Fits(ws, rows[k].start, screenWidth);
      }
    }
  }

  /**
   * The same layout when a row always takes its first button: terminates on every input,
   * and a row overflows the screen only when it is a single button too wide to fit.
   */
  method PackRowsWrapped(ws: seq<real>, screenWidth: real) returns (rows: seq<Row>)
    requires NonNegative(ws)
    ensures Tiling(rows, |ws|) && Wrapped(ws, screenWidth, rows)
    ensures (forall k | 0 <= k < |ws| :: Fits(ws, k, screenWidth)) ==> Greedy(ws, screenWidth, rows)
  {
    rows := [];
    var i: nat := 0;
    while i < |ws|
      invariant i <= |ws|
      invariant Tiling(rows, i) && Wrapped(ws, screenWidth, rows)
      decreases |ws| - i
    {
      var start := i;
      var full;
      i, full := FillRow(ws, screenWidth, start, start + 1);
      assert WrappedRow(ws, screenWidth, Row(start, i));
      TilingSnoc(rows, start, i);
      WrappedSnoc(ws, screenWidth, rows, Row(start, i));
      rows := rows + [Row(start, i)];
    }
    if forall k | 0 <= k < |ws| :: Fits(ws, k, screenWidth) {
      WrappedIsGreedy(ws, screenWidth, rows);
    }
  }
}
