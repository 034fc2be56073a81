// The scrolling list Clink pops up for history, directories and similar
// choices (clink/lib/src/textlist_impl.cpp): moving the selection with
// wrap-around, sharing the screen width among the extra columns, and
// keeping the selected row inside the visible window.

module TextList {

  /** advance_index: moves i by direction, wrapping to the last item when it
      falls below 0 and to the first when it passes the end. */
  method AdvanceIndex(i: int, direction: int, maxCount: int) returns (j: int)
    ensures 0 <= i < maxCount ==> 0 <= j < maxCount
    ensures 0 <= i + direction < maxCount ==> j == i + direction
    ensures 0 <= i < maxCount && (direction == 1 || direction == -1) ==> j == (i + direction) % maxCount
  {
    j := i + direction;
    if direction < 0 {
      if j < 0 {
        j := maxCount - 1;
      }
    } else {
      if j >= maxCount {
        j := 0;
      }
    }
  }

  // ---------------------------------------------------------------------
  // The widths of the extra columns.

  /** The number of columns that hold any text. */
  function NonEmpty(longest: seq<int>): (n: nat)
    ensures n <= |longest|
  {
    if longest == [] then 0 else (if longest[0] != 0 then 1 else 0) + NonEmpty(longest[1..])
  }

  /** The number of columns still waiting for a width. */
  function Count(pending: seq<bool>): (n: nat)
    ensures n <= |pending|
  {
    if pending == [] then 0 else (if pending[0] then 1 else 0) + Count(pending[1..])
  }

  function Sum(s: seq<int>): int
  {
    if s == [] then 0 else s[0] + Sum(s[1..])
  }

  lemma {:induction false} SumUpdate(s: seq<int>, k: nat, v: int)
    requires k < |s|
    ensures Sum(s[k := v]) == Sum(s) - s[k] + v
    decreases |s|
  {
    if k > 0 {
      SumUpdate(s[1..], k - 1, v);
      assert s[k := v][1..] == s[1..][k - 1 := v];
    }
  }

  lemma {:induction false} SumZero(s: seq<int>)
    requires forall j :: 0 <= j < |s| ==> s[j] == 0
    ensures Sum(s) == 0
    decreases |s|
  {
    if s != [] {
      SumZero(s[1..]);
    }
  }

  lemma {:induction false} CountUpdate(p: seq<bool>, k: nat)
    requires k < |p| && p[k]
    ensures Count(p[k := false]) == Count(p) - 1
    decreases |p|
  {
    if k > 0 {
      CountUpdate(p[1..], k - 1);
      assert p[k := false][1..] == p[1..][k - 1 := false];
    }
  }

  lemma {:induction false} CountZero(p: seq<bool>)
    requires Count(p) == 0
    ensures forall j :: 0 <= j < |p| ==> !p[j]
    decreases |p|
  {
    if p != [] {
      CountZero(p[1..]);
      assert forall j :: 1 <= j < |p| ==> p[j] == p[1..][j - 1];
    }
  }

  /** The pending flags set from the longest texts count the non-empty
      columns. */
  lemma {:induction false} CountNonEmpty(p: seq<bool>, longest: seq<int>)
    requires |p| == |longest|
    requires forall j :: 0 <= j < |p| ==> p[j] == (longest[j] != 0)
    ensures Count(p) == NonEmpty(longest)
    decreases |p|
  {
    if p != [] {
      CountNonEmpty(p[1..], longest[1..]);
    }
  }

  /** The share threshold `available / divisor` of calc_widths never hands
      out more than the available width. */
  lemma DivBound(a: int, d: int)
    requires a >= 0 && d > 0
    ensures d * (a / d) <= a && a / d >= 0
  {
  }

  /** Settling one column at the threshold leaves one divisor fewer and
      takes one threshold off the width owed. */
  lemma MulStep(d: int, t: int)
    ensures (d - 1) * t == d * t - t
    ensures t * d == t * (d - 1) + t
  {
  }

  /** Lets the share pass write the width it hands out as threshold times
      the number of columns as well as columns times threshold. */
  lemma MulCommutes(d: int, t: int)
    ensures d * t == t * d
  {
  }

  /** No column is wider than its longest text, a column whose longest text
      is within the bound gets exactly that width, and all the columns that
      are cut get the same width. */
  ghost predicate Fair(w: seq<int>, longest: seq<int>, bound: int)
    requires |w| == |longest|
  {
    (forall c :: 0 <= c < |w| ==> 0 <= w[c] <= longest[c]) &&
    (forall c :: 0 <= c < |w| && 0 < longest[c] <= bound ==> w[c] == longest[c]) &&
    (forall c, d :: 0 <= c < |w| && 0 <= d < |w| && w[c] < longest[c] && w[d] < longest[d] ==> w[c] == w[d])
  }

  lemma ZeroIsFair(w: seq<int>, longest: seq<int>)
    requires |w| == |longest|
    requires forall c :: 0 <= c < |w| ==> w[c] == 0 && longest[c] >= 0
    ensures Fair(w, longest, 0)
  {
  }

  /** The widths calc_widths settles on for its last threshold t: each
      column whose longest text fits in t gets that text's width (an empty
      column gets 0), and every other column is cut to t. */
  ghost predicate FairAt(w: seq<int>, longest: seq<int>, t: int)
    requires |w| == |longest|
  {
    forall c :: 0 <= c < |w| ==> w[c] == (if longest[c] <= t then longest[c] else t)
  }

  /** The number of columns whose longest text does not fit in t. */
  function CutCount(longest: seq<int>, t: int): (n: nat)
    ensures n <= |longest|
  {
    if longest == [] then 0 else (if longest[0] > t then 1 else 0) + CutCount(longest[1..], t)
  }

  /** Pending flags that mark exactly the columns longer than t count the
      columns cut at t. */
  lemma {:induction false} CountCut(p: seq<bool>, longest: seq<int>, t: int)
    requires |p| == |longest|
    requires forall j :: 0 <= j < |p| ==> p[j] == (longest[j] > t)
    ensures Count(p) == CutCount(longest, t)
    decreases |p|
  {
    if p != [] {
      CountCut(p[1..], longest[1..], t);
    }
  }

  /** The widths for a last threshold at or above the first share meet the
      fairness property for that share. */
  lemma FairAtIsFair(w: seq<int>, longest: seq<int>, t: int, bound: int)
    requires |w| == |longest| && FairAt(w, longest, t) && bound <= t && 0 <= t
    requires forall c :: 0 <= c < |w| ==> longest[c] >= 0
    ensures Fair(w, longest, bound)
  {
  }

  /** After a pass at threshold, every column no longer pending fits in it:
      those settled in the pass by the test, the others since an earlier,
      smaller threshold. */
  lemma SettledFit(p0: seq<bool>, p: seq<bool>, longest: seq<int>, t: int, threshold: int)
    requires |p0| == |p| == |longest| && t <= threshold
    requires forall j :: 0 <= j < |p0| && !p0[j] ==> longest[j] <= t
    requires forall j :: 0 <= j < |p| && !p[j] && p0[j] ==> longest[j] <= threshold
    ensures forall j :: 0 <= j < |p| && !p[j] ==> longest[j] <= threshold
  {
  }

  /** Columns still pending cut to t, and all others at their longest text
      within t, are the widths for the last threshold t, and the pending
      ones are exactly those cut. */
  lemma SharedAt(w: seq<int>, longest: seq<int>, p: seq<bool>, t: int)
    requires |w| == |longest| == |p|
    requires forall j :: 0 <= j < |p| ==>
               if p[j] then w[j] == t < longest[j] else w[j] == longest[j] <= t
    ensures FairAt(w, longest, t) && Count(p) == CutCount(longest, t)
  {
    CountCut(p, longest, t);
  }

  /** Once the columns settled in a pass are paid, what is left still
      covers the old threshold for each remaining column, so the next
      threshold of calc_widths is never smaller. */
  lemma DivAtLeast(a: int, d: int, t: int)
    requires d > 0 && a >= d * t
    ensures a / d >= t
  {
    var q, r := a / d, a % d;
    assert a == d * q + r && r < d;
    if q < t {
      MulMono(d, q, t - 1);
      assert false;
    }
  }

  lemma MulNonNeg(d: int, t: int)
    requires d >= 0 && t >= 0
    ensures d * t >= 0
  {
  }

  lemma MulMono(d: int, x: int, y: int)
    requires d > 0 && x <= y
    ensures d * x <= d * y
  {
    assert d * y - d * x == d * (y - x);
  }

  /** Sharing one threshold `available / divisor` among divisor columns
      leaves less than one cell per column. */
  lemma DivRemainder(a: int, d: int)
    requires a >= 0 && d > 0
    ensures 0 <= a - d * (a / d) < d
  {
  }

  /** addl_columns: the longest text of each extra column and the width
      chosen for it. */
  class Columns {
    const longest: array<int>
    const layoutWidth: array<int>
    /** The space kept in front of each column that holds text (at most 2). */
    const colPadding: nat

    ghost predicate Valid()
      reads this, longest
    {
      longest != layoutWidth && longest.Length == layoutWidth.Length && colPadding <= 2 &&
      forall c :: 0 <= c < longest.Length ==> longest[c] >= 0
    }

    constructor(n: nat, padding: nat)
      requires padding <= 2
      ensures Valid() && longest.Length == n && colPadding == padding
      ensures forall c :: 0 <= c < n ==> longest[c] == 0 && layoutWidth[c] == 0
      ensures fresh(longest) && fresh(layoutWidth)
    {
      longest := new int[n](_ => 0);
      layoutWidth := new int[n](_ => 0);
      colPadding := padding;
    }

    /** The width left once each column that holds text has its padding. */
    ghost function AfterPadding(available: int): int
      reads this, longest
    {
      available - colPadding * NonEmpty(longest[..])
    }

    /** The share of the width each column that holds text may take before
        any is cut. */
    ghost function FairShare(available: int): int
      reads this, longest
    {
      if AfterPadding(available) > 0 && NonEmpty(longest[..]) > 0
      then AfterPadding(available) / NonEmpty(longest[..]) else 0
    }

    /** Every column still pending has width 0 and some text; every other
        column has exactly its longest text. */
    ghost predicate Settled(pending: array<bool>)
      reads this, longest, layoutWidth, pending
      requires pending.Length == layoutWidth.Length == longest.Length
    {
      forall j :: 0 <= j < pending.Length ==>
        if pending[j] then layoutWidth[j] == 0 && longest[j] > 0 else layoutWidth[j] == longest[j]
    }

    /** The first steps of calc_widths: all widths 0, each column that holds
        text pending, and its padding taken from the width available. */
    method MarkPending(available: int) returns (pending: array<bool>, avail: int)
      requires Valid()
      modifies layoutWidth
      ensures fresh(pending) && pending.Length == layoutWidth.Length
      ensures forall j :: 0 <= j < pending.Length ==> pending[j] == (longest[j] != 0) && layoutWidth[j] == 0
      ensures avail == AfterPadding(available) && Sum(layoutWidth[..]) == 0
    {
      var n := layoutWidth.Length;
      var k := 0;
      while k < n
        invariant 0 <= k <= n
        invariant forall j :: 0 <= j < k ==> layoutWidth[j] == 0
      {
        layoutWidth[k] := 0;
        k := k + 1;
      }
      pending := new bool[n](_ => false);
      avail := available;
      var col := n;
      while col > 0
        invariant 0 <= col <= n
        invariant forall j :: col <= j < n ==> pending[j] == (longest[j] != 0)
        invariant forall j :: 0 <= j < col ==> !pending[j]
        invariant avail == available - colPadding * NonEmpty(longest[col..])
        modifies pending
      {
        col := col - 1;
        assert longest[col..][1..] == longest[col + 1..];
        if longest[col] != 0 {
          pending[col] := true;
          avail := avail - colPadding;
        }
      }
      assert longest[0..] == longest[..];
      SumZero(layoutWidth[..]);
    }

    /** The number of pending columns. */
    method CountPending(pending: array<bool>) returns (divisor: int)
      ensures divisor == Count(pending[..])
    {
      divisor := 0;
      var col := pending.Length;
      while col > 0
        invariant 0 <= col <= pending.Length
        invariant divisor == Count(pending[col..])
      {
        col := col - 1;
        assert pending[col..][1..] == pending[col + 1..];
        if pending[col] {
          divisor := divisor + 1;
        }
      }
      assert pending[0..] == pending[..];
    }

    /** Gives pending column col exactly its longest text. */
    method SettleColumn(pending: array<bool>, col: nat, avail0: int, divisor0: int, threshold: int, ghost a: int)
      returns (avail: int, divisor: int)
      requires Valid() && pending.Length == layoutWidth.Length && Settled(pending)
      requires col < pending.Length && pending[col] && longest[col] <= threshold
      requires divisor0 == Count(pending[..])
      requires avail0 == a - Sum(layoutWidth[..]) && avail0 >= divisor0 * threshold
      modifies layoutWidth, pending
      ensures Valid() && Settled(pending)
      ensures pending[..] == old(pending[..])[col := false]
      ensures divisor == divisor0 - 1 == Count(pending[..])
      ensures avail == a - Sum(layoutWidth[..]) && avail >= divisor * threshold
    {
      SumUpdate(layoutWidth[..], col, longest[col]);
      CountUpdate(pending[..], col);
      MulStep(divisor0, threshold);
      layoutWidth[col] := longest[col];
      avail := avail0 - longest[col];
      divisor := divisor0 - 1;
      pending[col] := false;
    }

    /** One pass of calc_widths: each pending column whose longest text fits
        in the threshold gets exactly that width. */
    method SettlePass(pending: array<bool>, avail0: int, divisor0: int, threshold: int, ghost a: int)
      returns (avail: int, divisor: int, share: bool)
      requires Valid() && pending.Length == layoutWidth.Length && Settled(pending)
      requires divisor0 == Count(pending[..]) && threshold >= 0
      requires avail0 == a - Sum(layoutWidth[..]) && avail0 >= divisor0 * threshold
      modifies layoutWidth, pending
      ensures Valid() && Settled(pending)
      ensures 0 <= divisor == Count(pending[..]) <= divisor0 && (share <==> divisor == divisor0)
      ensures share ==> avail == avail0
      ensures avail == a - Sum(layoutWidth[..]) && avail >= divisor * threshold
      ensures forall j :: 0 <= j < pending.Length && pending[j] ==> longest[j] > threshold && old(pending[j])
      ensures forall j :: 0 <= j < pending.Length && !pending[j] && old(pending[j]) ==> longest[j] <= threshold
    {
      avail, divisor, share := avail0, divisor0, true;
      var col := pending.Length;
      while col > 0
        invariant 0 <= col <= pending.Length
        invariant Valid() && Settled(pending)
        invariant 0 <= divisor == Count(pending[..]) <= divisor0
        invariant share <==> divisor == divisor0
        invariant share ==> avail == avail0
        invariant avail == a - Sum(layoutWidth[..]) && avail >= divisor * threshold
        invariant forall j :: col <= j < pending.Length && pending[j] ==> longest[j] > threshold
        invariant forall j :: 0 <= j < pending.Length && pending[j] ==> old(pending[j])
        invariant forall j :: 0 <= j < pending.Length && !pending[j] && old(pending[j]) ==> longest[j] <= threshold
      {
        col := col - 1;
        if pending[col] && longest[col] <= threshold {
          avail, divisor := SettleColumn(pending, col, avail, divisor, threshold, a);
          share := false;
        }
      }
    }

    /** The last pass of calc_widths: no pending column fits, so each gets
        the same share. */
    method SharePass(pending: array<bool>, avail0: int, threshold: int, ghost a: int) returns (avail: int)
      requires Valid() && pending.Length == layoutWidth.Length && Settled(pending)
      requires forall j :: 0 <= j < pending.Length && pending[j] ==> longest[j] > threshold
      requires avail0 == a - Sum(layoutWidth[..]) && avail0 >= threshold * Count(pending[..]) && threshold >= 0
      modifies layoutWidth
      ensures Valid() && avail == a - Sum(layoutWidth[..]) && avail >= 0
      ensures avail == avail0 - threshold * Count(pending[..])
      ensures forall j :: 0 <= j < pending.Length ==>
                if pending[j] then layoutWidth[j] == threshold < longest[j] else layoutWidth[j] == longest[j]
    {
      avail := avail0;
      var col := pending.Length;
      while col > 0
        invariant 0 <= col <= pending.Length
        invariant Valid()
        invariant avail == a - Sum(layoutWidth[..])
        invariant avail == avail0 - threshold * Count(pending[col..])
        invariant forall j :: 0 <= j < col ==>
                    if pending[j] then layoutWidth[j] == 0 else layoutWidth[j] == longest[j]
        invariant forall j :: col <= j < pending.Length ==>
                    if pending[j] then layoutWidth[j] == threshold else layoutWidth[j] == longest[j]
      {
        col := col - 1;
        assert pending[col..][1..] == pending[col + 1..];
        if pending[col] {
          SumUpdate(layoutWidth[..], col, threshold);
          MulStep(Count(pending[col..]), threshold);
          layoutWidth[col] := threshold;
          avail := avail - threshold;
        }
      }
      assert pending[0..] == pending[..];
    }

    /** The passes of calc_widths once the padding is taken: settle the
        columns that fit, then share the rest.  The ghost result is the last
        threshold used. */
    method Distribute(pending: array<bool>, avail0: int, ghost bound: int) returns (avail: int, ghost t: int)
      requires Valid() && pending.Length == layoutWidth.Length && Settled(pending)
      requires forall j :: 0 <= j < pending.Length && !pending[j] ==> longest[j] == 0
      requires avail0 > 0 && Sum(layoutWidth[..]) == 0
      requires bound == if Count(pending[..]) > 0 then avail0 / Count(pending[..]) else 0
      modifies layoutWidth, pending
      ensures Valid() && avail == avail0 - Sum(layoutWidth[..]) && avail >= 0
      ensures bound <= t && FairAt(layoutWidth[..], longest[..], t)
      ensures CutCount(longest[..], t) > 0 ==> avail < CutCount(longest[..], t)
      ensures Fair(layoutWidth[..], longest[..], bound)
    {
      ghost var a := avail0;
      avail := avail0;
      var divisor := CountPending(pending);
      if divisor > 0 {
        DivBound(avail, divisor);
      }
      t := bound;
      while divisor != 0
        invariant Valid() && Settled(pending)
        invariant divisor == Count(pending[..])
        invariant avail == a - Sum(layoutWidth[..]) && avail >= 0
        invariant 0 <= bound <= t && avail >= divisor * t
        invariant forall j :: 0 <= j < pending.Length && !pending[j] ==> longest[j] <= t
        decreases divisor
      {
        var threshold := avail / divisor;
        DivBound(avail, divisor);
        DivAtLeast(avail, divisor, t);
        ghost var before, d0, p0 := avail, divisor, pending[..];
        var share;
        avail, divisor, share := SettlePass(pending, avail, divisor, threshold, a);
        SettledFit(p0, pending[..], longest[..], t, threshold);
        MulNonNeg(divisor, threshold);
        t := threshold;
        if share {
          MulCommutes(divisor, threshold);
          avail := SharePass(pending, avail, threshold, a);
          DivRemainder(before, d0);
          SharedAt(layoutWidth[..], longest[..], pending[..], t);
          FairAtIsFair(layoutWidth[..], longest[..], t, bound);
          return avail, t;
        }
      }
      CountZero(pending[..]);
      SharedAt(layoutWidth[..], longest[..], pending[..], t);
      FairAtIsFair(layoutWidth[..], longest[..], t, bound);
    }

    /** calc_widths: gives each column that fits in an equal share of the
        width exactly its longest text, shares what remains equally among
        the others, and returns the width not given to any column. */
    method CalcWidths(available: int) returns (r: int)
      requires Valid()
      modifies layoutWidth
      ensures Valid()
      ensures r == AfterPadding(available) - Sum(layoutWidth[..])
      ensures AfterPadding(available) > 0 ==> r >= 0
      ensures AfterPadding(available) <= 0 ==> forall c :: 0 <= c < layoutWidth.Length ==> layoutWidth[c] == 0
      ensures Fair(layoutWidth[..], longest[..], FairShare(available))
      ensures exists t :: FairShare(available) <= t && FairAt(layoutWidth[..], longest[..], t) &&
                (r >= 0 && CutCount(longest[..], t) > 0 ==> r < CutCount(longest[..], t))
    {
      var pending, avail := MarkPending(available);
      if avail <= 0 {
        ZeroIsFair(layoutWidth[..], longest[..]);
        assert FairAt(layoutWidth[..], longest[..], 0);
      } else {
        CountNonEmpty(pending[..], longest[..]);
        ghost var t;
        avail, t := Distribute(pending, avail, FairShare(available));
        assert FairAt(layoutWidth[..], longest[..], t);
      }
      r := avail;
    }
  }

  /** The widths the sharing step of calc_widths assigns as written: each
      column visited, from the last down, gets the width left divided by the
      number of columns pending, while the width left drops by a full share
      each time. */
  function ShareAsWritten(pending: seq<bool>, avail: int, divisor: int, threshold: int): (w: seq<int>)
    requires divisor > 0
    ensures |w| == |pending|
    decreases |pending|
  {
    if pending == [] then []
    else
      var last := |pending| - 1;
      if pending[last] then
        ShareAsWritten(pending[..last], avail - threshold, divisor, threshold) + [avail / divisor]
      else
        ShareAsWritten(pending[..last], avail, divisor, threshold) + [0]
  }

  /** Two columns of 20 cells with 10 cells to share: as written they get 2
      and 5 cells while calc_widths reports no width left over, so 3 cells go
      to nobody; each should get the share of 5. */
  lemma ShareAsWrittenLosesWidth()
    ensures ShareAsWritten([true, true], 10, 2, 10 / 2) == [2, 5]
    ensures 10 - 2 * (10 / 2) == 0
  {
    assert [true, true][..1] == [true];
    assert [true][..0] == [];
  }

  // ---------------------------------------------------------------------
  // The visible window.

  /** The part of the list state that scrolling reads and writes. */
  class Window {
    var top: int
    var index: int
    var count: int
    var visibleRows: int
    var prevDisplayed: int

    /** The highest top that still fills the window. */
    function MaxTop(): int
      reads this
    {
      if count - visibleRows > 0 then count - visibleRows else 0
    }

    ghost predicate Valid()
      reads this
    {
      0 <= count && 0 <= visibleRows && 0 <= top <= MaxTop()
    }

    constructor(count: nat, visibleRows: nat)
      ensures Valid() && top == 0 && index == 0 && prevDisplayed == -1
      ensures this.count == count && this.visibleRows == visibleRows
    {
      this.count := count;
      this.visibleRows := visibleRows;
      top, index, prevDisplayed := 0, 0, -1;
    }

    /** set_top: a new top forgets what was displayed, so the whole window is
        drawn again; the same top changes nothing. */
    method SetTop(t: int)
      requires Valid() && 0 <= t <= MaxTop()
      modifies this
      ensures Valid() && top == t
      ensures prevDisplayed == if t != old(top) then -1 else old(prevDisplayed)
      ensures index == old(index) && count == old(count) && visibleRows == old(visibleRows)
    {
      if t != top {
        top := t;
        prevDisplayed := -1;
      }
    }

    /** The number of rows the window shows. */
    function Rows(): int
      reads this
    {
      if count < visibleRows then count else visibleRows
    }

    /** update_top: scrolls as little as possible to bring the selected row
        into the window. */
    method UpdateTop()
      requires Valid() && 0 <= index && (index < count || index == 0)
      modifies this
      ensures Valid()
      ensures index == old(index) && count == old(count) && visibleRows == old(visibleRows)
      ensures index < count && visibleRows > 0 ==> top <= index < top + Rows()
      ensures old(top) <= index < old(top) + Rows() ==> top == old(top) && prevDisplayed == old(prevDisplayed)
    {
      var y := index;
      if top > y {
        SetTop(y);
      } else {
        var rows := Rows();
        var t := y - (if rows - 1 > 0 then rows - 1 else 0);
        if t < 0 {
          t := 0;
        }
        if top < t {
          SetTop(t);
        }
      }
    }
  }
}
