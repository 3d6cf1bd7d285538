/**
 * The token windows the scanner's loop produces over N token ids: windows
 * start at 0, stride, 2 * stride, ..., each covers at most tokensPerPage ids,
 * and the loop stops after the first window that reaches the end or when the
 * next start is past the end.
 */
module Windowing {

  /** The token index range [start, end). */
  datatype Window = Window(start: nat, end: nat)

  function Min(a: int, b: int): int {
    if a <= b then a else b
  }

  /** Division rounded up. */
  function CeilDiv(a: nat, b: nat): nat
    requires b > 0
  {
    (a + b - 1) / b
  }

  /** The windows of the loop once its index has reached i. */
  function ScheduleFrom(i: nat, n: nat, tokensPerPage: nat, stride: nat): seq<Window>
    requires stride > 0
    decreases n - i
  {
    if i >= n then []
    else [Window(i, Min(i + tokensPerPage, n))] +
         (if i + tokensPerPage >= n then [] else ScheduleFrom(i + stride, n, tokensPerPage, stride))
  }

  /** All windows of one scan over n token ids. */
  function Schedule(n: nat, tokensPerPage: nat, stride: nat): seq<Window>
    requires stride > 0
  {
    ScheduleFrom(0, n, tokensPerPage, stride)
  }

  /** One more stride: (k + 1) * stride == k * stride + stride. */
  lemma MulSucc(k: nat, stride: nat)
    ensures (k + 1) * stride == k * stride + stride
    ensures k * stride >= 0
  {
  }

  /**
   * The k-th window of the loop started at i begins k strides after i; it
   * exists exactly when that start is before the end and the window before
   * it did not reach the end.
   */
  lemma {:induction false} ScheduleFromAt(i: nat, n: nat, tokensPerPage: nat, stride: nat, k: nat)
    requires stride > 0
    ensures k < |ScheduleFrom(i, n, tokensPerPage, stride)| <==>
      i + k * stride < n && (k == 0 || i + (k - 1) * stride + tokensPerPage < n)
    ensures k < |ScheduleFrom(i, n, tokensPerPage, stride)| ==>
      ScheduleFrom(i, n, tokensPerPage, stride)[k] ==
        Window(i + k * stride, Min(i + k * stride + tokensPerPage, n))
    decreases k
  {
    if k > 0 {
      var j: nat := k - 1;
      MulSucc(j, stride);
      var start := i + k * stride;
      var prev := i + j * stride;
      assert start == prev + stride;
      if i < n && i + tokensPerPage < n {
        var t := ScheduleFrom(i + stride, n, tokensPerPage, stride);
        assert ScheduleFrom(i, n, tokensPerPage, stride) == [Window(i, Min(i + tokensPerPage, n))] + t;
        ScheduleFromAt(i + stride, n, tokensPerPage, stride, j);
        assert (i + stride) + j * stride == start;
        if j > 0 {
          MulSucc(j - 1, stride);
          assert (i + stride) + (j - 1) * stride == prev;
        }
      }
    }
  }

  /** The k-th window covers [k * stride, min(k * stride + tokensPerPage, n)). */
  lemma WindowAt(n: nat, tokensPerPage: nat, stride: nat, k: nat)
    requires stride > 0
    requires k < |Schedule(n, tokensPerPage, stride)|
    ensures Schedule(n, tokensPerPage, stride)[k] ==
      Window(k * stride, Min(k * stride + tokensPerPage, n))
  {
    ScheduleFromAt(0, n, tokensPerPage, stride, k);
  }

  /** There is a first window exactly when there are tokens, and it starts at 0. */
  lemma FirstWindow(n: nat, tokensPerPage: nat, stride: nat)
    requires stride > 0
    ensures |Schedule(n, tokensPerPage, stride)| > 0 <==> n > 0
    ensures n > 0 ==> Schedule(n, tokensPerPage, stride)[0] == Window(0, Min(tokensPerPage, n))
  {
    ScheduleFromAt(0, n, tokensPerPage, stride, 0);
  }

  /**
   * One step of the loop: after window k there is another exactly when
   * window k did not reach the end and the next start is before the end, and
   * the next one starts one stride later.
   */
  lemma NextWindow(n: nat, tokensPerPage: nat, stride: nat, k: nat)
    requires stride > 0
    requires k < |Schedule(n, tokensPerPage, stride)|
    ensures k + 1 < |Schedule(n, tokensPerPage, stride)| <==>
      Schedule(n, tokensPerPage, stride)[k].start + tokensPerPage < n &&
      Schedule(n, tokensPerPage, stride)[k].start + stride < n
    ensures k + 1 < |Schedule(n, tokensPerPage, stride)| ==>
      Schedule(n, tokensPerPage, stride)[k + 1] ==
        Window(Schedule(n, tokensPerPage, stride)[k].start + stride,
               Min(Schedule(n, tokensPerPage, stride)[k].start + stride + tokensPerPage, n))
  {
    ScheduleFromAt(0, n, tokensPerPage, stride, k);
    ScheduleFromAt(0, n, tokensPerPage, stride, k + 1);
    assert (k + 1) * stride == k * stride + stride;
  }

  /**
   * Every window is a non-empty range inside [0, n) of at most tokensPerPage
   * ids, and every window but the last holds exactly tokensPerPage ids.
   */
  lemma WindowBounds(n: nat, tokensPerPage: nat, stride: nat, k: nat)
    requires stride > 0 && tokensPerPage > 0
    requires k < |Schedule(n, tokensPerPage, stride)|
    ensures var w := Schedule(n, tokensPerPage, stride)[k];
      w.start < w.end <= n && w.end - w.start <= tokensPerPage
    ensures k + 1 < |Schedule(n, tokensPerPage, stride)| ==>
      var w := Schedule(n, tokensPerPage, stride)[k];
      w.end - w.start == tokensPerPage
  {
    ScheduleFromAt(0, n, tokensPerPage, stride, k);
    if k + 1 < |Schedule(n, tokensPerPage, stride)| {
      NextWindow(n, tokensPerPage, stride, k);
    }
  }

  /**
   * Consecutive windows share exactly tokensPerPage - stride ids (the
   * resolved overlap); when that is negative, ids between them are skipped.
   */
  lemma ConsecutiveWindowsOverlap(n: nat, tokensPerPage: nat, stride: nat, k: nat)
    requires stride > 0 && tokensPerPage > 0
    requires k + 1 < |Schedule(n, tokensPerPage, stride)|
    ensures Schedule(n, tokensPerPage, stride)[k + 1].start ==
      Schedule(n, tokensPerPage, stride)[k].start + stride
    ensures Schedule(n, tokensPerPage, stride)[k].end -
      Schedule(n, tokensPerPage, stride)[k + 1].start == tokensPerPage - stride
  {
    NextWindow(n, tokensPerPage, stride, k);
    WindowBounds(n, tokensPerPage, stride, k);
  }

  /** Window starts strictly increase, so no window occurs twice. */
  lemma StartsIncrease(n: nat, tokensPerPage: nat, stride: nat, a: nat, b: nat)
    requires stride > 0
    requires a < b < |Schedule(n, tokensPerPage, stride)|
    ensures Schedule(n, tokensPerPage, stride)[a].start < Schedule(n, tokensPerPage, stride)[b].start
    ensures Schedule(n, tokensPerPage, stride)[a] != Schedule(n, tokensPerPage, stride)[b]
  {
    WindowAt(n, tokensPerPage, stride, a);
    WindowAt(n, tokensPerPage, stride, b);
    assert b * stride == a * stride + (b - a) * stride;
    assert (b - a) * stride > 0;
  }

  /** No tokens, no windows. */
  lemma EmptyInputHasNoWindows(tokensPerPage: nat, stride: nat)
    requires stride > 0
    ensures Schedule(0, tokensPerPage, stride) == []
  {
  }

  /** A text that fits in one page gives exactly one window, over all of it. */
  lemma ShortInputHasOneWindow(n: nat, tokensPerPage: nat, stride: nat)
    requires stride > 0
    requires 0 < n <= tokensPerPage
    ensures Schedule(n, tokensPerPage, stride) == [Window(0, n)]
  {
  }

  /** Multiplying by a positive number keeps the order. */
  lemma MulMonotone(x: nat, y: nat, b: nat)
    requires x <= y
    ensures x * b <= y * b
  {
    var d := y - x;
    assert y * b == x * b + d * b;
  }

  /** c * b reaches a exactly from c = CeilDiv(a, b) on. */
  lemma CeilDivIsLeast(a: nat, b: nat, c: nat)
    requires b > 0
    ensures c * b >= a <==> c >= CeilDiv(a, b)
  {
    var q := CeilDiv(a, b);
    var r := (a + b - 1) % b;
    assert a + b - 1 == q * b + r && 0 <= r < b;
    assert q * b >= a;
    if c >= q {
      MulMonotone(q, c, b);
    } else {
      assert q >= 1;
      var p: nat := q - 1;
      assert q * b == p * b + b;
      assert p * b < a;
      MulMonotone(c, p, b);
    }
  }

  /** Window k exists exactly when k is below both bounds of WindowCount. */
  lemma WindowExists(n: nat, tokensPerPage: nat, stride: nat, k: nat)
    requires stride > 0
    ensures k < |Schedule(n, tokensPerPage, stride)| <==>
      k < Min(CeilDiv(n, stride), CeilDiv(if n > tokensPerPage then n - tokensPerPage else 0, stride) + 1)
  {
    var m: nat := if n > tokensPerPage then n - tokensPerPage else 0;
    ScheduleFromAt(0, n, tokensPerPage, stride, k);
    CeilDivIsLeast(n, stride, k);
    assert k * stride < n <==> k < CeilDiv(n, stride);
    if k > 0 {
      var p: nat := k - 1;
      CeilDivIsLeast(m, stride, p);
      assert p * stride + tokensPerPage < n <==> p * stride < m;
      assert p * stride < m <==> p < CeilDiv(m, stride);
    }
  }

  /**
   * The number of windows: the loop stops at the first window that reaches
   * the end, or earlier when the next start is already past the end.
   */
  lemma WindowCount(n: nat, tokensPerPage: nat, stride: nat)
    requires stride > 0
    ensures |Schedule(n, tokensPerPage, stride)| ==
      Min(CeilDiv(n, stride), CeilDiv(if n > tokensPerPage then n - tokensPerPage else 0, stride) + 1)
  {
    var len := |Schedule(n, tokensPerPage, stride)|;
    var m := Min(CeilDiv(n, stride), CeilDiv(if n > tokensPerPage then n - tokensPerPage else 0, stride) + 1);
    WindowExists(n, tokensPerPage, stride, len);
    WindowExists(n, tokensPerPage, stride, m);
  }

  /**
   * When the resolved overlap is not negative (stride <= tokensPerPage) and
   * the text is longer than a page, the count is
   * ceil((n - tokensPerPage) / stride) + 1 and the last window reaches the end.
   */
  lemma LongInputWindowCount(n: nat, tokensPerPage: nat, stride: nat)
    requires 0 < stride <= tokensPerPage < n
    ensures |Schedule(n, tokensPerPage, stride)| == CeilDiv(n - tokensPerPage, stride) + 1
    ensures var s := Schedule(n, tokensPerPage, stride);
      s[|s| - 1].start + tokensPerPage >= n && s[|s| - 1].end == n
  {
    var c1 := CeilDiv(n - tokensPerPage, stride);
    var c2 := CeilDiv(n, stride);
    CeilDivIsLeast(n - tokensPerPage, stride, c1);
    if c1 > 0 {
      CeilDivIsLeast(n - tokensPerPage, stride, c1 - 1);
    }
    assert c1 * stride < n by {
      if c1 > 0 {
        assert c1 * stride == (c1 - 1) * stride + stride;
      }
    }
    CeilDivIsLeast(n, stride, c1);
    WindowCount(n, tokensPerPage, stride);
    WindowAt(n, tokensPerPage, stride, c1);
  }

  /**
   * With a non-negative overlap every token index is in some window: each
   * window is followed by one that starts no later than its end, until one
   * reaches the end.
   */
  lemma {:induction false} ScheduleFromCovers(i: nat, n: nat, tokensPerPage: nat, stride: nat, j: nat)
    requires 0 < stride <= tokensPerPage
    requires i <= j < n
    ensures exists k :: 0 <= k < |ScheduleFrom(i, n, tokensPerPage, stride)| &&
               ScheduleFrom(i, n, tokensPerPage, stride)[k].start <= j < ScheduleFrom(i, n, tokensPerPage, stride)[k].end
    decreases n - i
  {
    var s := ScheduleFrom(i, n, tokensPerPage, stride);
    if j < Min(i + tokensPerPage, n) {
      assert s[0].start <= j < s[0].end;
    } else {
      var t := ScheduleFrom(i + stride, n, tokensPerPage, stride);
      assert s == [s[0]] + t;
      ScheduleFromCovers(i + stride, n, tokensPerPage, stride, j);
      var k :| 0 <= k < |t| && t[k].start <= j < t[k].end;
      assert s[k + 1] == t[k];
    }
  }

  /** With a non-negative overlap, token j of n lies in some window. */
  lemma Coverage(n: nat, tokensPerPage: nat, stride: nat, j: nat)
    requires 0 < stride <= tokensPerPage
    requires j < n
    ensures exists k :: 0 <= k < |Schedule(n, tokensPerPage, stride)| &&
               Schedule(n, tokensPerPage, stride)[k].start <= j < Schedule(n, tokensPerPage, stride)[k].end
  {
    var s := Schedule(n, tokensPerPage, stride);
    ScheduleFromCovers(0, n, tokensPerPage, stride, j);
    var k :| 0 <= k < |s| && s[k].start <= j < s[k].end;
  }

  /** Pages of 4 with an overlap of 1 over 10 ids: windows at 0, 3 and 6. */
  lemma ExamplePageFourOverlapOne()
    ensures Schedule(10, 4, 3) == [Window(0, 4), Window(3, 7), Window(6, 10)]
  {
    assert ScheduleFrom(6, 10, 4, 3) == [Window(6, 10)];
    assert ScheduleFrom(3, 10, 4, 3) == [Window(3, 7), Window(6, 10)];
  }

  /**
   * A negative overlap skips ids: a configured overlap of -0.5 with pages of
   * 4 resolves to -2 (stride 6), and ids 4 and 5 of 10 are in no window.
   */
  lemma NegativeOverlapLeavesGap()
    ensures Schedule(10, 4, 6) == [Window(0, 4), Window(6, 10)]
    ensures forall k :: 0 <= k < |Schedule(10, 4, 6)| ==>
      !(Schedule(10, 4, 6)[k].start <= 4 < Schedule(10, 4, 6)[k].end)
  {
    assert ScheduleFrom(6, 10, 4, 6) == [Window(6, 10)];
  }
}
