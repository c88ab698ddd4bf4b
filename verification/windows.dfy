/**
 * The date-window chunking of `collect_issuer_data`. The two endpoints share
 * their time of day and every step is a whole number of days, so a date is
 * an integer day number and a window `[from, to]` is inclusive at both ends.
 */
module Windows {

  /** `timedelta(days=365)`: the length added to a window's start. */
  const WindowDays := 365
  /** `timedelta(days=365 * 10)`: how far before `end` the first window starts. */
  const SpanDays := 3650
  datatype Window = Window(from: int, to: int)

  function Min(a: int, b: int): int {
    if a <= b then a else b
  }

  /** `min(start_date + timedelta(days=365), end_date)`. */
  function ChunkEnd(start: int, end: int): int {
    Min(start + WindowDays, end)
  }

  predicate Contains(w: Window, day: int) {
    w.from <= day <= w.to
  }

  /**
   * The windows the loop requests, starting at `start`: while `start < end`
   * request `[start, ChunkEnd(start, end)]` and continue the day after it.
   * The recursion ends for every `start` and `end`: `end - start` shrinks.
   */
  function Windows(start: int, end: int): seq<Window>
    decreases end - start
  {
    if start >= end then []
    else
      var chunkEnd := ChunkEnd(start, end);
      [Window(start, chunkEnd)] + Windows(chunkEnd + 1, end)
  }

  /**
   * Bounds and succession: there are windows exactly when `start < end`;
   * the first starts at `start`; each starts before `end`, ends no later
   * than `end` and spans at most 365 days after its start; each starts the
   * day after the previous one ends; the last ends no earlier than `end - 1`.
   */
  lemma {:induction false} WindowsBounds(start: int, end: int)
    ensures var ws := Windows(start, end);
      && (|ws| > 0 <==> start < end)
      && (|ws| > 0 ==> ws[0].from == start && ws[|ws| - 1].to >= end - 1)
      && (forall k :: 0 <= k < |ws| ==>
            && start <= ws[k].from < end
            && ws[k].from <= ws[k].to <= end
            && ws[k].to - ws[k].from <= WindowDays)
      && (forall k :: 0 < k < |ws| ==> ws[k].from == ws[k - 1].to + 1)
    decreases end - start
  {
    if start < end {
      var chunkEnd := ChunkEnd(start, end);
      WindowsBounds(chunkEnd + 1, end);
      var ws := Windows(start, end);
      var rest := Windows(chunkEnd + 1, end);
      assert ws == [Window(start, chunkEnd)] + rest;
      forall k | 0 < k < |ws|
        ensures ws[k].from == ws[k - 1].to + 1
      {
        if k > 1 {
          assert ws[k] == rest[k - 1] && ws[k - 1] == rest[k - 2];
        }
      }
    }
  }

  /** One step of the loop: the first window, then the windows from the day after it. */
  lemma WindowsStep(start: int, end: int)
    requires start < end
    ensures Windows(start, end)
      == [Window(start, ChunkEnd(start, end))] + Windows(ChunkEnd(start, end) + 1, end)
  {
  }

  /**
   * The k-th window in closed form. Successive starts are 366 days apart:
   * a window of `WindowDays` days after its start plus the one-day step.
   * The distance is written as the literal 366 throughout so that the
   * solver sees linear arithmetic.
   */
  function NthWindow(start: int, end: int, k: int): Window {
    Window(start + 366 * k, ChunkEnd(start + 366 * k, end))
  }

  /** Every window the loop requests is given by the closed form. */
  lemma {:induction false} WindowsClosedForm(start: int, end: int)
    ensures var ws := Windows(start, end);
      forall k :: 0 <= k < |ws| ==> ws[k] == NthWindow(start, end, k)
    decreases end - start
  {
    if start < end {
      var next := ChunkEnd(start, end) + 1;
      var ws := Windows(start, end);
      var rest := Windows(next, end);
      assert ws == [Window(start, ChunkEnd(start, end))] + rest;
      WindowsClosedForm(next, end);
      WindowsBounds(next, end);
      if |rest| > 0 {
        assert next == start + 366;
        forall k | 0 < k < |ws|
          ensures ws[k] == NthWindow(start, end, k)
        {
          assert ws[k] == rest[k - 1] == NthWindow(next, end, k - 1);
          assert start + 366 * k == next + 366 * (k - 1);
        }
      }
    }
  }

  /** Number of windows: the span `end - start` divided by 366, rounded up. */
  lemma {:induction false} WindowsCount(start: int, end: int)
    requires start < end
    ensures |Windows(start, end)| == (end - start + WindowDays) / 366
    decreases end - start
  {
    var next := ChunkEnd(start, end) + 1;
    if next < end {
      WindowsCount(next, end);
      assert next == start + 366;
    }
  }

  /** Earlier windows end strictly before later ones start: no day is requested twice. */
  lemma WindowsDisjoint(start: int, end: int, k: int, l: int)
    requires 0 <= k < l < |Windows(start, end)|
    ensures Windows(start, end)[k].to < Windows(start, end)[l].from
  {
    WindowsClosedForm(start, end);
  }

  /**
   * Every day in `[start, end)` lies in exactly one window, the one whose
   * index is the day's offset divided by 366.
   */
  lemma WindowsCover(start: int, end: int, day: int)
    requires start <= day < end
    ensures var ws := Windows(start, end);
      var k := (day - start) / 366;
      && k < |ws| && Contains(ws[k], day)
      && forall l :: 0 <= l < |ws| && Contains(ws[l], day) ==> l == k
  {
    var ws := Windows(start, end);
    var k := (day - start) / 366;
    WindowsClosedForm(start, end);
    WindowsCount(start, end);
    assert |ws| == (end - start + 365) / 366;
    assert 366 * k <= day - start < 366 * k + 366;
    assert k < |ws|;
    assert ws[k] == NthWindow(start, end, k);
    forall l | 0 <= l < |ws| && Contains(ws[l], day)
      ensures l == k
    {
      assert ws[l] == NthWindow(start, end, l);
    }
  }

  /**
   * The last window reaches `end` itself unless the span is a multiple of
   * 366 days: then the last window ends at `end - 1`, the next start is
   * `end`, and the loop stops without requesting the final day.
   */
  lemma LastWindowEnd(start: int, end: int)
    requires start < end
    ensures var ws := Windows(start, end);
      ws[|ws| - 1].to == end <==> (end - start) % 366 != 0
  {
    var ws := Windows(start, end);
    var n := |ws|;
    WindowsClosedForm(start, end);
    WindowsCount(start, end);
    assert n == (end - start + 365) / 366;
    var q, rem := (end - start) / 366, (end - start) % 366;
    assert end - start == 366 * q + rem;
    assert ws[n - 1] == NthWindow(start, end, n - 1);
    if rem == 0 {
      assert n == q;
    } else {
      assert n == q + 1;
    }
  }

  /**
   * The scraper's span: ten windows back to back, the first starting 3650
   * days before `end` and the last ending exactly at `end`, so the final
   * day is requested.
   */
  lemma TenYearSpan(end: int)
    ensures var ws := Windows(end - SpanDays, end);
      && |ws| == 10
      && ws[0].from == end - SpanDays
      && ws[9].to == end
      && forall k :: 0 < k < 10 ==> ws[k].from == ws[k - 1].to + 1
  {
    WindowsBounds(end - SpanDays, end);
    WindowsCount(end - SpanDays, end);
    LastWindowEnd(end - SpanDays, end);
  }
}
