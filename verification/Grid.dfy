/** Arithmetic progressions of minutes: the slots start, start+incr, start+2*incr, ... */
module Grids {

  ghost predicate OnGrid(start: int, incr: int, x: int)
    decreases x - start
  {
    x == start || (0 < incr && start + incr <= x && OnGrid(start, incr, x - incr))
  }

  /** The points of the grid are the numbers start + k * incr. */
  lemma {:induction false} OnGridMeaning(start: int, incr: int, x: int)
    requires incr > 0
    ensures OnGrid(start, incr, x) <==> exists k: nat :: x == start + k * incr
    decreases x - start
  {
    if x == start {
      assert x == start + 0 * incr;
    } else if start + incr <= x {
      OnGridMeaning(start, incr, x - incr);
      if OnGrid(start, incr, x) {
        var k: nat :| x - incr == start + k * incr;
        Distribute(k, -1, incr);
        assert x == start + (k + 1) * incr;
      }
      if k: nat :| x == start + k * incr {
        Distribute(k, 1, incr);
        assert x - incr == start + (k - 1) * incr;
      }
    } else {
      forall k: nat
        ensures x != start + k * incr
      {
        MultipleIsFar(k, incr);
      }
    }
  }

  /** A grid point above another on the same grid is at least one increment above it. */
  lemma {:induction false} NextGridPoint(start: int, incr: int, x: int, y: int)
    requires incr > 0 && OnGrid(start, incr, x) && OnGrid(start, incr, y) && x < y
    ensures x + incr <= y
    decreases x - start
  {
    if x != start {
      NextGridPoint(start, incr, x - incr, y - incr);
    }
  }

  lemma {:induction false} GridIsAbove(start: int, incr: int, x: int)
    requires OnGrid(start, incr, x)
    ensures start <= x
  {
  }

  /** From a grid point `from`, the grid points at or above it are the grid started there. */
  lemma {:induction false} OnGridFrom(start: int, incr: int, from: int, x: int)
    requires incr > 0 && OnGrid(start, incr, from)
    ensures OnGrid(from, incr, x) <==> OnGrid(start, incr, x) && from <= x
    decreases x - from
  {
    if from < x {
      if from + incr <= x {
        OnGridFrom(start, incr, from, x - incr);
      } else if OnGrid(start, incr, x) {
        NextGridPoint(start, incr, from, x);
      }
    }
  }

  /** At or above its start, the grid is the multiples of the increment. */
  lemma {:induction false} OnGridDivides(start: int, incr: int, x: int)
    requires incr > 0 && start <= x
    ensures OnGrid(start, incr, x) <==> (x - start) % incr == 0
    decreases x - start
  {
    if start + incr <= x {
      OnGridDivides(start, incr, x - incr);
      RemainderRepeats(x - incr - start, incr);
    }
  }

  lemma RemainderRepeats(a: int, n: int)
    requires n > 0
    ensures (a + n) % n == a % n
  {
    var q, r := a / n, a % n;
    assert a + n == (q + 1) * n + r;
    RemainderIsUnique(q + 1, r, (a + n) / n, (a + n) % n, n);
  }

  lemma RemainderIsUnique(q: int, r: int, q': int, r': int, n: int)
    requires q * n + r == q' * n + r' && 0 <= r < n && 0 <= r' < n
    ensures r == r'
  {
    Distribute(q', q, n);
    MultipleIsFar(q' - q, n);
  }

  lemma Distribute(a: int, b: int, n: int)
    ensures (a - b) * n == a * n - b * n
  {
  }

  lemma MultipleIsFar(d: int, n: int)
    requires n > 0
    ensures d > 0 ==> d * n >= n
    ensures d < 0 ==> d * n <= -n
  {
  }

  /** The grid points below i + incr are those below i, and i itself. */
  lemma GridBelow(start: int, incr: int, i: int)
    requires incr > 0 && OnGrid(start, incr, i)
    ensures forall x :: OnGrid(start, incr, x) && x < i + incr <==> (OnGrid(start, incr, x) && x < i) || x == i
  {
    forall x | OnGrid(start, incr, x) && i < x
      ensures i + incr <= x
    {
      NextGridPoint(start, incr, i, x);
    }
  }

  /** The first of from, from+incr, ... that is strictly after `now`. */
  ghost predicate IsFirstAfter(from: int, incr: int, now: int, x: int) {
    && OnGrid(from, incr, x) && now < x
    && forall y :: OnGrid(from, incr, y) && now < y ==> x <= y
  }

  function FirstAfter(from: int, incr: int, now: int): (x: int)
    requires incr > 0
    ensures from <= x && now < x
    ensures x == from || x - incr <= now
    decreases now - from
  {
    if now < from then from else FirstAfter(from + incr, incr, now)
  }

  lemma FirstAfterStep(from: int, incr: int, now: int)
    requires incr > 0
    ensures FirstAfter(from, incr, now) == if now < from then from else FirstAfter(from + incr, incr, now)
  {
  }

  lemma {:induction false} FirstAfterIsFirst(from: int, incr: int, now: int)
    requires incr > 0
    ensures IsFirstAfter(from, incr, now, FirstAfter(from, incr, now))
    decreases now - from
  {
    if now < from {
      forall y | OnGrid(from, incr, y)
        ensures from <= y
      {
        GridIsAbove(from, incr, y);
      }
    } else {
      FirstAfterIsFirst(from + incr, incr, now);
      var x := FirstAfter(from, incr, now);
      OnGridFrom(from, incr, from + incr, x);
      forall y | OnGrid(from, incr, y) && now < y
        ensures x <= y
      {
        NextGridPoint(from, incr, from, y);
        OnGridFrom(from, incr, from + incr, y);
      }
    }
  }

  /** The largest grid point not after `finish`. */
  ghost predicate IsLastSlot(start: int, incr: int, finish: int, x: int) {
    && OnGrid(start, incr, x) && x <= finish
    && forall y :: OnGrid(start, incr, y) && y <= finish ==> y <= x
  }

  lemma LastBeforeFirstAfter(start: int, incr: int, finish: int)
    requires incr > 0 && start <= finish
    ensures IsLastSlot(start, incr, finish, FirstAfter(start, incr, finish) - incr)
  {
    var after := FirstAfter(start, incr, finish);
    FirstAfterIsFirst(start, incr, finish);
    forall y | OnGrid(start, incr, y) && y <= finish
      ensures y <= after - incr
    {
      NextGridPoint(start, incr, y, after);
    }
  }

  /** Before the last slot there is always a slot still to come, from any slot not past finish. */
  lemma SlotStillToCome(start: int, incr: int, finish: int, last: int, from: int, now: int)
    requires incr > 0 && IsLastSlot(start, incr, finish, last)
    requires OnGrid(start, incr, from) && from <= finish && now < last
    ensures now < FirstAfter(from, incr, now) <= last
    ensures OnGrid(start, incr, FirstAfter(from, incr, now))
  {
    FirstAfterIsFirst(from, incr, now);
    OnGridFrom(start, incr, from, last);
    OnGridFrom(start, incr, from, FirstAfter(from, incr, now));
  }
}
