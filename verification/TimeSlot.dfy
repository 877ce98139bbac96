/** Hour/minute slots.  A slot stands for `60 * h + m` minutes; hours are not
    reduced modulo 24, so slots past midnight are ordinary values. */
module TimeSlots {

  datatype TimeSlot = TimeSlot(h: int, m: int) {

    predicate IsNull() { h == -1 && m == -1 }

    predicate Less(rhs: TimeSlot) {
      if h < rhs.h then true else h == rhs.h && m < rhs.m
    }

    predicate Greater(rhs: TimeSlot) {
      if h > rhs.h then true else h == rhs.h && m > rhs.m
    }

    predicate GreaterEq(rhs: TimeSlot) { Greater(rhs) || this == rhs }

    /** A slot as a number of minutes. */
    function Duration(): int { 60 * h + m }

    /** A slot whose minutes are in range, whatever its hours. */
    predicate Proper() { 0 <= h && 0 <= m < 60 }

    /** A slot inside one day. */
    predicate InDay() { Proper() && h <= 23 }
  }

  const NULL_SLOT := TimeSlot(-1, -1)

  /** The slot holding the hours and minutes of a non-negative duration. */
  function SlotOf(minutes: nat): (t: TimeSlot)
    ensures t.Proper() && t.Duration() == minutes
  {
    TimeSlot(minutes / 60, minutes % 60)
  }

  /** On proper slots the field-by-field operators are the order of the durations. */
  lemma OrderIsByDuration(a: TimeSlot, b: TimeSlot)
    requires a.Proper() && b.Proper()
    ensures a.Less(b) <==> a.Duration() < b.Duration()
    ensures a.Greater(b) <==> a.Duration() > b.Duration()
    ensures a.GreaterEq(b) <==> a.Duration() >= b.Duration()
    ensures a == b <==> a.Duration() == b.Duration()
  {
  }
}
