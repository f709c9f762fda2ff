/** Seconds-and-microseconds instants, their order and their difference (ser2net/selector.c:198-238). */
module TimeVals {

  const MICROS_PER_SEC := 1000000

  datatype TimeVal = TimeVal(sec: int, usec: int) {
    /** A normalised value carries less than a second in its microsecond part. */
    predicate Normal() {
      0 <= usec < MICROS_PER_SEC
    }

    /** The instant on a single microsecond scale. */
    function Micros(): int {
      sec * MICROS_PER_SEC + usec
    }
  }

  /** The three-way comparison: seconds first, then microseconds. */
  function Compare(a: TimeVal, b: TimeVal): int {
    if a.sec < b.sec then -1
    else if a.sec > b.sec then 1
    else if a.usec < b.usec then -1
    else if a.usec > b.usec then 1
    else 0
  }

  predicate Earlier(a: TimeVal, b: TimeVal) {
    Compare(a, b) < 0
  }

  /** On normalised values the comparison is the order of the microsecond scale. */
  lemma CompareIsNumeric(a: TimeVal, b: TimeVal)
    requires a.Normal() && b.Normal()
    ensures Compare(a, b) < 0 <==> a.Micros() < b.Micros()
    ensures Compare(a, b) > 0 <==> a.Micros() > b.Micros()
    ensures Compare(a, b) == 0 <==> a == b
  {
    if a.sec < b.sec {
      assert a.sec * MICROS_PER_SEC + MICROS_PER_SEC <= b.sec * MICROS_PER_SEC;
    } else if a.sec > b.sec {
      assert b.sec * MICROS_PER_SEC + MICROS_PER_SEC <= a.sec * MICROS_PER_SEC;
    }
  }

  /** left - right, forced to zero when left is the earlier one; the borrow is taken one second at a time. */
  method Difference(left: TimeVal, right: TimeVal) returns (dest: TimeVal)
    ensures Earlier(left, right) ==> dest == TimeVal(0, 0)
    ensures !Earlier(left, right) ==> dest.usec >= 0 && dest.Micros() == left.Micros() - right.Micros()
    ensures left.Normal() && right.Normal() ==> dest.Normal() && dest.sec >= 0
  {
    if left.sec < right.sec || (left.sec == right.sec && left.usec < right.usec) {
      return TimeVal(0, 0);
    }
    var sec, usec := left.sec - right.sec, left.usec - right.usec;
    while usec < 0
      invariant sec * MICROS_PER_SEC + usec == left.Micros() - right.Micros()
      invariant left.Normal() && right.Normal() ==> -MICROS_PER_SEC < usec < MICROS_PER_SEC
      invariant left.Normal() && right.Normal() && usec < 0 ==> sec > 0
      invariant left.Normal() && right.Normal() ==> sec >= 0
      decreases -usec
    {
      usec := usec + MICROS_PER_SEC;
      sec := sec - 1;
    }
    dest := TimeVal(sec, usec);
  }
}
