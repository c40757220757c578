/** The difference of two time values, which carries between the fields of its subtrahend in place. */
module TimeHelper {

  const MILLION: int := 1000000

  class Timeval {
    var sec: int
    var usec: int

    constructor (sec: int, usec: int)
      ensures this.sec == sec && this.usec == usec
    {
      this.sec, this.usec := sec, usec;
    }

    ghost function Value(): Time
      reads this
    {
      Time(sec, usec)
    }
  }

  /** A time value; the microseconds need not be normalised. */
  datatype Time = Time(sec: int, usec: int) {
    function Micros(): int {
      sec * MILLION + usec
    }

    predicate Normalised() {
      0 <= usec < MILLION
    }
  }

  /** The subtrahend as the subtraction leaves it. */
  function Carried(x: Time, y: Time): Time {
    if x.usec < y.usec then
      var nsec := (y.usec - x.usec) / MILLION + 1;
      Time(y.sec + nsec, y.usec - MILLION * nsec)
    else if x.usec - y.usec > MILLION then
      var nsec := (x.usec - y.usec) / MILLION;
      Time(y.sec - nsec, y.usec + MILLION * nsec)
    else y
  }

  lemma CarryingKeepsTheTime(x: Time, y: Time)
    ensures Carried(x, y).Micros() == y.Micros()
    ensures 0 <= x.usec - Carried(x, y).usec <= MILLION
    ensures x.Normalised() ==> -MILLION <= Carried(x, y).usec < MILLION
  {
  }

  /** Returns x - y in seconds and stores it in `result`; `y` may be written differently afterwards. */
  method TimevalSubtract(result: Timeval, x: Timeval, y: Timeval) returns (seconds: real)
    requires result != x && result != y && x != y
    modifies result, y
    ensures y.Value() == Carried(x.Value(), old(y.Value()))
    ensures y.Value().Micros() == old(y.Value().Micros())
    ensures result.Value().Micros() == x.Value().Micros() - y.Value().Micros()
    ensures 0 <= result.usec <= MILLION
    ensures seconds == result.Value().Micros() as real / 1000000.0
  {
    CarryingKeepsTheTime(x.Value(), y.Value());
    if x.usec < y.usec {
      var nsec := (y.usec - x.usec) / MILLION + 1;
      y.usec := y.usec - MILLION * nsec;
      y.sec := y.sec + nsec;
    }
    if x.usec - y.usec > MILLION {
      var nsec := (x.usec - y.usec) / MILLION;
      y.usec := y.usec + MILLION * nsec;
      y.sec := y.sec - nsec;
    }
    result.sec := x.sec - y.sec;
    result.usec := x.usec - y.usec;
    seconds := result.sec as real + result.usec as real / 1000000.0;
    SecondsOf(result.sec, result.usec);
  }

  lemma SecondsOf(sec: int, usec: int)
    ensures sec as real + usec as real / 1000000.0 == (sec * MILLION + usec) as real / 1000000.0
  {
  }

  /** The subtrahend after one subtraction from each of `xs`. */
  function CarriedAll(xs: seq<Time>, y: Time): Time
    decreases |xs|
  {
    if xs == [] then y else CarriedAll(xs[1..], Carried(xs[0], y))
  }

  /** Reusing one subtrahend over and over never makes it drift, nor its fields grow. */
  lemma {:induction false} NoDrift(xs: seq<Time>, y: Time)
    requires forall x <- xs :: x.Normalised()
    ensures CarriedAll(xs, y).Micros() == y.Micros()
    ensures xs != [] || -MILLION <= y.usec < MILLION ==> -MILLION <= CarriedAll(xs, y).usec < MILLION
    decreases |xs|
  {
    if xs != [] {
      assert xs[0] in xs;
      CarryingKeepsTheTime(xs[0], y);
      NoDrift(xs[1..], Carried(xs[0], y));
    }
  }
}
