/**
 The LED blinker: a `length`-bit counter register `cnt` that advances by
 one on every rising edge of the clock input, and an LED output that is
 the counter's most significant bit. It divides the clock: the LED is a
 square wave with period 2^length edges.
 */
module LedBlinker {
  import opened Bits

  /** Why a blinker cannot be built. */
  datatype ConfigError = InvalidConfiguration(length: int)

  datatype Result<T> = Ok(value: T) | Err(error: ConfigError)

  /**
   The counter after one rising edge: `cnt + 1`, truncated to the width
   of the `length`-bit bus it is assigned to.
   */
  function Next(cnt: nat, length: nat): (r: nat)
    requires cnt < Pow2(length)
    ensures r < Pow2(length)
    ensures cnt < Pow2(length) - 1 ==> r == cnt + 1
    ensures cnt == Pow2(length) - 1 ==> r == 0
  {
    var m := Pow2(length);
    if cnt + 1 == m then DivModUnique(m, m, 1, 0); Wrap(cnt + 1, length)
    else Wrap(cnt + 1, length)
  }

  /** The counter after `k` rising edges, starting from `start`. */
  function CountAfter(start: nat, k: nat, length: nat): (r: nat)
    requires start < Pow2(length)
    ensures r < Pow2(length)
  {
    if k == 0 then start else Next(CountAfter(start, k - 1, length), length)
  }

  /** `k` edges advance the counter by `k`, modulo 2^length. */
  lemma {:induction false} CountAfterClosedForm(start: nat, k: nat, length: nat)
    requires start < Pow2(length)
    ensures CountAfter(start, k, length) == (start + k) % Pow2(length)
  {
    var m := Pow2(length);
    if k == 0 {
      DivModUnique(start, m, 0, start);
    } else {
      CountAfterClosedForm(start, k - 1, length);
      AddOneMod(start + k - 1, m);
    }
  }

  /**
   The LED output, `cnt[length-1]`: the most significant bit of the
   counter. For a counter that fits the bus it is on exactly in the upper
   half of the range.
   */
  function Led(cnt: nat, length: nat): (on: bool)
    requires length >= 1
    ensures cnt < Pow2(length) ==> (on <==> cnt >= Pow2(length - 1))
  {
    if cnt < Pow2(length) then TopBitIsUpperHalf(cnt, length); Bit(cnt, length - 1)
    else Bit(cnt, length - 1)
  }

  /** The LED is `(cnt >> (length-1)) & 1`. */
  lemma LedIsShiftAnd(cnt: nat, length: nat)
    requires length >= 1
    ensures Led(cnt, length) <==> (cnt / Pow2(length - 1)) % 2 == 1
  {
    BitIsShiftAnd(cnt, length - 1);
  }

  /** The LED after `k` rising edges from reset. */
  function LedAfter(k: nat, length: nat): bool
    requires length >= 1
  {
    Led(CountAfter(0, k, length), length)
  }

  /** After `k` edges from reset the LED is on exactly in the second half of the period. */
  lemma LedAfterPhase(k: nat, length: nat)
    requires length >= 1
    ensures LedAfter(k, length) <==> k % Pow2(length) >= Pow2(length - 1)
  {
    CountAfterClosedForm(0, k, length);
  }

  /**
   The waveform: in every period `n` of 2^length edges, the LED is off for
   the first 2^(length-1) edges and on for the next 2^(length-1).
   */
  lemma LedWaveform(n: nat, j: nat, length: nat)
    requires length >= 1 && j < Pow2(length)
    ensures LedAfter(n * Pow2(length) + j, length) <==> j >= Pow2(length - 1)
  {
    LedAfterPhase(n * Pow2(length) + j, length);
    DivModUnique(n * Pow2(length) + j, Pow2(length), n, j);
  }

  /** The LED repeats with period 2^length edges. */
  lemma LedPeriod(k: nat, length: nat)
    requires length >= 1
    ensures LedAfter(k + Pow2(length), length) == LedAfter(k, length)
  {
    LedAfterPhase(k, length);
    LedAfterPhase(k + Pow2(length), length);
    ModAddPeriod(k, Pow2(length));
  }

  /** The LED flips every 2^(length-1) edges. */
  lemma LedHalfPeriodToggle(k: nat, length: nat)
    requires length >= 1
    ensures LedAfter(k + Pow2(length - 1), length) == !LedAfter(k, length)
  {
    var h := Pow2(length - 1);
    assert Pow2(length) == 2 * h;
    LedAfterPhase(k, length);
    LedAfterPhase(k + h, length);
    ModAddHalfPeriod(k, h);
  }

  /** A one-bit blinker toggles its LED on every edge. */
  lemma LedTogglesEveryEdgeWhenOneBit(k: nat)
    ensures LedAfter(k + 1, 1) == !LedAfter(k, 1)
  {
    LedHalfPeriodToggle(k, 1);
  }

  /**
   A three-bit blinker clocked sixteen times: the counter after each edge
   runs 1..7, 0, 1..7, 0 and the LED follows bit 2.
   */
  lemma ThreeBitSixteenEdges()
    ensures seq(16, i requires 0 <= i < 16 => CountAfter(0, i + 1, 3))
         == [1, 2, 3, 4, 5, 6, 7, 0, 1, 2, 3, 4, 5, 6, 7, 0]
    ensures seq(16, i requires 0 <= i < 16 => LedAfter(i + 1, 3))
         == [false, false, false, true, true, true, true, false,
             false, false, false, true, true, true, true, false]
  {
    assert Pow2(3) == 8 && Pow2(2) == 4;
    forall k | 1 <= k <= 16
      ensures CountAfter(0, k, 3) == k % 8
    {
      CountAfterClosedForm(0, k, 3);
    }
  }

  /** One blinker instance: its width and its counter register. */
  class Blinker {
    const length: nat
    var cnt: nat
    /** The number of rising edges seen since the instance was created. */
    ghost var edges: nat

    ghost predicate Valid()
      reads this
    {
      length >= 1 && cnt == CountAfter(0, edges, length)
    }

    /** A blinker of the given width, its counter at 0. */
    constructor (length: nat)
      requires length >= 1
      ensures Valid()
      ensures this.length == length && cnt == 0 && edges == 0
    {
      this.length := length;
      cnt := 0;
      edges := 0;
    }

    /** Builds a blinker, or reports a width that leaves no top bit. */
    static method Create(length: int) returns (r: Result<Blinker>)
      ensures r.Err? <==> length < 1
      ensures r.Err? ==> r.error == InvalidConfiguration(length)
      ensures r.Ok? ==> fresh(r.value) && r.value.Valid()
      ensures r.Ok? ==> r.value.length == length && r.value.cnt == 0
    {
      if length < 1 {
        r := Err(InvalidConfiguration(length));
      } else {
        var b := new Blinker(length);
        r := Ok(b);
      }
    }

    /** One rising edge of the clock input. */
    method RisingEdge()
      requires Valid()
      modifies this
      ensures Valid() && edges == old(edges) + 1
      ensures cnt == Next(old(cnt), length)
      ensures cnt < Pow2(length) && cnt == edges % Pow2(length)
    {
      cnt := Next(cnt, length);
      edges := edges + 1;
      CountAfterClosedForm(0, edges, length);
    }

    /** The LED output for the current counter value. */
    function Output(): (on: bool)
      reads this
      requires Valid()
      ensures on <==> cnt >= Pow2(length - 1)
      ensures on <==> LedAfter(edges, length)
    {
      Led(cnt, length)
    }

    /** `k` rising edges in a row. */
    method Run(k: nat)
      requires Valid()
      modifies this
      ensures Valid() && edges == old(edges) + k
      ensures cnt == CountAfter(old(cnt), k, length)
      ensures cnt == (old(cnt) + k) % Pow2(length)
    {
      var i := 0;
      while i < k
        invariant 0 <= i <= k
        invariant Valid() && edges == old(edges) + i
        invariant cnt == CountAfter(old(cnt), i, length)
      {
        RisingEdge();
        i := i + 1;
      }
      CountAfterClosedForm(old(cnt), k, length);
    }
  }
}
