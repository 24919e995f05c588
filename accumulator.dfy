/** Fixed-quantum time accumulators: elapsed time is added up and spent in
    whole quanta, one action per quantum, the remainder kept for later. Time
    is counted in whole milliseconds. */
module Accumulators {

  /** How many whole quanta of q an accumulated time t pays for: none until
      t reaches q. */
  function Quanta(t: int, q: int): nat
    requires q > 0
  {
    if t >= q then t / q else 0
  }

  /** After paying for its quanta the accumulator is below one quantum, is
      not negative when t was not, and something is paid once t reaches q. */
  lemma QuantaDrain(t: int, q: int)
    requires q > 0
    ensures t - Quanta(t, q) * q < q
    ensures t >= 0 ==> 0 <= t - Quanta(t, q) * q
    ensures t >= q <==> Quanta(t, q) >= 1
  {
    if t >= q {
      assert t == (t / q) * q + t % q;
    }
  }

  /** Division is determined by quotient and remainder. */
  lemma DivUnique(n: int, q: int, a: int, r: int)
    requires q > 0 && 0 <= r < q && n == a * q + r
    ensures n / q == a
  {
    var d, m := n / q, n % q;
    assert n == d * q + m && 0 <= m < q;
    if d > a {
      assert d * q >= (a + 1) * q by { MulMono(a + 1, d, q); }
    } else if d < a {
      assert a * q >= (d + 1) * q by { MulMono(d + 1, a, q); }
    }
  }

  lemma MulMono(a: int, b: int, q: int)
    requires a <= b && q > 0
    ensures a * q <= b * q
  {
    assert b * q - a * q == (b - a) * q;
  }

  /** Spending one quantum from an accumulator that holds at least one
      leaves one quantum fewer to pay for. */
  lemma QuantaStep(t: int, q: int)
    requires q > 0 && t >= q
    ensures Quanta(t - q, q) == Quanta(t, q) - 1
  {
    var d := t / q;
    assert t == d * q + t % q;
    assert d >= 1 by {
      if d <= 0 { MulMono(d, 0, q); }
    }
    assert t - q == (d - 1) * q + t % q;
    if t - q >= q {
      DivUnique(t - q, q, d - 1, t % q);
    } else {
      assert d - 1 == 0 by {
        if d - 1 >= 1 { MulMono(1, d - 1, q); }
      }
    }
  }
}
