/**
 The SPI clock divider: a register holds a divider (6 bits) and a pre-divider (13 bits), and spiFrequencyToClockDiv
 looks for the one that comes closest to a frequency from below, trying four pre-dividers for each divider.
 */
module SpiClock {
  /** The register; clkcnt_h is left zero by the search. */
  datatype Reg = Reg(l: nat, n: nat, pre: nat)

  predicate Fits(r: Reg) {
    r.l < 64 && r.n < 64 && r.pre < 0x2000
  }

  /** Bits 0-5, 12-17 and 18-30. */
  function Value(r: Reg): nat {
    r.l + 0x1000 * r.n + 0x4_0000 * r.pre
  }

  const EQU_SYSCLK: nat := 0x8000_0000
  const SLOWEST: nat := 0x7FFF_F000

  /** ClkRegToFreq. */
  function Freq(n: nat, pre: nat, apb: nat): nat {
    Quotient(apb, (pre + 1) * (n + 1))
  }

  function Quotient(a: nat, b: nat): nat
    requires b > 0
  {
    a / b
  }

  /** spiClockDivToFrequency. */
  function ClockDivToFrequency(value: nat, apb: nat): nat {
    Freq(value / 0x1000 % 0x40, value / 0x4_0000 % 0x2000, apb)
  }

  /** The fields of a register are read back from its value. */
  lemma RegisterRoundTrip(r: Reg)
    requires Fits(r)
    ensures Value(r) / 0x1000 % 0x40 == r.n && Value(r) / 0x4_0000 % 0x2000 == r.pre
  {
    assert Value(r) / 0x4_0000 == r.pre;
    assert Value(r) / 0x1000 == 0x40 * r.pre + r.n;
  }

  /** Dividing by a power of two drops the fields below. */
  lemma Above(low: nat, high: nat, range: nat)
    requires low < range
    ensures (low + range * high) / range == high && (low + range * high) % range == low
  {
    var x := low + range * high;
    assert range * (x / range - high) == low - x % range;
    if x / range > high {
      Mul(range, 1, x / range - high);
    } else if x / range < high {
      Mul(range, x / range - high, -1);
    }
  }

  /** Only two of the five fields of a register decide its frequency, whatever the others hold. */
  lemma FieldsDecide(l: nat, h: nat, n: nat, pre: nat, equ: nat, apb: nat)
    requires l < 64 && h < 64 && n < 64 && pre < 0x2000 && equ < 2
    ensures ClockDivToFrequency(l + 64 * h + 0x1000 * n + 0x4_0000 * pre + 0x8000_0000 * equ, apb)
         == apb / ((pre + 1) * (n + 1))
  {
    var value := l + 64 * h + 0x1000 * n + 0x4_0000 * pre + 0x8000_0000 * equ;
    Above(l + 64 * h, n + 64 * (pre + 0x2000 * equ), 0x1000);
    Above(l + 64 * h + 0x1000 * n, pre + 0x2000 * equ, 0x4_0000);
    Above(n, pre + 0x2000 * equ, 64);
    Above(pre, equ, 0x2000);
    assert value == l + 64 * h + 0x1000 * (n + 64 * (pre + 0x2000 * equ));
    assert value == l + 64 * h + 0x1000 * n + 0x4_0000 * (pre + 0x2000 * equ);
    hide Quotient;
    assert ClockDivToFrequency(value, apb) == Freq(n, pre, apb);
    QuotientIs(apb, (pre + 1) * (n + 1));
  }

  lemma QuotientIs(a: nat, b: nat)
    requires b > 0
    ensures Quotient(a, b) == a / b
  {
  }

  // ----- division

  lemma Mul(a: nat, x: int, y: int)
    requires x <= y
    ensures a * x <= a * y
  {
  }

  lemma Bounds(a: nat, b: nat)
    requires b > 0
    ensures b * Quotient(a, b) <= a < b * (Quotient(a, b) + 1)
  {
  }

  /** The quotient is the largest number of times `b` fits. */
  lemma AtLeast(a: nat, b: nat, q: nat)
    requires b > 0
    ensures b * q <= a <==> q <= Quotient(a, b)
  {
    hide Quotient;
    Bounds(a, b);
    if q <= Quotient(a, b) {
      Mul(b, q, Quotient(a, b));
    } else {
      Mul(b, Quotient(a, b) + 1, q);
    }
  }

  /** Dividing by more gives less. */
  lemma DivMono(a: nat, k: nat, m: nat)
    requires 0 < k <= m
    ensures Quotient(a, m) <= Quotient(a, k)
  {
    hide Quotient;
    var y := Quotient(a, m);
    AtLeast(a, m, y);
    Mul(y, k, m);
    AtLeast(a, k, y);
  }

  /** Dividing twice. */
  lemma DivDiv(a: nat, b: nat, c: nat)
    requires b > 0 && c > 0
    ensures c * b > 0 && Quotient(a, c * b) == Quotient(Quotient(a, b), c)
  {
    Mul(b, 1, c);
    hide Quotient;
    var x, y := Quotient(a, c * b), Quotient(Quotient(a, b), c);
    AtLeast(a, c * b, x);
    AtLeast(a, b, c * x);
    AtLeast(Quotient(a, b), c, x);
    AtLeast(Quotient(a, b), c, y);
    AtLeast(a, b, c * y);
    AtLeast(a, c * b, y);
    Regroup(b, c, x);
    Regroup(b, c, y);
  }

  lemma Regroup(b: nat, c: nat, x: nat)
    ensures c * b * x == b * (c * x)
  {
  }

  // ----- four probes are enough

  function Clamp(pre: int): (r: nat)
    ensures r < 0x2000
  {
    if pre > 0x1FFF then 0x1FFF else if pre <= 0 then 0 else pre
  }

  /** The pre-divider of probe `v`, v from -1 to 2. */
  function Probe(n: nat, v: int, freq: nat, apb: nat): nat
    requires freq > 0
  {
    Clamp(Quotient(Quotient(apb, n + 1), freq) - 1 + v)
  }

  lemma FreqIs(n: nat, pre: nat, apb: nat)
    ensures Freq(n, pre, apb) == Quotient(Quotient(apb, n + 1), pre + 1)
  {
    DivDiv(apb, n + 1, pre + 1);
  }

  /** The quotient is just where the frequency is crossed. */
  lemma Crossing(a: nat, f: nat)
    requires f > 0
    ensures var q := Quotient(a, f); Quotient(a, q + 1) < f && (q > 0 ==> Quotient(a, q) >= f)
  {
    hide Quotient;
    var q := Quotient(a, f);
    AtLeast(a, f, q);
    AtLeast(a, f, q + 1);
    AtLeast(a, q + 1, f);
    if q > 0 {
      AtLeast(a, q, f);
    }
  }

  /** Whatever a pre-divider reaches without passing the frequency, one of the probes reaches too. */
  lemma ProbesSuffice(n: nat, pre: nat, freq: nat, apb: nat) returns (v: int)
    requires freq > 0 && pre < 0x2000 && Freq(n, pre, apb) <= freq
    ensures -1 <= v <= 2 && Freq(n, pre, apb) <= Freq(n, Probe(n, v, freq, apb), apb) <= freq
  {
    hide Freq, Quotient;
    var a := Quotient(apb, n + 1);
    var q, k := Quotient(a, freq), pre + 1;
    FreqIs(n, pre, apb);
    Crossing(a, freq);
    if q == 0 {
      v := 0;
      FreqIs(n, 0, apb);
      DivMono(a, 1, k);
    } else if q >= 0x2000 {
      v := 2;
      FreqIs(n, 0x1FFF, apb);
      DivMono(a, 0x2000, q);
      DivMono(a, k, 0x2000);
    } else if Quotient(a, q) == freq {
      v := 0;
      FreqIs(n, q - 1, apb);
    } else {
      v := 1;
      FreqIs(n, q, apb);
      if k <= q {
        DivMono(a, k, q);
      } else {
        DivMono(a, q + 1, k);
      }
    }
  }

  // ----- the search

  /** A divider from 1 to 63, its high phase, and nothing in the other fields. */
  predicate Register(value: nat) {
    var n := value / 0x1000 % 0x40;
    1 <= n && value % 0x40 == (n + 1) / 2 && value / 0x40 % 0x40 == 0 && value < 0x8000_0000
  }

  lemma RegisterIs(r: Reg)
    requires Fits(r) && 1 <= r.n && r.l == (r.n + 1) / 2
    ensures Register(Value(r))
  {
    var high := r.n + 0x40 * r.pre;
    assert Value(r) == r.l + 0x40 * (0x40 * high);
    Above(r.l, 0x40 * high, 0x40);
    Above(0, high, 0x40);
    RegisterRoundTrip(r);
  }

  /** Reachable by some divider from 1 to `n` and any pre-divider, without passing the frequency: not above `best`. */
  ghost predicate BestUpTo(n: nat, best: nat, freq: nat, apb: nat) {
    forall m, pre {:trigger Freq(m, pre, apb)} :: 1 <= m <= n && pre < 0x2000 && Freq(m, pre, apb) <= freq ==>
      Freq(m, pre, apb) <= best
  }

  /** The best register so far, with the high phase half as long as the period; no smaller divider is as good. */
  ghost predicate Holds(r: Reg, best: nat, freq: nat, apb: nat) {
    && best <= freq
    && (best > 0 ==>
          && Fits(r) && 1 <= r.n && r.l == (r.n + 1) / 2 && Freq(r.n, r.pre, apb) == best
          && BestUpTo(r.n - 1, best - 1, freq, apb))
  }

  /** All probes of `n` below `v` are accounted for. */
  ghost predicate Tried(n: nat, v: int, best: nat, freq: nat, apb: nat)
    requires freq > 0
  {
    forall w {:trigger Probe(n, w, freq, apb)} :: -1 <= w < v && Freq(n, Probe(n, w, freq, apb), apb) <= freq
      ==> Freq(n, Probe(n, w, freq, apb), apb) <= best
  }

  /** The four probes of one divider. */
  method Search(n: nat, freq: nat, apb: nat, reg0: Reg, best0: nat) returns (reg: Reg, best: nat)
    requires 1 <= n < 64 && freq > 0 && Holds(reg0, best0, freq, apb) && best0 < freq
    requires BestUpTo(n - 1, best0, freq, apb)
    ensures Holds(reg, best, freq, apb) && best0 <= best
    ensures best < freq ==> Tried(n, 3, best, freq, apb)
  {
    hide Freq, Quotient, Probe, BestUpTo;
    reg, best := reg0, best0;
    var v := -1;
    while v <= 2
      invariant -1 <= v <= 3 && Holds(reg, best, freq, apb) && best0 <= best < freq && Tried(n, v, best, freq, apb)
    {
      var pre := Probe(n, v, freq, apb);
      ProbeFits(n, v, freq, apb);
      var r := Reg((n + 1) / 2, n, pre);
      var f := Freq(n, pre, apb);
      if best < f {
        BestGrows(n - 1, best0, f - 1, freq, apb);
      }
      if f == freq {
        reg, best := r, f;
        return;
      }
      if f < freq && freq - f < freq - best {
        reg, best := r, f;
      }
      v := v + 1;
    }
  }

  lemma BestGrows(n: nat, a: nat, b: nat, freq: nat, apb: nat)
    requires BestUpTo(n, a, freq, apb) && a <= b
    ensures BestUpTo(n, b, freq, apb)
  {
  }

  lemma ProbeFits(n: nat, v: int, freq: nat, apb: nat)
    requires freq > 0
    ensures Probe(n, v, freq, apb) < 0x2000
  {
  }

  /** The probes of `n` stand for all its pre-dividers. */
  lemma OneMore(n: nat, old': nat, best: nat, freq: nat, apb: nat)
    requires 1 <= n && freq > 0 && BestUpTo(n - 1, old', freq, apb) && old' <= best && Tried(n, 3, best, freq, apb)
    ensures BestUpTo(n, best, freq, apb)
  {
    hide Freq, Quotient, Probe;
    forall m, pre | 1 <= m <= n && pre < 0x2000 && Freq(m, pre, apb) <= freq ensures Freq(m, pre, apb) <= best {
      if m == n {
        var v := ProbesSuffice(n, pre, freq, apb);
      }
    }
  }

  /**
   The register found comes closest: no divider from 1 to 63 with any pre-divider gives a frequency that is higher
   and still not above the one asked for, and no smaller divider gives the same.
   */
  method FrequencyToClockDiv(freq: nat, apb: nat) returns (value: nat)
    requires 0x8_0000 <= apb < 0x8000_0000
    ensures freq >= apb ==> value == EQU_SYSCLK
    ensures freq < Freq(63, 0x1FFF, apb) ==> value == SLOWEST
    ensures Freq(63, 0x1FFF, apb) <= freq < apb ==>
              && ClockDivToFrequency(value, apb) <= freq && BestUpTo(63, ClockDivToFrequency(value, apb), freq, apb)
              && Register(value)
              && BestUpTo(value / 0x1000 % 0x40 - 1, ClockDivToFrequency(value, apb) - 1, freq, apb)
  {
    Slowest(apb);
    hide Freq, Quotient, Probe;
    if freq >= apb {
      return EQU_SYSCLK;
    }
    if freq < ClockDivToFrequency(SLOWEST, apb) {
      return SLOWEST;
    }
    var n, reg, best := 1, Reg(0, 0, 0), 0;
    while n <= 63 && best != freq
      invariant 1 <= n <= 64 && Holds(reg, best, freq, apb)
      invariant best < freq ==> BestUpTo(n - 1, best, freq, apb)
    {
      ghost var old' := best;
      reg, best := Search(n, freq, apb, reg, best);
      if best < freq {
        OneMore(n, old', best, freq, apb);
      }
      n := n + 1;
    }
    assert best > 0 by {
      assert BestUpTo(63, best, freq, apb) ==> Freq(63, 0x1FFF, apb) <= best;
    }
    RegisterRoundTrip(reg);
    RegisterIs(reg);
    value := Value(reg);
  }

  lemma Slowest(apb: nat)
    requires apb >= 0x8_0000
    ensures ClockDivToFrequency(SLOWEST, apb) == Freq(63, 0x1FFF, apb) >= 1
    ensures Freq(63, 0x1FFF, apb) <= apb
  {
    assert SLOWEST / 0x1000 % 0x40 == 63 && SLOWEST / 0x4_0000 % 0x2000 == 0x1FFF;
    AtLeast(apb, 0x8_0000, 1);
  }
}
