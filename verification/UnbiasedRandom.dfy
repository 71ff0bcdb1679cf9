/**
 random(howbig): a 32-bit draw is scaled by multiplication, and the draws that would make some results likelier than
 others are rejected. Draws come from a list.
 */
module UnbiasedRandom {
  const W: nat := 0x1_0000_0000

  type Word = x: int | 0 <= x < 0x1_0000_0000

  function High(x: Word, howbig: nat): nat {
    x * howbig / W
  }

  function Low(x: Word, howbig: nat): nat {
    x * howbig % W
  }

  /** 2^32 modulo howbig. */
  function Threshold(howbig: nat): nat
    requires howbig > 0
  {
    W % howbig
  }

  predicate Accepted(x: Word, howbig: nat)
    requires howbig > 0
  {
    Low(x, howbig) >= Threshold(howbig)
  }

  /** How the code gets the threshold: at most two subtractions before a division. */
  method ThresholdOf(howbig: nat) returns (t: nat)
    requires 0 < howbig < 0x8000_0000
    ensures t == Threshold(howbig)
  {
    t := W - howbig;
    Subtract(W, howbig);
    if t >= howbig {
      t := t - howbig;
      Subtract(W - howbig, howbig);
      if t >= howbig {
        t := t % howbig;
      } else {
        SmallRemainder(t, howbig);
      }
    } else {
      SmallRemainder(t, howbig);
    }
  }

  lemma Subtract(a: nat, h: nat)
    requires 0 < h <= a
    ensures (a - h) % h == a % h
  {
    var q, r := a / h, a % h;
    assert a - h == h * (q - 1) + r;
    Unique(a - h, h, q - 1, r);
  }

  lemma SmallRemainder(a: nat, h: nat)
    requires a < h
    ensures a % h == a
  {
  }

  lemma Mul(a: nat, x: int, y: int)
    requires x <= y
    ensures a * x <= a * y
  {
  }

  lemma Unique(a: nat, h: nat, q: int, r: nat)
    requires h > 0 && a == h * q + r && r < h
    ensures a / h == q && a % h == r
  {
    var d := a / h;
    assert a == h * d + a % h;
    if d < q {
      Mul(h, d + 1, q);
    } else if q < d {
      Mul(h, q + 1, d);
    }
  }

  /** The result and how many draws it took. */
  datatype Drawn = Drawn(value: int, used: nat) | Exhausted

  /**
   The first acceptable draw decides, and it is acceptable exactly when its low word reaches the threshold; that word
   is compared with howbig first, which saves computing the threshold.
   */
  method Random(howbig: nat, draws: seq<Word>) returns (r: Drawn)
    requires howbig < 0x8000_0000
    ensures howbig == 0 && draws != [] ==> r == Drawn(0, 1)
    ensures howbig > 0 && r.Drawn? ==>
              && 1 <= r.used <= |draws| && Accepted(draws[r.used - 1], howbig)
              && (forall i :: 0 <= i < r.used - 1 ==> !Accepted(draws[i], howbig))
              && r.value == High(draws[r.used - 1], howbig) < howbig
              && r.value * W <= draws[r.used - 1] * howbig < (r.value + 1) * W
    ensures howbig > 0 && r.Exhausted? ==> forall i :: 0 <= i < |draws| ==> !Accepted(draws[i], howbig)
  {
    hide High, Low, Threshold;
    if draws == [] {
      return Exhausted;
    }
    var x, used: nat := draws[0], 1;
    if howbig == 0 {
      NoRange(x);
    } else {
      Below(howbig);
    }
    if Low(x, howbig) < howbig {
      var t := ThresholdOf(howbig);
      while Low(x, howbig) < t
        invariant 1 <= used <= |draws| && x == draws[used - 1]
        invariant forall i :: 0 <= i < used - 1 ==> !Accepted(draws[i], howbig)
        decreases |draws| - used
      {
        if used == |draws| {
          return Exhausted;
        }
        x, used := draws[used], used + 1;
      }
    }
    Scaled(x, howbig);
    r := Drawn(High(x, howbig), used);
  }

  /** The range of 32-bit numbers scaled to that of the results. */
  lemma Scaled(x: Word, howbig: nat)
    ensures High(x, howbig) * W <= x * howbig < (High(x, howbig) + 1) * W
    ensures howbig > 0 ==> High(x, howbig) < howbig
  {
    if howbig > 0 {
      Mul(howbig, x, W - 1);
      assert x * howbig <= howbig * W - howbig;
    }
  }

  lemma NoRange(x: Word)
    ensures High(x, 0) == 0 && Low(x, 0) == 0
  {
  }

  lemma Below(howbig: nat)
    requires howbig > 0
    ensures Threshold(howbig) < howbig
  {
  }

  // ----- every result is equally likely

  /** The first draw accepted for result `r`. */
  function Lowest(r: nat, howbig: nat): nat
    requires howbig > 0
  {
    (r * W + Threshold(howbig) + howbig - 1) / howbig
  }

  function Share(howbig: nat): nat
    requires howbig > 0
  {
    W / howbig
  }

  lemma CeilBound(b: nat, h: nat, x: int)
    requires h > 0
    ensures x >= (b + h - 1) / h <==> h * x >= b
  {
    var c := (b + h - 1) / h;
    assert h * c <= b + h - 1 < h * c + h;
    if x >= c {
      Mul(h, c, x);
    } else {
      Mul(h, x, c - 1);
      assert h * (c - 1) == h * c - h;
    }
  }

  lemma Words(m: nat, r: nat, t: nat)
    requires t < W
    ensures m / W == r && m % W >= t <==> r * W + t <= m < r * W + W
  {
    var q, l := m / W, m % W;
    assert m == W * q + l;
    if q < r {
      assert m < W * q + W <= r * W;
    }
  }

  lemma ShareSplits(howbig: nat)
    requires howbig > 0
    ensures W == howbig * Share(howbig) + Threshold(howbig)
  {
  }

  /** The draws accepted for a result are a run of 2^32 / howbig consecutive numbers. */
  lemma AcceptedRun(x: int, r: nat, howbig: nat)
    requires 0 < howbig < 0x8000_0000 && r < howbig
    ensures 0 <= x < W && Accepted(x, howbig) && High(x, howbig) == r
            <==> Lowest(r, howbig) <= x < Lowest(r, howbig) + Share(howbig)
  {
    hide Share, Threshold;
    var t, n, b := Threshold(howbig), Share(howbig), r * W + Threshold(howbig);
    Below(howbig);
    ShareSplits(howbig);
    CeilBound(b, howbig, x);
    CeilBound(b, howbig, x - n);
    assert howbig * (x - n) == howbig * x - howbig * n;
    assert Lowest(r, howbig) <= x < Lowest(r, howbig) + n <==> b <= howbig * x < b + howbig * n;
    assert b + howbig * n == r * W + W;
    if 0 <= x < W {
      assert x * howbig == howbig * x;
      Words(x * howbig, r, t);
    } else if x >= W {
      Mul(howbig, W, x);
      Mul(W, r + 1, howbig);
    } else {
      Mul(howbig, x, -1);
    }
  }

  /** `n` consecutive numbers. */
  function Run(lo: int, n: nat): (s: set<int>)
    ensures |s| == n && forall x :: x in s <==> lo <= x < lo + n
  {
    if n == 0 then {} else Run(lo, n - 1) + {lo + n - 1}
  }

  /** Unbiased: every result below howbig comes from exactly 2^32 / howbig of the accepted draws. */
  lemma Unbiased(r: nat, howbig: nat)
    requires 0 < howbig < 0x8000_0000 && r < howbig
    ensures |set x: Word | 0 <= x < W && Accepted(x, howbig) && High(x, howbig) == r :: x| == W / howbig
  {
    hide High, Accepted, Lowest;
    var run := Run(Lowest(r, howbig), Share(howbig));
    var hits: set<int> := set x: Word | 0 <= x < W && Accepted(x, howbig) && High(x, howbig) == r :: x;
    forall x: int ensures x in run <==> x in hits {
      AcceptedRun(x, r, howbig);
    }
    assert run == hits;
  }

  lemma InRange(x: Word, howbig: nat)
    requires howbig > 0
    ensures High(x, howbig) < howbig
  {
    Mul(howbig, x, W - 1);
    assert x * howbig < W * howbig;
    CeilBelow(x * howbig, howbig);
  }

  lemma CeilBelow(m: nat, h: nat)
    requires m < W * h
    ensures m / W < h
  {
  }

  /** random(howsmall, howbig): the same draws, shifted; an empty range gives its lower end and takes no draw. */
  method RandomBetween(howsmall: int, howbig: int, draws: seq<Word>) returns (r: Drawn)
    requires howbig - howsmall < 0x8000_0000
    ensures howsmall >= howbig ==> r == Drawn(howsmall, 0)
    ensures howsmall < howbig && r.Drawn? ==>
              && howsmall <= r.value < howbig && 1 <= r.used <= |draws|
              && Accepted(draws[r.used - 1], howbig - howsmall)
              && (forall i :: 0 <= i < r.used - 1 ==> !Accepted(draws[i], howbig - howsmall))
              && r.value - howsmall == High(draws[r.used - 1], howbig - howsmall)
    ensures howsmall < howbig && r.Exhausted? ==>
              forall i :: 0 <= i < |draws| ==> !Accepted(draws[i], howbig - howsmall)
  {
    hide High, Accepted;
    if howsmall >= howbig {
      return Drawn(howsmall, 0);
    }
    r := Random(howbig - howsmall, draws);
    if r.Drawn? {
      InRange(draws[r.used - 1], howbig - howsmall);
      r := Drawn(r.value + howsmall, r.used);
    }
  }
}
