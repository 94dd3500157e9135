/** Sliding-window powers in a quotient ring (qrPower). */
module QrPower {
  import opened PowersOfTwo
  import opened Qr
  import N = Numbers
  import Naf

  // qrCalcSlideWidth, for m words of B bits
  function SlideWidth(l: nat): (w: nat)
    ensures 3 <= w <= 7
  {
    if l <= 79 then 3 else if l <= 239 then 4 else if l <= 671 then 5 else if l <= 1791 then 6 else 7
  }

  // a - b in size_t, where max is SIZE_MAX
  function SizeSub(a: nat, b: nat, max: nat): nat
    requires a <= max && b <= max
  {
    if b <= a then a - b else a + (max + 1) - b
  }

  // ---------------------------------------------------------------- exponents

  lemma PowDouble(r: Ring, a: nat, n: nat)
    requires Valid(r)
    ensures Mul(r, Pow(r, a, n), Pow(r, a, n)) == Pow(r, a, 2 * n)
  {
    hide Mul, Pow;
    PowAdd(r, a, n, n);
  }

  // The bits of b from position i up.
  function High(b: nat, i: nat): nat
  {
    N.DivNat(b, Pow2(i));
    b / Pow2(i)
  }

  lemma HighSplit(b: nat, i: nat, k: nat)
    ensures High(b, i) == High(b, i + k) * Pow2(k) + Naf.GetBits(b, i, k)
  {
    hide Pow2;
    Naf.DropBits(b, i, k);
  }

  lemma HighTop(b: nat)
    ensures High(b, Naf.BitSize(b)) == 0 && High(b, 0) == b
  {
    hide Pow2, Naf.BitSize;
    Pow2One();
    Naf.HighBits(b, Naf.BitSize(b));
  }

  // ---------------------------------------------------------------- the table

  ghost predicate OddPowers(r: Ring, powers: seq<nat>, a: nat, w: nat)
    requires Valid(r)
  {
    w > 0 && |powers| == Pow2(w - 1) && forall i :: 0 <= i < |powers| ==> powers[i] == Pow(r, a, 2 * i + 1)
  }

  method Table(r: Ring, a: nat, w: nat) returns (powers: array<nat>)
    requires Valid(r) && a < Size(r) && w >= 2
    ensures fresh(powers) && OddPowers(r, powers[..], a, w)
  {
    hide Mul, Pow, Size;
    assert Pow2(w - 1) == 2 * Pow2(w - 2);
    SmallPowers(r, a);
    powers := new nat[Pow2(w - 1)];
    powers[0] := Mul(r, a, a);
    powers[1] := Mul(r, a, powers[0]);
    var i := 2;
    while i < powers.Length
      invariant 2 <= i <= powers.Length && powers[0] == Pow(r, a, 2)
      invariant forall j :: 1 <= j < i ==> powers[j] == Pow(r, a, 2 * j + 1)
    {
      PowAdd(r, a, 2 * (i - 1) + 1, 2);
      powers[i] := Mul(r, powers[i - 1], powers[0]);
      i := i + 1;
    }
    powers[0] := a;
  }

  lemma SmallPowers(r: Ring, a: nat)
    requires Valid(r) && a < Size(r)
    ensures Pow(r, a, 1) == a && Pow(r, a, 2) == Mul(r, a, a) && Pow(r, a, 3) == Mul(r, a, Mul(r, a, a))
  {
    hide Mul, Size;
    MulUnit(r, a);
    assert Pow(r, a, 1) == Mul(r, a, Pow(r, a, 0));
  }

  // ---------------------------------------------------------------- slides

  // A slide: slideSize bits of b ending at position pos, as a number.
  ghost predicate Slide(b: nat, pos: nat, size: nat, slide: nat)
  {
    0 < size <= pos + 1 && slide < Pow2(size) && slide > 0
    && High(b, pos + 1 - size) == High(b, pos + 1) * Pow2(size) + slide
  }

  lemma SlideStart(b: nat, pos: nat, size: nat)
    requires 0 < size <= pos + 1 && Naf.GetBits(b, pos, 1) == 1
    ensures Slide(b, pos, size, Naf.GetBits(b, pos + 1 - size, size))
  {
    hide Pow2, Naf.GetBits, High;
    HighSplit(b, pos + 1 - size, size);
    HighSplit(b, pos, 1);
    HighSplit(b, pos + 1 - size, size - 1);
    Pow2One();
    var h, g, s := High(b, pos + 1), Naf.GetBits(b, pos + 1 - size, size - 1), Pow2(size - 1);
    assert High(b, pos) == 2 * h + 1;
    Pow2Step(size - 1);
    SlideTop(h, s, g, Naf.GetBits(b, pos + 1 - size, size));
  }

  lemma SlideTop(h: nat, s: nat, g: nat, x: nat)
    requires s > 0 && (2 * h + 1) * s + g == h * (2 * s) + x
    ensures x == s + g
  {
    assert (2 * h + 1) * s == h * (2 * s) + s;
  }

  // A trailing zero is left for later.
  lemma SlideShrink(b: nat, pos: nat, size: nat, slide: nat)
    requires Slide(b, pos, size, slide) && slide % 2 == 0
    ensures Slide(b, pos, size - 1, slide / 2)
  {
    hide Pow2, High;
    Pow2Step(size - 1);
    Pow2One();
    var i, h, p := pos + 1 - size, High(b, pos + 1), Pow2(size - 1);
    Naf.DropBits(b, i, 1);
    HighHalf(b, i);
    assert High(b, i) == 2 * (h * p + slide / 2) by {
      assert h * (2 * p) == 2 * (h * p);
    }
    assert slide / 2 < p;
  }

  lemma HighHalf(b: nat, i: nat)
    ensures High(b, i + 1) == High(b, i) / 2
  {
    hide Pow2;
    Pow2One();
    Naf.DropBits(b, i, 1);
  }

  method NextSlide(b: nat, pos: nat, w: nat) returns (size: nat, slide: nat)
    requires w > 0 && Naf.GetBits(b, pos, 1) == 1
    ensures Slide(b, pos, size, slide) && slide % 2 == 1 && size <= w
  {
    hide Pow2, Naf.GetBits, High, Slide;
    size := if pos + 1 < w then pos + 1 else w;
    slide := Naf.GetBits(b, pos + 1 - size, size);
    SlideStart(b, pos, size);
    SlideRange(b, pos, size, slide);
    while slide % 2 == 0
      invariant Slide(b, pos, size, slide) && size <= w && slide > 0 && size > 0
      decreases slide
    {
      SlideShrink(b, pos, size, slide);
      slide := slide / 2;
      size := size - 1;
      SlideRange(b, pos, size, slide);
    }
  }

  lemma SlideRange(b: nat, pos: nat, size: nat, slide: nat)
    requires Slide(b, pos, size, slide)
    ensures 0 < size <= pos + 1 && 0 < slide < Pow2(size)
  {
  }

  // power^(2^size) * a^slide
  lemma AppendSlide(r: Ring, a: nat, b: nat, pos: nat, size: nat, slide: nat)
    requires Valid(r) && Slide(b, pos, size, slide)
    ensures Mul(r, Pow(r, a, High(b, pos + 1) * Pow2(size)), Pow(r, a, slide))
            == Pow(r, a, High(b, pos + 1 - size))
  {
    hide Mul, Pow, Pow2, High;
    PowAdd(r, a, High(b, pos + 1) * Pow2(size), slide);
  }

  lemma TableIndex(slide: nat, size: nat, w: nat)
    requires slide % 2 == 1 && slide < Pow2(size) && 0 < size <= w
    ensures slide / 2 < Pow2(w - 1) && 2 * (slide / 2) + 1 == slide
  {
    hide Pow2;
    Pow2Monotone(size, w);
    Pow2Step(w - 1);
  }

  // ---------------------------------------------------------------- qrPower

  // power <- power^2, size times
  method SqrTimes(r: Ring, a: nat, power0: nat, size0: nat, ghost h: nat) returns (power: nat)
    requires Valid(r) && power0 == Pow(r, a, h)
    ensures power == Pow(r, a, h * Pow2(size0))
  {
    hide Mul, Pow, Pow2, Size;
    Pow2One();
    power := power0;
    var size, n: nat := size0, 0;
    while size > 0
      invariant 0 <= size && n + size == size0 && power == Pow(r, a, h * Pow2(n))
    {
      PowDouble(r, a, h * Pow2(n));
      Pow2Step(n);
      DoubleProduct(h, Pow2(n));
      power := Mul(r, power, power);
      size := size - 1;
      n := n + 1;
    }
  }

  lemma DoubleProduct(h: nat, p: nat)
    ensures h * (2 * p) == 2 * (h * p)
  {
  }

  /** qrPower: c == a^b. The position runs down and the loop ends when it wraps to
      SIZE_MAX (max) after bit 0. */
  method Power(r: Ring, a: nat, b: nat, m: nat, B: nat, max: nat) returns (c: nat)
    requires Valid(r) && a < Size(r) && b < Pow2(B * m)
    requires B * m < max && 7 < max  // bit positions fit size_t
    ensures c == Pow(r, a, b)
  {
    hide Mul, Pow, Pow2, Naf.GetBits, High, Naf.BitSize, Slide, Size;
    var w := SlideWidth(B * m);
    if b == 0 {
      PowNothing(r, a);
      return 1;
    }
    var powers := Table(r, a, w);
    var pos: nat := Naf.BitSize(b) - 1;
    FirstBit(b, B * m);
    var size, slide := NextSlide(b, pos, w);
    SlideRange(b, pos, size, slide);
    TableIndex(slide, size, w);
    var power: nat := powers[slide / 2];
    HighTop(b);
    AppendSlide(r, a, b, pos, size, slide);
    PowNothing(r, a);
    MulUnit(r, power);
    assert 0 * Pow2(size) == 0;
    ghost var i: nat := pos + 1 - size;
    pos := SizeSub(pos, size, max);
    while pos != max
      invariant pos == (if i == 0 then max else i - 1) && i < max
      invariant power == Pow(r, a, High(b, i)) && OddPowers(r, powers[..], a, w)
      decreases i
    {
      if Naf.GetBits(b, pos, 1) == 0 {
        HighSplit(b, pos, 1);
        Pow2One();
        PowDouble(r, a, High(b, i));
        power := Mul(r, power, power);
        pos := SizeSub(pos, 1, max);
        i := i - 1;
      } else {
        OneBit(b, pos);
        size, slide := NextSlide(b, pos, w);
        SlideRange(b, pos, size, slide);
        TableIndex(slide, size, w);
        AppendSlide(r, a, b, pos, size, slide);
        power := SqrTimes(r, a, power, size, High(b, i));
        power := Mul(r, power, powers[slide / 2]);
        i := i - size;
        pos := SizeSub(pos, size, max);
      }
    }
    HighTop(b);
    c := power;
  }

  lemma PowNothing(r: Ring, a: nat)
    requires Valid(r)
    ensures Pow(r, a, 0) == 1 < Size(r)
  {
  }

  lemma FirstBit(b: nat, n: nat)
    requires 0 < b < Pow2(n)
    ensures 0 < Naf.BitSize(b) <= n && Naf.GetBits(b, Naf.BitSize(b) - 1, 1) == 1
  {
    hide Pow2, Naf.BitSize, Naf.GetBits;
    Naf.TopBit(b);
    if Naf.BitSize(b) > n {
      Pow2Monotone(n, Naf.BitSize(b) - 1);
    }
  }

  lemma OneBit(b: nat, pos: nat)
    requires Naf.GetBits(b, pos, 1) != 0
    ensures Naf.GetBits(b, pos, 1) == 1
  {
    hide Pow2;
    Pow2One();
  }
}
