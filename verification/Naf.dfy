/** The window NAF of a number (wwNAF) and its packed code. */
module Naf {
  import opened PowersOfTwo
  import N = Numbers

  // ---------------------------------------------------------------- signed digits

  // 0 or an odd number of absolute value below 2^(w - 1)
  predicate Digit(x: int, w: nat)
    requires w > 0
  {
    x == 0 || (x % 2 == 1 && 0 < x + Pow2(w - 1) && x < Pow2(w - 1))
  }

  // x[0] + 2 x[1] + 4 x[2] + ...
  function Value(x: seq<int>): int
  {
    if x == [] then 0 else x[0] + 2 * Value(x[1..])
  }

  lemma {:induction false} ValueAppend(x: seq<int>, d: int)
    ensures Value(x + [d]) == Value(x) + Pow2(|x|) * d
  {
    if x == [] {
      assert x + [d] == [d] && [d][1..] == [];
      assert Value([d]) == d + 2 * Value([]);
    } else {
      ValueAppend(x[1..], d);
      assert (x + [d])[1..] == x[1..] + [d];
      assert Pow2(|x|) * d == 2 * (Pow2(|x| - 1) * d);
    }
  }

  // ---------------------------------------------------------------- the packed code

  // A nonzero digit takes w bits: the sign, then the absolute value.
  function Symbol(d: int, w: nat): (c: nat)
    requires w > 0 && Digit(d, w) && d != 0
    ensures c < Pow2(w) && c % 2 == 1
    ensures d > 0 ==> c == d < Pow2(w - 1)
    ensures d < 0 ==> c == Pow2(w - 1) - d >= Pow2(w - 1)
  {
    HalfEven(w, d);
    if d > 0 then d else Pow2(w - 1) - d
  }

  lemma HalfEven(w: nat, d: int)
    requires w > 0 && Digit(d, w) && d != 0
    ensures w >= 2 && Pow2(w - 1) % 2 == 0 && Pow2(w) == 2 * Pow2(w - 1)
  {
    if w >= 2 {
      assert Pow2(w - 1) == 2 * Pow2(w - 2);
    }
  }

  ghost predicate Digits(x: seq<int>, w: nat)
    requires w > 0
  {
    forall i :: 0 <= i < |x| ==> Digit(x[i], w)
  }

  /** The code of the digits, highest digit in the lowest bits; a zero takes one bit. */
  function Code(x: seq<int>, w: nat): nat
    requires w > 0 && Digits(x, w)
  {
    if x == [] then 0
    else
      var d, c := x[|x| - 1], Code(x[..|x| - 1], w);
      if d == 0 then 2 * c else Pow2(w) * c + Symbol(d, w)
  }

  lemma CodeAppend(x: seq<int>, d: int, w: nat)
    requires w > 0 && Digits(x, w) && Digit(d, w)
    ensures Digits(x + [d], w)
    ensures Code(x + [d], w) == if d == 0 then 2 * Code(x, w) else Pow2(w) * Code(x, w) + Symbol(d, w)
  {
    hide Pow2;
    assert (x + [d])[..|x|] == x;
  }

  // wwGetBits
  function GetBits(n: nat, pos: nat, width: nat): (b: nat)
    ensures b < Pow2(width)
  {
    N.DivNat(n, Pow2(pos));
    (n / Pow2(pos)) % Pow2(width)
  }

  // What is left of a code above position pos.
  ghost predicate Rest(n: nat, pos: nat, x: seq<int>, w: nat)
    requires w > 0
  {
    Digits(x, w) && n / Pow2(pos) == Code(x, w)
  }

  /** Reading w bits gives the highest digit: an even value means a zero of one bit. */
  lemma ReadSymbol(n: nat, pos: nat, x: seq<int>, w: nat)
    requires w > 0 && x != [] && Rest(n, pos, x, w)
    ensures var d, b := x[|x| - 1], GetBits(n, pos, w);
            && Digit(d, w)
            && (d == 0 ==> b % 2 == 0 && Rest(n, pos + 1, x[..|x| - 1], w))
            && (d != 0 ==> b == Symbol(d, w) && Rest(n, pos + w, x[..|x| - 1], w))
  {
    hide Pow2, Digit, Symbol, Code;
    CodeUnfold(x, w);
    var d, c := x[|x| - 1], Code(x[..|x| - 1], w);
    var m := n / Pow2(pos);
    Pow2One();
    if d == 0 {
      DropBits(n, pos, 1);
      N.DivUnique(m, 2, c, 0);
      EvenBits(m, w);
    } else {
      DropBits(n, pos, w);
      N.DivUnique(m, Pow2(w), c, Symbol(d, w));
    }
  }

  lemma CodeUnfold(x: seq<int>, w: nat)
    requires w > 0 && x != [] && Digits(x, w)
    ensures var d, c := x[|x| - 1], Code(x[..|x| - 1], w);
            Code(x, w) == if d == 0 then 2 * c else c * Pow2(w) + Symbol(d, w)
  {
    hide Pow2, Digit, Symbol;
    N.Commute(Code(x[..|x| - 1], w), Pow2(w));
  }

  lemma DropBits(n: nat, pos: nat, k: nat)
    ensures n / Pow2(pos + k) == (n / Pow2(pos)) / Pow2(k)
  {
    hide Pow2;
    Pow2Add(pos, k);
    N.DivNat(n, Pow2(pos));
    N.DivDiv(n, Pow2(pos), Pow2(k));
  }

  lemma EvenBits(m: nat, w: nat)
    requires w > 0 && m % 2 == 0
    ensures (m % Pow2(w)) % 2 == 0
  {
    var p := Pow2(w - 1);
    var q, r := m / Pow2(w), m % Pow2(w);
    assert m == q * (2 * p) + r;
    N.ModShift(r, q * p, 2);
    assert m == r + (q * p) * 2;
  }

  // ---------------------------------------------------------------- distances of nonzero digits

  // Among w consecutive digits at most one is not 0.
  ghost predicate Spread(x: seq<int>, w: nat)
  {
    forall p, q :: 0 <= p < q < |x| && x[p] != 0 && x[q] != 0 ==> q - p >= w
  }

  // The same, but the highest digit may be a 1 that stands one place too near.
  ghost predicate Sparse(x: seq<int>, w: nat)
  {
    || Spread(x, w)
    || (var n := |x| - 1;
        && n >= 0 && Spread(x[..n], w) && x[n] == 1
        && forall p :: 0 <= p < n && x[p] != 0 ==> n - p >= w - 1)
  }

  function Nonzeros(x: seq<int>): (m: nat)
  {
    if x == [] then 0 else Nonzeros(x[..|x| - 1]) + if x[|x| - 1] != 0 then 1 else 0
  }

  // The digit at last is the highest that is not 0, or last is -1.
  ghost predicate Last(x: seq<int>, last: int)
  {
    -1 <= last < |x| && (last >= 0 ==> x[last] != 0) && forall j :: last < j < |x| ==> x[j] == 0
  }

  lemma LastAppend(x: seq<int>, last: int, d: int)
    requires Last(x, last)
    ensures Last(x + [d], if d == 0 then last else |x|)
  {
  }

  lemma SpreadAppend(x: seq<int>, last: int, d: int, w: nat)
    requires Spread(x, w) && Last(x, last) && (d != 0 && last >= 0 ==> |x| - last >= w)
    ensures Spread(x + [d], w)
  {
  }

  // Each nonzero digit but the first has w places to itself.
  lemma {:induction false} SpreadCount(x: seq<int>, w: nat) returns (last: int)
    requires Spread(x, w)
    ensures Last(x, last) && (last == -1 ==> Nonzeros(x) == 0)
    ensures last >= 0 ==> Nonzeros(x) >= 1 && (Nonzeros(x) - 1) * w <= last
  {
    if x == [] {
      last := -1;
    } else {
      var n := |x| - 1;
      var y := x[..n];
      SpreadPrefix(x, y, w);
      last := SpreadCount(y, w);
      LastAppend(y, last, x[n]);
      if x[n] != 0 {
        if last >= 0 {
          OneMore(Nonzeros(y), w, last, n);
        }
        last := n;
      }
    }
  }

  lemma SpreadPrefix(x: seq<int>, y: seq<int>, w: nat)
    requires x != [] && Spread(x, w) && y == x[..|x| - 1]
    ensures Spread(y, w) && x == y + [x[|x| - 1]]
    ensures forall p :: 0 <= p < |y| && y[p] != 0 && x[|x| - 1] != 0 ==> |y| - p >= w
  {
  }

  lemma OneMore(m: nat, w: nat, last: int, n: int)
    requires m >= 1 && (m - 1) * w <= last && n - last >= w
    ensures m * w <= n
  {
    assert m * w == (m - 1) * w + w;
  }

  lemma SparseCount(x: seq<int>, w: nat)
    requires w > 0 && Sparse(x, w)
    ensures Nonzeros(x) > 0 ==> (Nonzeros(x) - 1) * w <= |x|
  {
    hide Spread;
    if Spread(x, w) {
      var last := SpreadCount(x, w);
    } else {
      var n := |x| - 1;
      var last := SpreadCount(x[..n], w);
      if last >= 0 {
        assert x[last] != 0;
        OneMore(Nonzeros(x[..n]), w, last, last + w);
      }
    }
  }

  lemma {:induction false} CodeBits(x: seq<int>, w: nat)
    requires w > 0 && Digits(x, w)
    ensures Code(x, w) < Pow2(|x| + Nonzeros(x) * (w - 1))
  {
    hide Pow2, Digit, Symbol;
    Pow2One();
    if x != [] {
      var n := |x| - 1;
      var m := Nonzeros(x[..n]);
      CodeBits(x[..n], w);
      CodeBitsStep(Code(x[..n], w), n, m, w, if x[n] == 0 then 0 else Symbol(x[n], w));
    }
  }

  lemma CodeBitsStep(c: nat, n: nat, m: nat, w: nat, s: nat)
    requires w > 0 && c < Pow2(n + m * (w - 1)) && s < Pow2(w)
    ensures 2 * c < Pow2(n + 1 + m * (w - 1))
    ensures Pow2(w) * c + s < Pow2(n + 1 + (m + 1) * (w - 1))
  {
    hide Pow2;
    var e := n + m * (w - 1);
    Pow2Step(e);
    Pow2Add(w, e);
    assert n + 1 + (m + 1) * (w - 1) == w + e;
    TopSymbol(c, Pow2(e), Pow2(w), s);
  }

  lemma TopSymbol(c: nat, e: nat, p: nat, s: nat)
    requires c < e && s < p
    ensures p * c + s < p * e
  {
    N.StepUp(e, c, p);
  }

  // The buffer of 2 n + 1 words is long enough.
  lemma CodeFits(x: seq<int>, w: nat, n: nat)
    requires w > 0 && Digits(x, w) && Sparse(x, w) && |x| <= n + 1
    ensures Code(x, w) < Pow2(2 * n + 1 + w)
  {
    hide Pow2, Sparse, Code;
    CodeBits(x, w);
    SparseCount(x, w);
    var m := Nonzeros(x);
    assert m > 0 ==> m * (w - 1) == (m - 1) * w + w - m;
    assert m == 0 ==> m * (w - 1) == 0;
    Pow2Monotone(|x| + m * (w - 1), 2 * n + 1 + w);
  }

  // ---------------------------------------------------------------- wwNAF

  // wwBitSize
  function BitSize(a: nat): (n: nat)
    ensures a < Pow2(n)
    ensures a > 0 ==> n > 0 && Pow2(n - 1) <= a
  {
    if a == 0 then 0 else 1 + BitSize(a / 2)
  }

  lemma NextBit(a: nat, i: nat)
    ensures a / Pow2(i) == 2 * (a / Pow2(i + 1)) + GetBits(a, i, 1)
  {
    hide Pow2;
    DropBits(a, i, 1);
    Pow2One();
  }

  lemma HighBits(a: nat, i: nat)
    requires i >= BitSize(a)
    ensures a / Pow2(i) == 0 && GetBits(a, i, 1) == 0
  {
    hide Pow2, BitSize;
    Pow2Monotone(BitSize(a), i);
    N.DivUnique(a, Pow2(i), 0, a);
    Pow2One();
  }

  lemma TopBit(a: nat)
    requires a > 0
    ensures GetBits(a, BitSize(a) - 1, 1) == 1
  {
    hide BitSize;
    var n := BitSize(a);
    assert Pow2(n) == 2 * Pow2(n - 1);
    N.DivUnique(a, Pow2(n - 1), 1, a - Pow2(n - 1));
    Pow2One();
  }

  // The invariant of the loop: digits so far, the window, the unread bits of a.
  ghost predicate Decomposed(a: nat, x: seq<int>, window: nat, w: nat)
  {
    a == Value(x) + Pow2(|x|) * (window + Pow2(w) * (a / Pow2(w + |x|)))
  }

  lemma DecomposedStart(a: nat, w: nat)
    ensures Decomposed(a, [], a % Pow2(w), w)
  {
    hide Pow2;
    Pow2One();
  }

  lemma DecomposedStep(a: nat, x: seq<int>, window: nat, w: nat, d: int, window': nat)
    requires w > 0 && Decomposed(a, x, window, w) && window == d + 2 * window'
    ensures Decomposed(a, x + [d], window' + Pow2(w - 1) * GetBits(a, w + |x|, 1), w)
  {
    hide GetBits;
    var i := w + |x|;
    NextBit(a, i);
    ValueAppend(x, d);
    var p, h, f, b := Pow2(|x|), Pow2(w - 1), a / Pow2(i + 1), GetBits(a, i, 1);
    assert Pow2(w) == 2 * h && Pow2(|x| + 1) == 2 * p;
    Regroup(p, d, window', h, f, b);
    assert w + |x + [d]| == i + 1;
  }

  lemma Regroup(p: int, d: int, v: int, h: int, f: int, b: int)
    ensures p * (d + 2 * v + 2 * h * (2 * f + b)) == p * d + (2 * p) * (v + h * b + 2 * h * f)
  {
    assert 2 * h * (2 * f + b) == 2 * (h * b + 2 * h * f);
    var y := v + h * b + 2 * h * f;
    assert p * (d + 2 * y) == p * d + (2 * p) * y;
  }

  /** wwNAF: naf is the packed code of digits whose value is a; the highest digit is
      positive, there is at most one digit more than a has bits, and nonzero digits keep their
      distance. The code fits 2 n + 1 words of more than w bits when a fits n words. The
      digits themselves are a ghost result. */
  method Recode(a: nat, w: nat) returns (naf: nat, size: nat, ghost x: seq<int>)
    requires w >= 2
    ensures |x| == size && Digits(x, w) && Value(x) == a && naf == Code(x, w)
    ensures size == 0 <==> a == 0
    ensures size > 0 ==> x[size - 1] > 0
    ensures size <= BitSize(a) + 1 && Sparse(x, w) && naf < Pow2(2 * BitSize(a) + 1 + w)
  {
    hide Pow2, Code, GetBits, Value, BitSize, Digit, Symbol, Decomposed, Tail, Sparse, Ending, Kept;
    naf, size, x := 0, 0, [];
    Start(a, w);
    TailStart(a, w);
    if a == 0 {
      return;
    }
    var aLen, hi := BitSize(a), Pow2(w - 1);
    var window: nat := GetBits(a, 0, w);
    var i := w;
    ghost var last := -1;
    EndingStart(aLen, w, window);
    KeptStart(a, w, aLen, window);
    while window != 0 || i < aLen
      invariant i == w + size && |x| == size && Digits(x, w) && naf == Code(x, w)
      invariant Kept(a, w, aLen, i, x, last, window)
      decreases if i < aLen then aLen - i else 0, window
    {
      var odd, symbol, half;
      ghost var d;
      KeptWindow(a, w, aLen, i, x, last, window);
      odd, symbol, half, d := EncodeWindow(window, w, i >= aLen);
      CodeAppend(x, d, w);
      Round(a, w, aLen, i, x, last, window, d, half);
      naf := if odd then Pow2(w) * naf + symbol else 2 * naf;
      size := size + 1;
      window := half;
      if i < aLen {
        window := window + hi * GetBits(a, i, 1);
      }
      last := if d == 0 then last else |x|;
      x := x + [d];
      i := i + 1;
    }
    KeptEnd(a, w, aLen, i, x, last);
    CodeFits(x, w, BitSize(a));
  }

  // What every round of the loop keeps.
  ghost predicate Kept(a: nat, w: nat, aLen: nat, i: nat, x: seq<int>, last: int, window: nat)
  {
    && window <= Pow2(w) && Decomposed(a, x, window, w)
    && (window == 0 && i >= aLen ==> |x| > 0 && x[|x| - 1] > 0)
    && Tail(x, last, window, w, i >= aLen) && Ending(aLen, i, w, window)
  }

  lemma KeptStart(a: nat, w: nat, aLen: nat, window: nat)
    requires window <= Pow2(w) && Decomposed(a, [], window, w) && (window == 0 ==> w < aLen)
    requires Tail([], -1, window, w, w >= aLen) && Ending(aLen, w, w, window)
    ensures Kept(a, w, aLen, w, [], -1, window)
  {
    hide Pow2, Decomposed, Tail, Ending;
  }

  lemma KeptWindow(a: nat, w: nat, aLen: nat, i: nat, x: seq<int>, last: int, window: nat)
    requires Kept(a, w, aLen, i, x, last, window)
    ensures window <= Pow2(w)
  {
  }

  lemma Round(a: nat, w: nat, aLen: nat, i: nat, x: seq<int>, last: int, window: nat, d: int, half: nat)
    requires w >= 2 && a > 0 && aLen == BitSize(a) && i == w + |x| && (window != 0 || i < aLen)
    requires Kept(a, w, aLen, i, x, last, window) && window == d + 2 * half && half <= Pow2(w - 1)
    requires (d != 0 <==> window % 2 == 1) && (window == 1 ==> d == 1) && (half == 0 && window > 0 ==> d > 0)
    requires d != 0 ==> half == 0 || half == Pow2(w - 1) || (i >= aLen && 2 * half == Pow2(w - 1))
    requires i >= aLen ==> 2 * half <= window
    ensures var b := GetBits(a, i, 1);
            && (i >= aLen ==> b == 0 && Pow2(w - 1) * b == 0) && 0 <= Pow2(w - 1) * b
            && Kept(a, w, aLen, i + 1, x + [d], if d == 0 then last else |x|, half + Pow2(w - 1) * b)
  {
    hide Pow2, GetBits, BitSize, Decomposed, Tail, Ending;
    DecomposedStep(a, x, window, w, d, half);
    BitFacts(a, i, half, w);
    TailStep(x, last, window, w, i >= aLen, d, half, GetBits(a, i, 1), i + 1 >= aLen);
    EndingStep(aLen, i, w, window, half, GetBits(a, i, 1));
  }

  lemma KeptEnd(a: nat, w: nat, aLen: nat, i: nat, x: seq<int>, last: int)
    requires Kept(a, w, aLen, i, x, last, 0) && i == w + |x| && i >= aLen == BitSize(a)
    ensures Value(x) == a && i <= aLen + w + 1 && Sparse(x, w) && |x| > 0 && x[|x| - 1] > 0
  {
    hide Pow2, BitSize, Value, Decomposed, Tail, Ending, Sparse;
    Finish(a, x, w, i);
    EndOf(aLen, i, w, 0);
    TailSparse(x, last, w, i >= aLen);
  }

  // What the window says about the next digits. After a nonzero digit it is a multiple of
  // 2^(w - 1), and it loses one factor 2 with each zero. The exception is a highest digit
  // that was made positive: then only one 1 is left in the window.
  ghost predicate Tail(x: seq<int>, last: int, window: nat, w: nat, ended: bool)
  {
    Last(x, last) &&
    var k := |x| - last;
    || (Spread(x, w) && (0 <= last && k <= w ==> window % Pow2(w - k) == 0))
    || (ended && Spread(x, w) && 0 <= last && k <= w - 1 && window == Pow2(w - 1 - k))
    || (ended && Sparse(x, w) && window == 0)
  }

  lemma TailStart(a: nat, w: nat)
    requires w > 0
    ensures Tail([], -1, GetBits(a, 0, w), w, w >= BitSize(a)) && Sparse([], w)
    ensures w >= BitSize(a) ==> GetBits(a, 0, w) <= Pow2(BitSize(a))
  {
    hide BitSize;
    Pow2One();
    if w >= BitSize(a) {
      Pow2Monotone(BitSize(a), w);
      N.SmallMod(a, Pow2(w));
    }
  }

  lemma TailSparse(x: seq<int>, last: int, w: nat, ended: bool)
    requires Tail(x, last, 0, w, ended)
    ensures Sparse(x, w)
  {
  }

  lemma TailStep(x: seq<int>, last: int, window: nat, w: nat, ended: bool, d: int, half: nat, bit: nat, ended': bool)
    requires w >= 2 && Tail(x, last, window, w, ended) && (window != 0 || !ended)
    requires window == d + 2 * half && (d != 0 <==> window % 2 == 1) && (window == 1 ==> d == 1)
    requires d != 0 ==> half == 0 || half == Pow2(w - 1) || (ended && 2 * half == Pow2(w - 1))
    requires ended ==> ended' && bit == 0
    ensures Tail(x + [d], if d == 0 then last else |x|, half + Pow2(w - 1) * bit, w, ended')
  {
    hide Pow2, Spread, Sparse, Last;
    LastAppend(x, last, d);
    var k := |x| - last;
    if Spread(x, w) && (0 <= last && k <= w ==> window % Pow2(w - k) == 0) {
      if d == 0 {
        SpreadAppend(x, last, d, w);
        if 0 <= last && k < w {
          HalfMultiple(half, w - k, w - 1, bit);
        }
      } else {
        if 0 <= last && k < w {
          OddWindow(window, w - k);
        }
        SpreadAppend(x, last, d, w);
        AfterDigit(half, w, bit);
      }
    } else if k < w - 1 {
      Pow2Step(w - 2 - k);
      SpreadAppend(x, last, 0, w);
    } else {
      Pow2One();
      LastOne(x, last, w);
    }
  }

  lemma HalfMultiple(half: nat, e: nat, h: nat, bit: nat)
    requires 0 < e <= h + 1 && (2 * half) % Pow2(e) == 0
    ensures (half + Pow2(h) * bit) % Pow2(e - 1) == 0
  {
    hide Pow2;
    Pow2Step(e - 1);
    var m := Pow2(e - 1);
    var q := (2 * half) / Pow2(e);
    assert 2 * half == q * (2 * m);
    assert half == q * m;
    Pow2Add(h - (e - 1), e - 1);
    var r := Pow2(h - (e - 1));
    assert Pow2(h) * bit == (r * bit) * m;
    N.DivUnique(half + Pow2(h) * bit, m, q + r * bit, 0);
  }

  lemma OddWindow(window: nat, e: nat)
    requires e > 0 && window % 2 == 1
    ensures window % Pow2(e) != 0
  {
    if window % Pow2(e) == 0 {
      var q := window / Pow2(e);
      assert window == q * (2 * Pow2(e - 1));
      N.DivUnique(window, 2, q * Pow2(e - 1), 0);
    }
  }

  lemma AfterDigit(half: nat, w: nat, bit: nat)
    requires w >= 2
    ensures half == 0 || half == Pow2(w - 1) ==> (half + Pow2(w - 1) * bit) % Pow2(w - 1) == 0
    ensures 2 * half == Pow2(w - 1) && bit == 0 ==> half + Pow2(w - 1) * bit == Pow2(w - 2)
  {
    hide Pow2;
    var m := Pow2(w - 1);
    Pow2Step(w - 2);
    if half == 0 {
      N.DivUnique(m * bit, m, bit, 0);
    } else if half == m {
      N.DivUnique(m + m * bit, m, bit + 1, 0);
    }
  }

  lemma LastOne(x: seq<int>, last: int, w: nat)
    requires Spread(x, w) && Last(x, last) && 0 <= last && |x| - last >= w - 1
    ensures Sparse(x + [1], w)
  {
    assert (x + [1])[..|x|] == x;
  }

  // Once the bits of a have ended the window is at least halved in every round.
  ghost predicate Ending(aLen: nat, i: nat, w: nat, window: nat)
  {
    i >= aLen ==> if i <= aLen + w then window <= Pow2(aLen + w - i) else i == aLen + w + 1 && window == 0
  }

  lemma EndOf(aLen: nat, i: nat, w: nat, window: nat)
    requires Ending(aLen, i, w, window) && i >= aLen
    ensures i <= aLen + w + 1
  {
  }

  lemma EndingStart(aLen: nat, w: nat, window: nat)
    requires w >= aLen ==> window <= Pow2(aLen)
    ensures Ending(aLen, w, w, window)
  {
  }

  lemma EndingStep(aLen: nat, i: nat, w: nat, window: nat, half: nat, bit: nat)
    requires w > 0 && Ending(aLen, i, w, window) && (window != 0 || i < aLen)
    requires half <= Pow2(w - 1) && bit < 2 && (i >= aLen ==> bit == 0 && 2 * half <= window)
    ensures Ending(aLen, i + 1, w, half + Pow2(w - 1) * bit)
  {
    hide Pow2;
    Pow2One();
    Pow2Step(w - 1);
    if bit == 1 {
      assert Pow2(w - 1) * bit == Pow2(w - 1);
    }
    if aLen <= i < aLen + w {
      Pow2Step(aLen + w - i - 1);
    }
  }

  lemma Halves(w: nat)
    requires w >= 2
    ensures Pow2(w) == 2 * Pow2(w - 1) && Pow2(w - 1) % 2 == 0
  {
    assert Pow2(w - 1) == 2 * Pow2(w - 2);
  }

  // The bits of a window below hi.
  function Low(n: int, hi: nat): (b: nat)
    requires hi > 0
    ensures b < hi
  {
    n % hi
  }

  lemma LowPart(window: nat, hi: nat)
    requires 0 < hi < window < 2 * hi
    ensures Low(window, hi) == window - hi && Low(0 - window, hi) == 2 * hi - window
  {
    N.DivUnique(window, hi, 1, window - hi);
    N.DivUnique(0 - window, hi, -2, 2 * hi - window);
  }

  // One round on the window: the symbol to write and what is shifted down.
  method EncodeWindow(window0: nat, w: nat, ended: bool)
    returns (odd: bool, symbol: nat, half: nat, ghost d: int)
    requires w >= 2 && window0 <= Pow2(w)
    ensures Digit(d, w) && (odd <==> d != 0) && (odd <==> window0 % 2 == 1) && (odd ==> symbol == Symbol(d, w))
    ensures window0 == d + 2 * half && half <= Pow2(w - 1)
    ensures window0 > 0 && ended ==> half < window0
    ensures half == 0 && window0 > 0 ==> d > 0
    ensures d == 0 ==> half == window0 / 2
    ensures ended ==> 2 * half <= window0
    ensures odd ==> half == 0 || half == Pow2(w - 1) || (ended && 2 * half == Pow2(w - 1))
    ensures window0 == 1 ==> d == 1
  {
    hide Pow2, Digit, Symbol, Low;
    var window: nat, hi := window0, Pow2(w - 1);
    Halves(w);
    odd, symbol, d := window % 2 == 1, 0, 0;
    ZeroDigit(w);
    if odd {
      if window >= hi {  // bit w - 1 of the window
        LowPart(window, hi);
        if ended {
          symbol := Low(window, hi);
          window := hi;
        } else {
          symbol := Low(0 - window, hi);
          symbol := symbol + hi;
          window := 2 * hi;
        }
      } else {
        symbol := window;
        window := 0;
      }
      d := window0 - window;
      OddDigit(d, w);
    }
    half := window / 2;
  }

  lemma ZeroDigit(w: nat)
    requires w > 0
    ensures Digit(0, w)
  {
  }

  lemma OddDigit(d: int, w: nat)
    requires w > 0 && d % 2 == 1 && 0 < d + Pow2(w - 1) && d < Pow2(w - 1)
    ensures Digit(d, w) && Symbol(d, w) == if d > 0 then d else Pow2(w - 1) - d
  {
    hide Pow2;
  }

  lemma Start(a: nat, w: nat)
    requires w >= 2
    ensures GetBits(a, 0, w) == a % Pow2(w) < Pow2(w) && Decomposed(a, [], GetBits(a, 0, w), w)
    ensures Code([], w) == 0 && Value([]) == 0
    ensures a > 0 && GetBits(a, 0, w) == 0 ==> w < BitSize(a)
  {
    hide BitSize;
    Pow2One();
    DecomposedStart(a, w);
    if a > 0 && w >= BitSize(a) {
      Pow2Monotone(BitSize(a), w);
      N.SmallMod(a, Pow2(w));
    }
  }

  lemma Finish(a: nat, x: seq<int>, w: nat, i: nat)
    requires Decomposed(a, x, 0, w) && i == w + |x| && i >= BitSize(a)
    ensures Value(x) == a
  {
    hide Pow2, Value, BitSize;
    HighBits(a, i);
    assert Pow2(|x|) * (0 + Pow2(w) * 0) == 0;
  }

  lemma BitFacts(a: nat, i: nat, half: nat, w: nat)
    requires a > 0 && w > 0 && half <= Pow2(w - 1)
    ensures var b := GetBits(a, i, 1);
            && b < 2 && (i >= BitSize(a) ==> b == 0) && (i + 1 == BitSize(a) ==> b == 1)
            && (b == 1 ==> Pow2(w - 1) * b > 0)
            && (b == 0 ==> Pow2(w - 1) * b == 0)
            && half + Pow2(w - 1) * b <= Pow2(w)
  {
    hide BitSize, GetBits;
    Pow2One();
    if i >= BitSize(a) {
      HighBits(a, i);
    }
    if i + 1 == BitSize(a) {
      TopBit(a);
    }
  }
}
