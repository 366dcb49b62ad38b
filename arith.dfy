/** Small facts about multiplication and division of natural numbers. */
module Arith {

  lemma {:induction false} MulMono(a: nat, b: nat, c: nat)
    requires a <= b
    ensures a * c <= b * c
  {
    if c > 0 {
      MulMono(a, b, c - 1);
      assert a * c == a * (c - 1) + a;
      assert b * c == b * (c - 1) + b;
    }
  }

  lemma MulSucc(a: nat, c: nat)
    ensures (a + 1) * c == a * c + c
  {
  }

  /** q and r are the quotient and remainder of p by w. */
  lemma DivModUnique(p: nat, w: nat, q: nat, r: nat)
    requires 0 < w && r < w && p == q * w + r
    ensures p / w == q && p % w == r
  {
    var q', r' := p / w, p % w;
    assert p == q' * w + r';
    if q' < q {
      MulMono(q' + 1, q, w);
      MulSucc(q', w);
      assert false;
    } else if q < q' {
      MulMono(q + 1, q', w);
      MulSucc(q, w);
      assert false;
    }
  }

  /** p < h * w implies p / w < h. */
  lemma DivLess(p: nat, w: nat, h: nat)
    requires p < h * w
    ensures 0 < w && p / w < h && p % w < w
  {
    if w == 0 {
      assert false;
    }
    var q := p / w;
    assert q * w <= p;
    if q >= h {
      MulMono(h, q, w);
      assert false;
    }
  }

  /** a <= b * n bounds the quotient: a / n <= b. */
  lemma DivBound(a: nat, n: nat, b: nat)
    requires 0 < n && a <= b * n
    ensures a / n <= b
  {
    var q := a / n;
    assert q * n <= a;
    if q > b {
      MulMono(b + 1, q, n);
      MulSucc(b, n);
      assert false;
    }
  }

  lemma MulDivCancel(a: nat, n: nat)
    requires 0 < n
    ensures (a * n) / n == a
  {
    DivModUnique(a * n, n, a, 0);
  }

  lemma SquareMono(a: nat, b: nat)
    requires a <= b
    ensures a * a <= b * b
  {
    MulMono(a, b, a);
    MulMono(a, b, b);
    assert a * b == b * a;
  }

  lemma Distrib(a: nat, b: nat, c: nat)
    ensures a * (b + c) == a * b + a * c
  {
  }

  /** `Distrib` for a count n already known to be a + c. */
  lemma ScaleSum(v: nat, n: nat, a: nat, c: nat)
    requires n == a + c
    ensures v * n == v * a + v * c
  {
    Distrib(v, a, c);
  }

  /** Multiplication by a non-negative factor is monotone on integers. */
  lemma MulMonoInt(a: int, b: int, c: nat)
    requires a <= b
    ensures a * c <= b * c
  {
    MulMono(0, b - a, c);
    assert (b - a) * c == b * c - a * c;
  }

  /** A run of `4*n` bytes starting x bytes into row `last` of rows of `4*w` bytes, with
      `x + n <= w`, ends inside the first h rows when `last < h`. */
  lemma RowEndFits(w: nat, h: nat, last: nat, x: nat, n: nat)
    requires last < h && x + n <= w
    ensures w * 4 * last + x + n * 4 <= w * 4 * h
  {
    MulMono(last + 1, h, w * 4);
    MulSucc(last, w * 4);
    assert w * 4 * last == last * (w * 4);
    assert w * 4 * h == h * (w * 4);
  }

  /** The row-offset identity `w*4*(a + j) == w*j*4 + a*w*4`. */
  lemma RowOffset(w: nat, a: nat, j: nat)
    ensures w * 4 * (a + j) == w * j * 4 + a * w * 4
  {
    Distrib(w * 4, a, j);
    assert w * 4 * j == w * j * 4;
    assert w * 4 * a == a * w * 4;
  }
}
