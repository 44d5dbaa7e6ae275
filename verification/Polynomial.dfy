/** Polynomials over the field of two elements, as their coefficients from the constant term up, modulo
    P^128 + P^7 + P^2 + P + 1. */
module Polynomial {

  predicate At(x: seq<bool>, i: int) {
    0 <= i < |x| && x[i]
  }

  function Sum(x: seq<bool>, y: seq<bool>): (r: seq<bool>)
    requires |x| == |y|
    ensures |r| == |x| && forall i :: 0 <= i < |r| ==> r[i] == (x[i] != y[i])
  {
    seq(|x|, i requires 0 <= i < |x| => x[i] != y[i])
  }

  function NoTerms(n: nat): (r: seq<bool>)
    ensures |r| == n && forall i :: 0 <= i < n ==> !r[i]
  {
    seq(n, _ => false)
  }

  /** The sum of x_i times y_(n - i) over all i below k. */
  predicate Convolution(x: seq<bool>, y: seq<bool>, n: int, k: nat) {
    k > 0 && Convolution(x, y, n, k - 1) != (At(x, k - 1) && At(y, n - (k - 1)))
  }

  /** The product: coefficient n is the sum of x_i times y_j over all i and j with i + j == n. */
  function Product(x: seq<bool>, y: seq<bool>): (r: seq<bool>)
    ensures |r| == |x| + |y|
  {
    seq(|x| + |y|, n requires 0 <= n < |x| + |y| => Convolution(x, y, n, |x|))
  }

  /** The highest power P^(128 + k) replaced by P^k + P^(k + 1) + P^(k + 2) + P^(k + 7). */
  function Fold(p: seq<bool>): (r: seq<bool>)
    requires |p| > 128
    ensures |r| == |p| - 1
  {
    var d := |p| - 1;
    var k := d - 128;
    seq(d, i requires 0 <= i < d => p[i] != (p[d] && (i == k || i == k + 1 || i == k + 2 || i == k + 7)))
  }

  /** All powers from P^128 on replaced, the highest first. */
  function Reduced(p: seq<bool>): (r: seq<bool>)
    requires |p| >= 128
    ensures |r| == 128
    decreases |p|
  {
    if |p| == 128 then p else Reduced(Fold(p))
  }

  // ----- The product, one coefficient of x at a time

  lemma {:induction false} ConvolutionShift(c: bool, x: seq<bool>, y: seq<bool>, n: int, k: nat)
    ensures Convolution([c] + x, y, n, k + 1) == ((c && At(y, n)) != Convolution(x, y, n - 1, k))
  {
    if k == 0 {
      assert !Convolution([c] + x, y, n, 0);
    } else {
      ConvolutionShift(c, x, y, n, k - 1);
      assert At([c] + x, k) == At(x, k - 1);
    }
  }

  lemma {:induction false} ConvolutionBelow(x: seq<bool>, y: seq<bool>, n: int, k: nat)
    requires n < 0
    ensures !Convolution(x, y, n, k)
  {
    if k > 0 {
      ConvolutionBelow(x, y, n, k - 1);
    }
  }

  /** y itself if the constant term of x is one, plus P times the product of the rest. */
  lemma ProductStep(c: bool, x: seq<bool>, y: seq<bool>)
    ensures Product([c] + x, y) ==
            Sum((if c then y else NoTerms(|y|)) + NoTerms(|x| + 1), [false] + Product(x, y))
  {
    var l, first := Product([c] + x, y), (if c then y else NoTerms(|y|)) + NoTerms(|x| + 1);
    forall n | 0 <= n < |l| ensures l[n] == Sum(first, [false] + Product(x, y))[n] {
      ConvolutionShift(c, x, y, n, |x|);
      if n == 0 {
        ConvolutionBelow(x, y, -1, |x|);
      }
    }
  }

  lemma ProductNone(y: seq<bool>)
    ensures Product([], y) == NoTerms(|y|)
  {
  }

  // ----- Reduction is linear and goes with multiplication by P

  lemma {:induction false} ReducedSum(p: seq<bool>, q: seq<bool>)
    requires |p| == |q| >= 128
    ensures Reduced(Sum(p, q)) == Sum(Reduced(p), Reduced(q))
    decreases |p|
  {
    if |p| > 128 {
      hide Reduced;
      ReducedSum(Fold(p), Fold(q));
      assert Fold(Sum(p, q)) == Sum(Fold(p), Fold(q));
      ReducedFold(p);
      ReducedFold(q);
      ReducedFold(Sum(p, q));
    }
  }

  lemma ReducedFold(p: seq<bool>)
    requires |p| >= 128
    ensures if |p| == 128 then Reduced(p) == p else Reduced(p) == Reduced(Fold(p))
  {
  }

  lemma {:induction false} ReducedShift(p: seq<bool>)
    requires |p| >= 128
    ensures Reduced([false] + p) == Fold([false] + Reduced(p))
    decreases |p|
  {
    if |p| == 128 {
      ReducedFold([false] + p);
      ReducedFold(Fold([false] + p));
    } else {
      hide Reduced;
      ReducedShift(Fold(p));
      assert Fold([false] + p) == [false] + Fold(p);
      ReducedFold([false] + p);
      ReducedFold(p);
    }
  }

  lemma {:induction false} ReducedPadded(p: seq<bool>, n: nat)
    requires |p| == 128
    ensures Reduced(p + NoTerms(n)) == p
    decreases n
  {
    if n == 0 {
      assert p + NoTerms(0) == p;
    } else {
      hide Reduced;
      ReducedPadded(p, n - 1);
      assert Fold(p + NoTerms(n)) == p + NoTerms(n - 1);
      ReducedFold(p + NoTerms(n));
    }
  }

  /** The reduced product by Horner's rule. */
  lemma HornerStep(c: bool, x: seq<bool>, y: seq<bool>)
    requires |y| == 128
    ensures Reduced(Product([c] + x, y)) ==
            Sum(if c then y else NoTerms(128), Fold([false] + Reduced(Product(x, y))))
  {
    hide Product, Reduced, Fold;
    var first := if c then y else NoTerms(128);
    ProductStep(c, x, y);
    ReducedSum(first + NoTerms(|x| + 1), [false] + Product(x, y));
    ReducedPadded(first, |x| + 1);
    ReducedShift(Product(x, y));
  }
}
