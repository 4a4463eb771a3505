/** Multiples of one element under an addition that is associative on them. */
module CyclicPowers {
  import opened Modular

  /** Repeated addition. */
  function Times<T>(op: (T, T) -> T, id: T, x: T, n: nat): T {
    if n == 0 then id else if n == 1 then x else op(Times(op, id, x, n - 1), x)
  }

  /** Bringing one more copy in from the right, before or after adding. */
  ghost predicate AssociatesAt<T(!new)>(op: (T, T) -> T, id: T, x: T, j: nat, k: nat) {
    op(op(Times(op, id, x, j), Times(op, id, x, k)), x) == op(Times(op, id, x, j), op(Times(op, id, x, k), x))
  }

  ghost predicate RightNeutral<T(!new)>(op: (T, T) -> T, id: T, x: T, j: nat) {
    op(Times(op, id, x, j), id) == Times(op, id, x, j)
  }

  /** Addition is associative and has an identity on the multiples of the element. */
  ghost predicate GroupOnMultiples<T(!new)>(op: (T, T) -> T, id: T, x: T) {
    && op(id, x) == x
    && (forall j: nat :: RightNeutral(op, id, x, j))
    && (forall j: nat, k: nat :: AssociatesAt(op, id, x, j, k))
  }

  /** Multiples add up. */
  lemma {:induction false} AddsUp<T(!new)>(op: (T, T) -> T, id: T, x: T, j: nat, k: nat)
    requires GroupOnMultiples(op, id, x)
    ensures op(Times(op, id, x, j), Times(op, id, x, k)) == Times(op, id, x, j + k)
    decreases k
  {
    if k == 0 {
      assert RightNeutral(op, id, x, j);
    } else if k > 1 {
      AddsUp(op, id, x, j, k - 1);
      assert AssociatesAt(op, id, x, j, k - 1);
    }
  }

  // ---- Double-and-add ----

  /** What the remaining bits are worth when the lowest is worth `step`. */
  ghost function Weigh(step: nat, rem: nat): nat
    decreases rem
  {
    if rem == 0 then 0 else Weigh(step + step, rem / 2) + (if rem % 2 == 1 then step else 0)
  }

  lemma {:induction false} WeighIsProduct(step: nat, rem: nat)
    ensures Weigh(step, rem) == step * rem
    decreases rem
  {
    if rem != 0 {
      var half := rem / 2;
      WeighIsProduct(step + step, half);
      assert (step + step) * half == step * (2 * half);
      assert rem == 2 * half + rem % 2;
      Spread(step, 2 * half, rem % 2);
    }
  }

  lemma Spread(a: int, b: int, c: int)
    ensures a * (b + c) == a * b + a * c
  {
  }

  /** Double-and-add is repeated addition. */
  method DoubleAndAdd<T(!new)>(op: (T, T) -> T, id: T, x: T, scalar: nat) returns (res: T)
    ensures GroupOnMultiples(op, id, x) ==> res == Times(op, id, x, scalar)
  {
    res := id;
    var rem, exp := scalar, x;
    ghost var done, step: nat := 0, 1;
    WeighIsProduct(step, rem);
    while rem != 0
      invariant done + Weigh(step, rem) == scalar
      invariant GroupOnMultiples(op, id, x) ==> res == Times(op, id, x, done) && exp == Times(op, id, x, step)
    {
      if GroupOnMultiples(op, id, x) {
        AddsUp(op, id, x, done, step);
        AddsUp(op, id, x, step, step);
      }
      if rem % 2 == 1 {
        res := op(res, exp);
        done := done + step;
      }
      exp := op(exp, exp);
      step := step + step;
      rem := rem / 2;
    }
  }

  // ---- Laws of multiples ----

  lemma {:induction false} TimesOfTimes<T(!new)>(op: (T, T) -> T, id: T, x: T, j: nat, k: nat)
    requires GroupOnMultiples(op, id, x)
    ensures Times(op, id, Times(op, id, x, j), k) == Times(op, id, x, j * k)
    decreases k
  {
    if k > 1 {
      TimesOfTimes(op, id, x, j, k - 1);
      Spread(j, k - 1, 1);
      AddsUp(op, id, x, j * (k - 1), j);
    }
  }

  lemma StepBack(k: nat, order: Modulus)
    requires k >= order
    ensures (k - order) % order == k % order
  {
    PlusModulus(k - order, order);
  }

  /** Multiples repeat with the order of the element. */
  lemma {:induction false} TimesWraps<T(!new)>(op: (T, T) -> T, id: T, x: T, order: Modulus, k: nat)
    requires GroupOnMultiples(op, id, x) && Times(op, id, x, order) == id
    ensures k % order >= 0 && Times(op, id, x, k) == Times(op, id, x, k % order)
    decreases k
  {
    if k >= order {
      TimesWraps(op, id, x, order, k - order);
      AddsUp(op, id, x, k - order, order);
      AddsUp(op, id, x, k - order, 0);
      StepBack(k, order);
    } else {
      Unique(k, 0, k, order);
    }
  }

  /** Reducing a summand first does not change the residue. */
  lemma ReducedSum(r: nat, t: nat, order: Modulus)
    ensures (r + t % order) % order == (r + t) % order
  {
    Reduced(t, order);
    SameSum(r, r, t % order, t, order);
  }

  /** The response to a challenge, reduced as it is computed. */
  function Response(r: nat, product: nat, order: Modulus): nat {
    (r + product % order) % order
  }

  lemma ResponseWraps<T(!new)>(op: (T, T) -> T, id: T, base: T, order: Modulus, r: nat, product: nat)
    requires GroupOnMultiples(op, id, base) && Times(op, id, base, order) == id
    ensures Times(op, id, base, Response(r, product, order)) == op(Times(op, id, base, r), Times(op, id, base, product))
  {
    ReducedSum(r, product, order);
    TimesWraps(op, id, base, order, r + product);
    AddsUp(op, id, base, r, product);
  }

  lemma Rearrange(a: nat, h: nat)
    ensures a * (8 * h) == h * (8 * a)
  {
  }

  /** The signing equation: with secret `8 * a`, nonce `r` and challenge `h`, the response
      S satisfies S*B = R + (8h)*A, where R = r*B and A = a*B. */
  lemma SigningEquation<T(!new)>(op: (T, T) -> T, id: T, base: T, order: Modulus, a: nat, r: nat, h: nat)
    requires GroupOnMultiples(op, id, base) && Times(op, id, base, order) == id
    ensures Times(op, id, base, Response(r, h * (8 * a), order))
         == op(Times(op, id, base, r), Times(op, id, Times(op, id, base, a), 8 * h))
  {
    Rearrange(a, h);
    TimesOfTimes(op, id, base, a, 8 * h);
    ResponseWraps(op, id, base, order, r, h * (8 * a));
  }
}
