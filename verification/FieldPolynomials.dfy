/** Polynomials over any field of characteristic two, highest coefficient
    first.  The laws of the field are assumed pointwise: `At(a, b, c)` marks
    the elements a proof step wants to use them on. */
module FieldPolynomials {

  datatype Field<!F> = Field(zero: F, one: F, add: (F, F) -> F, mul: (F, F) -> F, div: (F, F) -> F)

  ghost predicate At<F>(a: F, b: F, c: F) { true }

  ghost predicate LawsAt<F>(K: Field<F>, a: F, b: F, c: F) {
    && K.add(a, b) == K.add(b, a)
    && K.add(K.add(a, b), c) == K.add(a, K.add(b, c))
    && K.add(a, K.zero) == a
    && K.add(a, a) == K.zero
    && K.mul(a, b) == K.mul(b, a)
    && K.mul(K.mul(a, b), c) == K.mul(a, K.mul(b, c))
    && K.mul(a, K.add(b, c)) == K.add(K.mul(a, b), K.mul(a, c))
    && K.mul(a, K.one) == a
    && K.mul(a, K.zero) == K.zero
    && (K.mul(a, b) == K.zero ==> a == K.zero || b == K.zero)
    && (b != K.zero ==> K.mul(K.div(a, b), b) == a)
  }

  ghost predicate Laws<F(!new)>(K: Field<F>) {
    forall a, b, c {:trigger At(a, b, c)} :: LawsAt(K, a, b, c)
  }

  // ----------------------------------------------------------- iterated maps

  function Iterate<F>(f: F -> F, n: nat, b: F): F {
    if n == 0 then b else f(Iterate(f, n - 1, b))
  }

  ghost predicate Additive<F(!new)>(f: F -> F, add: (F, F) -> F) {
    forall a, b {:trigger At(a, b, b)} :: f(add(a, b)) == add(f(a), f(b))
  }

  ghost predicate OneToOne<F(!new)>(f: F -> F) {
    forall a, b {:trigger At(a, b, b)} :: f(a) == f(b) ==> a == b
  }

  lemma {:induction false} IterateAdditive<F(!new)>(f: F -> F, add: (F, F) -> F, n: nat, a: F, b: F)
    requires Additive(f, add)
    ensures Iterate(f, n, add(a, b)) == add(Iterate(f, n, a), Iterate(f, n, b))
  {
    if n > 0 {
      IterateAdditive(f, add, n - 1, a, b);
      assert At(Iterate(f, n - 1, a), Iterate(f, n - 1, b), Iterate(f, n - 1, b));
    }
  }

  lemma {:induction false} IterateOneToOne<F(!new)>(f: F -> F, n: nat, a: F, b: F)
    requires OneToOne(f) && Iterate(f, n, a) == Iterate(f, n, b)
    ensures a == b
  {
    if n > 0 {
      assert At(Iterate(f, n - 1, a), Iterate(f, n - 1, b), Iterate(f, n - 1, b));
      IterateOneToOne(f, n - 1, a, b);
    }
  }

  lemma {:induction false} IterateSum<F>(f: F -> F, m: nat, n: nat, b: F)
    ensures Iterate(f, m + n, b) == Iterate(f, m, Iterate(f, n, b))
  {
    if m > 0 {
      IterateSum(f, m - 1, n, b);
    }
  }

  // -------------------------------------------------------------- polynomials

  function Power<F>(K: Field<F>, x: F, n: nat): F {
    if n == 0 then K.one else K.mul(Power(K, x, n - 1), x)
  }

  /** Horner's rule. */
  function Eval<F>(K: Field<F>, p: seq<F>, x: F): F {
    if p == [] then K.zero else K.add(K.mul(Eval(K, p[..|p| - 1], x), x), p[|p| - 1])
  }

  function Zeros<F>(K: Field<F>, n: nat): seq<F> { seq(n, _ => K.zero) }

  function Add<F>(K: Field<F>, p: seq<F>, q: seq<F>): seq<F>
    requires |p| == |q|
  {
    seq(|p|, i requires 0 <= i < |p| => K.add(p[i], q[i]))
  }

  function Scale<F>(K: Field<F>, c: F, p: seq<F>): seq<F> {
    seq(|p|, i requires 0 <= i < |p| => K.mul(c, p[i]))
  }

  /** Schoolbook product: one scaled copy of g per coefficient of a. */
  function Times<F>(K: Field<F>, a: seq<F>, g: seq<F>): (r: seq<F>)
    requires |g| > 0
    ensures |r| == |a| + |g| - 1
  {
    if a == [] then Zeros(K, |g| - 1)
    else Add(K, Scale(K, a[0], g) + Zeros(K, |a| - 1), [K.zero] + Times(K, a[1..], g))
  }

  lemma {:induction false} EvalAdd<F(!new)>(K: Field<F>, p: seq<F>, q: seq<F>, x: F)
    requires Laws(K) && |p| == |q|
    ensures Eval(K, Add(K, p, q), x) == K.add(Eval(K, p, x), Eval(K, q, x))
  {
    if p == [] {
      assert At(K.zero, K.zero, K.zero);
    } else {
      var n := |p| - 1;
      var u, v := Eval(K, p[..n], x), Eval(K, q[..n], x);
      assert Add(K, p, q)[..n] == Add(K, p[..n], q[..n]);
      EvalAdd(K, p[..n], q[..n], x);
      assert K.mul(K.add(u, v), x) == K.add(K.mul(u, x), K.mul(v, x)) by { DistributesRight(K, u, v, x); }
      AddMiddle(K, K.mul(u, x), K.mul(v, x), p[n], q[n]);
    }
  }

  lemma DistributesRight<F(!new)>(K: Field<F>, a: F, b: F, c: F)
    requires Laws(K)
    ensures K.mul(K.add(a, b), c) == K.add(K.mul(a, c), K.mul(b, c))
  {
    assert At(c, a, b);
    assert At(c, K.add(a, b), c) && At(a, c, c) && At(b, c, c);
  }

  lemma AddMiddle<F(!new)>(K: Field<F>, a: F, b: F, c: F, d: F)
    requires Laws(K)
    ensures K.add(K.add(a, b), K.add(c, d)) == K.add(K.add(a, c), K.add(b, d))
  {
    assert At(a, b, K.add(c, d)) && At(b, c, d) && At(c, b, d) && At(a, c, K.add(b, d));
  }

  lemma {:induction false} EvalScale<F(!new)>(K: Field<F>, c: F, p: seq<F>, x: F)
    requires Laws(K)
    ensures Eval(K, Scale(K, c, p), x) == K.mul(c, Eval(K, p, x))
  {
    if p == [] {
      assert At(c, c, c);
    } else {
      var n := |p| - 1;
      var u := Eval(K, p[..n], x);
      assert Scale(K, c, p)[..n] == Scale(K, c, p[..n]);
      EvalScale(K, c, p[..n], x);
      assert At(c, u, x);
      assert At(c, K.mul(u, x), p[n]);
    }
  }

  lemma {:induction false} EvalZeros<F(!new)>(K: Field<F>, n: nat, x: F)
    requires Laws(K)
    ensures Eval(K, Zeros(K, n), x) == K.zero
  {
    if n > 0 {
      assert Zeros(K, n)[..n - 1] == Zeros(K, n - 1);
      EvalZeros(K, n - 1, x);
      assert At(x, K.zero, K.zero) && At(K.zero, x, x) && At(K.zero, K.zero, K.zero);
    }
  }

  lemma {:induction false} EvalConcat<F(!new)>(K: Field<F>, p: seq<F>, q: seq<F>, x: F)
    requires Laws(K)
    ensures Eval(K, p + q, x) == K.add(K.mul(Eval(K, p, x), Power(K, x, |q|)), Eval(K, q, x))
  {
    var u := Eval(K, p, x);
    if q == [] {
      assert p + q == p;
      assert At(u, u, u);
    } else {
      var n := |q| - 1;
      assert (p + q)[..|p| + n] == p + q[..n];
      EvalConcat(K, p, q[..n], x);
      var v, w := Power(K, x, n), Eval(K, q[..n], x);
      DistributesRight(K, K.mul(u, v), w, x);
      assert At(u, v, x);
      assert At(K.mul(K.mul(u, v), x), K.mul(w, x), q[n]);
    }
  }

  /** Evaluation turns the product of polynomials into a product of values. */
  lemma {:induction false} EvalTimes<F(!new)>(K: Field<F>, a: seq<F>, g: seq<F>, x: F)
    requires Laws(K) && |g| > 0
    ensures Eval(K, Times(K, a, g), x) == K.mul(Eval(K, a, x), Eval(K, g, x))
  {
    var e := Eval(K, g, x);
    if a == [] {
      EvalZeros(K, |g| - 1, x);
      assert At(e, K.zero, K.zero);
    } else {
      var tail, n := a[1..], |a| - 1;
      var row, rest := Scale(K, a[0], g) + Zeros(K, n), [K.zero] + Times(K, tail, g);
      EvalAdd(K, row, rest, x);
      EvalScale(K, a[0], g, x);
      EvalZeros(K, n, x);
      EvalConcat(K, Scale(K, a[0], g), Zeros(K, n), x);
      EvalConcat(K, [K.zero], Times(K, tail, g), x);
      EvalTimes(K, tail, g, x);
      EvalConcat(K, [a[0]], tail, x);
      assert a == [a[0]] + tail;
      EvalSingle(K, a[0], x);
      EvalSingle(K, K.zero, x);
      EvalTimesStep(K, a[0], Power(K, x, n), Power(K, x, |Times(K, tail, g)|), e, Eval(K, tail, x));
    }
  }

  lemma EvalSingle<F(!new)>(K: Field<F>, c: F, x: F)
    requires Laws(K)
    ensures Eval(K, [c], x) == c
  {
    assert Eval(K, [c][..0], x) == K.zero;
    assert At(x, K.zero, K.zero) && At(K.zero, x, x) && At(K.zero, c, c) && At(c, c, c);
  }

  lemma EvalTimesStep<F(!new)>(K: Field<F>, c: F, w: F, z: F, e: F, t: F)
    requires Laws(K)
    ensures K.add(K.add(K.mul(K.mul(c, e), w), K.zero), K.add(K.mul(K.zero, z), K.mul(t, e)))
         == K.mul(K.add(K.mul(c, w), t), e)
  {
    DistributesRight(K, K.mul(c, w), t, e);
    assert At(c, e, w) && At(c, w, e) && At(e, w, w);
    assert At(K.mul(K.mul(c, e), w), K.zero, K.zero);
    assert At(K.zero, z, z) && At(z, K.zero, K.zero);
    assert At(K.zero, K.mul(t, e), K.zero) && At(K.mul(t, e), K.zero, K.zero);
  }

  // ------------------------------------------------------------ long division

  /** One division step: cancel the leading coefficient of p against g. */
  function Reduce<F>(K: Field<F>, p: seq<F>, g: seq<F>): (r: seq<F>)
    requires |p| >= |g| > 0
    ensures |r| == |p|
  {
    Add(K, p, Scale(K, K.div(p[0], g[0]), g) + Zeros(K, |p| - |g|))
  }

  function Quotient<F>(K: Field<F>, p: seq<F>, g: seq<F>): (q: seq<F>)
    requires |g| > 0
    ensures |p| >= |g| ==> |q| == |p| - |g| + 1
    decreases |p|
  {
    if |p| < |g| then [] else [K.div(p[0], g[0])] + Quotient(K, Reduce(K, p, g)[1..], g)
  }

  function Remainder<F>(K: Field<F>, p: seq<F>, g: seq<F>): (r: seq<F>)
    requires |g| > 0
    ensures |r| == if |p| < |g| then |p| else |g| - 1
    decreases |p|
  {
    if |p| < |g| then p else Remainder(K, Reduce(K, p, g)[1..], g)
  }

  lemma AddSelf<F(!new)>(K: Field<F>, a: F, b: F)
    requires Laws(K)
    ensures K.add(K.add(a, b), b) == a
  {
    assert At(a, b, b) && At(b, b, b) && At(a, a, a);
  }

  lemma LeadingCancels<F(!new)>(K: Field<F>, p: seq<F>, g: seq<F>)
    requires Laws(K) && |p| >= |g| > 0 && g[0] != K.zero
    ensures Reduce(K, p, g)[0] == K.zero
  {
    assert At(p[0], g[0], g[0]) && At(p[0], p[0], p[0]);
  }

  /** Dividend = quotient * divisor + remainder. */
  lemma {:induction false} DivisionIdentity<F(!new)>(K: Field<F>, p: seq<F>, g: seq<F>)
    requires Laws(K) && |g| > 0 && g[0] != K.zero && |p| >= |g| - 1
    ensures |Quotient(K, p, g)| == |p| - |g| + 1
    ensures p == Add(K, Times(K, Quotient(K, p, g), g), Zeros(K, |p| - |g| + 1) + Remainder(K, p, g))
    decreases |p|
  {
    if |p| < |g| {
      AddZerosLeft(K, p);
      assert Zeros(K, 0) + p == p;
    } else {
      var next := Reduce(K, p, g)[1..];
      DivisionIdentity(K, next, g);
      LeadingCancels(K, p, g);
      DivisionStep(K, p, g, Times(K, Quotient(K, next, g), g), Remainder(K, p, g));
      var q := Quotient(K, p, g);
      assert q[1..] == Quotient(K, next, g);
    }
  }

  lemma AddZerosLeft<F(!new)>(K: Field<F>, p: seq<F>)
    requires Laws(K)
    ensures Add(K, Zeros(K, |p|), p) == p
  {
    forall i | 0 <= i < |p| ensures K.add(K.zero, p[i]) == p[i] {
      assert At(K.zero, p[i], p[i]) && At(p[i], p[i], p[i]);
    }
  }

  lemma DivisionStep<F(!new)>(K: Field<F>, p: seq<F>, g: seq<F>, t: seq<F>, r: seq<F>)
    requires Laws(K) && |p| >= |g| > 0 && |t| == |p| - 1 && |r| == |g| - 1
    requires Reduce(K, p, g)[0] == K.zero
    requires Reduce(K, p, g)[1..] == Add(K, t, Zeros(K, |p| - |g|) + r)
    ensures var row := Scale(K, K.div(p[0], g[0]), g) + Zeros(K, |p| - |g|);
            p == Add(K, Add(K, row, [K.zero] + t), Zeros(K, |p| - |g| + 1) + r)
  {
    var row := Scale(K, K.div(p[0], g[0]), g) + Zeros(K, |p| - |g|);
    var reduced := Reduce(K, p, g);
    var rem := Zeros(K, |p| - |g| + 1) + r;
    forall i | 0 <= i < |p| ensures p[i] == K.add(K.add(row[i], ([K.zero] + t)[i]), rem[i]) {
      AddSelf(K, p[i], row[i]);
      assert K.add(reduced[i], row[i]) == p[i];
      if i == 0 {
        assert At(K.zero, row[0], row[0]) && At(row[0], K.zero, K.zero);
      } else {
        assert reduced[i] == reduced[1..][i - 1] == K.add(t[i - 1], rem[i]);
        assert At(K.add(t[i - 1], rem[i]), row[i], row[i]) && At(row[i], t[i - 1], rem[i]);
      }
    }
  }

  // ------------------------------------------------------ generator polynomial

  /** (x + 1)(x + q)(x + q^2) ... (x + q^(n-1)). */
  function Generator<F>(K: Field<F>, q: F, n: nat): (g: seq<F>)
    ensures |g| == n + 1
  {
    if n == 0 then [K.one] else Times(K, Generator(K, q, n - 1), [K.one, Power(K, q, n - 1)])
  }

  lemma BinomialRoot<F(!new)>(K: Field<F>, r: F)
    requires Laws(K)
    ensures Eval(K, [K.one, r], r) == K.zero
  {
    assert [K.one, r] == [K.one] + [r];
    EvalConcat(K, [K.one], [r], r);
    EvalSingle(K, K.one, r);
    EvalSingle(K, r, r);
    assert Power(K, r, 1) == K.mul(Power(K, r, 0), r);
    assert At(K.one, r, r) && At(r, K.one, K.one) && At(r, r, r);
    assert At(K.one, K.mul(K.one, r), r) && At(K.mul(K.one, r), K.one, r);
  }

  lemma {:induction false} GeneratorRoots<F(!new)>(K: Field<F>, q: F, n: nat, i: nat)
    requires Laws(K) && i < n
    ensures Eval(K, Generator(K, q, n), Power(K, q, i)) == K.zero
  {
    var x := Power(K, q, i);
    EvalTimes(K, Generator(K, q, n - 1), [K.one, Power(K, q, n - 1)], x);
    var u := Eval(K, Generator(K, q, n - 1), x);
    if i == n - 1 {
      BinomialRoot(K, x);
      assert At(u, u, u);
    } else {
      GeneratorRoots(K, q, n - 1, i);
      var v := Eval(K, [K.one, Power(K, q, n - 1)], x);
      assert At(K.zero, v, v) && At(v, v, v);
    }
  }

  // --------------------------------- no coefficient of the generator vanishes

  function Coef<F>(K: Field<F>, p: seq<F>, k: int): F {
    if 0 <= k < |p| then p[k] else K.zero
  }

  lemma {:induction false} TimesBinomial<F(!new)>(K: Field<F>, a: seq<F>, b: F, k: nat)
    requires Laws(K) && k <= |a|
    ensures Times(K, a, [K.one, b])[k] == K.add(Coef(K, a, k), K.mul(Coef(K, a, k - 1), b))
  {
    ZeroTerms(K, b);
    if a != [] {
      var c, tail := a[0], a[1..];
      var row := Scale(K, c, [K.one, b]) + Zeros(K, |a| - 1);
      assert At(c, c, c);
      if k == 0 {
        assert row[0] == K.mul(c, K.one);
        assert Times(K, a, [K.one, b])[0] == K.add(row[0], K.zero);
      } else {
        TimesBinomial(K, tail, b, k - 1);
        var rest := Times(K, tail, [K.one, b])[k - 1];
        assert Times(K, a, [K.one, b])[k] == K.add(row[k], rest);
        if k == 1 {
          assert row[1] == K.mul(c, b);
          var u := Coef(K, a, 1);
          assert At(u, u, u) && At(K.mul(c, b), u, u);
        } else {
          assert At(K.zero, rest, rest) && At(rest, rest, rest);
        }
      }
    }
  }

  lemma ZeroTerms<F(!new)>(K: Field<F>, b: F)
    requires Laws(K)
    ensures K.mul(K.zero, b) == K.zero && K.add(K.zero, K.zero) == K.zero
  {
    assert At(b, K.zero, K.zero) && At(K.zero, K.zero, K.zero);
  }

  /** The identity behind Gaussian binomials, in characteristic two, with
      w = q^(k-1) and z = q^(n-k+1). */
  lemma GaussStep<F(!new)>(K: Field<F>, a: F, b: F, c: F, w: F, z: F, q: F)
    requires Laws(K)
    requires K.mul(a, K.add(K.one, K.mul(w, q))) == K.mul(K.mul(b, w), K.add(K.one, z))
    requires K.mul(c, K.mul(w, K.add(K.one, K.mul(z, q)))) == K.mul(q, K.add(b, K.mul(b, w)))
    ensures K.mul(K.add(a, K.mul(b, K.mul(w, z))), K.add(K.one, K.mul(w, q)))
         == K.mul(K.mul(K.add(b, K.mul(c, K.mul(w, z))), w), K.add(K.one, K.mul(z, q)))
  {
    var bw := K.mul(b, w);
    var m := K.mul(bw, z);
    var wq, zq, wz := K.mul(w, q), K.mul(z, q), K.mul(w, z);
    assert m == K.mul(b, wz) by { assert At(b, w, z); }
    // Left-hand side.
    assert K.mul(bw, K.add(K.one, z)) == K.add(bw, m) by { assert At(bw, K.one, z); }
    assert K.mul(m, K.add(K.one, wq)) == K.add(m, K.mul(m, wq)) by { assert At(m, K.one, wq); }
    DistributesRight(K, a, m, K.add(K.one, wq));
    AddCancels(K, bw, m, K.mul(m, wq));
    // Right-hand side.
    var f := K.add(K.one, zq);
    assert K.mul(K.mul(K.add(b, K.mul(c, wz)), w), f) == K.add(K.mul(bw, f), K.mul(K.mul(K.mul(c, wz), w), f)) by {
      DistributesRight(K, b, K.mul(c, wz), w);
      DistributesRight(K, bw, K.mul(K.mul(c, wz), w), f);
    }
    assert K.mul(bw, f) == K.add(bw, K.mul(m, q)) by { assert At(bw, K.one, zq) && At(bw, z, q); }
    GaussTail(K, b, c, w, wz, f, q, m);
    AddCancels(K, bw, K.mul(m, q), K.mul(m, wq));
  }

  lemma AddCancels<F(!new)>(K: Field<F>, a: F, b: F, c: F)
    requires Laws(K)
    ensures K.add(K.add(a, b), K.add(b, c)) == K.add(a, c)
  {
    assert At(a, b, K.add(b, c)) && At(b, b, c) && At(K.zero, c, c) && At(c, c, c);
  }

  lemma GaussTail<F(!new)>(K: Field<F>, b: F, c: F, w: F, wz: F, f: F, q: F, m: F)
    requires Laws(K) && m == K.mul(b, wz)
    requires K.mul(c, K.mul(w, f)) == K.mul(q, K.add(b, K.mul(b, w)))
    ensures K.mul(K.mul(K.mul(c, wz), w), f) == K.add(K.mul(m, q), K.mul(m, K.mul(w, q)))
  {
    var bw := K.mul(b, w);
    assert K.mul(K.mul(K.mul(c, wz), w), f) == K.mul(wz, K.mul(c, K.mul(w, f))) by {
      assert At(K.mul(c, wz), w, f);
      assert At(c, wz, K.mul(w, f)) && At(wz, c, K.mul(w, f));
    }
    assert K.mul(q, K.add(b, bw)) == K.add(K.mul(q, b), K.mul(q, bw)) by { assert At(q, b, bw); }
    assert At(wz, K.mul(q, b), K.mul(q, bw));
    assert K.mul(wz, K.mul(q, b)) == K.mul(m, q) by {
      assert At(q, b, wz) && At(b, wz, q) && At(wz, K.mul(q, b), q) && At(wz, b, q);
      assert At(K.mul(wz, b), q, q);
    }
    assert K.mul(wz, K.mul(q, bw)) == K.mul(m, K.mul(w, q)) by {
      assert At(q, bw, wz) && At(b, w, q) && At(wz, b, K.mul(w, q)) && At(b, wz, wz);
    }
  }

  lemma {:induction false} PowerAdd<F(!new)>(K: Field<F>, q: F, m: nat, n: nat)
    requires Laws(K)
    ensures Power(K, q, m + n) == K.mul(Power(K, q, m), Power(K, q, n))
  {
    if n == 0 {
      assert At(Power(K, q, m), q, q);
    } else {
      PowerAdd(K, q, m, n - 1);
      assert At(Power(K, q, m), Power(K, q, n - 1), q);
    }
  }

  /** The coefficient of x^(n-k) in the generator of degree n, by the
      recurrence that each further factor x + q^(n-1) gives. */
  function Gauss<F>(K: Field<F>, q: F, n: nat, k: int): F
  {
    if n == 0 then (if k == 0 then K.one else K.zero)
    else K.add(Gauss(K, q, n - 1, k), K.mul(Gauss(K, q, n - 1, k - 1), Power(K, q, n - 1)))
  }

  lemma {:induction false} GaussOutside<F(!new)>(K: Field<F>, q: F, n: nat, k: int)
    requires Laws(K) && (k < 0 || k > n)
    ensures Gauss(K, q, n, k) == K.zero
  {
    if n > 0 {
      GaussOutside(K, q, n - 1, k);
      GaussOutside(K, q, n - 1, k - 1);
      ZeroTerms(K, Power(K, q, n - 1));
    }
  }

  lemma {:induction false} GeneratorIsGauss<F(!new)>(K: Field<F>, q: F, n: nat, k: int)
    requires Laws(K)
    ensures Coef(K, Generator(K, q, n), k) == Gauss(K, q, n, k)
  {
    if k < 0 || k > n {
      GaussOutside(K, q, n, k);
    } else if n > 0 {
      GeneratorIsGauss(K, q, n - 1, k);
      GeneratorIsGauss(K, q, n - 1, k - 1);
      TimesBinomial(K, Generator(K, q, n - 1), Power(K, q, n - 1), k);
    }
  }

  /** c(n,k) * (1 + q^k) = c(n,k-1) * q^(k-1) * (1 + q^(n-k+1)) */
  ghost predicate GaussHolds<F>(K: Field<F>, q: F, n: nat, k: nat)
    requires 1 <= k <= n + 1
  {
    K.mul(Gauss(K, q, n, k), K.add(K.one, Power(K, q, k)))
      == K.mul(K.mul(Gauss(K, q, n, k - 1), Power(K, q, k - 1)), K.add(K.one, Power(K, q, n - k + 1)))
  }

  /** The relation one place to the left, multiplied by q. */
  ghost predicate GaussShifted<F>(K: Field<F>, q: F, n: nat, k: nat)
    requires 1 <= k <= n + 1
  {
    K.mul(Gauss(K, q, n, k - 2), K.mul(Power(K, q, k - 1), K.add(K.one, Power(K, q, n - k + 2))))
      == K.mul(q, K.add(Gauss(K, q, n, k - 1), K.mul(Gauss(K, q, n, k - 1), Power(K, q, k - 1))))
  }

  lemma {:induction false} GaussRelation<F(!new)>(K: Field<F>, q: F, n: nat, k: nat)
    requires Laws(K) && 1 <= k <= n + 1
    ensures GaussHolds(K, q, n, k)
    decreases n, k
  {
    if k == n + 1 {
      var u := K.mul(Gauss(K, q, n, k - 1), Power(K, q, k - 1));
      assert At(K.one, K.one, K.one) && At(u, u, u);
      GaussOutside(K, q, n, k);
      ZeroTerms(K, K.add(K.one, Power(K, q, k)));
    } else {
      GaussRelation(K, q, n - 1, k);
      if k > 1 { GaussRelation(K, q, n - 1, k - 1); }
      GaussPrevious(K, q, n - 1, k);
      GaussLift(K, q, n, k);
    }
  }

  lemma GaussPrevious<F(!new)>(K: Field<F>, q: F, n: nat, k: nat)
    requires Laws(K) && 1 <= k <= n + 1
    requires k > 1 ==> GaussHolds(K, q, n, k - 1)
    ensures GaussShifted(K, q, n, k)
  {
    var b, c, w := Gauss(K, q, n, k - 1), Gauss(K, q, n, k - 2), Power(K, q, k - 1);
    var f := K.add(K.one, Power(K, q, n - k + 2));
    if k == 1 {
      GaussOutside(K, q, n, -1);
      assert At(b, b, b) && At(q, q, q);
      ZeroTerms(K, K.mul(w, f));
    } else {
      GaussPreviousStep(K, b, c, Power(K, q, k - 2), q, f, w);
    }
  }

  lemma GaussPreviousStep<F(!new)>(K: Field<F>, b: F, c: F, w': F, q: F, f: F, w: F)
    requires Laws(K) && w == K.mul(w', q)
    requires K.mul(b, K.add(K.one, w)) == K.mul(K.mul(c, w'), f)
    ensures K.mul(c, K.mul(w, f)) == K.mul(q, K.add(b, K.mul(b, w)))
  {
    MulRotate(K, c, w', q, f);
    assert At(b, K.one, w);
  }

  lemma MulRotate<F(!new)>(K: Field<F>, c: F, w: F, q: F, f: F)
    requires Laws(K)
    ensures K.mul(c, K.mul(K.mul(w, q), f)) == K.mul(q, K.mul(K.mul(c, w), f))
  {
    var cw := K.mul(c, w);
    assert K.mul(K.mul(w, q), f) == K.mul(w, K.mul(q, f)) by { assert At(w, q, f); }
    assert K.mul(c, K.mul(w, K.mul(q, f))) == K.mul(cw, K.mul(q, f)) by { assert At(c, w, K.mul(q, f)); }
    assert At(cw, q, f) && At(q, cw, f);
  }

  lemma GaussLift<F(!new)>(K: Field<F>, q: F, n: nat, k: nat)
    requires Laws(K) && 1 <= k <= n
    requires GaussHolds(K, q, n - 1, k) && GaussShifted(K, q, n - 1, k)
    ensures GaussHolds(K, q, n, k)
  {
    PowerAdd(K, q, k - 1, n - k);
    GaussCombine(K, Gauss(K, q, n - 1, k), Gauss(K, q, n - 1, k - 1), Gauss(K, q, n - 1, k - 2),
                 Power(K, q, k - 1), Power(K, q, n - k), q,
                 Power(K, q, k), Power(K, q, n - k + 1), Power(K, q, n - 1), Gauss(K, q, n, k), Gauss(K, q, n, k - 1));
  }

  lemma GaussCombine<F(!new)>(K: Field<F>, a: F, b: F, c: F, w: F, z: F, q: F, wq: F, zq: F, wz: F, a': F, b': F)
    requires Laws(K) && wq == K.mul(w, q) && zq == K.mul(z, q) && wz == K.mul(w, z)
    requires a' == K.add(a, K.mul(b, wz)) && b' == K.add(b, K.mul(c, wz))
    requires K.mul(a, K.add(K.one, wq)) == K.mul(K.mul(b, w), K.add(K.one, z))
    requires K.mul(c, K.mul(w, K.add(K.one, zq))) == K.mul(q, K.add(b, K.mul(b, w)))
    ensures K.mul(a', K.add(K.one, wq)) == K.mul(K.mul(b', w), K.add(K.one, zq))
  {
    GaussStep(K, a, b, c, w, z, q);
  }

  /** While the powers of q up to q^n stay away from 1, the generator of
      degree n has no vanishing coefficient. */
  lemma {:induction false} GaussNonZero<F(!new)>(K: Field<F>, q: F, n: nat, k: nat)
    requires Laws(K) && K.one != K.zero && q != K.zero && k <= n
    requires forall i :: 1 <= i <= n ==> Power(K, q, i) != K.one
    ensures Gauss(K, q, n, k) != K.zero
  {
    if k == 0 {
      GaussFirst(K, q, n);
    } else {
      GaussNonZero(K, q, n, k - 1);
      GaussRelation(K, q, n, k);
      PowerNonZero(K, q, k - 1);
      OnePlusNonZero(K, Power(K, q, n - k + 1));
      var u := K.mul(Gauss(K, q, n, k - 1), Power(K, q, k - 1));
      assert At(Gauss(K, q, n, k - 1), Power(K, q, k - 1), q);
      assert At(u, K.add(K.one, Power(K, q, n - k + 1)), q);
      ZeroTerms(K, K.add(K.one, Power(K, q, k)));
    }
  }

  lemma GeneratorFull<F(!new)>(K: Field<F>, q: F, n: nat, k: nat)
    requires Laws(K) && K.one != K.zero && q != K.zero && k <= n
    requires forall i :: 1 <= i <= n ==> Power(K, q, i) != K.one
    ensures Generator(K, q, n)[k] != K.zero
  {
    GaussNonZero(K, q, n, k);
    GeneratorIsGauss(K, q, n, k);
  }

  lemma OnePlusNonZero<F(!new)>(K: Field<F>, a: F)
    requires Laws(K) && a != K.one
    ensures K.add(K.one, a) != K.zero
  {
    AddSelf(K, K.one, a);
    assert At(K.zero, a, a) && At(a, K.zero, K.zero);
  }

  lemma {:induction false} PowerNonZero<F(!new)>(K: Field<F>, q: F, n: nat)
    requires Laws(K) && K.one != K.zero && q != K.zero
    ensures Power(K, q, n) != K.zero
  {
    if n > 0 {
      PowerNonZero(K, q, n - 1);
      assert At(Power(K, q, n - 1), q, q);
    }
  }

  lemma {:induction false} GaussFirst<F(!new)>(K: Field<F>, q: F, n: nat)
    requires Laws(K)
    ensures Gauss(K, q, n, 0) == K.one
  {
    if n > 0 {
      GaussFirst(K, q, n - 1);
      GaussOutside(K, q, n - 1, -1);
      ZeroTerms(K, Power(K, q, n - 1));
      assert At(K.one, K.zero, K.zero);
    }
  }
}
