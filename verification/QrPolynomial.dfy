/** The encoder's polynomial objects.  Coefficient arrays may hold entries
    that were never set; they behave as zero under XOR but are not recognised
    as zero by the stripping of leading coefficients. */
module QrPolynomial {
  import opened Wrappers
  import opened FieldPolynomials
  import opened Gf256
  import opened QrMath

  type JsPoly = seq<Option<Elem>>

  function Val(c: Option<Elem>): Elem { if c.Some? then c.value else 0 }

  function Vals(p: JsPoly): seq<Elem> { seq(|p|, i requires 0 <= i < |p| => Val(p[i])) }

  function AsSet(p: seq<Elem>): JsPoly { seq(|p|, i requires 0 <= i < |p| => Some(p[i])) }

  predicate AllSet(p: JsPoly) { forall i :: 0 <= i < |p| ==> p[i].Some? }

  predicate HasZero(p: JsPoly) { exists i :: 0 <= i < |p| && p[i] == Some(0) }

  function Strip(p: JsPoly): (r: JsPoly)
    ensures |r| <= |p|
  {
    if p != [] && p[0] == Some(0) then Strip(p[1..]) else p
  }

  function Unset(n: nat): JsPoly { seq(n, _ => None) }

  lemma ValsAsSet(p: seq<Elem>)
    ensures Vals(AsSet(p)) == p && AllSet(AsSet(p))
  {}

  lemma AsSetVals(p: JsPoly)
    requires AllSet(p)
    ensures AsSet(Vals(p)) == p
  {}

  /** qrPolynomial: strip leading zeros, then leave `shift` entries unset. */
  method MakePoly(num: JsPoly, shift: nat) returns (p: JsPoly)
    ensures p == Strip(num) + Unset(shift)
  {
    var offset := 0;
    while offset < |num| && num[offset] == Some(0)
      invariant 0 <= offset <= |num|
      invariant Strip(num) == Strip(num[offset..])
    {
      assert num[offset..][1..] == num[offset + 1..];
      offset := offset + 1;
    }
    p := num[offset..] + seq(shift, _ => None);
  }

  // ------------------------------------------------------------------ multiply

  /** num[k] becomes num[k] ^ c * e[k - i] along one row. */
  ghost predicate RowAdded(num: JsPoly, num': JsPoly, i: nat, c: Elem, e: JsPoly, upto: nat) {
    && |num'| == |num| && i + |e| <= |num| && upto <= |e|
    && (forall k :: 0 <= k < |num| ==>
          Val(num'[k]) == if i <= k < i + upto then Xor(Val(num[k]), Mul(c, Val(e[k - i]))) else Val(num[k]))
    && (forall k :: i <= k < i + upto ==> num'[k].Some?)
    && (forall k :: 0 <= k < |num| && num[k].Some? ==> num'[k].Some?)
  }

  lemma ProductOfLogs(a: Elem, b: Elem, i: nat, j: nat)
    requires a != 0 && b != 0 && i == Log(a) && j == Log(b)
    ensures Exp((i + j) % 255) == Mul(a, b)
  {
    ExpMod(i + j);
    MulOfLogs(a, b, i, j, Exp(i + j));
  }

  lemma RowAddedOne(num: JsPoly, out: JsPoly, i: nat, c: Elem, e: JsPoly, j: nat, v: Elem)
    requires RowAdded(num, out, i, c, e, j) && j < |e| && v == Mul(c, Val(e[j]))
    ensures RowAdded(num, out[i + j := Some(Xor(Val(out[i + j]), v))], i, c, e, j + 1)
  {}

  method AddRow(math: Tables, num: JsPoly, i: nat, c: Option<Elem>, e: JsPoly) returns (r: Throws<JsPoly>)
    requires math.Valid() && c.Some? && AllSet(e) && |e| > 0 && i + |e| <= |num|
    ensures r.Thrown? <==> c == Some(0) || HasZero(e)
    ensures r.Got? ==> RowAdded(num, r.value, i, c.value, e, |e|)
  {
    var out := num;
    var j := 0;
    while j < |e|
      invariant 0 <= j <= |e|
      invariant RowAdded(num, out, i, c.value, e, j)
      invariant forall k :: 0 <= k < j ==> e[k] != Some(0)
      invariant j > 0 ==> c != Some(0)
    {
      var la := math.Glog(c);
      if la.Thrown? { return Thrown; }
      var lb := math.Glog(e[j]);
      if lb.Thrown? { return Thrown; }
      ProductOfLogs(c.value, e[j].value, la.value.value, lb.value.value);
      var t := math.Gexp(Some(la.value.value + lb.value.value));
      RowAddedOne(num, out, i, c.value, e, j, Val(t));
      out := out[i + j := Some(Val(out[i + j]) ^ Val(t))];
      j := j + 1;
    }
    return Got(out);
  }

  lemma RowStep(num: JsPoly, num': JsPoly, i: nat, a: seq<Elem>, e: JsPoly, total: seq<Elem>)
    requires |e| > 0 && i < |a| && |num| == |a| + |e| - 1 == |total|
    requires RowAdded(num, num', i, a[i], e, |e|)
    requires Add(GF, Vals(num), Zeros(GF, i) + Times(GF, a[i..], Vals(e))) == total
    ensures Add(GF, Vals(num'), Zeros(GF, i + 1) + Times(GF, a[i + 1..], Vals(e))) == total
  {
    var ev := Vals(e);
    var n := |a| - i - 1;
    var here, tail := Times(GF, a[i..], ev), Times(GF, a[i + 1..], ev);
    var row := Scale(GF, a[i], ev) + Zeros(GF, n);
    assert a[i..][1..] == a[i + 1..];
    assert here == Add(GF, row, [GF.zero] + tail);
    var before, after := Zeros(GF, i) + here, Zeros(GF, i + 1) + tail;
    forall k | 0 <= k < |total|
      ensures Xor(Val(num'[k]), after[k]) == Xor(Val(num[k]), before[k])
    {
      if k >= i {
        assert before[k] == here[k - i] == Xor(row[k - i], after[k]);
        assert Val(num'[k]) == Xor(Val(num[k]), row[k - i]);
        XorRegroup(Val(num[k]), row[k - i], after[k]);
      }
    }
    var out := Add(GF, Vals(num'), after);
    forall k | 0 <= k < |total| ensures out[k] == total[k] {
      assert total[k] == Xor(Val(num[k]), before[k]);
    }
  }

  lemma XorRegroup(a: Elem, b: Elem, c: Elem)
    ensures Xor(Xor(a, b), c) == Xor(a, Xor(b, c))
    ensures Xor(a, 0) == a && Xor(0, a) == a
  {}

  lemma AddNothing(p: seq<Elem>)
    ensures Add(GF, p, Zeros(GF, |p|)) == p && Add(GF, Zeros(GF, |p|), p) == p
  {
    forall k | 0 <= k < |p| ensures Xor(p[k], 0) == p[k] && Xor(0, p[k]) == p[k] {
      XorRegroup(p[k], 0, 0);
    }
  }

  /** Product of two polynomials, or a throw when any coefficient is zero. */
  method Multiply(math: Tables, a: JsPoly, e: JsPoly) returns (r: Throws<JsPoly>)
    requires math.Valid() && AllSet(a) && AllSet(e) && |a| > 0 && |e| > 0
    ensures r == if HasZero(a) || HasZero(e) then Thrown
                 else Got(Strip(AsSet(Times(GF, Vals(a), Vals(e)))))
  {
    var num := Unset(|a| + |e| - 1);
    ghost var total := Times(GF, Vals(a), Vals(e));
    AddNothing(total);
    assert Vals(num) == Zeros(GF, |total|);
    assert Zeros(GF, 0) + Times(GF, Vals(a)[0..], Vals(e)) == total;
    var i := 0;
    while i < |a|
      invariant 0 <= i <= |a| && |num| == |a| + |e| - 1
      invariant forall k :: 0 <= k < i ==> a[k] != Some(0)
      invariant i > 0 ==> !HasZero(e)
      invariant i > 0 ==> forall k :: 0 <= k < i + |e| - 1 ==> num[k].Some?
      invariant Add(GF, Vals(num), Zeros(GF, i) + Times(GF, Vals(a)[i..], Vals(e))) == total
    {
      var row := AddRow(math, num, i, a[i], e);
      if row.Thrown? { return Thrown; }
      RowStep(num, row.value, i, Vals(a), e, total);
      num := row.value;
      i := i + 1;
    }
    ProductDone(num, Vals(a), Vals(e), total);
    var p := MakePoly(num, 0);
    assert p == Strip(num);
    return Got(p);
  }

  lemma ProductDone(num: JsPoly, a: seq<Elem>, e: seq<Elem>, total: seq<Elem>)
    requires |a| > 0 && |e| > 0 && |num| == |a| + |e| - 1 && AllSet(num)
    requires Add(GF, Vals(num), Zeros(GF, |a|) + Times(GF, a[|a|..], e)) == total
    ensures num == AsSet(total)
  {
    assert a[|a|..] == [];
    assert Zeros(GF, |a|) + Zeros(GF, |e| - 1) == Zeros(GF, |num|);
    AddNothing(Vals(num));
    AsSetVals(num);
  }

  // ------------------------------------------------------------- the generator

  /** The generator polynomial has a vanishing coefficient at degree 255 and
      at no smaller one. */
  lemma GeneratorZeroIff(n: nat)
    requires n <= 255
    ensures HasZero(AsSet(Generator(GF, 2, n))) <==> n == 255
  {
    FieldLaws();
    var g := Generator(GF, 2, n);
    if n == 255 {
      GeneratorIsGauss(GF, 2, 255, 1);
      FirstCoefficientVanishes();
      assert AsSet(g)[1] == Some(0);
    } else {
      forall i | 1 <= i <= n ensures Power(GF, 2, i) != GF.one {
        PowerIsExp(i);
        OrderOfAlpha(i);
      }
      forall k | 0 <= k < |g| ensures g[k] != 0 {
        GeneratorFull(GF, 2, n, k);
      }
    }
  }

  lemma FirstCoefficientVanishes()
    ensures Gauss(GF, 2, 255, 1) == 0
  {
    FieldLaws();
    GaussRelation(GF, 2, 255, 1);
    PowerIsExp(255);
    PowerIsExp(1);
    OrderOfAlpha(255);
    OrderOfAlpha(1);
    var u := GF.mul(Gauss(GF, 2, 255, 0), Power(GF, 2, 0));
    assert GF.add(GF.one, Power(GF, 2, 255)) == 0;
    MulNonZero(u, 0);
    MulNonZero(Gauss(GF, 2, 255, 1), Xor(1, Exp(1)));
    assert Exp(1) == 2;
  }

  lemma GeneratorStartsWithOne(n: nat)
    ensures Generator(GF, 2, n)[0] == 1
  {
    FieldLaws();
    GeneratorIsGauss(GF, 2, n, 0);
    GaussFirst(GF, 2, n);
  }

  /** The factor x + alpha^i, and what multiplying by it gives. */
  lemma NextFactor(i: nat)
    requires i <= 255
    ensures var g, f := AsSet(Generator(GF, 2, i)), [Some(1), Some(Exp(i))];
            && AllSet(g) && AllSet(f) && !HasZero(f) && Strip(f) == f
            && (HasZero(g) <==> i == 255)
            && Strip(AsSet(Times(GF, Vals(g), Vals(f)))) == AsSet(Generator(GF, 2, i + 1))
  {
    ExpNonZero(i);
    PowerIsExp(i);
    GeneratorZeroIff(i);
    GeneratorStartsWithOne(i + 1);
    var g, f := Generator(GF, 2, i), [GF.one, Power(GF, 2, i)];
    ValsAsSet(g);
    assert Vals([Some(1), Some(Exp(i))]) == f;
    assert AsSet(Generator(GF, 2, i + 1))[0] == Some(1);
  }

  /** getErrorCorrectPolynomial: the product of the first `ec` binomials; past
      degree 255 it throws, because an intermediate product has a zero. */
  method GetErrorCorrectPolynomial(math: Tables, ec: nat) returns (r: Throws<JsPoly>)
    requires math.Valid()
    ensures r == if ec <= 255 then Got(AsSet(Generator(GF, 2, ec))) else Thrown
  {
    var a := MakePoly([Some(1)], 0);
    assert a == AsSet(Generator(GF, 2, 0));
    var i := 0;
    while i < ec
      invariant 0 <= i <= ec && i <= 255 && a == AsSet(Generator(GF, 2, i))
    {
      var root := math.Gexp(Some(i));
      ExpMod(i);
      NextFactor(i);
      var factor := MakePoly([Some(1), root], 0);
      assert factor == [Some(1), Some(Exp(i))];
      var p := Multiply(math, a, factor);
      if p.Thrown? { return Thrown; }
      a := p.value;
      i := i + 1;
    }
    return Got(a);
  }

  // ------------------------------------------------------------------ remainder

  /** gexp of a difference of logarithms is a quotient. */
  lemma RatioTerm(a: Elem, la: nat, b: Elem, lb: nat, c: Elem, lc: nat)
    requires a != 0 && b != 0 && c != 0 && la == Log(a) && lb == Log(b) && lc == Log(c)
    ensures Exp((lc + (la - lb)) % 255) == Mul(Div(a, b), c)
  {
    var m := (la - lb) % 255;
    assert Div(a, b) == Exp(m);
    MulExp(m, lc);
    ExpMod(m + lc);
    RatioMod(la - lb, lc);
  }

  lemma RatioMod(d: int, c: int)
    ensures (c + d) % 255 == (d % 255 + c) % 255
  {}

  ghost predicate Reduced(a: JsPoly, num: JsPoly, e: JsPoly, upto: nat)
    requires |a| >= |e| > 0
  {
    && |num| == |a| && upto <= |e|
    && (forall k :: 0 <= k < |a| ==>
          Val(num[k]) == if k < upto then Xor(Val(a[k]), Mul(Div(Val(a[0]), Val(e[0])), Val(e[k]))) else Val(a[k]))
    && (forall k :: 0 <= k < upto ==> num[k].Some?)
  }

  lemma ReducedVals(a: JsPoly, num: JsPoly, e: JsPoly)
    requires |a| >= |e| > 0 && Reduced(a, num, e, |e|)
    ensures Vals(num) == Reduce(GF, Vals(a), Vals(e))
  {
    var red := Reduce(GF, Vals(a), Vals(e));
    forall k | 0 <= k < |a| ensures Val(num[k]) == red[k] {
      XorRegroup(Val(a[k]), 0, 0);
    }
  }

  /** gexp(glog(c) + ratio), unset when the ratio is. */
  method RatioTimes(math: Tables, a: Option<Elem>, la: Option<nat>, b: Elem, lb: nat, c: Elem, lc: nat) returns (t: Option<Elem>)
    requires math.Valid() && b != 0 && c != 0 && lb == Log(b) && lc == Log(c)
    requires a != Some(0) && (a.None? <==> la.None?) && (a.Some? ==> la.value == Log(a.value))
    ensures Val(t) == Mul(Div(Val(a), b), c)
  {
    if la.None? {
      t := math.Gexp(None);
      MulNonZero(0, c);
    } else {
      RatioTerm(a.value, la.value, b, lb, c, lc);
      t := math.Gexp(Some(lc + (la.value - lb)));
    }
  }

  lemma ReducedStep(a: JsPoly, num: JsPoly, e: JsPoly, i: nat, t: Elem)
    requires |a| >= |e| > i && Reduced(a, num, e, i)
    requires t == Mul(Div(Val(a[0]), Val(e[0])), Val(e[i]))
    ensures Reduced(a, num[i := Some(Xor(Val(num[i]), t))], e, i + 1)
  {}

  method ReduceRow(math: Tables, a: JsPoly, e: JsPoly, la: Option<nat>, lb: nat) returns (r: Throws<JsPoly>)
    requires math.Valid() && AllSet(e) && |a| >= |e| > 0 && a[0] != Some(0) && e[0] != Some(0)
    requires lb == Log(e[0].value) && (a[0].None? <==> la.None?) && (a[0].Some? ==> la.value == Log(a[0].value))
    ensures r.Thrown? <==> HasZero(e)
    ensures r.Got? ==> Reduced(a, r.value, e, |e|)
  {
    var num := a;
    var i := 0;
    while i < |e|
      invariant 0 <= i <= |e| && Reduced(a, num, e, i)
      invariant forall k :: 0 <= k < i ==> e[k] != Some(0)
    {
      var lc := math.Glog(e[i]);
      if lc.Thrown? { return Thrown; }
      var t := RatioTimes(math, a[0], la, e[0].value, lb, e[i].value, lc.value.value);
      ReducedStep(a, num, e, i, Val(t));
      num := num[i := Some(Val(num[i]) ^ Val(t))];
      i := i + 1;
    }
    return Got(num);
  }

  lemma ReducedLeads(a: JsPoly, num: JsPoly, e: JsPoly)
    requires |a| >= |e| > 0 && Reduced(a, num, e, |e|) && Val(e[0]) != 0
    ensures Vals(num) == Reduce(GF, Vals(a), Vals(e)) && num[0] == Some(0)
  {
    ReducedVals(a, num, e);
    FieldLaws();
    LeadingCancels(GF, Vals(a), Vals(e));
    assert Val(num[0]) == Vals(num)[0];
  }

  /** One pass of `mod`: cancel the leading coefficient.  When that entry was
      never set the pass changes no value but makes the entries explicit. */
  method ReduceOnce(math: Tables, a: JsPoly, e: JsPoly) returns (r: Throws<JsPoly>)
    requires math.Valid() && AllSet(e) && |a| >= |e| > 0 && a[0] != Some(0)
    ensures r.Thrown? <==> HasZero(e)
    ensures r.Got? ==> |r.value| == |a| && Vals(r.value) == Reduce(GF, Vals(a), Vals(e)) && r.value[0] == Some(0)
  {
    var la := math.Glog(a[0]);
    var lb := math.Glog(e[0]);
    if lb.Thrown? { return Thrown; }
    r := ReduceRow(math, a, e, la.value, lb.value.value);
    if r.Got? {
      ReducedLeads(a, r.value, e);
    }
  }

  /** Left-padded with zeros to length n. */
  ghost function Padded(p: seq<Elem>, n: nat): seq<Elem>
    requires |p| <= n
  {
    Zeros(GF, n - |p|) + p
  }

  /** Leading zeros do not matter to the remainder. */
  lemma {:induction false} RemainderOfStripped(p: JsPoly, g: seq<Elem>)
    requires |g| > 0 && g[0] != 0 && |p| >= |g|
    ensures Remainder(GF, Vals(p), g) ==
            if |Strip(p)| >= |g| then Remainder(GF, Vals(Strip(p)), g) else Padded(Vals(Strip(p)), |g| - 1)
    decreases |p|
  {
    if p[0] == Some(0) {
      var v := Vals(p);
      assert Reduce(GF, v, g)[1..] == Vals(p[1..]) by {
        forall k | 0 <= k < |p| ensures Reduce(GF, v, g)[k] == v[k] {
          if k < |g| { MulNonZero(0, g[k]); }
          XorRegroup(v[k], 0, 0);
        }
      }
      if |p| > |g| {
        RemainderOfStripped(p[1..], g);
      } else {
        StripPads(p[1..], |g| - 1);
      }
    }
  }

  lemma {:induction false} StripPads(p: JsPoly, n: nat)
    requires |p| <= n
    ensures Padded(Vals(p), n) == Padded(Vals(Strip(p)), n)
  {
    if p != [] && p[0] == Some(0) {
      StripPads(p[1..], n);
      assert Vals(p) == [0] + Vals(p[1..]);
      assert Padded(Vals(p), n) == Padded(Vals(p[1..]), n);
    }
  }

  lemma {:induction false} StripIdempotent(p: JsPoly)
    ensures Strip(Strip(p)) == Strip(p)
    ensures Strip(p) != [] ==> Strip(p)[0] != Some(0)
  {
    if p != [] && p[0] == Some(0) {
      StripIdempotent(p[1..]);
    }
  }

  /** What one reduction and the following strip do to the remainder. */
  lemma {:induction false} RemainderStep(a: JsPoly, num: JsPoly, g: seq<Elem>)
    requires |a| == |num| >= |g| > 0 && g[0] != 0
    requires Vals(num) == Reduce(GF, Vals(a), g) && num[0] == Some(0)
    ensures |Strip(num)| < |a| && Strip(Strip(num)) == Strip(num)
    ensures Remainder(GF, Vals(a), g) ==
            if |Strip(num)| >= |g| then Remainder(GF, Vals(Strip(num)), g) else Padded(Vals(Strip(num)), |g| - 1)
  {
    var tail := num[1..];
    StripIdempotent(num);
    assert Vals(num)[1..] == Vals(tail);
    assert Remainder(GF, Vals(a), g) == Remainder(GF, Vals(tail), g);
    if |tail| >= |g| {
      RemainderOfStripped(tail, g);
    } else {
      StripPads(tail, |g| - 1);
      assert Padded(Vals(tail), |g| - 1) == Vals(tail);
    }
  }

  /** mod: repeated reduction; the result read with its unset entries as zero
      is the polynomial remainder. */
  method Mod(math: Tables, a: JsPoly, e: JsPoly) returns (r: Throws<JsPoly>)
    requires math.Valid() && AllSet(e) && |e| > 0 && Strip(a) == a
    ensures |a| < |e| ==> r == Got(a)
    ensures |a| >= |e| && HasZero(e) ==> r == Thrown
    ensures |a| >= |e| && !HasZero(e) ==>
              && r.Got? && |r.value| < |e|
              && Padded(Vals(r.value), |e| - 1) == Remainder(GF, Vals(a), Vals(e))
    decreases |a|
  {
    if |a| < |e| {
      return Got(a);
    }
    StripIdempotent(a);
    var num := ReduceOnce(math, a, e);
    if num.Thrown? { return Thrown; }
    RemainderStep(a, num.value, Vals(e));
    var next := MakePoly(num.value, 0);
    assert next == Strip(num.value);
    r := Mod(math, next, e);
  }
}
