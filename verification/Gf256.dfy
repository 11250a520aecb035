/** The field GF(256) behind the QR encoder: powers of alpha, logarithms, and
    the multiplication they define.  The encoder multiplies by adding
    logarithms; that this distributes over XOR is what everything else in the
    error-correction code rests on. */
module Gf256 {
  import opened FieldPolynomials

  type Elem = bv8

  /** Multiplication by alpha modulo x^8 + x^4 + x^3 + x^2 + 1. */
  function Times2(a: Elem): Elem {
    (a << 1) ^ (if a & 0x80 == 0 then 0 else 0x1d)
  }

  /** alpha^n * b. */
  function Iter(n: nat, b: Elem): Elem {
    if n == 0 then b else Times2(Iter(n - 1, b))
  }

  /** alpha^n. */
  function Exp(n: nat): Elem { Iter(n, 1) }

  // --------------------------------------------------------- linear algebra

  lemma TopBit(a: Elem, b: Elem)
    ensures (a ^ b) & 0x80 == (a & 0x80) ^ (b & 0x80)
    ensures a & 0x80 == 0 || a & 0x80 == 0x80
  {}

  lemma ShiftXor(a: Elem, b: Elem)
    ensures (a ^ b) << 1 == (a << 1) ^ (b << 1)
  {}

  lemma Times2Linear(a: Elem, b: Elem)
    ensures Times2(a ^ b) == Times2(a) ^ Times2(b)
  {
    TopBit(a, b);
    TopBit(b, a);
    ShiftXor(a, b);
  }

  lemma Times2Injective(a: Elem, b: Elem)
    ensures Times2(a) == Times2(b) <==> a == b
  {}

  lemma {:induction false} IterIsIterate(n: nat, b: Elem)
    ensures Iter(n, b) == Iterate(Times2, n, b)
  {
    if n > 0 {
      IterIsIterate(n - 1, b);
    }
  }

  function Xor(a: Elem, b: Elem): Elem { a ^ b }

  lemma Times2Laws()
    ensures Additive(Times2, Xor) && OneToOne(Times2)
  {
    forall a, b ensures Times2(Xor(a, b)) == Xor(Times2(a), Times2(b)) {
      Times2Linear(a, b);
    }
    forall a, b ensures Times2(a) == Times2(b) ==> a == b {
      Times2Injective(a, b);
    }
  }

  lemma {:induction false} IterLinear(n: nat, a: Elem, b: Elem, c: Elem)
    requires c == Xor(a, b)
    ensures Iter(n, c) == Xor(Iter(n, a), Iter(n, b))
  {
    Times2Laws();
    IterateAdditive(Times2, Xor, n, a, b);
    IterIsIterate(n, a);
    IterIsIterate(n, b);
    IterIsIterate(n, c);
  }

  lemma {:induction false} IterAdd(m: nat, n: nat, b: Elem)
    ensures Iter(m + n, b) == Iter(m, Iter(n, b))
  {
    IterateSum(Times2, m, n, b);
    IterIsIterate(m + n, b);
    IterIsIterate(n, b);
    IterIsIterate(m, Iter(n, b));
  }

  lemma {:induction false} IterInjective(n: nat, a: Elem, b: Elem)
    requires Iter(n, a) == Iter(n, b)
    ensures a == b
  {
    Times2Laws();
    IterIsIterate(n, a);
    IterIsIterate(n, b);
    IterateOneToOne(Times2, n, a, b);
  }

  lemma {:induction false} IterZero(n: nat)
    ensures Iter(n, 0) == 0
  {
    IterLinear(n, 0, 0, 0);
  }

  lemma {:induction false} ExpAdd(m: nat, n: nat)
    ensures Exp(m + n) == Iter(m, Exp(n))
  {
    IterAdd(m, n, 1);
  }

  lemma ExpNonZero(n: nat)
    ensures Exp(n) != 0
  {
    IterZero(n);
    if Exp(n) == 0 {
      IterInjective(n, 1, 0);
    }
  }

  // ------------------------------------------------------ the order of alpha

  function Iter5(v: Elem): Elem { Times2(Times2(Times2(Times2(Times2(v))))) }

  /** None of the next five multiples is 1. */
  predicate Avoids1(v: Elem) {
    && Times2(v) != 1
    && Times2(Times2(v)) != 1
    && Times2(Times2(Times2(v))) != 1
    && Times2(Times2(Times2(Times2(v)))) != 1
    && Iter5(v) != 1
  }

  lemma Next5(n: nat, v: Elem)
    requires Exp(n) == v
    ensures Exp(n + 1) == Times2(v)
    ensures Exp(n + 2) == Times2(Times2(v))
    ensures Exp(n + 3) == Times2(Times2(Times2(v)))
    ensures Exp(n + 4) == Times2(Times2(Times2(Times2(v))))
    ensures Exp(n + 5) == Iter5(v)
  {}

  /** From alpha^n = v, fifteen steps lead to alpha^(n+15) = w; none of them,
      except possibly the last, meets 1. */
  lemma Block(n: nat, v: Elem, w: Elem)
    requires Exp(n) == v && Iter5(Iter5(Iter5(v))) == w
    requires Avoids1(v) && Avoids1(Iter5(v)) && (Avoids1(Iter5(Iter5(v))) || w == 1)
    ensures Exp(n + 15) == w
    ensures forall d :: n < d < n + 15 ==> Exp(d) != 1
  {
    Next5(n, v);
    Next5(n + 5, Iter5(v));
    Next5(n + 10, Iter5(Iter5(v)));
    if w == 1 {
      OnlyLastIsOne(Iter5(Iter5(v)));
    }
  }

  /** One of five consecutive multiples at most is 1. */
  lemma OnlyLastIsOne(u: Elem)
    requires Iter5(u) == 1
    ensures Times2(u) != 1 && Times2(Times2(u)) != 1
    ensures Times2(Times2(Times2(u))) != 1 && Times2(Times2(Times2(Times2(u)))) != 1
  {}

  lemma Powers1()
    ensures Exp(45) == 193
    ensures forall d :: 0 < d < 45 ==> Exp(d) != 1
  {
    Block(0, 1, 38);
    Block(15, 38, 96);
    Block(30, 96, 193);
  }

  lemma Powers2()
    ensures Exp(90) == 223
    ensures forall d :: 45 < d < 90 ==> Exp(d) != 1
  {
    Powers1();
    Block(45, 193, 185);
    Block(60, 185, 15);
    Block(75, 15, 223);
  }

  lemma Powers3()
    ensures Exp(135) == 169
    ensures forall d :: 90 < d < 135 ==> Exp(d) != 1
  {
    Powers2();
    Block(90, 223, 26);
    Block(105, 26, 59);
    Block(120, 59, 169);
  }

  lemma Powers4()
    ensures Exp(180) == 150
    ensures forall d :: 135 < d < 180 ==> Exp(d) != 1
  {
    Powers3();
    Block(135, 169, 85);
    Block(150, 85, 145);
    Block(165, 145, 150);
  }

  lemma Powers5()
    ensures Exp(225) == 36
    ensures forall d :: 180 < d < 225 ==> Exp(d) != 1
  {
    Powers4();
    Block(180, 150, 100);
    Block(195, 100, 89);
    Block(210, 89, 36);
  }

  lemma Powers6()
    ensures Exp(255) == 1
    ensures forall d :: 225 < d < 255 ==> Exp(d) != 1
  {
    Powers5();
    Block(225, 36, 44);
    Block(240, 44, 1);
  }

  /** alpha has order exactly 255. */
  lemma OrderOfAlpha(d: nat)
    requires 0 < d <= 255
    ensures Exp(d) == 1 <==> d == 255
  {
    Powers1();
    Powers2();
    Powers3();
    Powers4();
    Powers5();
    Powers6();
  }

  lemma ExpInjective(i: nat, j: nat)
    requires i < j < 255
    ensures Exp(i) != Exp(j)
  {
    ExpAdd(i, j - i);
    OrderOfAlpha(j - i);
    if Exp(i) == Exp(j) {
      IterInjective(i, 1, Exp(j - i));
    }
  }

  lemma ExpPeriod(n: nat)
    ensures Exp(n + 255) == Exp(n)
  {
    ExpAdd(n, 255);
    OrderOfAlpha(255);
  }

  lemma {:induction false} ExpMod(n: nat)
    ensures Exp(n) == Exp(n % 255)
  {
    if n >= 255 {
      ExpPeriod(n - 255);
      ExpMod(n - 255);
      assert n % 255 == (n - 255) % 255;
    }
  }

  // --------------------------------------------------------------- logarithm

  function Elements(s: seq<int>): set<int> { set i | 0 <= i < |s| :: s[i] }

  lemma {:induction false} DistinctSize(s: seq<int>)
    requires forall i, j :: 0 <= i < j < |s| ==> s[i] != s[j]
    ensures |Elements(s)| == |s|
  {
    if s != [] {
      var n := |s| - 1;
      DistinctSize(s[..n]);
      assert Elements(s) == Elements(s[..n]) + {s[n]};
    }
  }

  function Below(n: nat): (s: set<int>)
    ensures forall i :: i in s <==> 0 <= i < n
  {
    if n == 0 then {} else Below(n - 1) + {n - 1}
  }

  lemma {:induction false} BelowSize(n: nat)
    ensures |Below(n)| == n
  {
    if n > 0 {
      BelowSize(n - 1);
    }
  }

  /** Distinct values that fit exactly leave none out. */
  lemma Pigeonhole(s: seq<int>, v: int)
    requires forall i, j :: 0 <= i < j < |s| ==> s[i] != s[j]
    requires forall i :: 0 <= i < |s| ==> 0 <= s[i] < |s|
    requires 0 <= v < |s|
    ensures exists i :: 0 <= i < |s| && s[i] == v
  {
    DistinctSize(s);
    BelowSize(|s|);
    var e, b := Elements(s), Below(|s|);
    assert e <= b;
    if v !in e {
      assert e <= b - {v};
      SubsetLeq(e, b - {v});
    }
  }

  lemma {:induction false} SubsetLeq(a: set<int>, b: set<int>)
    requires a <= b
    ensures |a| <= |b|
  {
    assert b == a + (b - a);
  }

  lemma CastInjective(a: Elem, b: Elem)
    requires a as int == b as int
    ensures a == b
  {}

  /** Every non-zero element is a power of alpha. */
  lemma ExpOnto(a: Elem)
    requires a != 0
    ensures exists i :: 0 <= i < 255 && Exp(i) == a
  {
    var s := seq(255, i requires 0 <= i < 255 => Exp(i) as int - 1);
    forall i | 0 <= i < 255 ensures 0 <= s[i] < 255 {
      ExpNonZero(i);
    }
    forall i, j | 0 <= i < j < 255 ensures s[i] != s[j] {
      ExpInjective(i, j);
      if s[i] == s[j] { CastInjective(Exp(i), Exp(j)); }
    }
    Pigeonhole(s, a as int - 1);
    var i :| 0 <= i < 255 && s[i] == a as int - 1;
    CastInjective(Exp(i), a);
  }

  /** The discrete logarithm, below 255. */
  ghost function Log(a: Elem): (n: nat)
    requires a != 0
    ensures n < 255 && Exp(n) == a
  {
    ExpOnto(a);
    var n: nat :| n < 255 && Exp(n) == a;
    n
  }

  lemma LogExp(n: nat)
    ensures Exp(n) != 0 && Log(Exp(n)) == n % 255
  {
    ExpNonZero(n);
    ExpMod(n);
    var k := Log(Exp(n));
    if k < n % 255 {
      ExpInjective(k, n % 255);
    } else if n % 255 < k {
      ExpInjective(n % 255, k);
    }
  }

  // ---------------------------------------------------------- multiplication

  /** Multiplication by adding logarithms, as the encoder does it. */
  ghost function Mul(a: Elem, b: Elem): Elem {
    if a == 0 || b == 0 then 0 else Exp(Log(a) + Log(b))
  }

  lemma ModShift(n: nat, k: nat)
    ensures (n + k) % 255 == (n % 255 + k) % 255
  {}

  lemma ExpShift(n: nat, k: nat, b: Elem)
    requires Exp(k) == b
    ensures Exp(n % 255 + k) == Iter(n, b)
  {
    ExpMod(n + k);
    ExpMod(n % 255 + k);
    ModShift(n, k);
    ExpAdd(n, k);
  }

  lemma MulOfLogs(a: Elem, b: Elem, i: nat, j: nat, r: Elem)
    requires a != 0 && b != 0 && i == Log(a) && j == Log(b) && Exp(i + j) == r
    ensures Mul(a, b) == r
  {}

  lemma MulPower(n: nat, a: Elem, b: Elem, i: nat, j: nat)
    requires a == Exp(n) && a != 0 && b != 0 && i == Log(a) == n % 255 && j == Log(b)
    ensures Mul(a, b) == Iter(n, b)
  {
    ExpShift(n, j, b);
    MulOfLogs(a, b, i, j, Iter(n, b));
  }

  lemma {:induction false} MulIsIter(n: nat, b: Elem)
    ensures Mul(Exp(n), b) == Iter(n, b)
  {
    if b == 0 {
      IterZero(n);
    } else {
      LogExp(n);
      MulPower(n, Exp(n), b, n % 255, Log(b));
    }
  }

  lemma MulCommutes(a: Elem, b: Elem)
    ensures Mul(a, b) == Mul(b, a)
  {}

  /** Adding logarithms distributes over XOR. */
  lemma MulDistributes(a: Elem, b: Elem, c: Elem, d: Elem)
    requires d == Xor(b, c)
    ensures Mul(a, d) == Xor(Mul(a, b), Mul(a, c))
  {
    if a != 0 {
      DistributesAtLog(a, Log(a), b, c, d);
    }
  }

  lemma DistributesAtLog(a: Elem, n: nat, b: Elem, c: Elem, d: Elem)
    requires a == Exp(n) && d == Xor(b, c)
    ensures Mul(a, d) == Xor(Mul(a, b), Mul(a, c))
  {
    MulIsIter(n, b);
    MulIsIter(n, c);
    MulIsIter(n, d);
    IterLinear(n, b, c, d);
  }

  lemma MulAssociates(a: Elem, b: Elem, c: Elem)
    ensures Mul(Mul(a, b), c) == Mul(a, Mul(b, c))
  {
    if a != 0 && b != 0 {
      AssociatesAtLogs(a, Log(a), b, Log(b), c, Mul(a, b), Mul(b, c));
    }
  }

  lemma AssociatesAtLogs(a: Elem, i: nat, b: Elem, j: nat, c: Elem, ab: Elem, bc: Elem)
    requires a == Exp(i) && b == Exp(j) && ab == Mul(a, b) && bc == Mul(b, c)
    ensures Mul(ab, c) == Mul(a, bc)
  {
    MulExp(i, j);
    MulIsIter(i + j, c);
    MulIsIter(j, c);
    MulIsIter(i, bc);
    IterAdd(i, j, c);
  }

  lemma MulExp(i: nat, j: nat)
    ensures Mul(Exp(i), Exp(j)) == Exp(i + j)
  {
    MulIsIter(i, Exp(j));
    ExpAdd(i, j);
  }

  lemma MulUnit(a: Elem)
    ensures Mul(a, 1) == a
  {
    MulIsIter(0, a);
    assert Exp(0) == 1;
    MulCommutes(1, a);
  }

  lemma MulNonZero(a: Elem, b: Elem)
    ensures Mul(a, b) == 0 <==> a == 0 || b == 0
  {
    if a != 0 && b != 0 {
      ExpNonZero(Log(a) + Log(b));
    }
  }

  /** Division by subtracting logarithms. */
  ghost function Div(a: Elem, b: Elem): Elem {
    if a == 0 || b == 0 then 0 else Exp((Log(a) - Log(b)) % 255)
  }

  lemma DivLaw(a: Elem, b: Elem)
    requires b != 0
    ensures Mul(Div(a, b), b) == a
  {
    if a != 0 {
      DivAtLogs(a, Log(a), b, Log(b), Div(a, b));
    }
  }

  lemma DivAtLogs(a: Elem, i: nat, b: Elem, j: nat, d: Elem)
    requires a == Exp(i) && b == Exp(j) && i < 255 && j < 255 && d == Exp((i - j) % 255)
    ensures Mul(d, b) == a
  {
    MulExp((i - j) % 255, j);
    if i < j { ExpPeriod(i); }
  }

  // -------------------------------------------------------------- the field

  /** GF(256) as a field: XOR for addition, logarithms for multiplication. */
  ghost const GF: Field<Elem> := Field(0, 1, Xor, Mul, Div)

  lemma XorLaws(a: Elem, b: Elem, c: Elem)
    ensures Xor(a, b) == Xor(b, a) && Xor(Xor(a, b), c) == Xor(a, Xor(b, c)) && Xor(a, 0) == a && Xor(a, a) == 0
  {}

  lemma AddLawsAt(a: Elem, b: Elem, c: Elem)
    ensures GF.add(a, b) == GF.add(b, a)
    ensures GF.add(GF.add(a, b), c) == GF.add(a, GF.add(b, c))
    ensures GF.add(a, GF.zero) == a && GF.add(a, a) == GF.zero
  {
    XorLaws(a, b, c);
  }

  lemma MulLawsAt(a: Elem, b: Elem, c: Elem)
    ensures GF.mul(a, b) == GF.mul(b, a)
    ensures GF.mul(GF.mul(a, b), c) == GF.mul(a, GF.mul(b, c))
    ensures GF.mul(a, GF.one) == a && GF.mul(a, GF.zero) == GF.zero
  {
    MulCommutes(a, b);
    MulAssociates(a, b, c);
    MulUnit(a);
    MulNonZero(a, 0);
  }

  lemma MixedLawsAt(a: Elem, b: Elem, c: Elem)
    ensures GF.mul(a, GF.add(b, c)) == GF.add(GF.mul(a, b), GF.mul(a, c))
    ensures GF.mul(a, b) == GF.zero ==> a == GF.zero || b == GF.zero
    ensures b != GF.zero ==> GF.mul(GF.div(a, b), b) == a
  {
    MulDistributes(a, b, c, Xor(b, c));
    MulNonZero(a, b);
    if b != 0 { DivLaw(a, b); }
  }

  lemma FieldLaws()
    ensures Laws(GF) && GF.one != GF.zero
  {
    forall a: Elem, b: Elem, c: Elem
      ensures LawsAt(GF, a, b, c)
    {
      AddLawsAt(a, b, c);
      MulLawsAt(a, b, c);
      MixedLawsAt(a, b, c);
    }
  }

  /** The powers of alpha = 2 in the field are the entries of the table. */
  lemma {:induction false} PowerIsExp(n: nat)
    ensures Power(GF, 2, n) == Exp(n)
  {
    if n > 0 {
      PowerIsExp(n - 1);
      assert Exp(1) == 2;
      MulExp(n - 1, 1);
    }
  }
}
