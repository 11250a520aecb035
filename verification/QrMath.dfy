/** The exponent and logarithm tables of the QR encoder, built once in place
    and proved to be the powers of alpha and their inverse. */
module QrMath {
  import opened Wrappers
  import opened Gf256

  /** The result of code that may throw. */
  datatype Throws<+T> = Thrown | Got(value: T)

  lemma SmallPowers()
    ensures Exp(0) == 1 && Exp(1) == 2 && Exp(2) == 4 && Exp(3) == 8
    ensures Exp(4) == 16 && Exp(5) == 32 && Exp(6) == 64 && Exp(7) == 128
    ensures Exp(8) == 29
  {
    Next5(0, 1);
    Next5(5, 32);
  }

  lemma {:induction false} IterXor3(n: nat, a: Elem, b: Elem, c: Elem, d: Elem)
    requires d == Xor(Xor(a, b), c)
    ensures Iter(n, d) == Xor(Xor(Iter(n, a), Iter(n, b)), Iter(n, c))
  {
    IterLinear(n, Xor(a, b), c, d);
    IterLinear(n, a, b, Xor(a, b));
  }

  /** The table's recurrence is the defining relation of alpha, shifted. */
  lemma ExpRecurrence(i: nat)
    requires i >= 8
    ensures Exp(i) == Xor(Xor(Xor(Exp(i - 4), Exp(i - 5)), Exp(i - 6)), Exp(i - 8))
  {
    var n := i - 8;
    SmallPowers();
    ExpAdd(n, 8);
    ExpAdd(n, 4);
    ExpAdd(n, 3);
    ExpAdd(n, 2);
    IterXor3(n, 16, 8, 4, 28);
    IterLinear(n, 28, 1, 29);
  }

  /** Where the logarithm table keeps n. */
  function Slot(n: nat): (s: int)
    ensures 0 <= s < 256
  {
    Exp(n) as int
  }

  lemma DistinctSlots(n: nat, i: nat)
    requires n < i < 255
    ensures Slot(n) != Slot(i)
  {
    ExpInjective(n, i);
    if Slot(n) == Slot(i) { CastInjective(Exp(n), Exp(i)); }
  }

  lemma RecurrenceStep(i: nat, p: Elem, q: Elem, r: Elem, s: Elem)
    requires i >= 8 && p == Exp(i - 4) && q == Exp(i - 5) && r == Exp(i - 6) && s == Exp(i - 8)
    ensures Exp(i) == p ^ q ^ r ^ s
  {
    ExpRecurrence(i);
  }

  lemma LowShift(i: nat, bit: Elem)
    requires i < 7 && bit == Exp(i)
    ensures Exp(i + 1) == bit << 1
  {
    SmallPowers();
  }

  lemma AddPeriod(k: int)
    ensures (k + 255) % 255 == k % 255
  {}

  method FillExp(table: array<Elem>)
    requires table.Length == 256
    modifies table
    ensures forall k :: 0 <= k < 256 ==> table[k] == Exp(k)
  {
    var i := 0;
    var bit: Elem := 1;
    while i < 8
      invariant 0 <= i <= 8
      invariant i < 8 ==> bit == Exp(i)
      invariant forall k :: 0 <= k < i ==> table[k] == Exp(k)
    {
      table[i] := bit;
      if i < 7 { LowShift(i, bit); }
      bit := bit << 1;
      i := i + 1;
    }
    while i < 256
      invariant 8 <= i <= 256
      invariant forall k :: 0 <= k < i ==> table[k] == Exp(k)
    {
      RecurrenceStep(i, table[i - 4], table[i - 5], table[i - 6], table[i - 8]);
      table[i] := table[i - 4] ^ table[i - 5] ^ table[i - 6] ^ table[i - 8];
      i := i + 1;
    }
  }

  method FillLog(expTable: array<Elem>, table: array<Option<nat>>)
    requires expTable.Length == 256 && table.Length == 256 && expTable as object != table
    requires forall k :: 0 <= k < 256 ==> expTable[k] == Exp(k)
    modifies table
    ensures forall n :: 0 <= n < 255 ==> table[Slot(n)] == Some(n)
  {
    var i := 0;
    while i < 255
      invariant 0 <= i <= 255
      invariant forall k :: 0 <= k < 256 ==> expTable[k] == Exp(k)
      invariant forall n :: 0 <= n < i ==> table[Slot(n)] == Some(n)
    {
      forall n | 0 <= n < i ensures Slot(n) != Slot(i) {
        DistinctSlots(n, i);
      }
      assert expTable[i] as int == Slot(i);
      table[expTable[i] as int] := Some(i);
      i := i + 1;
    }
  }

  class Tables {
    const expTable: array<Elem>
    const logTable: array<Option<nat>>

    ghost predicate Valid()
      reads expTable, logTable
    {
      && expTable.Length == 256 && logTable.Length == 256
      && (forall i :: 0 <= i < 256 ==> expTable[i] == Exp(i))
      && (forall n :: 0 <= n < 255 ==> logTable[Slot(n)] == Some(n))
    }

    constructor ()
      ensures Valid() && fresh(expTable) && fresh(logTable)
    {
      expTable := new Elem[256];
      logTable := new Option<nat>[256](_ => None);
      new;
      FillExp(expTable);
      FillLog(expTable, logTable);
    }

    /** glog: throws on zero; the log of an unset coefficient is unset. */
    method Glog(a: Option<Elem>) returns (r: Throws<Option<nat>>)
      requires Valid()
      ensures r == if a == Some(0) then Thrown
                   else if a.None? then Got(None)
                   else Got(Some(Log(a.value)))
    {
      if a.None? {
        return Got(None);
      }
      if a.value < 1 {
        return Thrown;
      }
      ghost var n := Log(a.value);
      assert logTable[Slot(n)] == Some(n);
      return Got(logTable[a.value as int]);
    }

    /** gexp: reduces any exponent into the table by steps of 255. */
    method Gexp(n: Option<int>) returns (r: Option<Elem>)
      requires Valid()
      ensures r == if n.None? then None else Some(Exp(n.value % 255))
    {
      if n.None? {
        return None;
      }
      var k := n.value;
      while k < 0
        invariant k % 255 == n.value % 255
        decreases -k
      {
        AddPeriod(k);
        k := k + 255;
      }
      while k >= 256
        invariant k % 255 == n.value % 255 && k >= 0
      {
        AddPeriod(k - 255);
        k := k - 255;
      }
      ExpMod(k);
      return Some(expTable[k]);
    }
  }
}
