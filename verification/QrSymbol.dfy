/** The function patterns of a whole symbol, in rings around their middles, and
    the rule behind the table of alignment centres. */
module QrSymbol {
  import opened Wrappers
  import opened QrModules
  import opened QrPatterns
  import opened QrAlignment

  // ------------------------------------------------------------- the rule of centres

  /** How far the centres of a version lie apart, all but the first two. */
  function Gap(version: nat): int
    requires 2 <= version
  {
    var gaps := version / 7 + 1;
    if version == 32 then 26 else (4 * version + 2 * gaps + 3) / (2 * gaps) * 2
  }

  ghost predicate EvenlyPlaced(pos: seq<int>, version: nat, gap: int) {
    && |pos| == version / 7 + 2 && pos[0] == 6 && pos[|pos| - 1] == Side40(version) - 7
    && forall i :: 1 <= i < |pos| - 1 ==> pos[i + 1] - pos[i] == gap
  }

  lemma EvenThree(version: nat)
    requires 2 <= version <= 13
    ensures EvenlyPlaced(UpToThree(version), version, Gap(version))
  {}

  lemma EvenFour(version: nat)
    requires 14 <= version <= 20
    ensures EvenlyPlaced(UpToFour(version), version, Gap(version))
  {
    var gap, far := Gap(version), Side40(version) - 7;
    assert UpToFour(version) == [6, far - 2 * gap, far - gap, far];
  }

  lemma EvenFive(version: nat)
    requires 21 <= version <= 27
    ensures EvenlyPlaced(UpToFive(version), version, Gap(version))
  {
    var gap, far := Gap(version), Side40(version) - 7;
    assert UpToFive(version) == [6, far - 3 * gap, far - 2 * gap, far - gap, far];
  }

  lemma EvenSix(version: nat)
    requires 28 <= version <= 34
    ensures EvenlyPlaced(UpToSix(version), version, Gap(version))
  {
    var gap, far := Gap(version), Side40(version) - 7;
    assert UpToSix(version) == [6, far - 4 * gap, far - 3 * gap, far - 2 * gap, far - gap, far];
  }

  lemma EvenSeven(version: nat)
    requires 35 <= version <= 40
    ensures EvenlyPlaced(UpToSeven(version), version, Gap(version))
  {
    var gap, far := Gap(version), Side40(version) - 7;
    assert gap == if version == 35 then 24 else if version <= 38 then 26 else 28;
    assert UpToSeven(version) == [6, far - 5 * gap, far - 4 * gap, far - 3 * gap, far - 2 * gap, far - gap, far];
  }

  /** The centres of every version but the first lie evenly, up from the far
      edge, with what is left over between the first two (Annex E of ISO/IEC
      18004:2015). */
  lemma CentresEven(version: nat)
    requires 1 <= version <= 40
    ensures version == 1 ==> PatternPosition(version) == []
    ensures version > 1 ==> EvenlyPlaced(PatternPosition(version), version, Gap(version))
  {
    if 2 <= version <= 13 {
      EvenThree(version);
    } else if 14 <= version <= 20 {
      EvenFour(version);
    } else if 21 <= version <= 27 {
      EvenFive(version);
    } else if 28 <= version <= 34 {
      EvenSix(version);
    } else if 35 <= version {
      EvenSeven(version);
    }
  }

  // ------------------------------------------------------------- the whole symbol

  function Ring(q: Cell, middle: Cell): int { RingOf(q.0 - middle.0, q.1 - middle.1) }

  predicate ProbeMiddle(m: Cell, n: int) { m == (3, 3) || m == (n - 4, 3) || m == (3, n - 4) }

  /** The middle of an alignment pattern: any pair of centres, but for the three
      in the corners of the probes. */
  predicate AlignMiddle(m: Cell, pos: seq<int>, n: int) {
    m.0 in pos && m.1 in pos && m != (6, 6) && m != (n - 7, 6) && m != (6, n - 7)
  }

  /** Each module belongs to the probe four rings around it, or to the
      alignment pattern two rings around it, or to the timing track in line 6,
      or is free. */
  ghost predicate SymbolModule(now: Option<bool>, pos: seq<int>, n: int, q: Cell) {
    && (forall m :: ProbeMiddle(m, n) && Ring(q, m) <= 4 ==> now == Some(Ring(q, m) != 2 && Ring(q, m) != 4))
    && (forall m :: AlignMiddle(m, pos, n) && Ring(q, m) <= 2 ==> now == Some(Ring(q, m) != 1))
    && ((forall m :: ProbeMiddle(m, n) ==> Ring(q, m) > 4) && (forall m :: AlignMiddle(m, pos, n) ==> Ring(q, m) > 2) ==>
          now == if q.1 == 6 then Some(q.0 % 2 == 0) else if q.0 == 6 then Some(q.1 % 2 == 0) else None)
  }

  lemma ProbeModule(now: Option<bool>, pos: seq<int>, n: int, q: Cell, m: Cell)
    requires n >= 21 && OnGrid(q, n) && Patterned(now, pos, n, q) && ProbeMiddle(m, n) && Ring(q, m) <= 4
    ensures now == Some(Ring(q, m) != 2 && Ring(q, m) != 4)
  {
    assert InProbe(m.0 - 3, m.1 - 3, q);
    ProbeRings(q.0 - (m.0 - 3), q.1 - (m.1 - 3));
  }

  lemma ProbesAre(n: int, q: Cell)
    requires n >= 21 && InProbes(n, q)
    ensures exists m :: ProbeMiddle(m, n) && Ring(q, m) <= 4
  {
    var m := if InProbe(0, 0, q) then (3, 3) else if InProbe(n - 7, 0, q) then (n - 4, 3) else (3, n - 4);
    assert ProbeMiddle(m, n) && Ring(q, m) <= 4;
  }

  lemma CornerIff(pos: seq<int>, n: int, a: int, b: int)
    requires Spaced(pos, n) && 0 <= a < |pos| && 0 <= b < |pos|
    ensures Corner(a, b, |pos|) <==> !AlignMiddle((pos[a], pos[b]), pos, n)
  {
    var k := |pos|;
    assert pos[a] == 6 <==> a == 0;
    assert pos[a] == n - 7 <==> a == k - 1;
    assert pos[b] == 6 <==> b == 0;
    assert pos[b] == n - 7 <==> b == k - 1;
  }

  lemma AlignModule(now: Option<bool>, pos: seq<int>, n: int, q: Cell, m: Cell)
    requires Spaced(pos, n) && OnGrid(q, n) && Patterned(now, pos, n, q) && AlignMiddle(m, pos, n) && Ring(q, m) <= 2
    ensures now == Some(Ring(q, m) != 1)
  {
    var a :| 0 <= a < |pos| && pos[a] == m.0;
    var b :| 0 <= b < |pos| && pos[b] == m.1;
    CornerIff(pos, n, a, b);
    CornersUnderProbes(pos, n, a, b);
    assert InBox(pos[a], pos[b], q);
    assert Holds(pos, |pos|, 0, a, b, q);
    AlignRings(q.0 - pos[a], q.1 - pos[b]);
  }

  lemma HeldIsAligned(pos: seq<int>, n: int, q: Cell, a: int, b: int)
    requires Spaced(pos, n) && Holds(pos, |pos|, 0, a, b, q)
    ensures AlignMiddle((pos[a], pos[b]), pos, n) && Ring(q, (pos[a], pos[b])) <= 2
  {
    CornerIff(pos, n, a, b);
  }

  lemma FreeModule(now: Option<bool>, pos: seq<int>, n: int, q: Cell)
    requires n >= 21 && Spaced(pos, n) && OnGrid(q, n) && Patterned(now, pos, n, q)
    requires (forall m :: ProbeMiddle(m, n) ==> Ring(q, m) > 4) && forall m :: AlignMiddle(m, pos, n) ==> Ring(q, m) > 2
    ensures now == if q.1 == 6 then Some(q.0 % 2 == 0) else if q.0 == 6 then Some(q.1 % 2 == 0) else None
  {
    if InProbes(n, q) {
      ProbesAre(n, q);
    }
    forall a, b ensures !Holds(pos, |pos|, 0, a, b, q) {
      if Holds(pos, |pos|, 0, a, b, q) {
        HeldIsAligned(pos, n, q, a, b);
      }
    }
    assert ProbeMiddle((3, 3), n) && ProbeMiddle((n - 4, 3), n) && ProbeMiddle((3, n - 4), n);
  }

  /** What the set-up draws, module by module, for every version. */
  lemma SymbolIs(now: Grid, version: nat, q: Cell)
    requires 1 <= version <= 40 && Square(now, Side40(version)) && OnGrid(q, Side40(version))
    requires Patterned(At(now, q), PatternPosition(version), Side40(version), q)
    ensures SymbolModule(At(now, q), PatternPosition(version), Side40(version), q)
  {
    var pos, n, here := PatternPosition(version), Side40(version), At(now, q);
    forall m | ProbeMiddle(m, n) && Ring(q, m) <= 4 ensures here == Some(Ring(q, m) != 2 && Ring(q, m) != 4) {
      ProbeModule(here, pos, n, q, m);
    }
    forall m | AlignMiddle(m, pos, n) && Ring(q, m) <= 2 ensures here == Some(Ring(q, m) != 1) {
      AlignModule(here, pos, n, q, m);
    }
    if (forall m :: ProbeMiddle(m, n) ==> Ring(q, m) > 4) && forall m :: AlignMiddle(m, pos, n) ==> Ring(q, m) > 2 {
      FreeModule(here, pos, n, q);
    }
  }
}
