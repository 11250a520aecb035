/** The check bytes of one block, and the interleaving of many. */
module QrBlocks {
  import opened Wrappers
  import opened Sequences
  import opened FieldPolynomials
  import opened Gf256
  import opened QrMath
  import opened QrPolynomial

  /** One block of the version table. */
  datatype RsBlock = RsBlock(totalCount: int, dataCount: int)

  predicate ProperBlock(b: RsBlock) { 0 <= b.dataCount <= b.totalCount <= b.dataCount + 254 }

  function EcCount(b: RsBlock): int { b.totalCount - b.dataCount }

  // --------------------------------------------------------- Reed-Solomon code

  ghost function Message(dc: seq<Elem>, ec: nat): seq<Elem> { dc + Zeros(GF, ec) }

  /** The error-correction bytes of a block. */
  ghost function Check(dc: seq<Elem>, ec: nat): (r: seq<Elem>)
    ensures |r| == ec
  {
    Remainder(GF, Message(dc, ec), Generator(GF, 2, ec))
  }

  /** Data followed by its check bytes is a multiple of the generator... */
  lemma CodewordIsMultiple(dc: seq<Elem>, ec: nat)
    ensures var q := Quotient(GF, Message(dc, ec), Generator(GF, 2, ec));
            && |q| == |dc|
            && dc + Check(dc, ec) == Times(GF, q, Generator(GF, 2, ec))
  {
    FieldLaws();
    var g, p := Generator(GF, 2, ec), Message(dc, ec);
    GeneratorStartsWithOne(ec);
    DivisionIdentity(GF, p, g);
    MessagePlusRemainder(dc, ec, Times(GF, Quotient(GF, p, g), g), Check(dc, ec));
  }

  lemma MessagePlusRemainder(dc: seq<Elem>, ec: nat, t: seq<Elem>, r: seq<Elem>)
    requires |r| == ec && |t| == |dc| + ec
    requires Message(dc, ec) == Add(GF, t, Zeros(GF, |dc|) + r)
    ensures dc + r == t
  {
    forall k | 0 <= k < |t| ensures (dc + r)[k] == t[k] {
      var rem := Zeros(GF, |dc|) + r;
      assert Message(dc, ec)[k] == Xor(t[k], rem[k]);
      XorBack(t[k], rem[k]);
    }
  }

  /** ... and vanishes at each of its roots alpha^0 .. alpha^(ec-1). */
  lemma CodewordVanishes(dc: seq<Elem>, ec: nat, i: nat)
    requires i < ec
    ensures Eval(GF, dc + Check(dc, ec), Exp(i)) == 0
  {
    FieldLaws();
    CodewordIsMultiple(dc, ec);
    var g := Generator(GF, 2, ec);
    var q := Quotient(GF, Message(dc, ec), g);
    PowerIsExp(i);
    GeneratorRoots(GF, 2, ec, i);
    EvalTimes(GF, q, g, Exp(i));
    MulNonZero(Eval(GF, q, Exp(i)), 0);
  }

  lemma XorBack(t: Elem, r: Elem)
    ensures Xor(t, r) == 0 ==> t == r
    ensures r == 0 ==> Xor(t, r) == t
  {}

  lemma {:induction false} StripUnset(p: JsPoly, n: nat)
    ensures Strip(p + Unset(n)) == Strip(p) + Unset(n)
  {
    if p == [] {
      assert p + Unset(n) == Unset(n);
    } else if p[0] == Some(0) {
      assert (p + Unset(n))[1..] == p[1..] + Unset(n);
      StripUnset(p[1..], n);
    }
  }

  /** The dividend as the encoder builds it leads to the same remainder. */
  lemma {:induction false} RawRemainder(dc: seq<Elem>, ec: nat)
    ensures var raw := Strip(AsSet(dc)) + Unset(ec);
            && Strip(raw) == raw
            && Check(dc, ec) == if |raw| > ec then Remainder(GF, Vals(raw), Generator(GF, 2, ec)) else Padded(Vals(raw), ec)
  {
    var p := AsSet(dc) + Unset(ec);
    StripUnset(AsSet(dc), ec);
    StripIdempotent(p);
    assert Vals(p) == Message(dc, ec);
    GeneratorStartsWithOne(ec);
    if dc != [] {
      RemainderOfStripped(p, Generator(GF, 2, ec));
    } else {
      assert Vals(p) == Padded(Vals(p), ec);
    }
  }

  /** Right-align the remainder in ec places; unset entries count as zero. */
  method PadOut(p: JsPoly, ec: nat) returns (out: seq<Elem>)
    requires |p| <= ec
    ensures out == Padded(Vals(p), ec)
  {
    out := [];
    var i := 0;
    while i < ec
      invariant 0 <= i <= ec
      invariant out == Padded(Vals(p), ec)[..i]
    {
      var at := i + |p| - ec;
      out := out + [if at >= 0 then Val(p[at]) else 0];
      i := i + 1;
    }
  }

  /** The per-block part of createBytes. */
  method ErrorCorrect(math: Tables, dc: seq<Elem>, ec: nat) returns (r: Throws<seq<Elem>>)
    requires math.Valid() && ec <= 254
    ensures r == Got(Check(dc, ec))
  {
    ghost var g := Generator(GF, 2, ec);
    var rsPoly := GetErrorCorrectPolynomial(math, ec);
    GeneratorZeroIff(ec);
    ValsAsSet(g);
    var raw := MakePoly(AsSet(dc), |rsPoly.value| - 1);
    RawRemainder(dc, ec);
    var modPoly := Mod(math, raw, rsPoly.value);
    assert |modPoly.value| <= ec && Padded(Vals(modPoly.value), ec) == Check(dc, ec);
    var out := PadOut(modPoly.value, ec);
    return Got(out);
  }

  // -------------------------------------------------------------- interleaving

  /** The entries (block, index) of column i, blocks below r. */
  function Column(lens: seq<nat>, i: nat, r: nat): seq<(nat, nat)>
    requires r <= |lens|
  {
    if r == 0 then [] else Column(lens, i, r - 1) + (if i < lens[r - 1] then [(r - 1, i)] else [])
  }

  /** Column after column, as many as n. */
  function Order(lens: seq<nat>, n: nat): seq<(nat, nat)> {
    if n == 0 then [] else Order(lens, n - 1) + Column(lens, n - 1, |lens|)
  }

  lemma {:induction false} ColumnMeaning(lens: seq<nat>, i: nat, r: nat)
    requires r <= |lens|
    ensures forall p :: p in Column(lens, i, r) <==> p.0 < r && p.1 == i < lens[p.0]
    ensures Distinct(Column(lens, i, r))
  {
    if r > 0 {
      ColumnMeaning(lens, i, r - 1);
    }
  }

  /** Every entry of every block is placed, and placed once. */
  lemma {:induction false} OrderMeaning(lens: seq<nat>, n: nat)
    ensures forall p :: p in Order(lens, n) <==> p.0 < |lens| && p.1 < n && p.1 < lens[p.0]
    ensures Distinct(Order(lens, n))
  {
    if n > 0 {
      OrderMeaning(lens, n - 1);
      ColumnMeaning(lens, n - 1, |lens|);
      DistinctConcat(Order(lens, n - 1), Column(lens, n - 1, |lens|));
    }
  }

  function MinNat(a: nat, b: nat): nat { if a < b then a else b }

  /** Entries of the first r blocks that lie in the first n columns. */
  function Entries(lens: seq<nat>, n: nat, r: nat): nat
    requires r <= |lens|
  {
    if r == 0 then 0 else Entries(lens, n, r - 1) + MinNat(n, lens[r - 1])
  }

  lemma {:induction false} ColumnSize(lens: seq<nat>, i: nat, r: nat)
    requires r <= |lens|
    ensures Entries(lens, i + 1, r) == Entries(lens, i, r) + |Column(lens, i, r)|
  {
    if r > 0 {
      ColumnSize(lens, i, r - 1);
    }
  }

  lemma {:induction false} OrderSize(lens: seq<nat>, n: nat)
    ensures |Order(lens, n)| == Entries(lens, n, |lens|)
  {
    if n == 0 {
      NoEntries(lens, |lens|);
    } else {
      OrderSize(lens, n - 1);
      ColumnSize(lens, n - 1, |lens|);
    }
  }

  lemma {:induction false} NoEntries(lens: seq<nat>, r: nat)
    requires r <= |lens|
    ensures Entries(lens, 0, r) == 0
  {
    if r > 0 {
      NoEntries(lens, r - 1);
    }
  }

  function Lens(blocks: seq<seq<Elem>>): seq<nat> {
    seq(|blocks|, r requires 0 <= r < |blocks| => |blocks[r]|)
  }

  /** The bytes of the blocks in the order of `o`. */
  ghost function Pick(blocks: seq<seq<Elem>>, o: seq<(nat, nat)>): seq<Elem>
    requires forall p :: p in o ==> p.0 < |blocks| && p.1 < |blocks[p.0]|
  {
    seq(|o|, k requires 0 <= k < |o| => assert o[k] in o; blocks[o[k].0][o[k].1])
  }

  lemma PickConcat(blocks: seq<seq<Elem>>, a: seq<(nat, nat)>, b: seq<(nat, nat)>)
    requires forall p :: p in a || p in b ==> p.0 < |blocks| && p.1 < |blocks[p.0]|
    ensures (forall p :: p in a + b ==> p.0 < |blocks| && p.1 < |blocks[p.0]|)
         && Pick(blocks, a + b) == Pick(blocks, a) + Pick(blocks, b)
  {}

  /** The bytes of all blocks, column by column. */
  ghost function Interleaved(blocks: seq<seq<Elem>>, n: nat): seq<Elem> {
    OrderMeaning(Lens(blocks), n);
    Pick(blocks, Order(Lens(blocks), n))
  }

  ghost predicate Names(blocks: seq<seq<Elem>>, o: seq<(nat, nat)>) {
    forall p :: p in o ==> p.0 < |blocks| && p.1 < |blocks[p.0]|
  }

  lemma PickNext(blocks: seq<seq<Elem>>, i: nat, r: nat)
    requires r < |blocks|
    ensures Names(blocks, Column(Lens(blocks), i, r)) && Names(blocks, Column(Lens(blocks), i, r + 1))
    ensures Pick(blocks, Column(Lens(blocks), i, r + 1))
         == Pick(blocks, Column(Lens(blocks), i, r)) + (if i < |blocks[r]| then [blocks[r][i]] else [])
  {
    ColumnMeaning(Lens(blocks), i, r);
    ColumnMeaning(Lens(blocks), i, r + 1);
    if i < |blocks[r]| {
      PickConcat(blocks, Column(Lens(blocks), i, r), [(r, i)]);
    }
  }

  lemma InterleavedNext(blocks: seq<seq<Elem>>, i: nat)
    ensures Names(blocks, Column(Lens(blocks), i, |blocks|))
    ensures Interleaved(blocks, i + 1) == Interleaved(blocks, i) + Pick(blocks, Column(Lens(blocks), i, |blocks|))
  {
    OrderMeaning(Lens(blocks), i);
    ColumnMeaning(Lens(blocks), i, |blocks|);
    PickConcat(blocks, Order(Lens(blocks), i), Column(Lens(blocks), i, |blocks|));
  }

  method AppendColumn(data: seq<Elem>, blocks: seq<seq<Elem>>, i: nat) returns (out: seq<Elem>)
    requires Names(blocks, Column(Lens(blocks), i, |blocks|))
    ensures out == data + Pick(blocks, Column(Lens(blocks), i, |blocks|))
  {
    ghost var lens := Lens(blocks);
    out := data;
    var r := 0;
    while r < |blocks|
      invariant 0 <= r <= |blocks| && Names(blocks, Column(lens, i, r))
      invariant out == data + Pick(blocks, Column(lens, i, r))
    {
      PickNext(blocks, i, r);
      ghost var was := out;
      if i < |blocks[r]| {
        out := out + [blocks[r][i]];
      }
      assert out == was + (if i < |blocks[r]| then [blocks[r][i]] else []);
      r := r + 1;
    }
  }

  /** The nested loops that lay the blocks out; `index` in the source is the
      number of bytes laid so far. */
  method AppendColumns(data: seq<Elem>, blocks: seq<seq<Elem>>, n: nat) returns (out: seq<Elem>)
    ensures out == data + Interleaved(blocks, n)
  {
    out := data;
    var i := 0;
    while i < n
      invariant 0 <= i <= n
      invariant out == data + Interleaved(blocks, i)
    {
      InterleavedNext(blocks, i);
      out := AppendColumn(out, blocks, i);
      i := i + 1;
    }
  }

  /** Longest block. */
  function Longest(lens: seq<nat>, r: nat): nat
    requires r <= |lens|
  {
    if r == 0 then 0 else MaxNat(Longest(lens, r - 1), lens[r - 1])
  }

  function MaxNat(a: nat, b: nat): nat { if a < b then b else a }

  function Sum(lens: seq<nat>, r: nat): nat
    requires r <= |lens|
  {
    if r == 0 then 0 else Sum(lens, r - 1) + lens[r - 1]
  }

  lemma {:induction false} LongestBounds(lens: seq<nat>, r: nat)
    requires r <= |lens|
    ensures forall k :: 0 <= k < r ==> lens[k] <= Longest(lens, r)
  {
    if r > 0 {
      LongestBounds(lens, r - 1);
    }
  }

  lemma {:induction false} AllEntries(lens: seq<nat>, n: nat, r: nat)
    requires r <= |lens| && forall k :: 0 <= k < r ==> lens[k] <= n
    ensures Entries(lens, n, r) == Sum(lens, r)
  {
    if r > 0 {
      AllEntries(lens, n, r - 1);
    }
  }

  /** With as many columns as the longest block has entries, interleaving is a
      rearrangement: each byte of each block has one place and no place is
      left over, so any block can be read back. */
  lemma InterleavingPlacesOnce(blocks: seq<seq<Elem>>)
    ensures var lens := Lens(blocks);
            var n := Longest(lens, |lens|);
            var o := Order(lens, n);
            && |Interleaved(blocks, n)| == |o| == Sum(lens, |lens|)
            && Distinct(o)
            && (forall k :: 0 <= k < |o| ==>
                  && o[k].0 < |blocks| && o[k].1 < |blocks[o[k].0]|
                  && Interleaved(blocks, n)[k] == blocks[o[k].0][o[k].1])
            && (forall r, i :: 0 <= r < |blocks| && 0 <= i < |blocks[r]| ==> (r, i) in o)
  {
    var lens := Lens(blocks);
    var n := Longest(lens, |lens|);
    var o := Order(lens, n);
    OrderMeaning(lens, n);
    OrderSize(lens, n);
    LongestBounds(lens, |lens|);
    AllEntries(lens, n, |lens|);
    forall k | 0 <= k < |o| ensures o[k].0 < |blocks| && o[k].1 < |blocks[o[k].0]| {
      assert o[k] in o;
    }
    forall r, i | 0 <= r < |blocks| && 0 <= i < |blocks[r]| ensures (r, i) in o {
      assert lens[r] == |blocks[r]|;
    }
  }

  // ----------------------------------------------------------- where bytes land

  /** How many of the first r blocks reach column i. */
  function Reaching(lens: seq<nat>, i: nat, r: nat): nat
    requires r <= |lens|
  {
    if r == 0 then 0 else Reaching(lens, i, r - 1) + (if i < lens[r - 1] then 1 else 0)
  }

  /** The place of byte i of block r: behind the first i bytes of every block,
      as far as it has them, and byte i of the blocks before r. */
  function Place(lens: seq<nat>, r: nat, i: nat): nat
    requires r <= |lens|
  {
    Entries(lens, i, |lens|) + Reaching(lens, i, r)
  }

  lemma {:induction false} ColumnPlace(lens: seq<nat>, i: nat, r: nat, n: nat)
    requires r < n <= |lens| && i < lens[r]
    ensures |Column(lens, i, r)| == Reaching(lens, i, r)
    ensures Reaching(lens, i, r) < |Column(lens, i, n)| && Column(lens, i, n)[Reaching(lens, i, r)] == (r, i)
    decreases n
  {
    ColumnLength(lens, i, r);
    if r + 1 < n {
      ColumnPlace(lens, i, r, n - 1);
    }
  }

  lemma {:induction false} ColumnLength(lens: seq<nat>, i: nat, r: nat)
    requires r <= |lens|
    ensures |Column(lens, i, r)| == Reaching(lens, i, r)
  {
    if r > 0 { ColumnLength(lens, i, r - 1); }
  }

  lemma {:induction false} OrderPlace(lens: seq<nat>, n: nat, r: nat, i: nat)
    requires r < |lens| && i < lens[r] && i < n
    ensures Place(lens, r, i) < |Order(lens, n)| && Order(lens, n)[Place(lens, r, i)] == (r, i)
    decreases n
  {
    if i == n - 1 {
      OrderSize(lens, i);
      ColumnPlace(lens, i, r, |lens|);
    } else {
      OrderPlace(lens, n - 1, r, i);
    }
  }

  /** Each byte lands where section 7.6 of ISO/IEC 18004:2015 puts it. */
  lemma InterleavedAt(blocks: seq<seq<Elem>>, r: nat, i: nat)
    requires r < |blocks| && i < |blocks[r]|
    ensures var n := Longest(Lens(blocks), |blocks|);
            Place(Lens(blocks), r, i) < |Interleaved(blocks, n)| && Interleaved(blocks, n)[Place(Lens(blocks), r, i)] == blocks[r][i]
  {
    var lens := Lens(blocks);
    LongestBounds(lens, |lens|);
    assert lens[r] == |blocks[r]|;
    OrderPlace(lens, Longest(lens, |lens|), r, i);
    OrderMeaning(lens, Longest(lens, |lens|));
  }
}
