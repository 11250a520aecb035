/** From data codewords to the final message: the buffer cut into blocks, their
    check bytes, and both interleaved. */
module QrMessage {
  import opened Wrappers
  import opened Sequences
  import opened FieldPolynomials
  import opened Gf256
  import opened QrMath
  import opened QrPolynomial
  import opened QrBlocks

  /** Block r's data codewords; bytes past the buffer read as zero. */
  function DataBlock(buffer: seq<Elem>, offset: nat, count: nat): seq<Elem> {
    seq(count, i requires 0 <= i < count => if offset + i < |buffer| then buffer[offset + i] else 0)
  }

  function OffsetOf(blocks: seq<RsBlock>, r: nat): nat
    requires r <= |blocks| && forall k :: 0 <= k < |blocks| ==> ProperBlock(blocks[k])
  {
    if r == 0 then 0 else OffsetOf(blocks, r - 1) + blocks[r - 1].dataCount
  }

  ghost predicate Proper(blocks: seq<RsBlock>) {
    forall k :: 0 <= k < |blocks| ==> ProperBlock(blocks[k])
  }

  ghost function DataBlocks(buffer: seq<Elem>, blocks: seq<RsBlock>, n: nat): (r: seq<seq<Elem>>)
    requires Proper(blocks) && n <= |blocks|
    ensures |r| == n
  {
    if n == 0 then []
    else
      assert ProperBlock(blocks[n - 1]);
      DataBlocks(buffer, blocks, n - 1) + [DataBlock(buffer, OffsetOf(blocks, n - 1), blocks[n - 1].dataCount)]
  }

  ghost function CheckBlocks(buffer: seq<Elem>, blocks: seq<RsBlock>, n: nat): (r: seq<seq<Elem>>)
    requires Proper(blocks) && n <= |blocks|
    ensures |r| == n
  {
    if n == 0 then []
    else
      assert ProperBlock(blocks[n - 1]);
      CheckBlocks(buffer, blocks, n - 1)
      + [Check(DataBlock(buffer, OffsetOf(blocks, n - 1), blocks[n - 1].dataCount), EcCount(blocks[n - 1]))]
  }

  /** The whole message: all data blocks interleaved, then all check blocks. */
  ghost function FinalMessage(buffer: seq<Elem>, blocks: seq<RsBlock>): seq<Elem>
    requires Proper(blocks)
  {
    var dc, ec := DataBlocks(buffer, blocks, |blocks|), CheckBlocks(buffer, blocks, |blocks|);
    Interleaved(dc, Longest(Lens(dc), |dc|)) + Interleaved(ec, Longest(Lens(ec), |ec|))
  }

  ghost predicate SplitUpTo(buffer: seq<Elem>, blocks: seq<RsBlock>, k: nat, offset: int,
                            dcdata: seq<seq<Elem>>, ecdata: seq<seq<Elem>>, maxDc: nat, maxEc: nat)
    requires Proper(blocks)
  {
    && k <= |blocks| && offset == OffsetOf(blocks, k)
    && dcdata == DataBlocks(buffer, blocks, k) && ecdata == CheckBlocks(buffer, blocks, k)
    && maxDc == Longest(Lens(dcdata), k) && maxEc == Longest(Lens(ecdata), k)
  }

  lemma SplitNext(buffer: seq<Elem>, blocks: seq<RsBlock>, k: nat, offset: int,
                  dcdata: seq<seq<Elem>>, ecdata: seq<seq<Elem>>, maxDc: nat, maxEc: nat, dc: seq<Elem>, ec: seq<Elem>)
    requires Proper(blocks) && k < |blocks| && ProperBlock(blocks[k])
    requires SplitUpTo(buffer, blocks, k, offset, dcdata, ecdata, maxDc, maxEc)
    requires dc == DataBlock(buffer, OffsetOf(blocks, k), blocks[k].dataCount) && ec == Check(dc, EcCount(blocks[k]))
    ensures SplitUpTo(buffer, blocks, k + 1, offset + blocks[k].dataCount, dcdata + [dc], ecdata + [ec],
                      MaxNat(maxDc, |dc|), MaxNat(maxEc, |ec|))
  {
    LongestAppend(dcdata, dc);
    LongestAppend(ecdata, ec);
  }

  /** The loop over the blocks: cut out the data, compute its check bytes,
      and keep track of the longest of each. */
  method SplitBlocks(math: Tables, buffer: seq<Elem>, blocks: seq<RsBlock>)
    returns (dcdata: seq<seq<Elem>>, ecdata: seq<seq<Elem>>, maxDc: nat, maxEc: nat)
    requires math.Valid() && Proper(blocks)
    ensures dcdata == DataBlocks(buffer, blocks, |blocks|) && ecdata == CheckBlocks(buffer, blocks, |blocks|)
    ensures maxDc == Longest(Lens(dcdata), |blocks|) && maxEc == Longest(Lens(ecdata), |blocks|)
  {
    var offset := 0;
    dcdata, ecdata, maxDc, maxEc := [], [], 0, 0;
    var k := 0;
    while k < |blocks|
      invariant 0 <= k <= |blocks|
      invariant SplitUpTo(buffer, blocks, k, offset, dcdata, ecdata, maxDc, maxEc)
    {
      assert ProperBlock(blocks[k]);
      var dcCount := blocks[k].dataCount;
      var ecCount := blocks[k].totalCount - dcCount;
      var dc := DataBlock(buffer, offset, dcCount);
      var ec := ErrorCorrect(math, dc, ecCount);
      SplitNext(buffer, blocks, k, offset, dcdata, ecdata, maxDc, maxEc, dc, ec.value);
      maxDc, maxEc := MaxNat(maxDc, dcCount), MaxNat(maxEc, ecCount);
      dcdata, ecdata := dcdata + [dc], ecdata + [ec.value];
      offset := offset + dcCount;
      k := k + 1;
    }
  }

  lemma LongestAppend(blocks: seq<seq<Elem>>, b: seq<Elem>)
    ensures Longest(Lens(blocks + [b]), |blocks| + 1) == MaxNat(Longest(Lens(blocks), |blocks|), |b|)
  {
    LongestSame(Lens(blocks), Lens(blocks + [b]), |blocks|);
  }

  lemma {:induction false} LongestSame(a: seq<nat>, b: seq<nat>, r: nat)
    requires r <= |a| && r <= |b| && a[..r] == b[..r]
    ensures Longest(a, r) == Longest(b, r)
  {
    if r > 0 {
      assert a[..r][..r - 1] == a[..r - 1] && b[..r][..r - 1] == b[..r - 1];
      assert a[..r][r - 1] == a[r - 1] && b[..r][r - 1] == b[r - 1];
      LongestSame(a, b, r - 1);
    }
  }

  /** The final message has exactly the announced number of codewords. */
  lemma MessageLength(buffer: seq<Elem>, blocks: seq<RsBlock>)
    requires Proper(blocks)
    ensures |FinalMessage(buffer, blocks)| == TotalCount(blocks, |blocks|)
  {
    var dc, ec := DataBlocks(buffer, blocks, |blocks|), CheckBlocks(buffer, blocks, |blocks|);
    InterleavingPlacesOnce(dc);
    InterleavingPlacesOnce(ec);
    BlockLens(buffer, blocks, |blocks|);
    SumTotal(blocks, Lens(dc), Lens(ec), |blocks|);
  }

  lemma {:induction false} BlockLens(buffer: seq<Elem>, blocks: seq<RsBlock>, n: nat)
    requires Proper(blocks) && n <= |blocks|
    ensures forall k :: 0 <= k < n ==>
              |DataBlocks(buffer, blocks, n)[k]| + |CheckBlocks(buffer, blocks, n)[k]| == blocks[k].totalCount
  {
    if n > 0 {
      BlockLens(buffer, blocks, n - 1);
      assert ProperBlock(blocks[n - 1]);
    }
  }

  function TotalCount(blocks: seq<RsBlock>, r: nat): int
    requires r <= |blocks|
  {
    if r == 0 then 0 else TotalCount(blocks, r - 1) + blocks[r - 1].totalCount
  }

  lemma {:induction false} SumTotal(blocks: seq<RsBlock>, dc: seq<nat>, ec: seq<nat>, r: nat)
    requires |dc| == |ec| == |blocks| && r <= |blocks|
    requires forall k :: 0 <= k < |blocks| ==> dc[k] + ec[k] == blocks[k].totalCount
    ensures Sum(dc, r) + Sum(ec, r) == TotalCount(blocks, r)
  {
    if r > 0 {
      SumTotal(blocks, dc, ec, r - 1);
    }
  }

  // ------------------------------------------------------- what stands where

  function DataLens(blocks: seq<RsBlock>): seq<nat>
    requires Proper(blocks)
  {
    seq(|blocks|, k requires 0 <= k < |blocks| => assert ProperBlock(blocks[k]); blocks[k].dataCount)
  }

  function CheckLens(blocks: seq<RsBlock>): seq<nat>
    requires Proper(blocks)
  {
    seq(|blocks|, k requires 0 <= k < |blocks| => assert ProperBlock(blocks[k]); EcCount(blocks[k]))
  }

  /** Data codeword i of block r: the buffer is cut into blocks one after the
      other, and reads as zero past its end. */
  function DataByte(buffer: seq<Elem>, blocks: seq<RsBlock>, r: nat, i: nat): Elem
    requires Proper(blocks) && r <= |blocks|
  {
    var at := Sum(DataLens(blocks), r) + i;
    if at < |buffer| then buffer[at] else 0
  }

  /** All data codewords of block r. */
  function DataOf(buffer: seq<Elem>, blocks: seq<RsBlock>, r: nat): (d: seq<Elem>)
    requires Proper(blocks) && r < |blocks|
    ensures |d| == blocks[r].dataCount
  {
    assert ProperBlock(blocks[r]);
    seq(blocks[r].dataCount, i requires 0 <= i < blocks[r].dataCount => DataByte(buffer, blocks, r, i))
  }

  /** The check codewords of block r, for its own data codewords. */
  ghost function CheckOf(buffer: seq<Elem>, blocks: seq<RsBlock>, r: nat): (c: seq<Elem>)
    requires Proper(blocks) && r < |blocks|
    ensures |c| == blocks[r].totalCount - blocks[r].dataCount
  {
    assert ProperBlock(blocks[r]);
    Check(DataOf(buffer, blocks, r), blocks[r].totalCount - blocks[r].dataCount)
  }

  ghost predicate DataFirst(buffer: seq<Elem>, blocks: seq<RsBlock>, front: seq<Elem>)
    requires Proper(blocks)
  {
    && |front| == Sum(DataLens(blocks), |blocks|)
    && forall r: nat, i: nat :: r < |blocks| && i < blocks[r].dataCount ==>
         var at := Place(DataLens(blocks), r, i); at < |front| && front[at] == DataByte(buffer, blocks, r, i)
  }

  ghost predicate CheckBehind(buffer: seq<Elem>, blocks: seq<RsBlock>, back: seq<Elem>)
    requires Proper(blocks)
  {
    && |back| == Sum(CheckLens(blocks), |blocks|)
    && forall r: nat, i: nat :: r < |blocks| && i < blocks[r].totalCount - blocks[r].dataCount ==>
         var at := Place(CheckLens(blocks), r, i); at < |back| && back[at] == CheckOf(buffer, blocks, r)[i]
  }

  /** The codewords of a message: in front all data codewords, behind them all
      check codewords, each part interleaved. */
  ghost predicate WellPlaced(buffer: seq<Elem>, blocks: seq<RsBlock>, data: seq<Elem>)
    requires Proper(blocks)
  {
    var front := Sum(DataLens(blocks), |blocks|);
    front <= |data| && DataFirst(buffer, blocks, data[..front]) && CheckBehind(buffer, blocks, data[front..])
  }

  lemma {:induction false} OffsetIsSum(blocks: seq<RsBlock>, r: nat)
    requires Proper(blocks) && r <= |blocks|
    ensures OffsetOf(blocks, r) == Sum(DataLens(blocks), r)
  {
    if r > 0 {
      OffsetIsSum(blocks, r - 1);
    }
  }

  lemma {:induction false} BlocksAre(buffer: seq<Elem>, blocks: seq<RsBlock>, n: nat, r: nat)
    requires Proper(blocks) && r < n <= |blocks|
    ensures DataBlocks(buffer, blocks, n)[r] == DataOf(buffer, blocks, r)
    ensures CheckBlocks(buffer, blocks, n)[r] == CheckOf(buffer, blocks, r)
    decreases n
  {
    assert ProperBlock(blocks[r]);
    if r + 1 < n {
      BlocksAre(buffer, blocks, n - 1, r);
    } else {
      OffsetIsSum(blocks, r);
      assert DataBlock(buffer, OffsetOf(blocks, r), blocks[r].dataCount) == DataOf(buffer, blocks, r);
    }
  }

  lemma LensAre(buffer: seq<Elem>, blocks: seq<RsBlock>)
    requires Proper(blocks)
    ensures Lens(DataBlocks(buffer, blocks, |blocks|)) == DataLens(blocks)
    ensures Lens(CheckBlocks(buffer, blocks, |blocks|)) == CheckLens(blocks)
  {
    forall r | 0 <= r < |blocks|
      ensures |DataBlocks(buffer, blocks, |blocks|)[r]| == DataLens(blocks)[r]
      ensures |CheckBlocks(buffer, blocks, |blocks|)[r]| == CheckLens(blocks)[r]
    {
      BlocksAre(buffer, blocks, |blocks|, r);
    }
  }

  lemma DataPlaced(buffer: seq<Elem>, blocks: seq<RsBlock>, d: seq<seq<Elem>>, front: seq<Elem>)
    requires Proper(blocks) && d == DataBlocks(buffer, blocks, |blocks|) && Lens(d) == DataLens(blocks)
    requires front == Interleaved(d, Longest(Lens(d), |d|)) && |front| == Sum(DataLens(blocks), |blocks|)
    ensures DataFirst(buffer, blocks, front)
  {
    forall r: nat, i: nat | r < |blocks| && i < blocks[r].dataCount
      ensures var at := Place(DataLens(blocks), r, i); at < |front| && front[at] == DataByte(buffer, blocks, r, i)
    {
      BlocksAre(buffer, blocks, |blocks|, r);
      InterleavedAt(d, r, i);
    }
  }

  lemma ChecksPlaced(buffer: seq<Elem>, blocks: seq<RsBlock>, c: seq<seq<Elem>>, back: seq<Elem>)
    requires Proper(blocks) && c == CheckBlocks(buffer, blocks, |blocks|) && Lens(c) == CheckLens(blocks)
    requires back == Interleaved(c, Longest(Lens(c), |c|)) && |back| == Sum(CheckLens(blocks), |blocks|)
    ensures CheckBehind(buffer, blocks, back)
  {
    forall r: nat, i: nat | r < |blocks| && i < blocks[r].totalCount - blocks[r].dataCount
      ensures var at := Place(CheckLens(blocks), r, i); at < |back| && back[at] == CheckOf(buffer, blocks, r)[i]
    {
      BlocksAre(buffer, blocks, |blocks|, r);
      InterleavedAt(c, r, i);
    }
  }

  lemma FinalIsWellPlaced(buffer: seq<Elem>, blocks: seq<RsBlock>)
    requires Proper(blocks)
    ensures WellPlaced(buffer, blocks, FinalMessage(buffer, blocks))
  {
    var d, c := DataBlocks(buffer, blocks, |blocks|), CheckBlocks(buffer, blocks, |blocks|);
    var front, back := Interleaved(d, Longest(Lens(d), |d|)), Interleaved(c, Longest(Lens(c), |c|));
    LensAre(buffer, blocks);
    InterleavingPlacesOnce(d);
    InterleavingPlacesOnce(c);
    DataPlaced(buffer, blocks, d, front);
    ChecksPlaced(buffer, blocks, c, back);
    Halves(front, back);
  }

  lemma Halves(front: seq<Elem>, back: seq<Elem>)
    ensures (front + back)[..|front|] == front && (front + back)[|front|..] == back
  {}

  lemma MessageIs(buffer: seq<Elem>, blocks: seq<RsBlock>, data: seq<Elem>)
    requires Proper(blocks) && data == FinalMessage(buffer, blocks)
    ensures |data| == TotalCount(blocks, |blocks|) && WellPlaced(buffer, blocks, data)
  {
    FinalIsWellPlaced(buffer, blocks);
    MessageLength(buffer, blocks);
  }

  lemma StartEmpty(front: seq<Elem>, back: seq<Elem>)
    ensures [] + front + back == front + back
  {}

  method CreateBytes(math: Tables, buffer: seq<Elem>, blocks: seq<RsBlock>) returns (data: seq<Elem>)
    requires math.Valid() && Proper(blocks)
    ensures data == FinalMessage(buffer, blocks)
    ensures |data| == TotalCount(blocks, |blocks|) && WellPlaced(buffer, blocks, data)
  {
    var dcdata, ecdata, maxDc, maxEc := SplitBlocks(math, buffer, blocks);
    data := AppendColumns([], dcdata, maxDc);
    data := AppendColumns(data, ecdata, maxEc);
    StartEmpty(Interleaved(dcdata, maxDc), Interleaved(ecdata, maxEc));
    MessageIs(buffer, blocks, data);
  }

  lemma SingleFront(buffer: seq<Elem>, blocks: seq<RsBlock>, front: seq<Elem>)
    requires Proper(blocks) && |blocks| == 1 && ProperBlock(blocks[0]) && DataFirst(buffer, blocks, front)
    ensures front == DataOf(buffer, blocks, 0)
  {
    var dc := DataLens(blocks);
    assert Sum(dc, 1) == Sum(dc, 0) + dc[0];
    forall i: nat | i < blocks[0].dataCount ensures front[i] == DataByte(buffer, blocks, 0, i) {
      OneBlockPlace(dc, i);
      assert Place(dc, 0, i) == i;
    }
  }

  lemma SingleBack(buffer: seq<Elem>, blocks: seq<RsBlock>, back: seq<Elem>)
    requires Proper(blocks) && |blocks| == 1 && ProperBlock(blocks[0]) && CheckBehind(buffer, blocks, back)
    ensures back == CheckOf(buffer, blocks, 0)
  {
    var ec := CheckLens(blocks);
    assert Sum(ec, 1) == Sum(ec, 0) + ec[0];
    forall i: nat | i < blocks[0].totalCount - blocks[0].dataCount ensures back[i] == CheckOf(buffer, blocks, 0)[i] {
      OneBlockPlace(ec, i);
      assert Place(ec, 0, i) == i;
    }
  }

  lemma SingleParts(buffer: seq<Elem>, blocks: seq<RsBlock>, data: seq<Elem>)
    requires Proper(blocks) && |blocks| == 1 && WellPlaced(buffer, blocks, data)
    ensures data == DataOf(buffer, blocks, 0) + CheckOf(buffer, blocks, 0)
  {
    assert ProperBlock(blocks[0]);
    var front := Sum(DataLens(blocks), |blocks|);
    var d, c := data[..front], data[front..];
    assert data == d + c;
    assert DataFirst(buffer, blocks, d) && CheckBehind(buffer, blocks, c);
    SinglePartsAre(buffer, blocks, d, c);
  }

  lemma SinglePartsAre(buffer: seq<Elem>, blocks: seq<RsBlock>, d: seq<Elem>, c: seq<Elem>)
    requires Proper(blocks) && |blocks| == 1 && ProperBlock(blocks[0])
    requires DataFirst(buffer, blocks, d) && CheckBehind(buffer, blocks, c)
    ensures d == DataOf(buffer, blocks, 0) && c == CheckOf(buffer, blocks, 0)
  {
    SingleFront(buffer, blocks, d);
    SingleBack(buffer, blocks, c);
  }

  lemma SingleData(buffer: seq<Elem>, blocks: seq<RsBlock>)
    requires Proper(blocks) && |blocks| == 1
    ensures forall i :: 0 <= i < blocks[0].dataCount ==>
              DataOf(buffer, blocks, 0)[i] == if i < |buffer| then buffer[i] else 0
  {
    assert Sum(DataLens(blocks), 0) == 0;
  }

  /** With a single block the message is the buffer, filled up with zeros, and
      the check bytes behind it, and so vanishes at each root of the generator. */
  lemma SingleBlock(buffer: seq<Elem>, blocks: seq<RsBlock>, data: seq<Elem>)
    requires Proper(blocks) && |blocks| == 1 && WellPlaced(buffer, blocks, data)
    ensures |data| == blocks[0].totalCount >= blocks[0].dataCount >= 0
    ensures forall i :: 0 <= i < blocks[0].dataCount ==> data[i] == if i < |buffer| then buffer[i] else 0
    ensures forall i :: 0 <= i < blocks[0].totalCount - blocks[0].dataCount ==> Eval(GF, data, Exp(i)) == 0
  {
    assert ProperBlock(blocks[0]);
    SingleParts(buffer, blocks, data);
    SingleData(buffer, blocks);
    Vanishes(data, DataOf(buffer, blocks, 0), blocks[0].totalCount - blocks[0].dataCount);
  }

  lemma Vanishes(data: seq<Elem>, d: seq<Elem>, ec: nat)
    requires data == d + Check(d, ec)
    ensures forall i :: 0 <= i < ec ==> Eval(GF, data, Exp(i)) == 0
  {
    forall i: nat | i < ec ensures Eval(GF, data, Exp(i)) == 0 {
      CodewordVanishes(d, ec, i);
    }
  }

  lemma OneBlockPlace(lens: seq<nat>, i: nat)
    requires |lens| == 1 && i < lens[0]
    ensures Place(lens, 0, i) == i
  {
    assert Entries(lens, i, 1) == Entries(lens, i, 0) + MinNat(i, lens[0]);
  }
}
