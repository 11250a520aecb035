/** The received-byte intervals of an upload session: half-open ranges kept
    sorted and coalesced.  `AddRange` and `RemoveRange` are the functions that
    the session's mutating methods are proved against; here they are shown to
    refine set union and set difference on a normal form that is unique. */
module Ranges {

  datatype Range = Range(lo: int, hi: int)

  /** Byte x is accounted for by some interval of the list. */
  ghost predicate Covers(rs: seq<Range>, x: int) {
    exists k :: 0 <= k < |rs| && rs[k].lo <= x < rs[k].hi
  }

  ghost predicate CoversAll(rs: seq<Range>, s: int, e: int) {
    forall x :: s <= x < e ==> Covers(rs, x)
  }

  ghost predicate SameCover(a: seq<Range>, b: seq<Range>) {
    forall x :: Covers(a, x) <==> Covers(b, x)
  }

  ghost predicate NonEmpty(rs: seq<Range>) {
    forall k :: 0 <= k < |rs| ==> rs[k].lo < rs[k].hi
  }

  /** Sorted, non-empty, and no two intervals overlap or touch. */
  ghost predicate Normal(rs: seq<Range>) {
    && NonEmpty(rs)
    && forall i, j :: 0 <= i < j < |rs| ==> rs[i].hi < rs[j].lo
  }

  ghost predicate Within(rs: seq<Range>, size: int) {
    forall k :: 0 <= k < |rs| ==> 0 <= rs[k].lo && rs[k].hi <= size
  }

  // ---------------------------------------------------------------- sorting

  predicate LexLeq(a: Range, b: Range) {
    if a.lo != b.lo then a.lo < b.lo else a.hi <= b.hi
  }

  ghost predicate Sorted(rs: seq<Range>) {
    forall i, j :: 0 <= i < j < |rs| ==> LexLeq(rs[i], rs[j])
  }

  function Insert(r: Range, rs: seq<Range>): seq<Range> {
    if rs == [] then [r]
    else if LexLeq(r, rs[0]) then [r] + rs
    else [rs[0]] + Insert(r, rs[1..])
  }

  /** The order `sort.Slice` produces: by start, then by end. */
  function SortRanges(rs: seq<Range>): seq<Range> {
    if rs == [] then [] else Insert(rs[|rs| - 1], SortRanges(rs[..|rs| - 1]))
  }

  lemma {:induction false} InsertProps(r: Range, rs: seq<Range>)
    requires Sorted(rs)
    ensures Sorted(Insert(r, rs))
    ensures multiset(Insert(r, rs)) == multiset(rs) + multiset{r}
  {
    if rs == [] {
    } else if LexLeq(r, rs[0]) {
      SortedFront(r, rs);
    } else {
      InsertProps(r, rs[1..]);
      var t := Insert(r, rs[1..]);
      assert rs == [rs[0]] + rs[1..];
      forall k | 0 <= k < |t| ensures LexLeq(rs[0], t[k]) {
        assert t[k] in multiset(t);
        assert t[k] in multiset(rs[1..]) || t[k] == r;
      }
      SortedFront(rs[0], t);
    }
  }

  lemma SortedFront(r: Range, t: seq<Range>)
    requires Sorted(t) && (t == [] || LexLeq(r, t[0]) || forall k :: 0 <= k < |t| ==> LexLeq(r, t[k]))
    ensures Sorted([r] + t)
  {
    forall k | 0 <= k < |t| ensures LexLeq(r, t[k]) {
      if k > 0 { assert LexLeq(t[0], t[k]); }
    }
  }

  lemma {:induction false} SortProps(rs: seq<Range>)
    ensures Sorted(SortRanges(rs))
    ensures multiset(SortRanges(rs)) == multiset(rs)
  {
    if rs != [] {
      SortProps(rs[..|rs| - 1]);
      InsertProps(rs[|rs| - 1], SortRanges(rs[..|rs| - 1]));
      assert rs == rs[..|rs| - 1] + [rs[|rs| - 1]];
    }
  }

  lemma SameElements(a: seq<Range>, b: seq<Range>)
    requires multiset(a) == multiset(b)
    ensures NonEmpty(a) ==> NonEmpty(b)
    ensures SameCover(a, b)
  {
    assert forall r :: r in a <==> r in multiset(a);
    assert forall r :: r in b <==> r in multiset(b);
    forall k | 0 <= k < |b| ensures exists j :: 0 <= j < |a| && a[j] == b[k] {
      assert b[k] in a;
    }
    forall x | Covers(a, x) ensures Covers(b, x) {
      var k :| 0 <= k < |a| && a[k].lo <= x < a[k].hi;
      assert a[k] in b;
      var j :| 0 <= j < |b| && b[j] == a[k];
    }
    forall x | Covers(b, x) ensures Covers(a, x) {
      var k :| 0 <= k < |b| && b[k].lo <= x < b[k].hi;
      assert b[k] in a;
      var j :| 0 <= j < |a| && a[j] == b[k];
    }
  }

  // ------------------------------------------------------------- coalescing

  function Max(a: int, b: int): int { if a < b then b else a }

  /** Feed a sorted list into the merged prefix, extending its last interval
      whenever the next one overlaps or touches it. */
  function Coalesce(acc: seq<Range>, rest: seq<Range>): seq<Range>
    decreases |rest|
  {
    if rest == [] then acc
    else
      var r := rest[0];
      if |acc| > 0 && r.lo <= acc[|acc| - 1].hi then
        var last := acc[|acc| - 1];
        Coalesce(acc[|acc| - 1 := Range(last.lo, Max(last.hi, r.hi))], rest[1..])
      else
        Coalesce(acc + [r], rest[1..])
  }

  lemma {:induction false} CoalesceProps(acc: seq<Range>, rest: seq<Range>)
    requires Normal(acc) && NonEmpty(rest) && Sorted(rest)
    requires |acc| > 0 ==> forall k :: 0 <= k < |rest| ==> acc[|acc| - 1].lo <= rest[k].lo
    ensures Normal(Coalesce(acc, rest))
    ensures forall x :: Covers(Coalesce(acc, rest), x) <==> Covers(acc, x) || Covers(rest, x)
    decreases |rest|
  {
    if rest != [] {
      var r := rest[0];
      if |acc| > 0 && r.lo <= acc[|acc| - 1].hi {
        var last := acc[|acc| - 1];
        var acc' := acc[|acc| - 1 := Range(last.lo, Max(last.hi, r.hi))];
        CoalesceProps(acc', rest[1..]);
        forall x ensures Covers(acc', x) <==> Covers(acc, x) || r.lo <= x < r.hi {
          ExtendLastCover(acc, r, x);
        }
        SplitFirstCover(rest);
      } else {
        CoalesceProps(acc + [r], rest[1..]);
        AppendCover(acc, [r]);
        AppendCover([r], rest[1..]);
        assert rest == [r] + rest[1..];
      }
    }
  }

  lemma ExtendLastCover(acc: seq<Range>, r: Range, x: int)
    requires |acc| > 0
    requires acc[|acc| - 1].lo <= r.lo <= acc[|acc| - 1].hi
    ensures
      var last := acc[|acc| - 1];
      Covers(acc[|acc| - 1 := Range(last.lo, Max(last.hi, r.hi))], x) <==> Covers(acc, x) || r.lo <= x < r.hi
  {
    var n := |acc| - 1;
    var last := acc[n];
    var acc' := acc[n := Range(last.lo, Max(last.hi, r.hi))];
    if Covers(acc, x) {
      var k :| 0 <= k < |acc| && acc[k].lo <= x < acc[k].hi;
      assert acc'[k].lo <= x < acc'[k].hi;
    }
    if r.lo <= x < r.hi {
      assert acc'[n].lo <= x < acc'[n].hi;
    }
    if Covers(acc', x) {
      var k :| 0 <= k < |acc'| && acc'[k].lo <= x < acc'[k].hi;
      assert k != n ==> acc[k].lo <= x < acc[k].hi;
      assert k == n ==> acc[n].lo <= x < acc[n].hi || r.lo <= x < r.hi;
    }
  }

  lemma AppendCover(a: seq<Range>, b: seq<Range>)
    ensures forall x :: Covers(a + b, x) <==> Covers(a, x) || Covers(b, x)
  {
    forall x | Covers(a, x) ensures Covers(a + b, x) {
      var k :| 0 <= k < |a| && a[k].lo <= x < a[k].hi;
      assert (a + b)[k] == a[k];
    }
    forall x | Covers(b, x) ensures Covers(a + b, x) {
      var k :| 0 <= k < |b| && b[k].lo <= x < b[k].hi;
      assert (a + b)[|a| + k] == b[k];
    }
    forall x | Covers(a + b, x) ensures Covers(a, x) || Covers(b, x) {
      var k :| 0 <= k < |a + b| && (a + b)[k].lo <= x < (a + b)[k].hi;
      if k >= |a| { assert b[k - |a|] == (a + b)[k]; }
    }
  }

  lemma SplitFirstCover(rs: seq<Range>)
    requires rs != []
    ensures forall x :: Covers(rs, x) <==> rs[0].lo <= x < rs[0].hi || Covers(rs[1..], x)
  {
    AppendCover([rs[0]], rs[1..]);
    assert rs == [rs[0]] + rs[1..];
    forall x ensures Covers([rs[0]], x) <==> rs[0].lo <= x < rs[0].hi {
      if rs[0].lo <= x < rs[0].hi { assert [rs[0]][0].lo <= x < [rs[0]][0].hi; }
    }
  }

  // ---------------------------------------------------------- add / remove

  /** The interval that actually gets inserted, after clamping to the session. */
  function ClampLo(s: int): int { if s < 0 then 0 else s }
  function ClampHi(size: int, e: int): int { if size > 0 && e > size then size else e }

  /** Spans that are dropped without touching the list. */
  predicate Skipped(size: int, s: int, e: int) {
    e <= s || (size > 0 && ClampLo(s) > size)
  }

  function AddRange(rs: seq<Range>, size: int, s: int, e: int): seq<Range> {
    if Skipped(size, s, e) then rs
    else Coalesce([], SortRanges(rs + [Range(ClampLo(s), ClampHi(size, e))]))
  }

  predicate RangeCover(rs: seq<Range>, s: int, e: int) {
    exists k | 0 <= k < |rs| :: rs[k].lo <= s && e <= rs[k].hi
  }

  /** What is left of one interval after cutting [s, e) out of it. */
  function Cut(r: Range, s: int, e: int): seq<Range> {
    if r.hi <= s || e <= r.lo then [r]
    else (if r.lo < s then [Range(r.lo, s)] else []) + (if e < r.hi then [Range(e, r.hi)] else [])
  }

  function RemoveRange(rs: seq<Range>, s: int, e: int): seq<Range> {
    if rs == [] then []
    else RemoveRange(rs[..|rs| - 1], s, e) + Cut(rs[|rs| - 1], s, e)
  }

  function ReceivedBytes(rs: seq<Range>): int {
    if rs == [] then 0
    else
      var r := rs[|rs| - 1];
      ReceivedBytes(rs[..|rs| - 1]) + (if r.hi > r.lo then r.hi - r.lo else 0)
  }

  // ------------------------------------------------------------- properties

  /** rangeAdd is set union, and rebuilds the normal form from any list of
      non-empty intervals. */
  lemma AddRangeIsUnion(rs: seq<Range>, size: int, s: int, e: int)
    requires NonEmpty(rs)
    requires ClampLo(s) < ClampHi(size, e)
    ensures Normal(AddRange(rs, size, s, e))
    ensures forall x :: Covers(AddRange(rs, size, s, e), x)
                   <==> Covers(rs, x) || ClampLo(s) <= x < ClampHi(size, e)
  {
    var r := Range(ClampLo(s), ClampHi(size, e));
    var all := rs + [r];
    SortProps(all);
    SameElements(all, SortRanges(all));
    CoalesceProps([], SortRanges(all));
    AppendCover(rs, [r]);
    forall x ensures Covers([r], x) <==> r.lo <= x < r.hi {
      if r.lo <= x < r.hi { assert [r][0].lo <= x < [r][0].hi; }
    }
  }

  lemma {:induction false} NormalFormUnique(a: seq<Range>, b: seq<Range>)
    requires Normal(a) && Normal(b) && SameCover(a, b)
    ensures a == b
  {
    assert a != [] ==> Covers(a, a[0].lo);
    assert b != [] ==> Covers(b, b[0].lo);
    if a != [] && b != [] {
      FirstAgrees(a, b);
      FirstAgrees(b, a);
      RestAgrees(a, b);
      NormalFormUnique(a[1..], b[1..]);
      assert a == [a[0]] + a[1..] && b == [b[0]] + b[1..];
    }
  }

  /** The first interval ends before whatever else is covered. */
  lemma FirstStops(a: seq<Range>)
    requires Normal(a) && a != []
    ensures !Covers(a, a[0].hi)
    ensures forall x :: Covers(a[1..], x) ==> x > a[0].hi
  {
    forall x | Covers(a[1..], x) ensures x > a[0].hi {
      var k :| 0 <= k < |a[1..]| && a[1..][k].lo <= x < a[1..][k].hi;
      assert a[1..][k] == a[k + 1];
    }
  }

  lemma RestAgrees(a: seq<Range>, b: seq<Range>)
    requires Normal(a) && Normal(b) && SameCover(a, b) && a != [] && b != [] && a[0] == b[0]
    ensures SameCover(a[1..], b[1..])
  {
    FirstStops(a);
    FirstStops(b);
    SplitFirstCover(a);
    SplitFirstCover(b);
    forall x ensures Covers(a[1..], x) <==> Covers(b[1..], x) {
      assert Covers(a, x) <==> Covers(b, x);
    }
  }

  lemma FirstAgrees(a: seq<Range>, b: seq<Range>)
    requires Normal(a) && Normal(b) && SameCover(a, b) && a != [] && b != []
    ensures a[0].lo <= b[0].lo && (a[0].lo == b[0].lo ==> a[0].hi >= b[0].hi)
  {
    assert Covers(b, b[0].lo);
    assert Covers(a, b[0].lo);
    assert b[0].lo <= a[0].hi < b[0].hi ==> Covers(b, a[0].hi);
    FirstStops(a);
  }

  /** On the normal form a span lies inside one interval exactly when each of
      its bytes is covered. */
  lemma {:induction false} RangeCoverIff(rs: seq<Range>, s: int, e: int)
    requires Normal(rs) && s < e
    ensures RangeCover(rs, s, e) <==> CoversAll(rs, s, e)
    decreases e - s
  {
    if CoversAll(rs, s, e) {
      assert Covers(rs, e - 1);
      var j :| 0 <= j < |rs| && rs[j].lo <= e - 1 < rs[j].hi;
      if s + 1 < e {
        assert CoversAll(rs, s, e - 1);
        RangeCoverIff(rs, s, e - 1);
        var k :| 0 <= k < |rs| && rs[k].lo <= s && e - 1 <= rs[k].hi;
        assert Covers(rs, e - 2);
      }
    }
  }

  /** rangeRemove is set difference, and keeps the normal form. */
  lemma RemoveRangeIsDifference(rs: seq<Range>, s: int, e: int)
    requires Normal(rs) && s < e
    ensures Normal(RemoveRange(rs, s, e))
    ensures forall x :: Covers(RemoveRange(rs, s, e), x) <==> Covers(rs, x) && !(s <= x < e)
  {
    RemoveKeepsNormal(rs, s, e);
    forall x ensures Covers(RemoveRange(rs, s, e), x) <==> Covers(rs, x) && !(s <= x < e) {
      RemoveCover(rs, s, e, x);
    }
  }

  lemma {:induction false} RemoveKeepsNormal(rs: seq<Range>, s: int, e: int)
    requires Normal(rs) && s < e
    ensures Normal(RemoveRange(rs, s, e))
    ensures rs != [] ==> forall k :: 0 <= k < |RemoveRange(rs, s, e)| ==> RemoveRange(rs, s, e)[k].hi <= rs[|rs| - 1].hi
  {
    if rs != [] {
      var n := |rs| - 1;
      var head, r := rs[..n], rs[n];
      RemoveKeepsNormal(head, s, e);
      var h, c := RemoveRange(head, s, e), Cut(r, s, e);
      forall k | 0 <= k < |h| ensures h[k].hi < r.lo {
        assert head[n - 1].hi < r.lo;
      }
      forall k | 0 <= k < |c| ensures r.lo <= c[k].lo && c[k].hi <= r.hi {}
      ConcatNormal(h, c, r.lo);
    }
  }

  lemma ConcatNormal(a: seq<Range>, b: seq<Range>, m: int)
    requires Normal(a) && Normal(b)
    requires forall k :: 0 <= k < |a| ==> a[k].hi < m
    requires forall k :: 0 <= k < |b| ==> m <= b[k].lo
    ensures Normal(a + b)
  {}

  lemma {:induction false} RemoveCover(rs: seq<Range>, s: int, e: int, x: int)
    requires NonEmpty(rs) && s < e
    ensures Covers(RemoveRange(rs, s, e), x) <==> Covers(rs, x) && !(s <= x < e)
  {
    if rs != [] {
      var n := |rs| - 1;
      RemoveCover(rs[..n], s, e, x);
      AppendCover(RemoveRange(rs[..n], s, e), Cut(rs[n], s, e));
      CutCover(rs[n], s, e, x);
      AppendCover(rs[..n], [rs[n]]);
      assert rs == rs[..n] + [rs[n]];
    }
  }

  lemma CutCover(r: Range, s: int, e: int, x: int)
    requires r.lo < r.hi && s < e
    ensures Covers(Cut(r, s, e), x) <==> Covers([r], x) && !(s <= x < e)
  {
    var c := Cut(r, s, e);
    if Covers([r], x) && !(s <= x < e) {
      assert [r][0].lo <= x < [r][0].hi;
      if |c| == 1 {
        assert c[0].lo <= x < c[0].hi;
      } else {
        assert c[0].lo <= x < c[0].hi || c[1].lo <= x < c[1].hi;
      }
    }
    if Covers(c, x) { assert [r][0].lo <= x < [r][0].hi; }
  }

  /** An empty or inverted cut spoils the normal form exactly when it falls
      strictly inside some interval. */
  lemma RemoveRangeNormalIff(rs: seq<Range>, s: int, e: int)
    requires Normal(rs)
    ensures Normal(RemoveRange(rs, s, e)) <==>
            s < e || forall k :: 0 <= k < |rs| ==> rs[k].hi <= s || e <= rs[k].lo
  {
    if s < e {
      RemoveRangeIsDifference(rs, s, e);
    } else if forall k :: 0 <= k < |rs| ==> rs[k].hi <= s || e <= rs[k].lo {
      RemoveMisses(rs, s, e);
    } else {
      var k :| 0 <= k < |rs| && !(rs[k].hi <= s || e <= rs[k].lo);
      RemoveSplits(rs, s, e, k);
    }
  }

  lemma {:induction false} RemoveMisses(rs: seq<Range>, s: int, e: int)
    requires forall k :: 0 <= k < |rs| ==> rs[k].hi <= s || e <= rs[k].lo
    ensures RemoveRange(rs, s, e) == rs
  {
    if rs != [] {
      RemoveMisses(rs[..|rs| - 1], s, e);
      assert rs == rs[..|rs| - 1] + [rs[|rs| - 1]];
    }
  }

  lemma {:induction false} RemoveSplits(rs: seq<Range>, s: int, e: int, k: int)
    requires e <= s && 0 <= k < |rs| && rs[k].lo < e && s < rs[k].hi
    ensures !Normal(RemoveRange(rs, s, e))
  {
    var n := |rs| - 1;
    var h, c := RemoveRange(rs[..n], s, e), Cut(rs[n], s, e);
    if k < n {
      RemoveSplits(rs[..n], s, e, k);
      SpoiledPrefix(h, c);
    } else {
      SpoiledEnd(h, c);
    }
  }

  lemma SpoiledEnd(a: seq<Range>, b: seq<Range>)
    requires |b| >= 2 && b[0].hi >= b[1].lo
    ensures !Normal(a + b)
  {
    assert (a + b)[|a|] == b[0] && (a + b)[|a| + 1] == b[1];
  }

  lemma SpoiledPrefix(a: seq<Range>, b: seq<Range>)
    requires !Normal(a)
    ensures !Normal(a + b)
  {
    forall k | 0 <= k < |a| ensures a[k] == (a + b)[k] {}
    if i, j :| 0 <= i < j < |a| && a[i].hi >= a[j].lo {
      assert (a + b)[i].hi >= (a + b)[j].lo;
    } else {
      var k :| 0 <= k < |a| && a[k].lo >= a[k].hi;
      assert (a + b)[k].lo >= (a + b)[k].hi;
    }
  }

  // ------------------------------------- spans that clamp to nothing at all

  ghost predicate Apart(rs: seq<Range>) {
    forall i, j :: 0 <= i < j < |rs| && j == i + 1 ==> rs[i].hi < rs[j].lo
  }

  ghost predicate Touched(rs: seq<Range>, x: int) {
    exists k :: 0 <= k < |rs| && rs[k].lo <= x <= rs[k].hi
  }

  lemma {:induction false} CoalesceApart(acc: seq<Range>, rest: seq<Range>)
    requires Apart(acc + rest)
    ensures Coalesce(acc, rest) == acc + rest
    decreases |rest|
  {
    if rest == [] {
      assert acc + rest == acc;
    } else {
      var all := acc + rest;
      assert |acc| > 0 ==> all[|acc| - 1].hi < all[|acc|].lo;
      assert (acc + [rest[0]]) + rest[1..] == all;
      CoalesceApart(acc + [rest[0]], rest[1..]);
    }
  }

  lemma {:induction false} SortOfNormal(rs: seq<Range>)
    requires Normal(rs)
    ensures SortRanges(rs) == rs
  {
    if rs != [] {
      var n := |rs| - 1;
      SortOfNormal(rs[..n]);
      var at := InsertAt(rs[n], rs[..n]);
      assert rs == rs[..n] + [rs[n]] + [];
    }
  }

  /** Where insertion puts r in a sorted list. */
  lemma {:induction false} InsertAt(r: Range, rs: seq<Range>) returns (at: nat)
    ensures at <= |rs|
    ensures Insert(r, rs) == rs[..at] + [r] + rs[at..]
    ensures forall k :: 0 <= k < at ==> !LexLeq(r, rs[k])
    ensures at < |rs| ==> LexLeq(r, rs[at])
  {
    if rs == [] || LexLeq(r, rs[0]) {
      at := 0;
      assert rs[..0] + [r] + rs[0..] == [r] + rs;
    } else {
      var tail := InsertAt(r, rs[1..]);
      at := tail + 1;
      assert [rs[0]] + (rs[1..][..tail] + [r] + rs[1..][tail..]) == rs[..at] + [r] + rs[at..];
      forall k | 0 <= k < at ensures !LexLeq(r, rs[k]) {
        if k > 0 { assert rs[k] == rs[1..][k - 1]; }
      }
    }
  }

  lemma {:induction false} EmptyTouchesLeft(acc: seq<Range>, p: Range, rest: seq<Range>)
    requires Apart(acc + rest) && p.hi <= p.lo
    requires acc != [] && acc[|acc| - 1].lo <= p.lo <= acc[|acc| - 1].hi
    ensures Coalesce(acc, [p] + rest) == acc + rest
  {
    var last := acc[|acc| - 1];
    assert ([p] + rest)[1..] == rest;
    assert acc[|acc| - 1 := Range(last.lo, Max(last.hi, p.hi))] == acc;
    CoalesceApart(acc, rest);
  }

  lemma {:induction false} EmptyTouchesRight(acc: seq<Range>, p: Range, rest: seq<Range>)
    requires Apart(acc + rest) && p.hi <= p.lo
    requires acc == [] || acc[|acc| - 1].hi < p.lo
    requires rest != [] && p.lo <= rest[0].lo <= p.hi && rest[0].lo <= rest[0].hi
    ensures Coalesce(acc, [p] + rest) == acc + rest
  {
    assert ([p] + rest)[1..] == rest;
    MergeIntoLast(acc, p, rest[0], rest);
    Reassociate(acc, rest);
    CoalesceApart(acc + [rest[0]], rest[1..]);
  }

  lemma Reassociate(acc: seq<Range>, rest: seq<Range>)
    requires rest != []
    ensures (acc + [rest[0]]) + rest[1..] == acc + rest
  {}

  lemma MergeIntoLast(acc: seq<Range>, p: Range, r: Range, rest: seq<Range>)
    requires rest != [] && rest[0] == r && p.lo == r.lo <= p.hi <= r.hi
    ensures Coalesce(acc + [p], rest) == Coalesce(acc + [r], rest[1..])
  {
    assert (acc + [p])[|acc| := Range(p.lo, Max(p.hi, r.hi))] == acc + [r];
  }

  lemma {:induction false} EmptyStays(acc: seq<Range>, p: Range, rest: seq<Range>)
    requires Apart(acc + rest) && p.hi <= p.lo
    requires acc == [] || acc[|acc| - 1].hi < p.lo
    requires rest == [] || p.hi < rest[0].lo
    ensures !Normal(Coalesce(acc, [p] + rest))
  {
    ApartAround(acc, p, rest);
    CoalesceApart(acc, [p] + rest);
    assert (acc + ([p] + rest))[|acc|] == p;
  }

  lemma ApartAround(acc: seq<Range>, p: Range, rest: seq<Range>)
    requires Apart(acc + rest)
    requires acc == [] || acc[|acc| - 1].hi < p.lo
    requires rest == [] || p.hi < rest[0].lo
    ensures Apart(acc + ([p] + rest))
  {
    var all, out, n := acc + rest, acc + ([p] + rest), |acc|;
    forall i, j | 0 <= i < j < |out| && j == i + 1 ensures out[i].hi < out[j].lo {
      if j < n {
        assert all[i] == out[i] && all[j] == out[j];
      } else if i > n {
        assert all[i - 1] == out[i] && all[i] == out[j];
      }
    }
  }

  /** Exactly which calls of rangeAdd keep the normal form: a span that clamps
      to nothing (it starts at the very end, or lies below zero) leaves an
      empty interval behind unless that interval touches one already there. */
  lemma AddRangeNormalIff(rs: seq<Range>, size: int, s: int, e: int)
    requires Normal(rs) && forall k :: 0 <= k < |rs| ==> 0 <= rs[k].lo
    ensures var lo, hi := ClampLo(s), ClampHi(size, e);
            Normal(AddRange(rs, size, s, e)) <==>
            Skipped(size, s, e) || lo < hi || (lo == hi && Touched(rs, lo))
  {
    var p := Range(ClampLo(s), ClampHi(size, e));
    if !Skipped(size, s, e) {
      if p.lo < p.hi {
        AddRangeIsUnion(rs, size, s, e);
      } else {
        AddEmptyNormalIff(rs, p);
      }
    }
  }

  lemma AddEmptyNormalIff(rs: seq<Range>, p: Range)
    requires Normal(rs) && forall k :: 0 <= k < |rs| ==> 0 <= rs[k].lo
    requires p.hi == p.lo || (p.hi < p.lo && p.lo == 0)
    ensures Normal(Coalesce([], SortRanges(rs + [p]))) <==> p.lo == p.hi && Touched(rs, p.lo)
  {
    SortWithLast(rs, p);
    var at := InsertAt(p, rs);
    AddBetween(rs, rs[..at], p, rs[at..]);
  }

  lemma {:induction false} AddBetween(rs: seq<Range>, acc: seq<Range>, p: Range, rest: seq<Range>)
    requires Normal(rs) && rs == acc + rest && forall k :: 0 <= k < |rs| ==> 0 <= rs[k].lo
    requires p.hi == p.lo || (p.hi < p.lo && p.lo == 0)
    requires acc != [] ==> !LexLeq(p, acc[|acc| - 1])
    requires rest != [] ==> LexLeq(p, rest[0])
    ensures Normal(Coalesce([], acc + [p] + rest)) <==> p.lo == p.hi && Touched(rs, p.lo)
  {
    PartsOfNormal(rs, acc, rest);
    GapBetween(rs, acc, p, rest);
    AddEmptyShape(acc, p, rest);
    CoalesceAtGap(acc, p, rest);
  }

  lemma PartsOfNormal(rs: seq<Range>, acc: seq<Range>, rest: seq<Range>)
    requires Normal(rs) && rs == acc + rest
    ensures Apart(acc) && Apart(acc + rest)
    ensures acc != [] ==> acc[|acc| - 1].lo < acc[|acc| - 1].hi
    ensures rest != [] ==> rest[0].lo < rest[0].hi
  {
    forall k | 0 <= k < |acc| ensures acc[k] == rs[k] {}
    assert rest != [] ==> rest[0] == rs[|acc|];
  }

  lemma GapBetween(rs: seq<Range>, acc: seq<Range>, p: Range, rest: seq<Range>)
    requires Normal(rs) && rs == acc + rest && forall k :: 0 <= k < |rs| ==> 0 <= rs[k].lo
    requires p.hi == p.lo || (p.hi < p.lo && p.lo == 0)
    requires acc != [] ==> !LexLeq(p, acc[|acc| - 1])
    requires rest != [] ==> LexLeq(p, rest[0])
    ensures TouchesGap(acc, p, rest) <==> p.lo == p.hi && Touched(rs, p.lo)
  {
    assert acc != [] ==> acc[|acc| - 1] == rs[|acc| - 1];
    assert rest != [] ==> rest[0] == rs[|acc|];
    assert rs[..|acc|] == acc && rs[|acc|..] == rest;
    NextToGap(rs, p, |acc|);
  }

  predicate TouchesGap(acc: seq<Range>, p: Range, rest: seq<Range>) {
    (acc != [] && p.lo <= acc[|acc| - 1].hi) || (rest != [] && rest[0].lo <= p.hi)
  }

  lemma NextToGap(rs: seq<Range>, p: Range, at: nat)
    requires Normal(rs) && at <= |rs| && p.hi <= p.lo
    requires p.hi < p.lo ==> p.lo == 0
    requires forall k :: 0 <= k < |rs| ==> 0 <= rs[k].lo
    requires at > 0 ==> !LexLeq(p, rs[at - 1])
    requires at < |rs| ==> LexLeq(p, rs[at])
    ensures TouchesGap(rs[..at], p, rs[at..]) <==> p.lo == p.hi && Touched(rs, p.lo)
  {
    if !TouchesGap(rs[..at], p, rs[at..]) {
      NothingTouched(rs, at, p);
    }
  }

  lemma {:induction false} CoalesceAtGap(acc: seq<Range>, p: Range, rest: seq<Range>)
    requires Apart(acc + rest) && p.hi <= p.lo
    requires acc != [] ==> acc[|acc| - 1].lo < acc[|acc| - 1].hi && !LexLeq(p, acc[|acc| - 1])
    requires rest != [] ==> rest[0].lo < rest[0].hi && LexLeq(p, rest[0])
    ensures TouchesGap(acc, p, rest) ==> Coalesce(acc, [p] + rest) == acc + rest
    ensures !TouchesGap(acc, p, rest) ==> !Normal(Coalesce(acc, [p] + rest))
  {
    if acc != [] && p.lo <= acc[|acc| - 1].hi {
      EmptyTouchesLeft(acc, p, rest);
    } else if rest != [] && rest[0].lo <= p.hi {
      EmptyTouchesRight(acc, p, rest);
    } else {
      EmptyStays(acc, p, rest);
    }
  }

  lemma SortWithLast(rs: seq<Range>, p: Range)
    requires Normal(rs)
    ensures SortRanges(rs + [p]) == Insert(p, rs)
  {
    SortOfNormal(rs);
    assert (rs + [p])[..|rs|] == rs;
  }

  lemma AddEmptyShape(acc: seq<Range>, p: Range, rest: seq<Range>)
    requires Apart(acc)
    ensures Coalesce([], acc + [p] + rest) == Coalesce(acc, [p] + rest)
  {
    assert acc + [p] + rest == acc + ([p] + rest);
    assert [] + acc == acc;
    CoalescePrefix([], acc, [p] + rest);
  }

  lemma NothingTouched(rs: seq<Range>, at: nat, p: Range)
    requires Normal(rs) && at <= |rs|
    requires at > 0 ==> rs[at - 1].hi < p.lo
    requires at < |rs| ==> p.hi < rs[at].lo
    ensures p.lo == p.hi ==> !Touched(rs, p.lo)
  {
    forall k | p.lo == p.hi && 0 <= k < |rs| ensures !(rs[k].lo <= p.lo <= rs[k].hi) {
      if k < at - 1 {
        assert rs[k].hi < rs[at - 1].lo;
      } else if k > at {
        assert rs[at].hi < rs[k].lo;
      }
    }
  }

  /** A prefix that needs no merging passes through unchanged. */
  lemma {:induction false} CoalescePrefix(acc: seq<Range>, a: seq<Range>, b: seq<Range>)
    requires Apart(acc + a)
    ensures Coalesce(acc, a + b) == Coalesce(acc + a, b)
    decreases |a|
  {
    if a == [] {
      assert a + b == b && acc + a == acc;
    } else {
      assert |acc| > 0 ==> (acc + a)[|acc| - 1].hi < (acc + a)[|acc|].lo;
      assert (a + b)[1..] == a[1..] + b;
      assert (acc + [a[0]]) + a[1..] == acc + a;
      CoalescePrefix(acc + [a[0]], a[1..], b);
    }
  }

  // --------------------------------------------------------- counting bytes

  ghost function CoveredSet(rs: seq<Range>, size: int): set<int> {
    set x | 0 <= x < size && Covers(rs, x)
  }

  predicate Inside(x: int, lo: int, hi: int) { lo <= x < hi }

  ghost function Span(lo: int, hi: int): set<int> {
    set x | lo <= x < hi && Inside(x, lo, hi)
  }

  lemma {:induction false} SpanSize(lo: int, hi: int)
    requires lo <= hi
    ensures |Span(lo, hi)| == hi - lo
    decreases hi - lo
  {
    if lo < hi {
      SpanSize(lo, hi - 1);
      assert Span(lo, hi) == Span(lo, hi - 1) + {hi - 1};
    } else {
      assert Span(lo, hi) == {};
    }
  }

  /** The byte counter is the size of the covered set. */
  lemma {:induction false} ReceivedCountsCovered(rs: seq<Range>, size: int)
    requires Normal(rs) && Within(rs, size)
    ensures ReceivedBytes(rs) == |CoveredSet(rs, size)|
  {
    if rs == [] {
      assert CoveredSet(rs, size) == {};
    } else {
      var n := |rs| - 1;
      ReceivedCountsCovered(rs[..n], size);
      SpanSize(rs[n].lo, rs[n].hi);
      CoveredSplitsLast(rs, size);
    }
  }

  lemma CoveredSplitsLast(rs: seq<Range>, size: int)
    requires Normal(rs) && Within(rs, size) && rs != []
    ensures var head, r := rs[..|rs| - 1], rs[|rs| - 1];
            && CoveredSet(rs, size) == CoveredSet(head, size) + Span(r.lo, r.hi)
            && CoveredSet(head, size) !! Span(r.lo, r.hi)
  {
    var n := |rs| - 1;
    var head, r := rs[..n], rs[n];
    forall x ensures Covers(rs, x) <==> Covers(head, x) || Inside(x, r.lo, r.hi) {
      if Covers(head, x) {
        var k :| 0 <= k < n && head[k].lo <= x < head[k].hi;
        assert rs[k].lo <= x < rs[k].hi;
      }
      if Covers(rs, x) {
        var k :| 0 <= k < |rs| && rs[k].lo <= x < rs[k].hi;
        if k < n { assert head[k].lo <= x < head[k].hi; }
      }
    }
    forall x | Covers(head, x) ensures !Inside(x, r.lo, r.hi) {
      var k :| 0 <= k < n && head[k].lo <= x < head[k].hi;
      assert rs[k].hi < r.lo;
    }
  }

  lemma AllBytesReceivedIff(rs: seq<Range>, size: int)
    requires Normal(rs) && Within(rs, size) && size > 0
    ensures ReceivedBytes(rs) <= size
    ensures ReceivedBytes(rs) == size <==> CoversAll(rs, 0, size)
    ensures CoversAll(rs, 0, size) <==> rs == [Range(0, size)]
  {
    ReceivedCountsCovered(rs, size);
    SpanSize(0, size);
    var c := CoveredSet(rs, size);
    assert c <= Span(0, size);
    SubsetSize(c, Span(0, size));
    if CoversAll(rs, 0, size) {
      assert c == Span(0, size);
      var whole := [Range(0, size)];
      forall x ensures Covers(rs, x) <==> Covers(whole, x) {
        if 0 <= x < size { assert whole[0].lo <= x < whole[0].hi; }
      }
      NormalFormUnique(rs, whole);
    }
    if c == Span(0, size) {
      forall x | 0 <= x < size ensures Covers(rs, x) { assert x in c; }
    }
    if rs == [Range(0, size)] {
      forall x | 0 <= x < size ensures Covers(rs, x) { assert rs[0].lo <= x < rs[0].hi; }
    }
  }

  lemma SubsetSize(a: set<int>, b: set<int>)
    requires a <= b
    ensures |a| <= |b| && (|a| == |b| ==> a == b)
  {
    assert b == a + (b - a);
    assert |b| == |a| + |b - a|;
  }
}
