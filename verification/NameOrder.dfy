/** Sorting by name: byte order on strings, and the fact that a strictly sorted
    list is determined by its elements. */
module NameOrder {

  predicate Less(a: string, b: string) {
    b != "" && (a == "" || a[0] < b[0] || (a[0] == b[0] && Less(a[1..], b[1..])))
  }

  /** a ends where b goes on. */
  predicate Continues(a: string, b: string) { |a| < |b| && b[..|a|] == a }

  /** Position k is the first where they differ, and a has the smaller byte. */
  predicate SmallerAt(a: string, b: string, k: nat) {
    k < |a| && k < |b| && a[..k] == b[..k] && a[k] < b[k]
  }

  /** Byte order: shorter first when one continues the other, else by the first
      difference. */
  lemma {:induction false} LessIff(a: string, b: string)
    ensures Less(a, b) <==> Continues(a, b) || exists k: nat :: SmallerAt(a, b, k)
  {
    if a == "" || b == "" {
      assert a == "" ==> b[..0] == a;
    } else if a[0] == b[0] {
      LessIff(a[1..], b[1..]);
      ShiftContinues(a, b);
      if k: nat :| SmallerAt(a[1..], b[1..], k) { ShiftSmaller(a, b, k + 1); }
      if k: nat :| SmallerAt(a, b, k) { ShiftSmaller(a, b, k); }
    } else {
      FirstDiffers(a, b);
      assert SmallerAt(a, b, 0) <==> a[0] < b[0];
    }
  }

  lemma ShiftContinues(a: string, b: string)
    requires a != "" && b != "" && a[0] == b[0]
    ensures Continues(a, b) <==> Continues(a[1..], b[1..])
  {
    if |a| <= |b| {
      assert b[..|a|] == [b[0]] + b[1..][..|a| - 1] && a == [a[0]] + a[1..];
    }
  }

  lemma ShiftSmaller(a: string, b: string, k: nat)
    requires a != "" && b != "" && a[0] == b[0] && k > 0
    ensures SmallerAt(a, b, k) <==> SmallerAt(a[1..], b[1..], k - 1)
  {
    if k < |a| && k < |b| {
      assert a[..k] == [a[0]] + a[1..][..k - 1] && b[..k] == [b[0]] + b[1..][..k - 1];
      assert a[..k][1..] == a[1..][..k - 1] && b[..k][1..] == b[1..][..k - 1];
    }
  }

  lemma FirstDiffers(a: string, b: string)
    requires a != "" && b != "" && a[0] != b[0]
    ensures !Continues(a, b) && forall k: nat :: SmallerAt(a, b, k) <==> k == 0 && a[0] < b[0]
  {
    forall k: nat | k < |a| && k < |b| ensures a[..k] == b[..k] <==> k == 0 {
      assert k > 0 ==> a[..k][0] == a[0] && b[..k][0] == b[0];
    }
    assert |a| <= |b| ==> b[..|a|][0] == b[0];
  }

  lemma {:induction false} Irreflexive(a: string)
    ensures !Less(a, a)
  {
    if a != "" { Irreflexive(a[1..]); }
  }

  lemma {:induction false} Transitive(a: string, b: string, c: string)
    requires Less(a, b) && Less(b, c)
    ensures Less(a, c)
  {
    if a != "" && a[0] == b[0] && b[0] == c[0] { Transitive(a[1..], b[1..], c[1..]); }
  }

  lemma {:induction false} Total(a: string, b: string)
    ensures Less(a, b) || Less(b, a) || a == b
  {
    if a != "" && b != "" && a[0] == b[0] {
      Total(a[1..], b[1..]);
      assert a == [a[0]] + a[1..] && b == [b[0]] + b[1..];
    }
  }

  /** Strictly increasing names. */
  ghost predicate Sorted<T(!new)>(xs: seq<T>, name: T -> string) {
    forall i, j :: 0 <= i < j < |xs| ==> Less(name(xs[i]), name(xs[j]))
  }

  predicate Distinct<T>(xs: seq<T>, name: T -> string) {
    forall i, j :: 0 <= i < j < |xs| ==> name(xs[i]) != name(xs[j])
  }

  /** A strictly sorted list is determined by its elements. */
  lemma {:induction false} SortedUnique<T(!new)>(xs: seq<T>, ys: seq<T>, name: T -> string)
    requires Sorted(xs, name) && Sorted(ys, name)
    requires forall x :: x in xs <==> x in ys
    ensures xs == ys
    decreases |xs|
  {
    assert xs != [] ==> xs[0] in ys;
    assert ys != [] ==> ys[0] in xs;
    if xs != [] {
      SameLast(xs, ys, name);
      var n, m := |xs| - 1, |ys| - 1;
      forall x ensures x in xs[..n] <==> x in ys[..m] {
        InFront(xs, name, x);
        InFront(ys, name, x);
      }
      SortedUnique(xs[..n], ys[..m], name);
      assert xs == xs[..n] + [xs[n]] && ys == ys[..m] + [ys[m]];
    }
  }

  lemma InFront<T(!new)>(xs: seq<T>, name: T -> string, x: T)
    requires xs != [] && Sorted(xs, name)
    ensures x in xs[..|xs| - 1] <==> x in xs && x != xs[|xs| - 1]
  {
    if x in xs[..|xs| - 1] {
      var i :| 0 <= i < |xs| - 1 && xs[..|xs| - 1][i] == x;
      Irreflexive(name(x));
      assert Less(name(xs[i]), name(xs[|xs| - 1]));
    }
  }

  lemma SameLast<T(!new)>(xs: seq<T>, ys: seq<T>, name: T -> string)
    requires xs != [] && ys != [] && Sorted(xs, name) && Sorted(ys, name)
    requires forall x :: x in xs <==> x in ys
    ensures xs[|xs| - 1] == ys[|ys| - 1]
  {
    var x, y := xs[|xs| - 1], ys[|ys| - 1];
    assert x in ys && y in xs;
    var i :| 0 <= i < |ys| && ys[i] == x;
    var j :| 0 <= j < |xs| && xs[j] == y;
    if x != y {
      assert Less(name(x), name(y)) && Less(name(y), name(x));
      Transitive(name(x), name(y), name(x));
      Irreflexive(name(x));
    }
  }

  /** Where x belongs in a sorted list. */
  method Place<T(!new)>(xs: seq<T>, x: T, name: T -> string) returns (k: nat)
    requires Sorted(xs, name) && forall i :: 0 <= i < |xs| ==> name(xs[i]) != name(x)
    ensures k <= |xs|
    ensures forall i :: 0 <= i < k ==> Less(name(xs[i]), name(x))
    ensures forall i :: k <= i < |xs| ==> Less(name(x), name(xs[i]))
  {
    k := 0;
    while k < |xs| && Less(name(xs[k]), name(x))
      invariant k <= |xs| && forall i :: 0 <= i < k ==> Less(name(xs[i]), name(x))
    {
      k := k + 1;
    }
    forall i | k <= i < |xs| ensures Less(name(x), name(xs[i])) {
      Total(name(xs[k]), name(x));
      if k < i { Transitive(name(x), name(xs[k]), name(xs[i])); }
    }
  }

  lemma Insert<T(!new)>(xs: seq<T>, x: T, k: nat, name: T -> string)
    requires Sorted(xs, name) && k <= |xs|
    requires forall i :: 0 <= i < k ==> Less(name(xs[i]), name(x))
    requires forall i :: k <= i < |xs| ==> Less(name(x), name(xs[i]))
    ensures Sorted(xs[..k] + [x] + xs[k..], name)
    ensures forall y :: y in xs[..k] + [x] + xs[k..] <==> y in xs || y == x
  {
    assert xs == xs[..k] + xs[k..];
  }

  /** Sorting by name, of a list with distinct names. */
  method SortByName<T(!new)>(list: seq<T>, name: T -> string) returns (r: seq<T>)
    requires Distinct(list, name)
    ensures Sorted(r, name) && |r| == |list| && forall x :: x in r <==> x in list
  {
    r := [];
    for n := 0 to |list|
      invariant Sorted(r, name) && |r| == n && forall x :: x in r <==> x in list[..n]
    {
      var x := list[n];
      forall i | 0 <= i < |r| ensures name(r[i]) != name(x) {
        assert r[i] in list[..n];
      }
      var k := Place(r, x, name);
      Insert(r, x, k, name);
      assert list[..n + 1] == list[..n] + [x];
      r := r[..k] + [x] + r[k..];
    }
    assert list[..|list|] == list;
  }
}
