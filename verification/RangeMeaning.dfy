/** What any Range header asks for, said without the steps of the parser. */
module RangeMeaning {
  import opened Wrappers
  import opened RangeHeader

  const SPACES := " \t\n\U{0B}\U{0C}\r"
  const SHOUTED := "BYTES="

  ghost predicate Blank(s: string) { forall i :: 0 <= i < |s| ==> IsSpace(s[i]) }

  ghost predicate Tight(s: string) { s != "" ==> !IsSpace(s[0]) && !IsSpace(s[|s| - 1]) }

  ghost predicate Between(s: string, core: string, i: int, j: int) {
    0 <= i <= j <= |s| && s[i..j] == core && Blank(s[..i]) && Blank(s[j..])
  }

  /** What is left of s between its blanks. */
  ghost predicate Core(s: string, core: string) { Tight(core) && exists i, j :: Between(s, core, i, j) }

  lemma SpacesAre(c: char)
    ensures IsSpace(c) <==> c in SPACES
  {
    assert SPACES[0] == ' ' && SPACES[1] == '\t' && SPACES[2] == '\n' && SPACES[5] == '\r';
    assert SPACES[3] == '\U{0B}' && SPACES[4] == '\U{0C}';
  }

  lemma {:induction false} LeftCore(s: string) returns (i: nat)
    ensures i <= |s| && TrimLeft(s) == s[i..] && Blank(s[..i]) && (i < |s| ==> !IsSpace(s[i]))
  {
    if s != "" && IsSpace(s[0]) {
      var k := LeftCore(s[1..]);
      i := k + 1;
      assert s[1..][k..] == s[i..] && s[..i] == [s[0]] + s[1..][..k];
    } else {
      i := 0;
      if s != "" {
        }
    }
  }

  lemma {:induction false} RightCore(s: string) returns (j: nat)
    ensures j <= |s| && TrimRight(s) == s[..j] && Blank(s[j..]) && (j > 0 ==> !IsSpace(s[j - 1]))
  {
    if s != "" && IsSpace(s[|s| - 1]) {
      var t := s[..|s| - 1];
      j := RightCore(t);
      assert s == t + [s[|s| - 1]] && s[j..] == t[j..] + [s[|s| - 1]];
    } else {
      j := |s|;
      if s != "" {
        }
    }
  }

  lemma TrimIsCore(s: string)
    ensures Core(s, TrimSpace(s))
  {
    var i := LeftCore(s);
    var j := RightCore(s[i..]);
    assert Between(s, s[i..][..j], i, i + j) by {
      assert s[i..][..j] == s[i..i + j] && s[i..][j..] == s[i + j..];
    }
    var core := TrimSpace(s);
    assert core == s[i..][..j];
  }

  lemma CoreUnique(s: string, a: string, b: string)
    requires Core(s, a) && Core(s, b)
    ensures a == b
  {
    var i, j :| Between(s, a, i, j);
    var k, l :| Between(s, b, k, l);
    if a != "" {
      InsideCore(s, a, i, j, b, k, l);
    }
    if b != "" {
      InsideCore(s, b, k, l, a, i, j);
    }
  }

  lemma BlankEnds(s: string, k: int, l: int)
    requires 0 <= k <= l <= |s| && Blank(s[..k]) && Blank(s[l..])
    ensures forall x :: 0 <= x < k || l <= x < |s| ==> IsSpace(s[x])
  {
    forall x | 0 <= x < k || l <= x < |s| ensures IsSpace(s[x]) {
      assert s[x] == if x < k then s[..k][x] else s[l..][x - l];
    }
  }

  /** A core that is not empty lies inside every other. */
  lemma InsideCore(s: string, a: string, i: int, j: int, b: string, k: int, l: int)
    requires Tight(a) && a != "" && Between(s, a, i, j) && Between(s, b, k, l)
    ensures k <= i && j <= l
  {
    assert a[0] == s[i] && a[|a| - 1] == s[j - 1];
    BlankEnds(s, k, l);
  }

  lemma TrimIff(s: string, core: string)
    ensures TrimSpace(s) == core <==> Core(s, core)
  {
    TrimIsCore(s);
    if Core(s, core) {
      CoreUnique(s, core, TrimSpace(s));
    }
  }

  // ----------------------------------------------------------------- integers

  function Zeros(k: nat): string { seq(k, i => '0') }

  /** A number in decimal digits, perhaps with zeros in front. */
  ghost predicate Spelled(s: string, n: nat) { exists k: nat :: s == Zeros(k) + Digits(n) }

  /** strconv.ParseInt: digits behind at most one sign, in 64 bits. */
  ghost predicate Says(s: string, v: int) {
    && -MAX_INT64 - 1 <= v <= MAX_INT64 && s != ""
    && if s[0] == '-' then v <= 0 && Spelled(s[1..], -v)
       else v >= 0 && Spelled(if s[0] == '+' then s[1..] else s, v)
  }

  lemma {:induction false} SpelledNumber(k: nat, n: nat)
    ensures Numeral(Zeros(k) + Digits(n)) && Number(Zeros(k) + Digits(n)) == n
    decreases n
  {
    var s, d := Zeros(k) + Digits(n), Digits(n);
    if n >= 10 {
      SpelledNumber(k, n / 10);
      assert s[..|s| - 1] == Zeros(k) + Digits(n / 10);
    } else {
      assert s[..|s| - 1] == Zeros(k);
      OnlyZeros(k);
    }
  }

  lemma {:induction false} OnlyZeros(k: nat)
    ensures Number(Zeros(k)) == 0
  {
    if k > 0 {
      OnlyZeros(k - 1);
      assert Zeros(k)[..k - 1] == Zeros(k - 1);
    }
  }

  lemma MoreDigits(k: nat, m: nat, c: nat)
    requires c < 10
    ensures Spelled(Zeros(k) + Digits(m) + ['0' + c as char], m * 10 + c)
  {
    var s := Zeros(k) + Digits(m) + ['0' + c as char];
    if m == 0 {
      assert s == Zeros(k + 1) + Digits(c);
    } else {
      assert s == Zeros(k) + Digits(m * 10 + c);
    }
  }

  lemma {:induction false} NumeralSpelled(s: string)
    requires Numeral(s)
    ensures Spelled(s, Number(s))
  {
    var front, c := s[..|s| - 1], DigitValue(s[|s| - 1]);
    var m := Number(front);
    assert s == front + ['0' + c as char];
    if front == "" {
      assert s == Zeros(0) + Digits(c);
    } else {
      NumeralSpelled(front);
      var k: nat :| front == Zeros(k) + Digits(m);
      MoreDigits(k, m, c);
    }
  }

  lemma SpelledIff(s: string, n: nat)
    ensures Spelled(s, n) <==> Numeral(s) && Number(s) == n
  {
    if Spelled(s, n) {
      var k: nat :| s == Zeros(k) + Digits(n);
      SpelledNumber(k, n);
    } else if Numeral(s) {
      NumeralSpelled(s);
    }
  }

  lemma ParseIntIff(s: string, v: int)
    ensures ParseInt(s) == Some(v) <==> Says(s, v)
  {
    if s != "" {
      var digits := if s[0] == '+' || s[0] == '-' then s[1..] else s;
      SpelledIff(digits, if v >= 0 then v else -v);
    }
  }

  // ------------------------------------------------------------------- ranges

  /** A field says v. */
  ghost predicate Field(s: string, v: int) { exists core :: Core(s, core) && Says(core, v) }

  ghost predicate FieldOr(s: string, default: int, v: int) { if Core(s, "") then v == default else Field(s, v) }

  function Max(x: int, y: int): int { if x < y then y else x }

  function Min(x: int, y: int): int { if x < y then x else y }

  /** k is the first place of c, or the end. */
  ghost predicate UpTo(s: string, c: char, k: nat) { k <= |s| && c !in s[..k] && (k < |s| ==> s[k] == c) }

  /** Behind a dash stands how many of the last bytes are wanted. */
  ghost predicate Last(tail: string, size: int, a: int, b: int) {
    b == size - 1 && exists n :: Field(tail, n) && a == (if size - n > MAX_INT64 then 0 else Max(0, size - n))
  }

  function Behind(spec: string, k: nat): string { if k < |spec| then spec[k + 1..] else "" }

  ghost predicate StartsAt(s: string, a: int, v: int) { FieldOr(s, 0, v) && a == Max(0, v) }

  ghost predicate EndsAt(s: string, size: int, b: int, w: int) { FieldOr(s, size - 1, w) && b == Min(w, size - 1) }

  ghost predicate Bounded(first: string, second: string, size: int, a: int, b: int) {
    (exists v :: StartsAt(first, a, v)) && exists w :: EndsAt(second, size, b, w)
  }

  /** One range spec asks for the bytes a to b. */
  ghost predicate Asks(spec: string, size: int, a: int, b: int) {
    if spec != "" && spec[0] == '-' then Last(spec[1..], size, a, b)
    else exists k: nat :: UpTo(spec, '-', k) && Bounded(spec[..k], Behind(spec, k), size, a, b)
  }

  ghost predicate InAnyCase(h: string) {
    |h| >= 6 && forall i :: 0 <= i < 6 ==> h[i] == UNIT[i] || h[i] == SHOUTED[i]
  }

  /** The first spec behind the unit asks for the bytes a to b. */
  ghost predicate FirstAsks(h: string, k: nat, size: int, a: int, b: int)
    requires InAnyCase(h)
  {
    UpTo(h[6..], ',', k) && exists spec :: Core(h[6..][..k], spec) && Asks(spec, size, a, b)
  }

  ghost predicate Requested(header: string, size: int, a: int, b: int) {
    exists h, k: nat :: Core(header, h) && InAnyCase(h) && FirstAsks(h, k, size, a, b)
  }

  lemma {:induction false} FindIff(s: string, c: char, k: nat)
    ensures Find(s, c) == k <==> UpTo(s, c, k)
    decreases |s|
  {
    if s != "" && s[0] != c {
      if k > 0 {
        FindIff(s[1..], c, k - 1);
        if k <= |s| {
          assert s[..k] == [s[0]] + s[1..][..k - 1];
        }
      }
    } else if k > 0 && k <= |s| {
      assert s[..k][0] == s[0];
    }
  }

  /** n is what a field says, if anything. */
  ghost predicate Parsed(s: string, n: Option<int>) { forall v :: Field(s, v) <==> n == Some(v) }

  lemma FieldParsed(s: string)
    ensures Parsed(s, ParseInt(TrimSpace(s)))
  {
    var core := TrimSpace(s);
    TrimIff(s, core);
    forall v ensures Field(s, v) <==> ParseInt(core) == Some(v) {
      ParseIntIff(core, v);
      if Field(s, v) {
        var other :| Core(s, other) && Says(other, v);
        CoreUnique(s, core, other);
      }
    }
  }

  function ParsedOr(s: string, default: int): Option<int> {
    if TrimSpace(s) == "" then Some(default) else ParseInt(TrimSpace(s))
  }

  ghost predicate SaysOr(s: string, default: int, n: Option<int>) { forall v :: FieldOr(s, default, v) <==> n == Some(v) }

  lemma FieldOrParsed(s: string, default: int)
    ensures SaysOr(s, default, ParsedOr(s, default))
  {
    TrimIff(s, "");
    FieldParsed(s);
  }

  function LastOf(n: Option<int>, size: int): Option<(int, int)> {
    if n.None? then None
    else
      var start := Wrap(size - n.value);
      Some((if start < 0 then 0 else start, size - 1))
  }

  lemma WrappedStart(size: int, n: int)
    requires 0 < size <= MAX_INT64 && -MAX_INT64 - 1 <= n <= MAX_INT64
    ensures Max(0, Wrap(size - n)) == if size - n > MAX_INT64 then 0 else Max(0, size - n)
  {}

  lemma LastIff(tail: string, n: Option<int>, size: int, a: int, b: int)
    requires 0 < size <= MAX_INT64 && Parsed(tail, n) && (n.Some? ==> -MAX_INT64 - 1 <= n.value <= MAX_INT64)
    ensures LastOf(n, size) == Some((a, b)) <==> Last(tail, size, a, b)
  {
    if n.Some? {
      WrappedStart(size, n.value);
      assert Field(tail, n.value);
    }
    if Last(tail, size, a, b) {
      var v :| Field(tail, v) && a == (if size - v > MAX_INT64 then 0 else Max(0, size - v));
    }
  }

  function BoundedOf(v: Option<int>, w: Option<int>, size: int): Option<(int, int)> {
    if v.None? || w.None? then None
    else Some((if v.value < 0 then 0 else v.value, if w.value > size - 1 then size - 1 else w.value))
  }

  lemma BoundedIff(first: string, second: string, v: Option<int>, w: Option<int>, size: int, a: int, b: int)
    requires SaysOr(first, 0, v) && SaysOr(second, size - 1, w)
    ensures BoundedOf(v, w, size) == Some((a, b)) <==> Bounded(first, second, size, a, b)
  {
    if BoundedOf(v, w, size) == Some((a, b)) {
      assert StartsAt(first, a, v.value) && EndsAt(second, size, b, w.value);
    }
    if Bounded(first, second, size, a, b) {
      var x :| StartsAt(first, a, x);
      var y :| EndsAt(second, size, b, y);
    }
  }

  lemma BoundsAre(spec: string, size: int)
    requires size > 0
    ensures spec != "" && spec[0] == '-' ==> Bounds(spec, size) == LastOf(ParseInt(TrimSpace(spec[1..])), size)
    ensures !(spec != "" && spec[0] == '-') ==>
              var k := Find(spec, '-');
              Bounds(spec, size) == BoundedOf(ParsedOr(spec[..k], 0), ParsedOr(Behind(spec, k), size - 1), size)
  {}

  lemma BoundsIff(spec: string, size: int, a: int, b: int)
    requires 0 < size <= MAX_INT64
    ensures Bounds(spec, size) == Some((a, b)) <==> Asks(spec, size, a, b)
  {
    BoundsAre(spec, size);
    if spec != "" && spec[0] == '-' {
      FieldParsed(spec[1..]);
      LastIff(spec[1..], ParseInt(TrimSpace(spec[1..])), size, a, b);
    } else {
      var k := Find(spec, '-');
      var v, w := ParsedOr(spec[..k], 0), ParsedOr(Behind(spec, k), size - 1);
      FieldOrParsed(spec[..k], 0);
      FieldOrParsed(Behind(spec, k), size - 1);
      BoundedIff(spec[..k], Behind(spec, k), v, w, size, a, b);
      FindIff(spec, '-', k);
      if Asks(spec, size, a, b) {
        var l: nat :| UpTo(spec, '-', l) && Bounded(spec[..l], Behind(spec, l), size, a, b);
        FindIff(spec, '-', l);
      }
    }
  }

  lemma FirstIff(h: string, size: int, a: int, b: int)
    requires 0 < size <= MAX_INT64 && InAnyCase(h)
    ensures Bounds(FirstSpec(h[6..]), size) == Some((a, b)) <==> exists k: nat :: FirstAsks(h, k, size, a, b)
  {
    var k, spec := Find(h[6..], ','), FirstSpec(h[6..]);
    FindIff(h[6..], ',', k);
    TrimIff(h[6..][..k], spec);
    BoundsIff(spec, size, a, b);
    if Asks(spec, size, a, b) {
      assert FirstAsks(h, k, size, a, b);
    }
    if l: nat :| FirstAsks(h, l, size, a, b) {
      FindIff(h[6..], ',', l);
      var other :| Core(h[6..][..l], other) && Asks(other, size, a, b);
      CoreUnique(h[6..][..k], spec, other);
    }
  }

  lemma AnyCase(h: string)
    ensures BytesUnit(h) <==> InAnyCase(h)
  {
    assert UNIT[0] == 'b' && UNIT[1] == 'y' && UNIT[2] == 't' && UNIT[3] == 'e' && UNIT[4] == 's' && UNIT[5] == '=';
    assert SHOUTED[0] == 'B' && SHOUTED[1] == 'Y' && SHOUTED[2] == 'T' && SHOUTED[3] == 'E' && SHOUTED[4] == 'S';
    assert SHOUTED[5] == '=';
  }

  /** A header is taken for the part a to b exactly when it asks for it and the
      part lies in the file; all else is the whole file. */
  lemma RangeIff(header: string, size: int, a: int, b: int)
    requires size <= MAX_INT64
    ensures ParseRange(header, size) == Range(a, b, true) <==> 0 <= a <= b < size && Requested(header, size, a, b)
    ensures !ParseRange(header, size).partial ==> ParseRange(header, size) == Whole(size)
  {
    if size > 0 {
      var h := TrimSpace(header);
      TrimIff(header, h);
      AnyCase(h);
      if BytesUnit(h) {
        FirstIff(h, size, a, b);
      }
      if Requested(header, size, a, b) {
        var g, k: nat :| Core(header, g) && InAnyCase(g) && FirstAsks(g, k, size, a, b);
        CoreUnique(header, g, h);
      }
    }
  }
}
