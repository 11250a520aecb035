/** The Range header of a download request (section 2.1 of RFC 7233). */
module RangeHeader {
  import opened Wrappers

  const MAX_INT64 := 0x7fff_ffff_ffff_ffff
  const TWO64 := 0x1_0000_0000_0000_0000

  /** Two's complement of 64 bits. */
  function Wrap(x: int): (r: int)
    ensures -MAX_INT64 - 1 <= r <= MAX_INT64
    ensures -MAX_INT64 - 1 <= x <= MAX_INT64 ==> r == x
  {
    (x + MAX_INT64 + 1) % TWO64 - MAX_INT64 - 1
  }

  predicate IsSpace(c: char) { c == ' ' || '\t' <= c <= '\r' }

  function TrimLeft(s: string): (r: string)
    ensures |r| <= |s|
  {
    if s != "" && IsSpace(s[0]) then TrimLeft(s[1..]) else s
  }

  function TrimRight(s: string): (r: string)
    ensures |r| <= |s|
  {
    if s != "" && IsSpace(s[|s| - 1]) then TrimRight(s[..|s| - 1]) else s
  }

  function TrimSpace(s: string): string { TrimRight(TrimLeft(s)) }

  /** The first place of c, or the end. */
  function Find(s: string, c: char): (k: nat)
    ensures k <= |s|
  {
    if s == "" || s[0] == c then 0 else 1 + Find(s[1..], c)
  }

  predicate IsDigit(c: char) { '0' <= c <= '9' }

  /** Only digits. */
  predicate Numeral(s: string) { s != "" && forall i :: 0 <= i < |s| ==> IsDigit(s[i]) }

  function DigitValue(c: char): nat
    requires IsDigit(c)
  {
    c as int - '0' as int
  }

  function Number(s: string): nat
    requires forall i :: 0 <= i < |s| ==> IsDigit(s[i])
  {
    if s == "" then 0 else Number(s[..|s| - 1]) * 10 + DigitValue(s[|s| - 1])
  }

  /** strconv.ParseInt to the base 10 with 64 bits. */
  function ParseInt(s: string): Option<int> {
    if s == "" then None
    else
      var digits := if s[0] == '+' || s[0] == '-' then s[1..] else s;
      if !Numeral(digits) then None
      else
        var n: int := Number(digits);
        if s[0] == '-' then (if n > MAX_INT64 + 1 then None else Some(-n))
        else if n > MAX_INT64 then None else Some(n)
  }

  datatype Range = Range(start: int, end: int, partial: bool)

  function Whole(size: int): Range { Range(0, if size <= 0 then -1 else size - 1, false) }

  predicate BytesUnit(h: string) {
    |h| >= 6 && (h[0] == 'b' || h[0] == 'B') && (h[1] == 'y' || h[1] == 'Y') && (h[2] == 't' || h[2] == 'T')
    && (h[3] == 'e' || h[3] == 'E') && (h[4] == 's' || h[4] == 'S') && h[5] == '='
  }

  /** The bounds a spec asks for, before they are checked. */
  function Bounds(spec: string, size: int): Option<(int, int)>
    requires size > 0
  {
    if spec != "" && spec[0] == '-' then
      var n := ParseInt(TrimSpace(spec[1..]));
      if n.None? then None
      else
        var start := Wrap(size - n.value);
        Some((if start < 0 then 0 else start, size - 1))
    else
      var dash := Find(spec, '-');
      var s := TrimSpace(spec[..dash]);
      var e := if dash < |spec| then TrimSpace(spec[dash + 1..]) else "";
      var start := if s == "" then Some(0) else ParseInt(s);
      var end := if e == "" then Some(size - 1) else ParseInt(e);
      if start.None? || end.None? then None
      else Some((if start.value < 0 then 0 else start.value, if end.value > size - 1 then size - 1 else end.value))
  }

  function Accepted(spec: string, size: int): Range
    requires size > 0
  {
    var b := Bounds(spec, size);
    if b.Some? && 0 <= b.value.0 <= b.value.1 < size then Range(b.value.0, b.value.1, true) else Whole(size)
  }

  /** The first of the range specs. */
  function FirstSpec(specs: string): string { TrimSpace(specs[..Find(specs, ',')]) }

  function ParseRange(header: string, size: int): Range {
    var h := TrimSpace(header);
    if size <= 0 || !BytesUnit(h) then Whole(size) else Accepted(FirstSpec(h[6..]), size)
  }

  /** The two bounds of one range spec, step by step. */
  method ParseSpec(spec: string, size: int) returns (r: Option<(int, int)>)
    requires size > 0
    ensures r == Bounds(spec, size)
  {
    var start, end := 0, size - 1;
    if spec != "" && spec[0] == '-' {
      var n := ParseInt(TrimSpace(spec[1..]));
      if n.None? {
        return None;
      }
      start := Wrap(size - n.value);
      if start < 0 {
        start := 0;
      }
      return Some((start, end));
    }
    var dash := Find(spec, '-');
    var s, e := TrimSpace(spec[..dash]), "";
    if dash < |spec| {
      e := TrimSpace(spec[dash + 1..]);
    }
    ghost var first, second := if s == "" then Some(0) else ParseInt(s), if e == "" then Some(size - 1) else ParseInt(e);
    if s != "" {
      var v := ParseInt(s);
      if v.None? {
        return None;
      }
      start := v.value;
      if start < 0 {
        start := 0;
      }
    }
    if e != "" {
      var v := ParseInt(e);
      if v.None? {
        return None;
      }
      end := v.value;
      if end > size - 1 {
        end := size - 1;
      }
    }
    return Some((start, end));
  }

  /** parseRange: what is not a range inside the file is the whole file. */
  method Parse(header: string, size: int) returns (start: int, end: int, partial: bool)
    requires size <= MAX_INT64
    ensures Range(start, end, partial) == ParseRange(header, size)
    ensures size > 0 ==> 0 <= start <= end < size
    ensures !partial ==> start == 0 && (size > 0 ==> end == size - 1)
  {
    if size <= 0 {
      return 0, -1, false;
    }
    start, end, partial := 0, size - 1, false;
    var h := TrimSpace(header);
    if !BytesUnit(h) {
      return;
    }
    var b := ParseSpec(FirstSpec(h[6..]), size);
    if b.Some? {
      start, end := b.value.0, b.value.1;
      if 0 <= start <= end < size {
        partial := true;
      } else {
        start, end := 0, size - 1;
      }
    }
  }

  // -------------------------------------------------- what the usual forms mean

  /** Decimal digits of a number. */
  function Digits(n: nat): (r: string)
    ensures |r| > 0 && forall i :: 0 <= i < |r| ==> IsDigit(r[i])
  {
    if n < 10 then ['0' + n as char] else Digits(n / 10) + ['0' + (n % 10) as char]
  }

  lemma {:induction false} NumberOfDigits(n: nat)
    ensures Number(Digits(n)) == n
  {
    var d := Digits(n);
    if n < 10 {
      assert d[..0] == "";
    } else {
      assert d[..|d| - 1] == Digits(n / 10);
      NumberOfDigits(n / 10);
    }
  }

  lemma ParseDigits(n: nat)
    requires n <= MAX_INT64
    ensures ParseInt(Digits(n)) == Some(n)
  {
    NumberOfDigits(n);
  }

  predicate NoSpace(s: string) { forall i :: 0 <= i < |s| ==> !IsSpace(s[i]) }

  lemma NothingToTrim(s: string)
    requires NoSpace(s)
    ensures TrimSpace(s) == s
  {}

  lemma {:induction false} FindFirst(a: string, c: char, b: string)
    requires c !in a
    ensures Find(a + [c] + b, c) == |a|
    decreases |a|
  {
    var s := a + [c] + b;
    if a != "" {
      assert s[1..] == a[1..] + [c] + b;
      FindFirst(a[1..], c, b);
    }
  }

  lemma {:induction false} FindNone(a: string, c: char)
    requires c !in a
    ensures Find(a, c) == |a|
    decreases |a|
  {
    if a != "" {
      FindNone(a[1..], c);
    }
  }

  const UNIT := "bytes="

  lemma OneSpec(spec: string)
    requires NoSpace(spec) && ',' !in spec
    ensures TrimSpace(UNIT + spec) == UNIT + spec && (UNIT + spec)[6..] == spec && FirstSpec(spec) == spec
  {
    NothingToTrim(UNIT + spec);
    NothingToTrim(spec);
    FindNone(spec, ',');
    assert spec[..|spec|] == spec;
  }

  lemma SpecOf(spec: string, size: int)
    requires size > 0 && NoSpace(spec) && ',' !in spec
    ensures ParseRange(UNIT + spec, size) == Accepted(spec, size)
  {
    OneSpec(spec);
  }

  lemma TwoBounds(x: string, y: string, a: int, b: int, size: int)
    requires size > 0 && Numeral(x) && Numeral(y)
    requires ParseInt(x) == Some(a) && ParseInt(y) == Some(b)
    ensures Bounds(x + ['-'] + y, size) == Some((if a < 0 then 0 else a, if b > size - 1 then size - 1 else b))
  {
    var spec := x + ['-'] + y;
    FindFirst(x, '-', y);
    assert spec[..|x|] == x && spec[|x| + 1..] == y && spec[0] == x[0];
    NothingToTrim(x);
    NothingToTrim(y);
  }

  lemma TwoNumerals(x: string, y: string)
    requires Numeral(x) && Numeral(y)
    ensures NoSpace(x + ['-'] + y) && ',' !in x + ['-'] + y
  {}

  /** `bytes=a-b` asks for the bytes a to b, cut at the end of the file; it is
      refused exactly when b < a or a lies past the end. */
  lemma FirstLast(a: nat, b: nat, size: int)
    requires a <= MAX_INT64 && b <= MAX_INT64 && size > 0
    ensures ParseRange(UNIT + (Digits(a) + ['-'] + Digits(b)), size) ==
      if a <= b && a < size then Range(a, if b < size then b else size - 1, true) else Whole(size)
  {
    ParseDigits(a);
    ParseDigits(b);
    ParseTwo(Digits(a), Digits(b), a, b, size);
  }

  lemma ParseTwo(x: string, y: string, a: nat, b: nat, size: int)
    requires size > 0 && Numeral(x) && Numeral(y)
    requires ParseInt(x) == Some(a) && ParseInt(y) == Some(b)
    ensures ParseRange(UNIT + (x + ['-'] + y), size) ==
      if a <= b && a < size then Range(a, if b < size then b else size - 1, true) else Whole(size)
  {
    var spec := x + ['-'] + y;
    TwoBounds(x, y, a, b, size);
    TwoNumerals(x, y);
    SpecOf(spec, size);
  }

  lemma OneBound(x: string, a: int, size: int)
    requires size > 0 && Numeral(x) && ParseInt(x) == Some(a)
    ensures Bounds(x + ['-'], size) == Some((if a < 0 then 0 else a, size - 1))
  {
    var spec := x + ['-'];
    assert spec == x + ['-'] + "";
    FindFirst(x, '-', "");
    assert spec[..|x|] == x && spec[|x| + 1..] == "" && spec[0] == x[0];
    NothingToTrim(x);
  }

  /** `bytes=a-` asks for everything from a on. */
  lemma FromFirst(a: nat, size: int)
    requires a <= MAX_INT64 && size > 0
    ensures ParseRange(UNIT + (Digits(a) + ['-']), size) == if a < size then Range(a, size - 1, true) else Whole(size)
  {
    ParseDigits(a);
    OneBound(Digits(a), a, size);
    SpecOf(Digits(a) + ['-'], size);
  }

  /** `bytes=-n` asks for the last n bytes, or for all of them. */
  lemma Suffix(n: nat, size: int)
    requires n <= MAX_INT64 && 0 < size <= MAX_INT64
    ensures ParseRange(UNIT + (['-'] + Digits(n)), size) ==
      if n > 0 then Range(if n < size then size - n else 0, size - 1, true) else Whole(size)
  {
    var x := Digits(n);
    var spec := ['-'] + x;
    SpecOf(spec, size);
    assert spec[1..] == x;
    NothingToTrim(x);
    ParseDigits(n);
  }
}
