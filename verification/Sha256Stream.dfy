/** The streaming SHA-256 of the web client: whatever the pieces handed to
    `update`, the blocks compressed are those of the whole padded message.
    The compression function itself is any function on states and blocks. */
module Sha256Stream {
  import opened Wrappers

  type Bytes = seq<byte>

  const BLOCK := 64
  const TWO32 := 0x1_0000_0000
  const TWO53 := 0x20_0000_0000_0000

  newtype word = x: int | 0 <= x < 0x1_0000_0000

  /** The eight chaining words. */
  type State = h: seq<word> | |h| == 8 witness [0, 0, 0, 0, 0, 0, 0, 0]

  type Compress = (State, Bytes) -> State

  const IV: State :=
    [0x6a09e667, 0xbb67ae85, 0x3c6ef372, 0xa54ff53a, 0x510e527f, 0x9b05688c, 0x1f83d9ab, 0x5be0cd19]

  // -------------------------------------------------------------- specification

  /** Compression of the whole blocks of `s`, first block first. */
  function Fold(compress: Compress, iv: State, s: Bytes): State
    decreases |s|
  {
    if |s| < BLOCK then iv else Fold(compress, compress(iv, s[..BLOCK]), s[BLOCK..])
  }

  lemma {:induction false} FoldAppend(compress: Compress, iv: State, a: Bytes, b: Bytes)
    requires |a| % BLOCK == 0
    ensures Fold(compress, iv, a + b) == Fold(compress, Fold(compress, iv, a), b)
    decreases |a|
  {
    if a == [] {
      assert a + b == b;
    } else {
      assert (a + b)[..BLOCK] == a[..BLOCK] && (a + b)[BLOCK..] == a[BLOCK..] + b;
      FoldAppend(compress, compress(iv, a[..BLOCK]), a[BLOCK..], b);
    }
  }

  lemma FoldBlock(compress: Compress, iv: State, blocks: Bytes, block: Bytes)
    requires |blocks| % BLOCK == 0 && |block| == BLOCK
    ensures Fold(compress, iv, blocks + block) == compress(Fold(compress, iv, blocks), block)
  {
    FoldAppend(compress, iv, blocks, block);
    assert block[..BLOCK] == block;
  }

  function Zeros(n: nat): (r: Bytes)
    ensures |r| == n
  {
    seq(n, _ => 0)
  }

  /** Big-endian digits to the base 256. */
  function BigEndian(v: nat, width: nat): (r: Bytes)
    ensures |r| == width
  {
    if width == 0 then [] else BigEndian(v / 256, width - 1) + [(v % 256) as byte]
  }

  function FromBigEndian(s: Bytes): nat {
    if s == [] then 0 else FromBigEndian(s[..|s| - 1]) * 256 + s[|s| - 1] as int
  }

  function Power(width: nat): (r: nat)
    ensures r > 0
  {
    if width == 0 then 1 else 256 * Power(width - 1)
  }

  lemma {:induction false} BigEndianReadsBack(v: nat, width: nat)
    requires v < Power(width)
    ensures FromBigEndian(BigEndian(v, width)) == v
  {
    if width > 0 {
      assert BigEndian(v, width)[..width - 1] == BigEndian(v / 256, width - 1);
      BigEndianReadsBack(v / 256, width - 1);
    }
  }

  function Filler(n: nat): (k: nat)
    ensures (n + 1 + k) % BLOCK == BLOCK - 8 && k < BLOCK
  {
    (119 - n % BLOCK) % BLOCK
  }

  /** What follows a message of `total` bytes that ends in `last`. */
  function Tail(last: Bytes, total: nat): (r: Bytes)
    ensures |r| == |last| + 9 + Filler(|last|)
  {
    last + [0x80] + Zeros(Filler(|last|)) + BigEndian(8 * total, 8)
  }

  /** The padding of section 5.1.1 of FIPS 180-4. */
  function Pad(message: Bytes): Bytes {
    Tail(message, |message|)
  }

  function Digest(compress: Compress, message: Bytes): State {
    Fold(compress, IV, Pad(message))
  }

  lemma Power8()
    ensures Power(8) == 0x1_0000_0000_0000_0000
  {
    assert Power(4) == 0x1_0000_0000;
    assert Power(8) == 256 * (256 * (256 * (256 * Power(4))));
  }

  lemma PadLength(n: nat, k: nat)
    requires (n + 1 + k) % BLOCK == BLOCK - 8
    ensures (n + 9 + k) % BLOCK == 0
  {}

  /** Section 5.1.1 of FIPS 180-4: the message, one bit, zeros, and the bit
      length in the last eight bytes, high one first, in as few whole blocks as
      hold them. */
  ghost predicate IsPadding(message: Bytes, p: Bytes) {
    && |p| % 64 == 0 && |message| + 9 <= |p| < |message| + 9 + 64
    && p[..|message|] == message && p[|message|] == 0x80
    && (forall k :: |message| < k < |p| - 8 ==> p[k] == 0)
    && Spells(p[|p| - 8..], 8 * |message|)
  }

  /** Eight bytes, high one first, spell a number. */
  predicate Spells(t: Bytes, v: int) {
    |t| == 8 &&
    v == t[0] as int * 0x100_0000_0000_0000 + t[1] as int * 0x1_0000_0000_0000
       + t[2] as int * 0x100_0000_0000 + t[3] as int * 0x1_0000_0000
       + t[4] as int * 0x100_0000 + t[5] as int * 0x1_0000 + t[6] as int * 0x100 + t[7] as int
  }

  lemma PadShape(message: Bytes)
    requires 8 * |message| < TWO53
    ensures IsPadding(message, Pad(message))
  {
    var zeros, digits := Zeros(Filler(|message|)), BigEndian(8 * |message|, 8);
    PadLength(|message|, Filler(|message|));
    PadPieces(message, zeros, digits, Pad(message));
    Power8();
    BigEndianReadsBack(8 * |message|, 8);
    EightSpell(digits);
  }

  lemma {:induction false} EightSpell(t: Bytes)
    requires |t| == 8
    ensures Spells(t, FromBigEndian(t))
  {
    LastOff(t, t[..7]);
    LastOff(t[..7], t[..6]);
    LastOff(t[..6], t[..5]);
    LastOff(t[..5], t[..4]);
    LastOff(t[..4], t[..3]);
    LastOff(t[..3], t[..2]);
    LastOff(t[..2], t[..1]);
    LastOff(t[..1], t[..0]);
  }

  lemma LastOff(t: Bytes, front: Bytes)
    requires t != [] && front == t[..|t| - 1]
    ensures FromBigEndian(t) == FromBigEndian(front) * 256 + t[|t| - 1] as int
  {}

  lemma {:induction false} SameBigEndian(s: Bytes, t: Bytes)
    requires |s| == |t| && FromBigEndian(s) == FromBigEndian(t)
    ensures s == t
  {
    if s != [] {
      var n := |s| - 1;
      LastOff(s, s[..n]);
      LastOff(t, t[..n]);
      SameBigEndian(s[..n], t[..n]);
      assert s == s[..n] + [s[n]] && t == t[..n] + [t[n]];
    }
  }

  /** The standard leaves no choice: there is one such string, the one padded. */
  lemma PadUnique(message: Bytes, p: Bytes)
    requires 8 * |message| < TWO53
    ensures IsPadding(message, p) <==> p == Pad(message)
  {
    PadShape(message);
    if IsPadding(message, p) {
      var q := Pad(message);
      SameLength(message, p, q);
      EightSpell(p[|p| - 8..]);
      EightSpell(q[|q| - 8..]);
      SameBigEndian(p[|p| - 8..], q[|q| - 8..]);
      forall k | 0 <= k < |p| ensures p[k] == q[k] {
        assert k < |message| ==> p[k] == p[..|message|][k] && q[k] == q[..|message|][k];
        assert k >= |p| - 8 ==> p[k] == p[|p| - 8..][k - (|p| - 8)] && q[k] == q[|q| - 8..][k - (|q| - 8)];
      }
    }
  }

  lemma SameLength(message: Bytes, p: Bytes, q: Bytes)
    requires |p| % 64 == 0 && |q| % 64 == 0
    requires |message| + 9 <= |p| < |message| + 9 + 64 && |message| + 9 <= |q| < |message| + 9 + 64
    ensures |p| == |q|
  {}

  lemma PadPieces(message: Bytes, zeros: Bytes, digits: Bytes, p: Bytes)
    requires p == message + [0x80] + zeros + digits && |digits| == 8
    ensures p[..|message|] == message && p[|message|] == 0x80 && p[|p| - 8..] == digits
    ensures forall k :: |message| < k < |p| - 8 ==> p[k] == zeros[k - |message| - 1]
  {}

  /** Different messages are padded differently. */
  lemma PadInjective(m: Bytes, n: Bytes)
    requires 8 * |m| < TWO53 && 8 * |n| < TWO53 && Pad(m) == Pad(n)
    ensures m == n
  {
    PadShape(m);
    PadShape(n);
  }

  lemma PadFromBlocks(blocks: Bytes, last: Bytes)
    requires |blocks| % BLOCK == 0
    ensures Pad(blocks + last) == blocks + Tail(last, |blocks| + |last|)
  {
    assert (|blocks| + |last|) % BLOCK == |last| % BLOCK;
  }

  // ------------------------------------------------------------ the hex digest

  function HexDigit(d: int): char
    requires 0 <= d < 16
  {
    if d < 10 then '0' + d as char else 'a' + (d - 10) as char
  }

  function DigitOf(c: char): (d: nat)
    ensures d < 16
  {
    if '0' <= c <= '9' then (c - '0') as int
    else if 'a' <= c <= 'f' then (c - 'a') as int + 10
    else 0
  }

  /** A number to the base 16 without leading zeros. */
  function ToHex(v: nat): (r: string)
    ensures |r| > 0
  {
    if v < 16 then [HexDigit(v)] else ToHex(v / 16) + [HexDigit(v % 16)]
  }

  function FromHex(s: string): nat {
    if s == [] then 0 else FromHex(s[..|s| - 1]) * 16 + DigitOf(s[|s| - 1])
  }

  /** Zeros in front of a number, then its last eight digits. */
  function WordHex(w: word): (r: string)
    ensures |r| == 8
  {
    var s := "00000000" + ToHex(w as int);
    s[|s| - 8..]
  }

  function HexDigest(words: seq<word>): string {
    if words == [] then "" else HexDigest(words[..|words| - 1]) + WordHex(words[|words| - 1])
  }

  function SixteenTo(k: nat): (r: nat)
    ensures r > 0
  {
    if k == 0 then 1 else 16 * SixteenTo(k - 1)
  }

  lemma {:induction false} ToHexReadsBack(v: nat, k: nat)
    requires v < SixteenTo(k) && k > 0
    ensures |ToHex(v)| <= k && FromHex(ToHex(v)) == v
    decreases k
  {
    if v < 16 {
      assert FromHex(ToHex(v)[..0]) == 0;
    } else {
      assert ToHex(v)[..|ToHex(v)| - 1] == ToHex(v / 16);
      ToHexReadsBack(v / 16, k - 1);
    }
  }

  lemma {:induction false} LeadingZeros(zeros: string, s: string)
    requires forall i :: 0 <= i < |zeros| ==> zeros[i] == '0'
    ensures FromHex(zeros + s) == FromHex(s)
    decreases |s|, |zeros|
  {
    if s == [] {
      assert zeros + s == zeros;
      if zeros != [] {
        LeadingZeros(zeros[..|zeros| - 1], s);
        assert zeros[..|zeros| - 1] + s == zeros[..|zeros| - 1];
      }
    } else {
      assert (zeros + s)[..|zeros + s| - 1] == zeros + s[..|s| - 1];
      LeadingZeros(zeros, s[..|s| - 1]);
    }
  }

  lemma WordHexReadsBack(w: word)
    ensures FromHex(WordHex(w)) == w as int
  {
    var t := ToHex(w as int);
    assert SixteenTo(4) == 0x1_0000;
    assert SixteenTo(8) == 16 * (16 * (16 * (16 * SixteenTo(4))));
    ToHexReadsBack(w as int, 8);
    var zeros := "00000000"[..8 - |t|];
    assert WordHex(w) == zeros + t;
    LeadingZeros(zeros, t);
  }

  /** Powers of sixteen, high digit first. */
  const PLACES := [0x1000_0000, 0x100_0000, 0x10_0000, 0x1_0000, 0x1000, 0x100, 0x10, 1]

  const DIGITS := "0123456789abcdef"

  lemma {:induction false} ToHexDigit(v: nat, k: nat, place: nat)
    requires place == SixteenTo(k) && k < |ToHex(v)|
    ensures ToHex(v)[|ToHex(v)| - 1 - k] == DIGITS[v / place % 16]
    decreases k
  {
    if k == 0 {
      LastDigit(v, ToHex(v));
    } else {
      var less := SixteenTo(k - 1);
      ToHexDigit(v / 16, k - 1, less);
      EarlierDigit(v, ToHex(v), ToHex(v / 16), k);
      DivTwice(v, less);
    }
  }

  lemma LastDigit(v: nat, t: string)
    requires t == ToHex(v)
    ensures t[|t| - 1] == DIGITS[v % 16]
  {
    DigitIs(v % 16);
  }

  lemma EarlierDigit(v: nat, t: string, front: string, k: nat)
    requires t == ToHex(v) && front == ToHex(v / 16) && 0 < k < |t|
    ensures k - 1 < |front| && t[|t| - 1 - k] == front[|front| - 1 - (k - 1)]
  {}

  lemma DigitIs(d: int)
    requires 0 <= d < 16
    ensures HexDigit(d) == DIGITS[d]
  {}

  lemma DivTwice(v: nat, b: nat)
    requires b > 0
    ensures v / 16 / b == v / (16 * b)
  {
    var q, r := v / 16, v % 16;
    assert v == 16 * q + r && q == b * (q / b) + q % b;
    DivIs(v, 16 * b, q / b, 16 * (q % b) + r);
  }

  lemma DivIs(v: nat, d: nat, q: nat, r: nat)
    requires d > 0 && v == d * q + r && r < d
    ensures v / d == q
  {
    assert v == d * (v / d) + v % d;
    if v / d < q {
      MulMono(d, v / d + 1, q);
    } else if q < v / d {
      MulMono(d, q + 1, v / d);
    }
  }

  lemma MulMono(d: nat, a: nat, b: nat)
    requires a <= b
    ensures d * a <= d * b
  {}

  lemma {:induction false} ToHexShort(v: nat, k: nat)
    requires |ToHex(v)| <= k
    ensures v < SixteenTo(k)
    decreases k
  {
    if v >= 16 { ToHexShort(v / 16, k - 1); }
  }

  lemma {:induction false} PlacesArePowers(k: nat)
    requires k < 8
    ensures PLACES[7 - k] == SixteenTo(k)
  {
    if k > 0 { PlacesArePowers(k - 1); }
  }

  /** A word is written as its eight digits to the base 16, in small letters,
      high digit first. */
  lemma WordHexDigits(w: word, k: nat)
    requires k < 8
    ensures WordHex(w)[k] == DIGITS[w as int / PLACES[k] % 16]
  {
    var t, d := ToHex(w as int), 7 - k;
    WordLength(w);
    PlacesArePowers(d);
    assert WordHex(w) == "00000000"[..8 - |t|] + t;
    if k >= 8 - |t| {
      ToHexDigit(w as int, d, PLACES[k]);
    } else {
      ToHexShort(w as int, |t|);
      SixteenMono(|t|, d);
      assert (w as int) / PLACES[k] == 0;
    }
  }

  lemma WordLength(w: word)
    ensures |ToHex(w as int)| <= 8
  {
    assert SixteenTo(4) == 0x1_0000;
    assert SixteenTo(8) == 16 * (16 * (16 * (16 * SixteenTo(4))));
    ToHexReadsBack(w as int, 8);
  }

  lemma {:induction false} SixteenMono(a: nat, b: nat)
    requires a <= b
    ensures SixteenTo(a) <= SixteenTo(b)
    decreases b
  {
    if a < b { SixteenMono(a, b - 1); }
  }

  /** The digest is the eight words one after the other. */
  lemma {:induction false} HexDigestWords(words: seq<word>, n: nat)
    requires n < |words|
    ensures |HexDigest(words)| == 8 * |words| && HexDigest(words)[8 * n..8 * n + 8] == WordHex(words[n])
  {
    var m := |words| - 1;
    HexDigestLength(words[..m]);
    if n < m {
      HexDigestWords(words[..m], n);
      assert HexDigest(words)[8 * n..8 * n + 8] == HexDigest(words[..m])[8 * n..8 * n + 8];
    }
  }

  /** Section 5.3.3 of FIPS 180-4: the initial words are the first 32 bits of
      the fractional parts of the square roots of the first eight primes. */
  lemma InitialWords(k: nat)
    requires k < 8
    ensures var prime, root := [2, 3, 5, 7, 11, 13, 17, 19][k], [1, 1, 2, 2, 3, 3, 4, 4][k] * TWO32 + IV[k] as int;
            root * root <= prime * TWO32 * TWO32 < (root + 1) * (root + 1)
  {
    assert k == 0 || k == 1 || k == 2 || k == 3 || k == 4 || k == 5 || k == 6 || k == 7;
  }

  /** Equal hex digests mean equal states. */
  lemma {:induction false} HexDigestInjective(x: seq<word>, y: seq<word>)
    requires |x| == |y| && HexDigest(x) == HexDigest(y)
    ensures x == y
  {
    if x != [] {
      var n := |x| - 1;
      HexDigestLength(x[..n]);
      HexDigestLength(y[..n]);
      LastEight(HexDigest(x[..n]), WordHex(x[n]), HexDigest(y[..n]), WordHex(y[n]));
      WordHexReadsBack(x[n]);
      WordHexReadsBack(y[n]);
      HexDigestInjective(x[..n], y[..n]);
      assert x == x[..n] + [x[n]] && y == y[..n] + [y[n]];
    }
  }

  lemma {:induction false} HexDigestLength(words: seq<word>)
    ensures |HexDigest(words)| == 8 * |words|
  {
    if words != [] {
      HexDigestLength(words[..|words| - 1]);
    }
  }

  lemma LastEight(a: string, b: string, c: string, d: string)
    requires |b| == |d| && a + b == c + d
    ensures a == c && b == d
  {
    assert a == (a + b)[..|a|] && c == (c + d)[..|c|];
    assert b == (a + b)[|a|..] && d == (c + d)[|c|..];
  }

  // ------------------------------------------------------------- the hash object

  /** The four low bytes of a number, high one first. */
  function FourBytes(v: nat): (r: Bytes)
    ensures |r| == 4
  {
    [(v / 0x100_0000 % 256) as byte, (v / 0x1_0000 % 256) as byte, (v / 256 % 256) as byte, (v % 256) as byte]
  }

  lemma LastFour(v: nat, width: nat)
    requires width >= 4
    ensures BigEndian(v, width) == BigEndian(v / TWO32, width - 4) + FourBytes(v)
  {
    var a, b, c := v / 256, v / 0x1_0000, v / 0x100_0000;
    assert a / 256 == b && b / 256 == c && c / 256 == v / TWO32;
    assert BigEndian(c, width - 3) == BigEndian(v / TWO32, width - 4) + [(c % 256) as byte];
    assert BigEndian(b, width - 2) == BigEndian(c, width - 3) + [(b % 256) as byte];
    assert BigEndian(a, width - 1) == BigEndian(b, width - 2) + [(a % 256) as byte];
  }

  /** The two 32-bit halves of a bit length spell the whole. */
  lemma BigEndianHalves(v: nat)
    ensures BigEndian(v, 8) == FourBytes(v / TWO32) + FourBytes(v % TWO32)
  {
    LastFour(v, 8);
    LastFour(v / TWO32, 4);
    LowBytes(v, v / TWO32, v % TWO32);
  }

  lemma LowBytes(v: nat, q: nat, r: nat)
    requires v == TWO32 * q + r
    ensures FourBytes(v) == FourBytes(r)
  {
    assert v / 0x100_0000 == 0x100 * q + r / 0x100_0000;
    assert v / 0x1_0000 == 0x1_0000 * q + r / 0x1_0000;
    assert v / 0x100 == 0x100_0000 * q + r / 0x100;
    SameByte(v / 0x100_0000, q, r / 0x100_0000);
    SameByte(v / 0x1_0000, 0x100 * q, r / 0x1_0000);
    SameByte(v / 0x100, 0x1_0000 * q, r / 0x100);
    SameByte(v, 0x100_0000 * q, r);
  }

  lemma SameByte(x: nat, k: nat, y: nat)
    requires x == 256 * k + y
    ensures x % 256 == y % 256
  {}

  /** The eight length bytes hex() writes. */
  function LengthBytes(bits: nat): (r: Bytes)
    ensures |r| == 8
  {
    FourBytes(bits / TWO32) + FourBytes(bits % TWO32)
  }

  lemma FillerValue(n: nat)
    requires n < BLOCK
    ensures Filler(n) == if n <= 55 then 55 - n else 119 - n
  {}

  lemma TailBytes(last: Bytes, total: nat, zeros: Bytes, bits: nat)
    requires bits == 8 * total && zeros == Zeros(Filler(|last|))
    ensures Tail(last, total) == last + [0x80] + zeros + LengthBytes(bits)
  {
    BigEndianHalves(bits);
  }

  lemma DigestFromTail(compress: Compress, blocks: Bytes, last: Bytes, tail: Bytes)
    requires |blocks| % BLOCK == 0 && tail == Tail(last, |blocks| + |last|)
    ensures Digest(compress, blocks + last) == Fold(compress, Fold(compress, IV, blocks), tail)
  {
    PadFromBlocks(blocks, last);
    FoldAppend(compress, IV, blocks, tail);
  }

  lemma FoldOne(compress: Compress, iv: State, block: Bytes)
    requires |block| == BLOCK
    ensures Fold(compress, iv, block) == compress(iv, block)
  {
    assert block[..BLOCK] == block;
  }

  lemma FoldTwo(compress: Compress, iv: State, block: Bytes, final: Bytes)
    requires |block| == BLOCK && |final| == BLOCK
    ensures Fold(compress, iv, block + final) == compress(compress(iv, block), final)
  {
    FoldAppend(compress, iv, block, final);
    FoldOne(compress, iv, block);
    FoldOne(compress, compress(iv, block), final);
  }

  lemma {:induction false} ShortTail(compress: Compress, blocks: Bytes, last: Bytes, bits: nat, block: Bytes)
    requires |blocks| % BLOCK == 0 && |last| <= 55 && bits == 8 * (|blocks| + |last|)
    requires block == last + [0x80] + Zeros(55 - |last|) + LengthBytes(bits)
    ensures compress(Fold(compress, IV, blocks), block) == Digest(compress, blocks + last)
  {
    FillerValue(|last|);
    TailBytes(last, |blocks| + |last|, Zeros(55 - |last|), bits);
    DigestFromTail(compress, blocks, last, block);
    FoldOne(compress, Fold(compress, IV, blocks), block);
  }

  lemma {:induction false} LongTail(compress: Compress, blocks: Bytes, last: Bytes, bits: nat, block: Bytes, final: Bytes)
    requires |blocks| % BLOCK == 0 && 56 <= |last| < BLOCK && bits == 8 * (|blocks| + |last|)
    requires block == last + [0x80] + Zeros(63 - |last|)
    requires final == Zeros(56) + LengthBytes(bits)
    ensures compress(compress(Fold(compress, IV, blocks), block), final) == Digest(compress, blocks + last)
  {
    var zeros := Zeros(63 - |last|) + Zeros(56);
    FillerValue(|last|);
    assert zeros == Zeros(119 - |last|);
    TailBytes(last, |blocks| + |last|, zeros, bits);
    TwoBlocks(last, Zeros(63 - |last|), Zeros(56), LengthBytes(bits));
    DigestFromTail(compress, blocks, last, block + final);
    FoldTwo(compress, Fold(compress, IV, blocks), block, final);
  }

  lemma TwoBlocks(last: Bytes, x: Bytes, y: Bytes, z: Bytes)
    ensures (last + [0x80] + x) + (y + z) == last + [0x80] + (x + y) + z
  {}

  method ZeroFill(tail: array<byte>, from: nat, to: nat)
    requires from <= to <= tail.Length
    modifies tail
    ensures tail[..to] == old(tail[..from]) + Zeros(to - from)
  {
    var tp := from;
    while tp < to
      invariant from <= tp <= to && tail[..tp] == old(tail[..from]) + Zeros(tp - from)
    {
      tail[tp] := 0;
      tp := tp + 1;
    }
  }

  method PutFour(tail: array<byte>, at: nat, v: nat)
    requires at + 4 <= tail.Length
    modifies tail
    ensures tail[..at + 4] == old(tail[..at]) + FourBytes(v)
  {
    tail[at] := (v / 0x100_0000 % 256) as byte;
    tail[at + 1] := (v / 0x1_0000 % 256) as byte;
    tail[at + 2] := (v / 256 % 256) as byte;
    tail[at + 3] := (v % 256) as byte;
  }

  method FinalBlock(tail: array<byte>, tp: nat, bits: nat)
    requires tp <= 56 && tail.Length >= BLOCK
    modifies tail
    ensures tail[..BLOCK] == old(tail[..tp]) + Zeros(56 - tp) + LengthBytes(bits)
  {
    ZeroFill(tail, tp, 56);
    PutFour(tail, 56, bits / TWO32);
    PutFour(tail, 60, bits % TWO32);
  }

  lemma InThreeParts(was: Bytes, bytes: Bytes, pos: nat, next: nat)
    requires pos <= next <= |bytes|
    ensures was + bytes[..pos] + bytes[pos..next] + bytes[next..] == was + bytes
  {}

  class Hasher {
    const compress: Compress
    var h: State
    const buf: array<byte>
    var bufLen: nat
    var len: nat
    /** Everything passed to Update so far, and the part already compressed. */
    ghost var message: Bytes
    ghost var blocks: Bytes

    /** The state is that of absorbing `message`. */
    ghost predicate Absorbed()
      reads this, buf
    {
      && buf.Length == BLOCK && bufLen < BLOCK && |blocks| % BLOCK == 0
      && message == blocks + buf[..bufLen]
      && h == Fold(compress, IV, blocks)
    }

    ghost predicate Valid()
      reads this, buf
    {
      Absorbed() && len == |message|
    }

    constructor (compress: Compress)
      ensures Valid() && message == [] && this.compress == compress && fresh(buf)
    {
      this.compress := compress;
      h := IV;
      buf := new byte[BLOCK](_ => 0);
      bufLen := 0;
      len := 0;
      message, blocks := [], [];
      new;
      assert buf[..0] == [];
    }

    ghost method Note(block: Bytes)
      requires |blocks| % BLOCK == 0 && |block| == BLOCK
      modifies `blocks
      ensures blocks == old(blocks) + block && |blocks| % BLOCK == 0
      ensures Fold(compress, IV, blocks) == compress(Fold(compress, IV, old(blocks)), block)
    {
      FoldBlock(compress, IV, blocks, block);
      blocks := blocks + block;
    }

    /** Fill up a buffer that is not empty, and compress it once full. */
    method TopUp(bytes: Bytes) returns (pos: nat)
      requires Absorbed()
      modifies `h, `bufLen, `message, `blocks, buf
      ensures pos <= |bytes| && (bufLen > 0 ==> pos == |bytes|)
      ensures Absorbed() && message == old(message) + bytes[..pos]
    {
      pos := 0;
      if bufLen > 0 {
        var take := if BLOCK - bufLen < |bytes| then BLOCK - bufLen else |bytes|;
        for i := 0 to take
          modifies buf
          invariant buf[..bufLen + i] == old(buf[..bufLen]) + bytes[..i]
        {
          buf[bufLen + i] := bytes[i];
        }
        bufLen := bufLen + take;
        pos := pos + take;
        message := message + bytes[..pos];
        assert message == blocks + buf[..bufLen];
        if bufLen == BLOCK {
          Note(buf[..BLOCK]);
          h := compress(h, buf[..BLOCK]);
          bufLen := 0;
          assert buf[..0] == [];
        }
      }
    }

    /** Compress the whole blocks from `start` on straight from the input. */
    method Runs(bytes: Bytes, start: nat) returns (pos: nat)
      requires Absorbed() && start <= |bytes| && (bufLen > 0 ==> start == |bytes|)
      modifies `h, `message, `blocks
      ensures start <= pos <= |bytes| && |bytes| - pos < BLOCK && (bufLen > 0 ==> pos == |bytes|)
      ensures Absorbed() && message == old(message) + bytes[start..pos]
    {
      pos := start;
      while pos + BLOCK <= |bytes|
        invariant start <= pos <= |bytes| && (bufLen > 0 ==> pos == |bytes|)
        invariant Absorbed() && message == old(message) + bytes[start..pos]
      {
        var block := bytes[pos..pos + BLOCK];
        assert bytes[start..pos + BLOCK] == bytes[start..pos] + block;
        Note(block);
        h := compress(h, block);
        message := message + block;
        pos := pos + BLOCK;
      }
    }

    /** Keep what is left in the buffer. */
    method Keep(bytes: Bytes, start: nat)
      requires Absorbed() && start <= |bytes| && bufLen + (|bytes| - start) < BLOCK
      modifies `bufLen, `message, buf
      ensures Absorbed() && message == old(message) + bytes[start..]
    {
      var pos := start;
      while pos < |bytes|
        invariant start <= pos <= |bytes| && bufLen + (|bytes| - pos) < BLOCK
        invariant Absorbed() && message == old(message) + bytes[start..pos]
      {
        buf[bufLen] := bytes[pos];
        message := message + [bytes[pos]];
        bufLen := bufLen + 1;
        pos := pos + 1;
      }
      assert bytes[start..] == bytes[start..|bytes|];
    }

    method Update(bytes: Bytes)
      requires Valid()
      modifies this, buf
      ensures Valid() && message == old(message) + bytes
    {
      ghost var was := message;
      len := len + |bytes|;
      var pos := TopUp(bytes);
      var next := Runs(bytes, pos);
      Keep(bytes, next);
      InThreeParts(was, bytes, pos, next);
    }

    /** The padding and the length, then the last one or two compressions. */
    method Finish()
      requires Valid() && 8 * len < TWO53
      modifies `h
      ensures h == Digest(compress, message)
    {
      var bits := len * 8;
      ghost var last := buf[..bufLen];
      var tail, tp := new byte[128](_ => 0), bufLen;
      forall i | 0 <= i < bufLen { tail[i] := buf[i]; }
      tail[tp] := 0x80;
      tp := tp + 1;
      assert tail[..tp] == last + [0x80];
      if tp > 56 {
        ZeroFill(tail, tp, BLOCK);
        ghost var block := tail[..BLOCK];
        h := compress(h, tail[..BLOCK]);
        FinalBlock(tail, 0, bits);
        LongTail(compress, blocks, last, bits, block, tail[..BLOCK]);
      } else {
        FinalBlock(tail, tp, bits);
        ShortTail(compress, blocks, last, bits, tail[..BLOCK]);
      }
      h := compress(h, tail[..BLOCK]);
    }

    /** The digest of everything absorbed. The state afterwards is the digest
        itself, so a second call would digest something else. */
    method Hex() returns (s: string)
      requires Valid() && 8 * len < TWO53
      modifies `h
      ensures h == Digest(compress, message) && s == HexDigest(h)
    {
      Finish();
      s := "";
      for i := 0 to 8
        invariant s == HexDigest(h[..i])
      {
        s := s + WordHex(h[i]);
        assert h[..i + 1][..i] == h[..i];
      }
      assert h[..8] == h;
    }
  }

  function Concat(chunks: seq<Bytes>): Bytes {
    if chunks == [] then [] else Concat(chunks[..|chunks| - 1]) + chunks[|chunks| - 1]
  }

  /** Any cut of a message into updates gives the digest of the message. */
  method HashChunks(compress: Compress, chunks: seq<Bytes>) returns (s: string)
    requires 8 * |Concat(chunks)| < TWO53
    ensures s == HexDigest(Digest(compress, Concat(chunks)))
  {
    var hasher := new Hasher(compress);
    for i := 0 to |chunks|
      invariant fresh(hasher) && fresh(hasher.buf) && hasher.Valid() && hasher.compress == compress
      invariant hasher.message == Concat(chunks[..i])
    {
      hasher.Update(chunks[i]);
      assert chunks[..i + 1][..i] == chunks[..i];
    }
    assert chunks[..|chunks|] == chunks;
    s := hasher.Hex();
  }

  lemma Grow(file: Bytes, off: nat, end: nat)
    requires off <= end <= |file|
    ensures file[..off] + file[off..end] == file[..end]
  {}

  const SLICE := 4 * 1024 * 1024

  /** A file read in slices of four mebibytes. */
  method HashFile(compress: Compress, file: Bytes) returns (s: string)
    requires 8 * |file| < TWO53
    ensures s == HexDigest(Digest(compress, file))
  {
    var hasher := new Hasher(compress);
    var off := 0;
    while off < |file|
      invariant 0 <= off <= |file|
      invariant fresh(hasher) && fresh(hasher.buf) && hasher.Valid() && hasher.compress == compress
      invariant hasher.message == file[..off]
    {
      var end := if off + SLICE < |file| then off + SLICE else |file|;
      hasher.Update(file[off..end]);
      Grow(file, off, end);
      off := end;
    }
    assert file[..off] == file;
    s := hasher.Hex();
  }
}
