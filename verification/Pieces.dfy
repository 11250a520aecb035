/** How a file of `size` bytes is cut into pieces of `len` bytes. */
module Pieces {

  /** Number of pieces: a ceiling division, 0 for degenerate sessions. */
  function PieceCount(size: int, len: int): nat {
    if size <= 0 || len <= 0 then 0 else (size + len - 1) / len
  }

  function PieceLo(len: int, i: int): int { i * len }

  function PieceHi(size: int, len: int, i: int): int {
    if i * len + len > size then size else i * len + len
  }

  /** Go's integer division truncates toward zero. */
  function GoDiv(a: int, b: int): int
    requires b > 0
  {
    if a >= 0 then a / b else -((-a) / b)
  }

  lemma MulLeq(a: int, b: int, c: int)
    requires a <= b && c >= 0
    ensures a * c <= b * c
  {}

  lemma CountBounds(size: int, len: int)
    requires size > 0 && len > 0
    ensures PieceCount(size, len) >= 1
    ensures (PieceCount(size, len) - 1) * len < size <= PieceCount(size, len) * len
  {
    var n := PieceCount(size, len);
    assert size + len - 1 == n * len + (size + len - 1) % len;
    assert (n - 1) * len == n * len - len;
    if n < 1 {
      MulLeq(n, 0, len);
    }
  }

  /** The pieces tile [0, size): each is non-empty, at most `len` long, and
      starts where the previous one ends. */
  lemma PiecesTile(size: int, len: int, i: int)
    requires size > 0 && len > 0 && 0 <= i < PieceCount(size, len)
    ensures 0 <= PieceLo(len, i) < PieceHi(size, len, i) <= size
    ensures PieceHi(size, len, i) - PieceLo(len, i) <= len
    ensures PieceHi(size, len, i) == if i + 1 < PieceCount(size, len) then PieceLo(len, i + 1) else size
  {
    var n := PieceCount(size, len);
    CountBounds(size, len);
    MulLeq(0, i, len);
    MulLeq(i, n - 1, len);
    assert (i + 1) * len == i * len + len;
    if i + 1 < n {
      MulLeq(i + 1, n - 1, len);
    }
  }

  lemma PiecesOrdered(size: int, len: int, i: int, j: int)
    requires size > 0 && len > 0 && 0 <= i < j < PieceCount(size, len)
    ensures PieceHi(size, len, i) <= PieceLo(len, j)
  {
    PiecesTile(size, len, i);
    assert (i + 1) * len == i * len + len;
    MulLeq(i + 1, j, len);
  }

  /** Every byte lies in exactly the piece its quotient names. */
  lemma PieceOfByte(size: int, len: int, x: int)
    requires len > 0 && 0 <= x < size
    ensures 0 <= x / len < PieceCount(size, len)
    ensures PieceLo(len, x / len) <= x < PieceHi(size, len, x / len)
  {
    var i, n := x / len, PieceCount(size, len);
    CountBounds(size, len);
    assert x == i * len + x % len;
    if i >= n {
      MulLeq(n, i, len);
    }
    if i < 0 {
      MulLeq(i, -1, len);
    }
  }

  lemma PieceOfByteUnique(size: int, len: int, x: int, i: int)
    requires size > 0 && len > 0 && 0 <= i < PieceCount(size, len)
    requires PieceLo(len, i) <= x < PieceHi(size, len, i)
    ensures 0 <= x < size && x / len == i
  {
    PiecesTile(size, len, i);
    PieceOfByte(size, len, x);
    var j := x / len;
    if i < j {
      PiecesOrdered(size, len, i, j);
    } else if j < i {
      PiecesOrdered(size, len, j, i);
    }
  }
}
