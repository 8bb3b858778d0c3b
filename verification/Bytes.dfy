/** Byte strings: cutting one into equal pieces, joining pieces, and the little-endian length prefix. */
module Bytes {
  type byte = x: int | 0 <= x < 256

  type Bytes = seq<byte>

  function Min(a: int, b: int): int {
    if a < b then a else b
  }

  function Join(parts: seq<Bytes>): Bytes {
    if parts == [] then [] else parts[0] + Join(parts[1..])
  }

  function TotalLength(parts: seq<Bytes>): nat {
    if parts == [] then 0 else |parts[0]| + TotalLength(parts[1..])
  }

  lemma {:induction false} JoinConcat(a: seq<Bytes>, b: seq<Bytes>)
    ensures Join(a + b) == Join(a) + Join(b)
    ensures TotalLength(a + b) == TotalLength(a) + TotalLength(b)
  {
    if a == [] {
      assert a + b == b;
    } else {
      assert (a + b)[1..] == a[1..] + b;
      JoinConcat(a[1..], b);
    }
  }

  lemma JoinSnoc(a: seq<Bytes>, p: Bytes)
    ensures Join(a + [p]) == Join(a) + p
    ensures TotalLength(a + [p]) == TotalLength(a) + |p|
  {
    JoinConcat(a, [p]);
    assert [p][1..] == [];
  }

  lemma {:induction false} JoinLength(parts: seq<Bytes>)
    ensures |Join(parts)| == TotalLength(parts)
  {
    if parts != [] {
      JoinLength(parts[1..]);
    }
  }

  /** Number of pieces of at most `size` bytes. */
  function PieceCount(length: nat, size: nat): nat
    requires size > 0
  {
    (length + size - 1) / size
  }

  /** Piece `i` of `b`, the bytes from `i * size` up to the next cut or the end. */
  function Piece(b: Bytes, size: nat, i: nat): Bytes
    requires size > 0 && i < PieceCount(|b|, size)
  {
    PieceBounds(|b|, size, i);
    b[i * size..Min((i + 1) * size, |b|)]
  }

  lemma PieceBounds(length: nat, size: nat, i: nat)
    requires size > 0 && i < PieceCount(length, size)
    ensures 0 <= i * size < length
    ensures i * size < Min((i + 1) * size, length) <= length
    ensures (i + 1) * size < length <==> i + 1 < PieceCount(length, size)
  {
    var n := PieceCount(length, size);
    var r := (length + size - 1) % size;
    assert length + size - 1 == n * size + r && 0 <= r < size;
    assert i * size <= (n - 1) * size by { MulMonotone(i, n - 1, size); }
    assert (n - 1) * size == n * size - size;
    assert (i + 1) * size == i * size + size;
    if i + 1 < n {
      assert (i + 1) * size <= (n - 1) * size by { MulMonotone(i + 1, n - 1, size); }
    }
  }

  lemma MulMonotone(a: nat, b: nat, c: nat)
    requires a <= b
    ensures a * c <= b * c
  {
  }

  function Pieces(b: Bytes, size: nat): (pieces: seq<Bytes>)
    requires size > 0
    ensures |pieces| == PieceCount(|b|, size)
  {
    seq(PieceCount(|b|, size), i requires 0 <= i < PieceCount(|b|, size) => Piece(b, size, i))
  }

  lemma {:induction false} JoinFirstPieces(b: Bytes, size: nat, n: nat)
    requires size > 0 && n <= PieceCount(|b|, size)
    ensures n * size <= |b| || n == PieceCount(|b|, size)
    ensures Join(Pieces(b, size)[..n]) == b[..Min(n * size, |b|)]
  {
    if n > 0 {
      JoinFirstPieces(b, size, n - 1);
      PieceBounds(|b|, size, n - 1);
      assert Pieces(b, size)[..n] == Pieces(b, size)[..n - 1] + [Piece(b, size, n - 1)];
      JoinSnoc(Pieces(b, size)[..n - 1], Piece(b, size, n - 1));
    }
  }

  /** Cutting loses nothing: the pieces of `b`, in order, are `b`. */
  lemma PiecesJoin(b: Bytes, size: nat)
    requires size > 0
    ensures Join(Pieces(b, size)) == b
    ensures forall p :: p in Pieces(b, size) ==> 1 <= |p| <= size
  {
    var n := PieceCount(|b|, size);
    JoinFirstPieces(b, size, n);
    assert Pieces(b, size)[..n] == Pieces(b, size);
    assert n * size >= |b|;
    forall i | 0 <= i < n ensures 1 <= |Pieces(b, size)[i]| <= size {
      PieceBounds(|b|, size, i);
      assert (i + 1) * size == i * size + size;
    }
  }

  // ---------- u32 little endian ----------

  const U32: nat := 0x1_0000_0000

  /** `setUint32(.., n, true)`: the low 32 bits of `n`. */
  function LittleEndian(n: nat): (b: Bytes)
    ensures |b| == 4
  {
    [n % 256, n / 256 % 256, n / 256 / 256 % 256, n / 256 / 256 / 256 % 256]
  }

  function FromLittleEndian(b: Bytes): nat
    requires |b| == 4
  {
    b[0] as int + 256 * (b[1] as int + 256 * (b[2] as int + 256 * (b[3] as int)))
  }

  lemma LittleEndianRoundTrips(n: nat)
    requires n < U32
    ensures FromLittleEndian(LittleEndian(n)) == n
  {
  }

  lemma LittleEndianIsOnto(b: Bytes)
    requires |b| == 4
    ensures FromLittleEndian(b) < U32 && LittleEndian(FromLittleEndian(b)) == b
  {
    var high2: nat := b[2] as int + 256 * (b[3] as int);
    var high1: nat := b[1] as int + 256 * high2;
    LowByte(b[0], high1);
    LowByte(b[1], high2);
    LowByte(b[2], b[3]);
  }

  lemma LowByte(low: byte, high: nat)
    ensures (low as int + 256 * high) % 256 == low && (low as int + 256 * high) / 256 == high
  {
  }
}
