/** The bytes of little-endian words and of frames. */
module Bytes {
  import opened Words
  import opened Paging

  /** Four bytes, least significant first, as a word. */
  function Pack(b0: int, b1: int, b2: int, b3: int): (w: Word)
    requires 0 <= b0 < 256 && 0 <= b1 < 256 && 0 <= b2 < 256 && 0 <= b3 < 256
  {
    b0 + 256 * (b1 + 256 * (b2 + 256 * b3))
  }

  function ByteOf(w: Word, k: nat): Byte
    requires k < 4
  {
    if k == 0 then w % 256 else ByteOf(w / 256, k - 1)
  }

  lemma ByteOfPack(b0: int, b1: int, b2: int, b3: int)
    requires 0 <= b0 < 256 && 0 <= b1 < 256 && 0 <= b2 < 256 && 0 <= b3 < 256
    ensures var w := Pack(b0, b1, b2, b3);
      ByteOf(w, 0) == b0 && ByteOf(w, 1) == b1 && ByteOf(w, 2) == b2 && ByteOf(w, 3) == b3
  {
    Digit(b0, b1 + 256 * (b2 + 256 * b3));
    Digit(b1, b2 + 256 * b3);
    Digit(b2, b3);
    var w := Pack(b0, b1, b2, b3);
    assert ByteOf(w, 3) == ByteOf(w / 256, 2) == ByteOf(w / 256 / 256, 1) == ByteOf(w / 256 / 256 / 256, 0);
    assert ByteOf(w, 2) == ByteOf(w / 256, 1) == ByteOf(w / 256 / 256, 0);
  }

  lemma Digit(b: int, rest: int)
    requires 0 <= b < 256 && 0 <= rest
    ensures (b + 256 * rest) % 256 == b && (b + 256 * rest) / 256 == rest
  {
  }

  /** The word w with byte k replaced. */
  function WithByte(w: Word, k: nat, b: Byte): (r: Word)
    requires k < 4
    ensures forall j :: 0 <= j < 4 ==> ByteOf(r, j) == if j == k then b else ByteOf(w, j)
  {
    var b0 := if k == 0 then b else ByteOf(w, 0);
    var b1 := if k == 1 then b else ByteOf(w, 1);
    var b2 := if k == 2 then b else ByteOf(w, 2);
    var b3 := if k == 3 then b else ByteOf(w, 3);
    ByteOfPack(b0, b1, b2, b3);
    Pack(b0, b1, b2, b3)
  }

  /** The byte at offset o of a frame. */
  function FrameByte(f: Frame, o: nat): Byte
    requires o < 4096
  {
    ByteOf(f[o / 4], o % 4)
  }

  function SetFrameByte(f: Frame, o: nat, b: Byte): (g: Frame)
    requires o < 4096
    ensures forall i :: 0 <= i < 4096 ==> FrameByte(g, i) == if i == o then b else FrameByte(f, i)
  {
    f[o / 4 := WithByte(f[o / 4], o % 4, b)]
  }

  function U16(c: seq<Byte>, o: nat): Word
    requires o + 2 <= |c|
  {
    Pack(c[o], c[o + 1], 0, 0)
  }

  function U32(c: seq<Byte>, o: nat): Word
    requires o + 4 <= |c|
  {
    Pack(c[o], c[o + 1], c[o + 2], c[o + 3])
  }
}
