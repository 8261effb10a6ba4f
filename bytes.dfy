/** Machine integer types, the failure wrapper and the big-endian word reader
    (`eat_u32`) that every parser of the decoder is built on. */
module Bytes {

  /** An unsigned 8-bit value (`u8`). */
  type Byte = x: int | 0 <= x < 0x100

  /** An unsigned 32-bit value (`u32`). */
  type U32 = x: int | 0 <= x < 0x1_0000_0000

  /** What an operation that the original aborts on bad input returns instead. */
  datatype Result<+T, +E> = Ok(value: T) | Err(error: E)

  datatype Option<+T> = None | Some(value: T)

  /** The big-endian value of the four bytes of `data` starting at `i`. */
  function BigEndian32(data: seq<Byte>, i: nat): (w: U32)
    requires i + 4 <= |data|
  {
    var b0: int, b1: int, b2: int, b3: int := data[i], data[i + 1], data[i + 2], data[i + 3];
    b0 * 0x100_0000 + b1 * 0x1_0000 + b2 * 0x100 + b3
  }

  /** The four bytes that encode `w` most significant first. */
  function U32Bytes(w: U32): (bytes: seq<Byte>)
    ensures |bytes| == 4
  {
    [w / 0x100_0000, w / 0x1_0000 % 0x100, w / 0x100 % 0x100, w % 0x100]
  }

  /** Reading the four bytes of `w` back gives `w`. */
  lemma U32BytesDecode(w: U32)
    ensures BigEndian32(U32Bytes(w), 0) == w
  {
    var w1 := w / 0x100;
    var w2 := w1 / 0x100;
    assert w / 0x1_0000 == w2 && w / 0x100_0000 == w2 / 0x100;
    assert w == w1 * 0x100 + w % 0x100 && w1 == w2 * 0x100 + w1 % 0x100 && w2 == w2 / 0x100 * 0x100 + w2 % 0x100;
  }

  /** Reading a word back from its four bytes recovers those bytes: no two
      byte quadruples share a big-endian value. */
  lemma {:induction false} BigEndian32Injective(data: seq<Byte>, i: nat)
    requires i + 4 <= |data|
    ensures U32Bytes(BigEndian32(data, i)) == data[i..i + 4]
  {
    var w := BigEndian32(data, i);
    var b0: int, b1: int, b2: int := data[i], data[i + 1], data[i + 2];
    assert w / 0x100_0000 == b0;
    assert w / 0x1_0000 == b0 * 0x100 + b1;
    assert w / 0x100 == b0 * 0x1_0000 + b1 * 0x100 + b2;
  }

  /** `eat_u32`: ORs the four bytes at the cursor into a 32-bit word, most
      significant first, and hands back the cursor moved past them. The
      caller's `&mut usize` cursor is the pair `i` / `next`. Each byte is
      shifted into its own 8-bit lane, above every lane already set, so each
      `|=` adds the lane's value. */
  method EatU32(i: nat, data: seq<Byte>) returns (b: U32, next: nat)
    requires i + 4 <= |data|
    ensures b == BigEndian32(data, i)
    ensures U32Bytes(b) == data[i..i + 4]
    ensures next == i + 4
  {
    var w: int := 0;
    w := w + data[3 + i];
    w := w + (data[2 + i] as int) * 0x100;
    w := w + (data[1 + i] as int) * 0x1_0000;
    w := w + (data[0 + i] as int) * 0x100_0000;
    next := i + 4;
    b := w;
    BigEndian32Injective(data, i);
  }

  /** A word is read back from wherever its four encoding bytes are placed. */
  lemma BigEndian32OfBytes(data: seq<Byte>, i: nat, w: U32)
    requires i + 4 <= |data| && data[i..i + 4] == U32Bytes(w)
    ensures BigEndian32(data, i) == w
  {
    var bytes := U32Bytes(w);
    U32BytesDecode(w);
    assert data[i] == bytes[0] && data[i + 1] == bytes[1];
    assert data[i + 2] == bytes[2] && data[i + 3] == bytes[3];
  }

  /** A window of a window is a window of the whole. */
  lemma SliceOfSlice<T>(s: seq<T>, lo: nat, hi: nat, from: nat, to: nat)
    requires lo <= hi <= |s| && from <= to <= hi - lo
    ensures s[lo..hi][from..to] == s[lo + from..lo + to]
  {
    forall k | 0 <= k < to - from
      ensures s[lo..hi][from..to][k] == s[lo + from..lo + to][k]
    {
    }
  }

  /** Slicing behind a one-element head is slicing the rest. */
  lemma ConsSlice<T>(x: T, s: seq<T>, lo: nat, hi: nat)
    requires lo <= hi <= |s|
    ensures ([x] + s)[lo + 1..hi + 1] == s[lo..hi]
  {
  }

  /** A prefix one longer is the shorter prefix and the next element. */
  lemma PrefixSnoc<T>(s: seq<T>, n: nat)
    requires n < |s|
    ensures s[..n + 1] == s[..n] + [s[n]]
  {
  }

  /** A non-empty sequence is its head in front of its tail. */
  lemma HeadTail<T>(s: seq<T>)
    requires |s| > 0
    ensures [s[0]] + s[1..] == s
  {
  }
}
