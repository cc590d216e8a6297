/** Octets, big-endian integers and the byte buffer that every codec reads from
    and writes to. */
module Bytes {

  type byte = x: int | 0 <= x < 256

  /** Big-endian unsigned integer of 2, 4 and 8 octets. */
  type u16 = x: int | 0 <= x < 0x1_0000
  type u32 = x: int | 0 <= x < 0x1_0000_0000
  type u64 = x: int | 0 <= x < 0x1_0000_0000_0000_0000

  /** Two's complement readings of the same octets. */
  type i16 = x: int | -0x8000 <= x < 0x8000
  type i32 = x: int | -0x8000_0000 <= x < 0x8000_0000
  type i64 = x: int | -0x8000_0000_0000_0000 <= x < 0x8000_0000_0000_0000

  function U16At(b: seq<byte>, at: nat): (r: u16)
    requires at + 2 <= |b|
  {
    b[at] as int * 0x100 + b[at + 1] as int
  }

  function U32At(b: seq<byte>, at: nat): (r: u32)
    requires at + 4 <= |b|
  {
    U16At(b, at) * 0x1_0000 + U16At(b, at + 2)
  }

  function U64At(b: seq<byte>, at: nat): (r: u64)
    requires at + 8 <= |b|
  {
    U32At(b, at) * 0x1_0000_0000 + U32At(b, at + 4)
  }

  /** The value of octets as digits to the base 256, the most significant first. */
  function Digits(b: seq<byte>): (n: nat) {
    if b == [] then 0 else Digits(b[..|b| - 1]) * 0x100 + b[|b| - 1] as int
  }

  /** Integers are read big-endian. */
  lemma ReadsAreBigEndian(b: seq<byte>, at: nat)
    ensures at + 2 <= |b| ==> U16At(b, at) == Digits(b[at..at + 2])
    ensures at + 4 <= |b| ==> U32At(b, at) == Digits(b[at..at + 4])
    ensures at + 8 <= |b| ==> U64At(b, at) == Digits(b[at..at + 8])
  {
    if at + 2 <= |b| {
      DigitsOfTwo(b, at, []);
      assert [] + b[at..at + 2] == b[at..at + 2];
    }
    if at + 4 <= |b| {
      DigitsOfTwo(b, at, []);
      DigitsOfTwo(b, at + 2, b[at..at + 2]);
      assert [] + b[at..at + 2] == b[at..at + 2] && b[at..at + 2] + b[at + 2..at + 4] == b[at..at + 4];
    }
    if at + 8 <= |b| {
      DigitsOfTwo(b, at + 4, b[at..at + 4]);
      DigitsOfTwo(b, at + 6, b[at..at + 6]);
      assert b[at..at + 4] + b[at + 4..at + 6] == b[at..at + 6] && b[at..at + 6] + b[at + 6..at + 8] == b[at..at + 8];
    }
  }

  lemma DigitsOfTwo(b: seq<byte>, at: nat, front: seq<byte>)
    requires at + 2 <= |b|
    ensures Digits(front + b[at..at + 2]) == Digits(front) * 0x1_0000 + U16At(b, at)
  {
    var s := front + b[at..at + 2];
    var t := s[..|s| - 1];
    assert t[..|t| - 1] == front && s[|s| - 1] == b[at + 1] && t[|t| - 1] == b[at];
  }

  function PutU16(x: u16): (b: seq<byte>)
    ensures |b| == 2 && U16At(b, 0) == x
  {
    [x / 0x100, x % 0x100]
  }

  function PutU32(x: u32): (b: seq<byte>)
    ensures |b| == 4 && U32At(b, 0) == x
  {
    PutU16(x / 0x1_0000) + PutU16(x % 0x1_0000)
  }

  function PutU64(x: u64): (b: seq<byte>)
    ensures |b| == 8 && U64At(b, 0) == x
  {
    PutU32(x / 0x1_0000_0000) + PutU32(x % 0x1_0000_0000)
  }

  function Signed16(x: u16): (r: i16) { if x < 0x8000 then x else x - 0x1_0000 }
  function Signed32(x: u32): (r: i32) { if x < 0x8000_0000 then x else x - 0x1_0000_0000 }
  function Signed64(x: u64): (r: i64) {
    if x < 0x8000_0000_0000_0000 then x else x - 0x1_0000_0000_0000_0000
  }

  function Unsigned16(x: i16): (r: u16)
    ensures Signed16(r) == x
  {
    if x >= 0 then x else x + 0x1_0000
  }

  function Unsigned32(x: i32): (r: u32)
    ensures Signed32(r) == x
  {
    if x >= 0 then x else x + 0x1_0000_0000
  }

  function Unsigned64(x: i64): (r: u64)
    ensures Signed64(r) == x
  {
    if x >= 0 then x else x + 0x1_0000_0000_0000_0000
  }

  /** Writing an integer anywhere in a larger sequence reads back. */
  lemma PutAnywhere16(pre: seq<byte>, x: u16, post: seq<byte>)
    ensures U16At(pre + PutU16(x) + post, |pre|) == x
  {
    var b := pre + PutU16(x) + post;
    assert b[|pre|] == PutU16(x)[0] && b[|pre| + 1] == PutU16(x)[1];
  }

  lemma PutAnywhere32(pre: seq<byte>, x: u32, post: seq<byte>)
    ensures U32At(pre + PutU32(x) + post, |pre|) == x
  {
    var b := pre + PutU32(x) + post;
    assert forall i | 0 <= i < 4 :: b[|pre| + i] == PutU32(x)[i];
  }

  lemma PutAnywhere64(pre: seq<byte>, x: u64, post: seq<byte>)
    ensures U64At(pre + PutU64(x) + post, |pre|) == x
  {
    var b := pre + PutU64(x) + post;
    assert forall i | 0 <= i < 8 :: b[|pre| + i] == PutU64(x)[i];
  }

  // Octets are the integer they read as, written.

  lemma Rewrite16(b: seq<byte>)
    requires |b| == 2
    ensures PutU16(U16At(b, 0)) == b
  {
  }

  lemma Rewrite32(b: seq<byte>)
    requires |b| == 4
    ensures PutU32(U32At(b, 0)) == b
  {
    Rewrite16(b[..2]);
    Rewrite16(b[2..]);
    assert b == b[..2] + b[2..];
  }

  lemma {:induction false} Rewrite64(b: seq<byte>)
    requires |b| == 8
    ensures PutU64(U64At(b, 0)) == b
  {
    assert U32At(b, 0) == U32At(b[..4], 0) && U32At(b, 4) == U32At(b[4..], 0);
    hide U32At, PutU32;
    Rewrite32(b[..4]);
    Rewrite32(b[4..]);
    assert b == b[..4] + b[4..];
    assert U64At(b, 0) / 0x1_0000_0000 == U32At(b, 0) && U64At(b, 0) % 0x1_0000_0000 == U32At(b, 4);
  }

  /** Chunks put together. */
  function Flat(chunks: seq<seq<byte>>): (s: seq<byte>) {
    if chunks == [] then [] else chunks[0] + Flat(chunks[1..])
  }

  lemma SliceOfFront(b: seq<byte>, c: seq<byte>, lo: nat, hi: nat)
    requires lo <= hi <= |b|
    ensures (b + c)[lo..hi] == b[lo..hi]
  {
  }

  /** A mutable byte buffer: a queue of octets, drained at the front and extended at the back. */
  class Buffer {
    var data: seq<byte>

    constructor (initial: seq<byte>)
      ensures data == initial
    {
      data := initial;
    }

    method Drain(n: nat)
      requires n <= |data|
      modifies this
      ensures data == old(data)[n..]
    {
      data := data[n..];
    }

    method Add(bytes: seq<byte>)
      modifies this
      ensures data == old(data) + bytes
    {
      data := data + bytes;
    }

    /** Move the first `n` octets of `source` to the end of this buffer. */
    method MoveFrom(source: Buffer, n: nat)
      requires source != this
      requires n <= |source.data|
      modifies this, source
      ensures data == old(data) + old(source.data)[..n]
      ensures source.data == old(source.data)[n..]
    {
      data := data + source.data[..n];
      source.data := source.data[n..];
    }
  }
}
