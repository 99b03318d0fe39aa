/** Bytes and words as a little-endian machine lays them out, and network order. */
module DayBytes {
  import opened Basics

  type Byte = x: int | 0 <= x < 256
  type Uint16 = x: int | 0 <= x < 0x1_0000

  function Join16(hi: Byte, lo: Byte): Uint16 {
    hi * 256 + lo
  }

  function Join32(b3: Byte, b2: Byte, b1: Byte, b0: Byte): Uint32 {
    b3 * 0x100_0000 + b2 * 0x1_0000 + b1 * 0x100 + b0
  }

  /** The bytes of a word in memory, lowest address first. */
  function Le16(x: Uint16): (b: seq<Byte>)
    ensures |b| == 2 && Join16(b[1], b[0]) == x
  {
    [x % 256, x / 256]
  }

  function Le32(x: Uint32): (b: seq<Byte>)
    ensures |b| == 4 && Join32(b[3], b[2], b[1], b[0]) == x
  {
    var a: nat := x / 256;
    var b: nat := a / 256;
    [x % 256, a % 256, b % 256, b / 256]
  }

  function Htons(x: Uint16): Uint16 {
    var b := Le16(x);
    Join16(b[0], b[1])
  }

  function Htonl(x: Uint32): Uint32 {
    var b := Le32(x);
    Join32(b[0], b[1], b[2], b[3])
  }

  lemma {:induction false} SplitJoin16(hi: Byte, lo: Byte)
    ensures Le16(Join16(hi, lo)) == [lo, hi]
  {
  }

  lemma {:induction false} SplitJoin32(b3: Byte, b2: Byte, b1: Byte, b0: Byte)
    ensures Le32(Join32(b3, b2, b1, b0)) == [b0, b1, b2, b3]
  {
    var x := Join32(b3, b2, b1, b0);
    var a: nat := x / 256;
    assert a == b3 * 0x1_0000 + b2 * 0x100 + b1;
    assert a / 256 == b3 * 0x100 + b2;
  }

  /** Htonl undoes itself, and stores the most significant byte first. */
  lemma {:induction false} NetworkOrder32(x: Uint32)
    ensures Htonl(Htonl(x)) == x
    ensures var b := Le32(x); Le32(Htonl(x)) == [b[3], b[2], b[1], b[0]]
    ensures Htonl(x) == 0 <==> x == 0
  {
    hide Le32, Join32;
    var b := Le32(x);
    SplitJoin32(b[0], b[1], b[2], b[3]);
    ZeroBytes();
  }

  lemma {:induction false} ZeroBytes()
    ensures Le32(0) == [0, 0, 0, 0] && Join32(0, 0, 0, 0) == 0
  {
  }

  lemma {:induction false} NetworkOrder16(x: Uint16)
    ensures Htons(Htons(x)) == x
  {
    var b := Le16(x);
    SplitJoin16(b[0], b[1]);
  }

  /** memcpy out of an array of words. */
  function Raw16(ws: seq<Uint16>): (b: seq<Byte>)
    ensures |b| == 2 * |ws|
  {
    seq(2 * |ws|, j requires 0 <= j < 2 * |ws| => Le16(ws[j / 2])[j % 2])
  }

  function Raw32(ws: seq<Uint32>): (b: seq<Byte>)
    ensures |b| == 4 * |ws|
  {
    seq(4 * |ws|, j requires 0 <= j < 4 * |ws| => Le32(ws[j / 4])[j % 4])
  }

  /** Loads of a word at an offset. */
  function Load16(b: seq<Byte>, at: nat): Uint16
    requires at + 2 <= |b|
  {
    Join16(b[at + 1], b[at])
  }

  function Load32(b: seq<Byte>, at: nat): Uint32
    requires at + 4 <= |b|
  {
    Join32(b[at + 3], b[at + 2], b[at + 1], b[at])
  }

  lemma {:induction false} LoadRaw16(pre: seq<Byte>, ws: seq<Uint16>, post: seq<Byte>, i: nat)
    requires i < |ws|
    ensures Load16(pre + Raw16(ws) + post, |pre| + 2 * i) == ws[i]
  {
    hide Le16, Join16;
    var b := pre + Raw16(ws) + post;
    assert b[|pre| + 2 * i] == Raw16(ws)[2 * i] == Le16(ws[i])[0];
    assert b[|pre| + 2 * i + 1] == Raw16(ws)[2 * i + 1] == Le16(ws[i])[1];
  }

  lemma {:induction false} LoadRaw32(pre: seq<Byte>, ws: seq<Uint32>, post: seq<Byte>, i: nat)
    requires i < |ws|
    ensures Load32(pre + Raw32(ws) + post, |pre| + 4 * i) == ws[i]
  {
    hide Le32, Join32;
    var b := pre + Raw32(ws) + post;
    var k := |pre| + 4 * i;
    assert b[k] == Raw32(ws)[4 * i] == Le32(ws[i])[0];
    assert b[k + 1] == Raw32(ws)[4 * i + 1] == Le32(ws[i])[1];
    assert b[k + 2] == Raw32(ws)[4 * i + 2] == Le32(ws[i])[2];
    assert b[k + 3] == Raw32(ws)[4 * i + 3] == Le32(ws[i])[3];
  }
}
