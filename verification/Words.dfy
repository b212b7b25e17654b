/**
 Machine words as the library sees them: bytes, 16- and 32-bit unsigned words,
 and their little-endian layout in memory (the library targets x86-64 only).
 */
module Words {
  type byte = x: int | 0 <= x < 0x100
  type uint16 = x: int | 0 <= x < 0x1_0000
  type uint32 = x: int | 0 <= x < 0x1_0000_0000
  type bytes = seq<byte>

  datatype Option<+T> = None | Some(value: T)

  /** `n` zero bytes, the contents of a freshly made Go slice. */
  function Zeros(n: nat): (z: bytes)
    ensures |z| == n
  {
    seq(n, _ => 0)
  }

  function Le16(w: uint16): (b: bytes)
    ensures |b| == 2
  {
    [w % 0x100, w / 0x100]
  }

  function Le32(w: uint32): (b: bytes)
    ensures |b| == 4
  {
    [w % 0x100, w / 0x100 % 0x100, w / 0x1_0000 % 0x100, w / 0x100_0000]
  }

  function Word16At(b: bytes, at: nat): uint16
    requires at + 2 <= |b|
  {
    b[at] + 0x100 * (b[at + 1] as int)
  }

  function Word32At(b: bytes, at: nat): uint32
    requires at + 4 <= |b|
  {
    b[at] + 0x100 * (b[at + 1] as int) + 0x1_0000 * (b[at + 2] as int) + 0x100_0000 * (b[at + 3] as int)
  }

  /** The low byte comes first, and each following one weighs 256 times as much. */
  lemma LowByteFirst(v: uint16, w: uint32)
    ensures v == Le16(v)[0] + 0x100 * (Le16(v)[1] as int)
    ensures var b := Le32(w);
            w == b[0] + 0x100 * (b[1] as int) + 0x1_0000 * (b[2] as int) + 0x100_0000 * (b[3] as int)
  {
    assert w / 0x1_0000 == w / 0x100 / 0x100;
    assert w / 0x100_0000 == w / 0x1_0000 / 0x100;
  }

  lemma Le16At(pre: bytes, w: uint16, post: bytes)
    ensures Word16At(pre + Le16(w) + post, |pre|) == w
  {
    var b := pre + Le16(w) + post;
    assert b[|pre|] == Le16(w)[0] && b[|pre| + 1] == Le16(w)[1];
  }

  lemma Le32At(pre: bytes, w: uint32, post: bytes)
    ensures Word32At(pre + Le32(w) + post, |pre|) == w
  {
    var b := pre + Le32(w) + post;
    assert forall k :: 0 <= k < 4 ==> b[|pre| + k] == Le32(w)[k];
    assert w / 0x1_0000 == w / 0x100 / 0x100;
    assert w / 0x100_0000 == w / 0x1_0000 / 0x100;
  }

  /** An array of words laid out one after the other. */
  function LeWords(ws: seq<uint32>): (b: bytes)
    ensures |b| == 4 * |ws|
  {
    if ws == [] then [] else Le32(ws[0]) + LeWords(ws[1..])
  }

  function WordsAt(b: bytes, at: nat, n: nat): (ws: seq<uint32>)
    requires at + 4 * n <= |b|
    ensures |ws| == n
    decreases n
  {
    if n == 0 then [] else [Word32At(b, at)] + WordsAt(b, at + 4, n - 1)
  }

  /** Reading back the words that were laid out, wherever they were put. */
  lemma {:induction false} LeWordsAt(pre: bytes, ws: seq<uint32>, post: bytes)
    ensures WordsAt(pre + LeWords(ws) + post, |pre|, |ws|) == ws
    decreases |ws|
  {
    if ws != [] {
      var b := pre + LeWords(ws) + post;
      assert b == pre + Le32(ws[0]) + (LeWords(ws[1..]) + post);
      Le32At(pre, ws[0], LeWords(ws[1..]) + post);
      assert b == (pre + Le32(ws[0])) + LeWords(ws[1..]) + post;
      LeWordsAt(pre + Le32(ws[0]), ws[1..], post);
    }
  }
}
