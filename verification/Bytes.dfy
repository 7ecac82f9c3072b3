/** Machine integers, sectors and the little-endian layout shared by every on-disk structure. */
module Bytes {
  type byte = b: int | 0 <= b < 0x100
  type u16 = h: int | 0 <= h < 0x1_0000
  type u32 = w: int | 0 <= w < 0x1_0000_0000

  /** One disk sector, which is also one cluster: the code only supports one sector a cluster. */
  type Sector = s: seq<byte> | |s| == 512 witness seq(512, _ => 0)

  function ZeroSector(): (r: Sector)
    ensures forall j :: 0 <= j < 512 ==> r[j] == 0
  {
    seq(512, _ => 0)
  }

  function Word(s: seq<byte>, at: nat): u32
    requires at + 4 <= |s|
  {
    s[at] as int + 0x100 * s[at + 1] as int + 0x1_0000 * s[at + 2] as int + 0x100_0000 * s[at + 3] as int
  }

  function WordBytes(w: u32): (r: seq<byte>)
    ensures |r| == 4
  {
    [w % 0x100, w / 0x100 % 0x100, w / 0x1_0000 % 0x100, w / 0x100_0000]
  }

  function Half(s: seq<byte>, at: nat): u16
    requires at + 2 <= |s|
  {
    s[at] as int + 0x100 * s[at + 1] as int
  }

  function HalfBytes(h: u16): (r: seq<byte>)
    ensures |r| == 2
  {
    [h % 0x100, h / 0x100]
  }

  /** A sector read into, and written from, an array of 128 words. */
  function Words(s: Sector): (r: seq<u32>)
    ensures |r| == 128
  {
    seq(128, k requires 0 <= k < 128 => Word(s, 4 * k))
  }

  function Pack(ws: seq<u32>): Sector
    requires |ws| == 128
  {
    seq(512, j requires 0 <= j < 512 => WordBytes(ws[j / 4])[j % 4])
  }

  /** `s` with `d` written over it from position `at`. */
  function Splice<T>(s: seq<T>, at: nat, d: seq<T>): (r: seq<T>)
    requires at + |d| <= |s|
    ensures |r| == |s|
    ensures forall p :: 0 <= p < |s| ==> r[p] == if at <= p < at + |d| then d[p - at] else s[p]
  {
    s[..at] + d + s[at + |d|..]
  }

  lemma WordOfWordBytes(w: u32)
    ensures Word(WordBytes(w), 0) == w
  {
    var b := w / 0x100;
    var c := w / 0x1_0000;
    assert c == b / 0x100;
    assert w / 0x100_0000 == c / 0x100;
  }

  lemma PackThenWords(ws: seq<u32>)
    requires |ws| == 128
    ensures Words(Pack(ws)) == ws
  {
    forall k | 0 <= k < 128 ensures Word(Pack(ws), 4 * k) == ws[k] {
      PackedWord(ws, k);
    }
  }

  lemma PackedWord(ws: seq<u32>, k: nat)
    requires |ws| == 128 && k < 128
    ensures Word(Pack(ws), 4 * k) == ws[k]
  {
    WordOfWordBytes(ws[k]);
    var s := Pack(ws);
    assert forall m :: 0 <= m < 4 ==> s[4 * k + m] == WordBytes(ws[k])[m] by {
      forall m | 0 <= m < 4 ensures s[4 * k + m] == WordBytes(ws[k])[m] {
        assert (4 * k + m) / 4 == k && (4 * k + m) % 4 == m;
      }
    }
  }
}
