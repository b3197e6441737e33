/** Fixed-width integers in byte strings: the packing rules of the record formats. */
module Binary {
  type byte = x: int | 0 <= x < 256
  type bytes = seq<byte>

  function Pow256(n: nat): nat {
    if n == 0 then 1 else 256 * Pow256(n - 1)
  }

  /** `value` in `width` bytes, least significant byte first. */
  function LittleEndian(value: nat, width: nat): (b: bytes)
    ensures |b| == width
  {
    if width == 0 then [] else [value % 256] + LittleEndian(value / 256, width - 1)
  }

  function FromLittleEndian(b: bytes): nat {
    if b == [] then 0 else b[0] + 256 * FromLittleEndian(b[1..])
  }

  /** `value` in `width` bytes, most significant byte first. */
  function BigEndian(value: nat, width: nat): (b: bytes)
    ensures |b| == width
  {
    if width == 0 then [] else BigEndian(value / 256, width - 1) + [value % 256]
  }

  function FromBigEndian(b: bytes): nat {
    if b == [] then 0 else 256 * FromBigEndian(b[..|b| - 1]) + b[|b| - 1]
  }

  lemma {:induction false} LittleEndianRoundTrip(value: nat, width: nat)
    requires value < Pow256(width)
    ensures FromLittleEndian(LittleEndian(value, width)) == value
  {
    if width > 0 {
      LittleEndianRoundTrip(value / 256, width - 1);
      assert LittleEndian(value, width)[1..] == LittleEndian(value / 256, width - 1);
    }
  }

  lemma {:induction false} LittleEndianSurjective(b: bytes)
    ensures FromLittleEndian(b) < Pow256(|b|)
    ensures LittleEndian(FromLittleEndian(b), |b|) == b
  {
    if b != [] {
      LittleEndianSurjective(b[1..]);
    }
  }

  lemma {:induction false} BigEndianRoundTrip(value: nat, width: nat)
    requires value < Pow256(width)
    ensures FromBigEndian(BigEndian(value, width)) == value
  {
    if width > 0 {
      BigEndianRoundTrip(value / 256, width - 1);
      var b := BigEndian(value, width);
      assert b[..|b| - 1] == BigEndian(value / 256, width - 1);
    }
  }

  /** Unaligned little-endian reads. */
  function U16(b: bytes, at: nat): nat
    requires at + 2 <= |b|
  {
    (b[at] as int) + 256 * (b[at + 1] as int)
  }

  lemma ShortReads(b: bytes)
    requires |b| == 2
    ensures FromLittleEndian(b) == U16(b, 0)
  {
    assert b[1..][1..] == [] && FromLittleEndian(b[1..]) == b[1];
  }

  lemma U16OfLittleEndian(b: bytes, at: nat, v: nat)
    requires at + 2 <= |b| && v < 0x10000
    ensures b[at..at + 2] == LittleEndian(v, 2) <==> U16(b, at) == v
  {
    assert Pow256(2) == 0x10000;
    ShortReads(b[at..at + 2]);
    LittleEndianRoundTrip(v, 2);
    LittleEndianSurjective(b[at..at + 2]);
  }

  /** The parts of a concatenation, by position. */
  lemma FourParts<T>(a: seq<T>, b: seq<T>, c: seq<T>, d: seq<T>)
    ensures var s := a + b + c + d;
            && |s| == |a| + |b| + |c| + |d|
            && s[..|a|] == a
            && s[|a|..|a| + |b|] == b
            && s[|a| + |b|..|a| + |b| + |c|] == c
            && s[|a| + |b| + |c|..] == d
  {
  }

  /** A slice of a slice is a slice. */
  lemma SubSlice<T>(s: seq<T>, from: nat, to: nat, i: nat, j: nat)
    requires from <= to <= |s| && i <= j <= to - from
    ensures s[from..to][i..j] == s[from + i..from + j]
  {
    var a, b := s[from..to][i..j], s[from + i..from + j];
    assert |a| == |b| && forall k | 0 <= k < |a| :: a[k] == b[k];
  }
}
