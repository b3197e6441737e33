/**
 The fixed parts of a ZIP central directory: little-endian fields packed one after another without
 padding (PKWARE APPNOTE.TXT sections 4.3.12 and 4.3.16).
 */
module ZipHeaders {
  import opened Binary

  // ------------------------------------------------------------------ packed fields

  function Total(widths: seq<nat>): nat {
    if widths == [] then 0 else widths[0] + Total(widths[1..])
  }

  /** Each value in its width, in order. */
  function Pack(values: seq<nat>, widths: seq<nat>): (b: bytes)
    requires |values| == |widths|
    ensures |b| == Total(widths)
  {
    if values == [] then [] else LittleEndian(values[0], widths[0]) + Pack(values[1..], widths[1..])
  }

  function Unpack(b: bytes, widths: seq<nat>): (values: seq<nat>)
    requires |b| == Total(widths)
    ensures |values| == |widths|
  {
    if widths == [] then [] else [FromLittleEndian(b[..widths[0]])] + Unpack(b[widths[0]..], widths[1..])
  }

  /** Each value fits its width. */
  ghost predicate Fit(values: seq<nat>, widths: seq<nat>) {
    |values| == |widths| && forall i | 0 <= i < |values| :: values[i] < Pow256(widths[i])
  }

  /** Unpacking gives back the values that were packed. */
  lemma {:induction false} UnpackPacked(values: seq<nat>, widths: seq<nat>)
    requires Fit(values, widths)
    ensures Unpack(Pack(values, widths), widths) == values
  {
    if values != [] {
      var b := Pack(values, widths);
      LittleEndianRoundTrip(values[0], widths[0]);
      UnpackPacked(values[1..], widths[1..]);
      assert b[..widths[0]] == LittleEndian(values[0], widths[0]) && b[widths[0]..] == Pack(values[1..], widths[1..]);
    }
  }

  /** And every string of the right length is what the values read from it are packed into. */
  lemma {:induction false} PackUnpacked(b: bytes, widths: seq<nat>)
    requires |b| == Total(widths)
    ensures Fit(Unpack(b, widths), widths) && Pack(Unpack(b, widths), widths) == b
  {
    if widths != [] {
      var first, rest := b[..widths[0]], b[widths[0]..];
      LittleEndianSurjective(first);
      PackUnpacked(rest, widths[1..]);
      var values := Unpack(b, widths);
      assert values[1..] == Unpack(rest, widths[1..]);
      assert forall i | 1 <= i < |values| :: values[i] == values[1..][i - 1] && widths[i] == widths[1..][i - 1];
      assert first + rest == b;
    }
  }

  // ------------------------------------------------------------------ directory headers

  /** The fields of a directory header, in the order they are packed: "<4sHHHHHHIIIHHHHHII". */
  datatype Header = Header(
    signature: nat, versionMade: nat, versionNeeded: nat, flags: nat, compression: nat, time: nat, date: nat,
    crc: nat, compressedSize: nat, expandedSize: nat, nameLength: nat, extraLength: nat, commentLength: nat,
    diskStart: nat, internalAttributes: nat, externalAttributes: nat, localOffset: nat)

  const HEADER_SIZE: nat := 46
  const HEADER_WIDTHS: seq<nat> := Times(4, 1) + Times(2, 6) + Times(4, 3) + Times(2, 5) + Times(4, 2)

  function HeaderValues(h: Header): (values: seq<nat>)
    ensures |values| == |HEADER_WIDTHS|
  {
    [h.signature, h.versionMade, h.versionNeeded, h.flags, h.compression, h.time, h.date, h.crc, h.compressedSize,
     h.expandedSize, h.nameLength, h.extraLength, h.commentLength, h.diskStart, h.internalAttributes,
     h.externalAttributes, h.localOffset]
  }

  ghost predicate HeaderFits(h: Header) {
    Fit(HeaderValues(h), HEADER_WIDTHS)
  }

  function HeaderOf(values: seq<nat>): Header
    requires |values| == |HEADER_WIDTHS|
  {
    Header(values[0], values[1], values[2], values[3], values[4], values[5], values[6], values[7], values[8], values[9],
           values[10], values[11], values[12], values[13], values[14], values[15], values[16])
  }

  function PackHeader(h: Header): (b: bytes)
    ensures |b| == HEADER_SIZE
  {
    HeaderTotal();
    Pack(HeaderValues(h), HEADER_WIDTHS)
  }

  function UnpackHeader(b: bytes): Header
    requires |b| == HEADER_SIZE
  {
    HeaderTotal();
    HeaderOf(Unpack(b, HEADER_WIDTHS))
  }

  lemma HeaderTotal()
    ensures Total(HEADER_WIDTHS) == HEADER_SIZE
  {
    TotalTimes(4, 1);
    TotalTimes(2, 6);
    TotalTimes(4, 3);
    TotalTimes(2, 5);
    TotalTimes(4, 2);
    TotalOf(Times(4, 1), Times(2, 6));
    TotalOf(Times(4, 1) + Times(2, 6), Times(4, 3));
    TotalOf(Times(4, 1) + Times(2, 6) + Times(4, 3), Times(2, 5));
    TotalOf(Times(4, 1) + Times(2, 6) + Times(4, 3) + Times(2, 5), Times(4, 2));
  }

  /** Reading a written header gives back every field. */
  lemma HeaderRoundTrip(h: Header)
    requires HeaderFits(h)
    ensures UnpackHeader(PackHeader(h)) == h
  {
    HeaderTotal();
    UnpackPacked(HeaderValues(h), HEADER_WIDTHS);
  }

  /** And any 46 bytes are the writing of the fields read from them. */
  lemma HeaderSurjective(b: bytes)
    requires |b| == HEADER_SIZE
    ensures HeaderFits(UnpackHeader(b)) && PackHeader(UnpackHeader(b)) == b
  {
    HeaderTotal();
    PackUnpacked(b, HEADER_WIDTHS);
    var values := Unpack(b, HEADER_WIDTHS);
    assert HeaderValues(HeaderOf(values)) == values;
  }

  // ------------------------------------------------------------------ the end record

  /** The fields of an end record, in the order they are packed: "<4sHHHHIIH". */
  datatype EndFields = EndFields(
    signature: nat, diskNo: nat, directoryDisk: nat, entriesOnDisk: nat, entryCount: nat, directorySize: nat,
    directoryOffset: nat, commentLength: nat)

  const END_SIZE: nat := 22
  const END_WIDTHS: seq<nat> := Times(4, 1) + Times(2, 4) + Times(4, 2) + Times(2, 1)

  function EndValues(f: EndFields): (values: seq<nat>)
    ensures |values| == |END_WIDTHS|
  {
    [f.signature, f.diskNo, f.directoryDisk, f.entriesOnDisk, f.entryCount, f.directorySize, f.directoryOffset,
     f.commentLength]
  }

  ghost predicate EndFits(f: EndFields) {
    Fit(EndValues(f), END_WIDTHS)
  }

  function EndOf(values: seq<nat>): EndFields
    requires |values| == |END_WIDTHS|
  {
    EndFields(values[0], values[1], values[2], values[3], values[4], values[5], values[6], values[7])
  }

  function PackEnd(f: EndFields): (b: bytes)
    ensures |b| == END_SIZE
  {
    EndTotal();
    Pack(EndValues(f), END_WIDTHS)
  }

  function UnpackEnd(b: bytes): EndFields
    requires |b| == END_SIZE
  {
    EndTotal();
    EndOf(Unpack(b, END_WIDTHS))
  }

  lemma EndTotal()
    ensures Total(END_WIDTHS) == END_SIZE
  {
    TotalTimes(4, 1);
    TotalTimes(2, 4);
    TotalTimes(4, 2);
    TotalTimes(2, 1);
    TotalOf(Times(4, 1), Times(2, 4));
    TotalOf(Times(4, 1) + Times(2, 4), Times(4, 2));
    TotalOf(Times(4, 1) + Times(2, 4) + Times(4, 2), Times(2, 1));
  }

  lemma EndRoundTrip(f: EndFields)
    requires EndFits(f)
    ensures UnpackEnd(PackEnd(f)) == f
  {
    EndTotal();
    UnpackPacked(EndValues(f), END_WIDTHS);
  }

  lemma EndSurjective(b: bytes)
    requires |b| == END_SIZE
    ensures EndFits(UnpackEnd(b)) && PackEnd(UnpackEnd(b)) == b
  {
    EndTotal();
    PackUnpacked(b, END_WIDTHS);
    var values := Unpack(b, END_WIDTHS);
    assert EndValues(EndOf(values)) == values;
  }

  /** What fits: two bytes for the counts and the comment length, four for size and offset. */
  lemma EndFitsIff(f: EndFields)
    ensures EndFits(f) <==>
      && f.signature < 0x1_0000_0000 && f.diskNo < 0x10000 && f.directoryDisk < 0x10000
      && f.entriesOnDisk < 0x10000 && f.entryCount < 0x10000 && f.directorySize < 0x1_0000_0000
      && f.directoryOffset < 0x1_0000_0000 && f.commentLength < 0x10000
  {
    Powers();
    var values := EndValues(f);
    assert END_WIDTHS == [4, 2, 2, 2, 2, 4, 4, 2];
    if EndFits(f) {
      assert forall i | 0 <= i < 8 :: values[i] < Pow256(END_WIDTHS[i]);
      assert values[0] < Pow256(4) && values[1] < Pow256(2) && values[2] < Pow256(2) && values[3] < Pow256(2);
      assert values[4] < Pow256(2) && values[5] < Pow256(4) && values[6] < Pow256(4) && values[7] < Pow256(2);
    }
  }

  lemma Powers()
    ensures Pow256(2) == 0x10000 && Pow256(4) == 0x1_0000_0000
  {
    assert Pow256(2) == 256 * Pow256(1) && Pow256(3) == 256 * Pow256(2);
  }

  // ------------------------------------------------------------------ sums of widths

  function Times(w: nat, n: nat): (ws: seq<nat>)
    ensures |ws| == n
  {
    seq(n, _ => w)
  }

  lemma {:induction false} TotalTimes(w: nat, n: nat)
    ensures Total(Times(w, n)) == w * n
  {
    if n > 0 {
      TotalTimes(w, n - 1);
      assert Times(w, n)[1..] == Times(w, n - 1);
    }
  }

  lemma {:induction false} TotalOf(a: seq<nat>, b: seq<nat>)
    ensures Total(a + b) == Total(a) + Total(b)
  {
    if a == [] {
      assert a + b == b;
    } else {
      TotalOf(a[1..], b);
      assert (a + b)[1..] == a[1..] + b;
    }
  }
}
