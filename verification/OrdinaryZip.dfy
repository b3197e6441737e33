/** A ZIP archive as any packer writes it, byte by byte: one stored empty file "a.txt" and no extra fields. */
module OrdinaryZip {
  import opened Binary
  import opened ZipDirectory
  import opened ZipHeaders

  const NAME: bytes := [0x61, 0x2e, 0x74, 0x78, 0x74]

  /** The local header of the file, and its name; its content is empty. */
  const LOCAL: bytes := [
    0x50, 0x4b, 0x03, 0x04, 0x14, 0x00, 0x00, 0x00, 0x00, 0x00, 0x00, 0x00, 0x21, 0x00, 0x00, 0x00,
    0x00, 0x00, 0x00, 0x00, 0x00, 0x00, 0x00, 0x00, 0x00, 0x00, 0x05, 0x00, 0x00, 0x00, 0x61, 0x2e, 0x74, 0x78, 0x74]

  const SIGNATURE: bytes := [0x50, 0x4b, 0x01, 0x02]
  const VERSIONS_TO_DATE: bytes := [0x14, 0x00, 0x14, 0x00, 0x00, 0x00, 0x00, 0x00, 0x00, 0x00, 0x21, 0x00]
  const CRC_AND_SIZES: bytes := [0x00, 0x00, 0x00, 0x00, 0x00, 0x00, 0x00, 0x00, 0x00, 0x00, 0x00, 0x00]
  const LENGTHS_TO_INTERNAL: bytes := [0x05, 0x00, 0x00, 0x00, 0x00, 0x00, 0x00, 0x00, 0x00, 0x00]
  const EXTERNAL_AND_OFFSET: bytes := [0x00, 0x00, 0x00, 0x00, 0x00, 0x00, 0x00, 0x00]

  const END_SIGNATURE_BYTES: bytes := [0x50, 0x4b, 0x05, 0x06]
  const DISKS_AND_COUNTS: bytes := [0x00, 0x00, 0x00, 0x00, 0x01, 0x00, 0x01, 0x00]
  const SIZE_AND_OFFSET: bytes := [0x33, 0x00, 0x00, 0x00, 0x23, 0x00, 0x00, 0x00]
  const NO_COMMENT: bytes := [0x00, 0x00]

  function Central(): bytes {
    SIGNATURE + VERSIONS_TO_DATE + CRC_AND_SIZES + LENGTHS_TO_INTERNAL + EXTERNAL_AND_OFFSET
  }

  function End(): bytes {
    END_SIGNATURE_BYTES + DISKS_AND_COUNTS + SIZE_AND_OFFSET + NO_COMMENT
  }

  const HEADER: Header := Header(0x02014b50, 20, 20, 0, 0, 0, 0x21, 0, 0, 0, 5, 0, 0, 0, 0, 0, 0)

  const END_FIELDS: EndFields := EndFields(0x06054b50, 0, 0, 1, 1, 51, 35, 0)

  // ------------------------------------------------------------------ packing these values

  lemma {:induction false} PackBoth(a: seq<nat>, v: seq<nat>, b: seq<nat>, w: seq<nat>)
    requires |a| == |v| && |b| == |w|
    ensures Pack(a + b, v + w) == Pack(a, v) + Pack(b, w)
  {
    if a == [] {
      assert a + b == b && v + w == w;
    } else {
      PackBoth(a[1..], v[1..], b, w);
      assert (a + b)[1..] == a[1..] + b && (v + w)[1..] == v[1..] + w;
    }
  }

  function Two(value: nat): bytes {
    [value % 256, value / 256 % 256]
  }

  function Four(value: nat): bytes {
    [value % 256, value / 256 % 256, value / 65536 % 256, value / 16777216 % 256]
  }

  lemma OneField(value: nat)
    ensures LittleEndian(value, 2) == Two(value) && LittleEndian(value, 4) == Four(value)
  {
    var a, b, c := value / 256, value / 65536, value / 16777216;
    assert a / 256 == b && b / 256 == c;
    assert LittleEndian(c, 1) == [c % 256] + LittleEndian(c / 256, 0);
    assert LittleEndian(b, 2) == [b % 256] + LittleEndian(c, 1);
    assert LittleEndian(a, 3) == [a % 256] + LittleEndian(b, 2);
    assert LittleEndian(a, 1) == [a % 256] + LittleEndian(b, 0);
  }

  lemma PackOne(v: nat, w: nat)
    ensures Pack([v], [w]) == LittleEndian(v, w)
  {
    hide LittleEndian;
    assert [v][1..] == [] && [w][1..] == [];
  }

  lemma OneMore(values: seq<nat>, v: nat, w: nat)
    ensures Pack(values + [v], Times(w, |values| + 1)) == Pack(values, Times(w, |values|)) + LittleEndian(v, w)
  {
    hide Pack, LittleEndian;
    TimesMore(w, |values|);
    hide Times;
    PackBoth(values, Times(w, |values|), [v], [w]);
    PackOne(v, w);
  }

  lemma TimesMore(w: nat, n: nat)
    ensures Times(w, n + 1) == Times(w, n) + [w]
  {
  }

  lemma TwoMore(values: seq<nat>, v: nat)
    ensures Pack(values + [v], Times(2, |values| + 1)) == Pack(values, Times(2, |values|)) + Two(v)
  {
    OneMore(values, v, 2);
    OneField(v);
  }

  lemma FourMore(values: seq<nat>, v: nat)
    ensures Pack(values + [v], Times(4, |values| + 1)) == Pack(values, Times(4, |values|)) + Four(v)
  {
    OneMore(values, v, 4);
    OneField(v);
  }

  lemma UpToTwoFours(a: nat, b: nat)
    ensures Pack([a], Times(4, 1)) == Four(a) && Pack([a, b], Times(4, 2)) == Four(a) + Four(b)
  {
    FourMore([], a);
    FourMore([a], b);
    assert [] + [a] == [a] && [a] + [b] == [a, b] && Pack([], Times(4, 0)) == [];
  }

  lemma ThreeFours(a: nat, b: nat, c: nat)
    ensures Pack([a, b, c], Times(4, 3)) == Four(a) + Four(b) + Four(c)
  {
    UpToTwoFours(a, b);
    FourMore([a, b], c);
    assert [a, b] + [c] == [a, b, c];
  }

  lemma UpToFourTwos(a: nat, b: nat, c: nat, d: nat)
    ensures Pack([a], Times(2, 1)) == Two(a)
    ensures Pack([a, b, c, d], Times(2, 4)) == Two(a) + Two(b) + Two(c) + Two(d)
  {
    TwoMore([], a);
    TwoMore([a], b);
    TwoMore([a, b], c);
    TwoMore([a, b, c], d);
    assert [] + [a] == [a] && [a] + [b] == [a, b] && Pack([], Times(2, 0)) == [];
    assert [a, b] + [c] == [a, b, c] && [a, b, c] + [d] == [a, b, c, d];
  }

  lemma SixTwos(a: nat, b: nat, c: nat, d: nat, e: nat, f: nat)
    ensures Pack([a, b, c, d, e], Times(2, 5)) == Two(a) + Two(b) + Two(c) + Two(d) + Two(e)
    ensures Pack([a, b, c, d, e, f], Times(2, 6)) == Two(a) + Two(b) + Two(c) + Two(d) + Two(e) + Two(f)
  {
    hide Two;
    UpToFourTwos(a, b, c, d);
    TwoMore([a, b, c, d], e);
    TwoMore([a, b, c, d, e], f);
    assert [a, b, c, d] + [e] == [a, b, c, d, e] && [a, b, c, d, e] + [f] == [a, b, c, d, e, f];
  }

  /** The 46 bytes are the writing of these fields. */
  lemma CentralIsPacked()
    ensures PackHeader(HEADER) == Central()
  {
    hide Pack;
    var a, b, c, d, e := [0x02014b50], [20, 20, 0, 0, 0, 0x21], [0, 0, 0], [5, 0, 0, 0, 0], [0, 0];
    assert HeaderValues(HEADER) == a + b + c + d + e;
    PackBoth(a, Times(4, 1), b, Times(2, 6));
    PackBoth(a + b, Times(4, 1) + Times(2, 6), c, Times(4, 3));
    PackBoth(a + b + c, Times(4, 1) + Times(2, 6) + Times(4, 3), d, Times(2, 5));
    PackBoth(a + b + c + d, Times(4, 1) + Times(2, 6) + Times(4, 3) + Times(2, 5), e, Times(4, 2));
    CentralParts();
  }

  lemma CentralParts()
    ensures Pack([0x02014b50], Times(4, 1)) == SIGNATURE
    ensures Pack([20, 20, 0, 0, 0, 0x21], Times(2, 6)) == VERSIONS_TO_DATE
    ensures Pack([0, 0, 0], Times(4, 3)) == CRC_AND_SIZES
    ensures Pack([5, 0, 0, 0, 0], Times(2, 5)) == LENGTHS_TO_INTERNAL
    ensures Pack([0, 0], Times(4, 2)) == EXTERNAL_AND_OFFSET
  {
    hide Pack, Times;
    CentralFours();
    CentralTwos();
  }

  lemma CentralFours()
    ensures Pack([0x02014b50], Times(4, 1)) == SIGNATURE
    ensures Pack([0, 0, 0], Times(4, 3)) == CRC_AND_SIZES
    ensures Pack([0, 0], Times(4, 2)) == EXTERNAL_AND_OFFSET
  {
    hide Pack, Times;
    UpToTwoFours(0x02014b50, 0);
    ThreeFours(0, 0, 0);
    UpToTwoFours(0, 0);
  }

  lemma CentralTwos()
    ensures Pack([20, 20, 0, 0, 0, 0x21], Times(2, 6)) == VERSIONS_TO_DATE
    ensures Pack([5, 0, 0, 0, 0], Times(2, 5)) == LENGTHS_TO_INTERNAL
  {
    hide Pack, Times;
    SixTwos(20, 20, 0, 0, 0, 0x21);
    SixTwos(5, 0, 0, 0, 0, 0);
  }

  /** And the last 22 bytes that of the end record. */
  lemma EndIsPacked()
    ensures PackEnd(END_FIELDS) == End()
  {
    hide Pack;
    var a, b, c, d := [0x06054b50], [0, 0, 1, 1], [51, 35], [0];
    assert EndValues(END_FIELDS) == a + b + c + d;
    PackBoth(a, Times(4, 1), b, Times(2, 4));
    PackBoth(a + b, Times(4, 1) + Times(2, 4), c, Times(4, 2));
    PackBoth(a + b + c, Times(4, 1) + Times(2, 4) + Times(4, 2), d, Times(2, 1));
    EndParts();
  }

  lemma EndParts()
    ensures Pack([0x06054b50], Times(4, 1)) == END_SIGNATURE_BYTES
    ensures Pack([0, 0, 1, 1], Times(2, 4)) == DISKS_AND_COUNTS
    ensures Pack([51, 35], Times(4, 2)) == SIZE_AND_OFFSET
    ensures Pack([0], Times(2, 1)) == NO_COMMENT
  {
    hide Pack, Times;
    EndFours();
    UpToFourTwos(0, 0, 1, 1);
  }

  lemma EndFours()
    ensures Pack([0x06054b50], Times(4, 1)) == END_SIGNATURE_BYTES
    ensures Pack([51, 35], Times(4, 2)) == SIZE_AND_OFFSET
  {
    hide Pack, Times;
    UpToTwoFours(0x06054b50, 0);
    UpToTwoFours(51, 35);
  }

  // ------------------------------------------------------------------ the archive

  /** Every field of the header fits its two or four bytes. */
  lemma HeaderIsSmall()
    ensures HeaderFits(HEADER)
  {
    Powers();
    var values := HeaderValues(HEADER);
    assert forall i | 0 <= i < |values| :: Pow256(HEADER_WIDTHS[i]) >= 0x10000;
    assert HEADER_WIDTHS[0] == 4 && forall i | 1 <= i < |values| :: values[i] < 0x10000;
  }

  lemma NothingLater(file: bytes, pos: nat)
    requires pos + END_SIZE == |file|
    ensures forall q | q > pos :: !IsEndRecord(file, q)
  {
    hide UnpackEnd;
  }

  lemma NoLocator(file: bytes)
    requires 0x07 !in file
    ensures forall at :: !Occurs(file, [0x50, 0x4b, 0x06, 0x07], at)
  {
    forall at ensures !Occurs(file, [0x50, 0x4b, 0x06, 0x07], at) {
      if Occurs(file, [0x50, 0x4b, 0x06, 0x07], at) {
        LocatorHasSeven(file, at);
      }
    }
  }

  lemma LocatorHasSeven(file: bytes, at: int)
    requires Occurs(file, [0x50, 0x4b, 0x06, 0x07], at)
    ensures 0x07 in file
  {
    assert file[at..at + 4][3] == 0x07 && file[at + 3] in file;
  }

  /** Whatever comes first, one well-formed record and the end record that describes it make an archive. */
  lemma OneRecordArchive(local: bytes, r: Record, file: bytes, nameOk: NameCheck)
    requires WellFormed(r, nameOk) && |local| < SENTINEL_32 && |EncodeRecord(r)| <= MAX_DIRECTORY_BYTES
    requires file ==
      local + EncodeRecord(r) + PackEnd(EndFields(END_SIGNATURE, 0, 0, 1, 1, |EncodeRecord(r)|, |local|, 0))
    requires 0x07 !in file
    ensures Preflights(file, Preflight(1, |local|, |EncodeRecord(r)|), nameOk)
  {
    hide PackEnd, WellFormed, IsEndRecord, Occurs, EncodeRecord;
    assert [r][1..] == [] && EncodeRecords([r]) == EncodeRecord(r) + EncodeRecords([]) == EncodeRecord(r);
    var end := EndOfArchive(local, [r], []);
    assert file == local + EncodeRecords([r]) + PackEnd(end) + [];
    NothingLater(file, |local| + |EncodeRecord(r)|);
    NoLocator(file);
    assert Archive(file, local, [r], [], nameOk);
  }

  lemma IsArchive(nameOk: NameCheck)
    requires nameOk(0, NAME)
    ensures Preflights(LOCAL + (Central() + NAME) + End(), Preflight(1, 35, 51), nameOk)
  {
    hide PackHeader, PackEnd, HeaderFits, Preflights;
    var r := Record(HEADER, NAME, [], []);
    HeaderIsSmall();
    CentralIsPacked();
    EndIsPacked();
    assert EncodeRecord(r) == Central() + NAME;
    OneRecordArchive(LOCAL, r, LOCAL + (Central() + NAME) + End(), nameOk);
  }

  /** Preflight accepts these bytes, counts one entry, and finds the directory behind the local header. */
  method PreflightOrdinary(nameOk: NameCheck) returns (r: Result<Preflight>)
    requires nameOk(0, NAME)
    ensures r == Ok(Preflight(1, 35, 51))
  {
    hide *;
    IsArchive(nameOk);
    r := PreflightZipArchive(LOCAL + (Central() + NAME) + End(), nameOk);
  }
}
