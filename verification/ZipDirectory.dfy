/**
 The ZIP preflight: the end-of-central-directory search, the central-directory walk and the
 extra-field check (PKWARE APPNOTE.TXT sections 4.3.12, 4.3.16, 4.5.1 and 4.5.3).
 */
module ZipDirectory {
  import opened Binary
  import opened Limits
  import opened ZipHeaders

  const MAX_DIRECTORY_BYTES: nat := 64 * 1024 * 1024
  const SENTINEL_32: nat := 0xFFFF_FFFF
  const SENTINEL_16: nat := 0xFFFF
  const MAX_COMMENT: nat := 0xFFFF

  const END_SIGNATURE: nat := 0x06054b50
  const HEADER_SIGNATURE: nat := 0x02014b50
  const LOCATOR_SIGNATURE: bytes := [0x50, 0x4b, 0x06, 0x07]
  const ZIP64_EXTRA_ID: nat := 1

  datatype ZipError =
    | MalformedArchive
    | Zip64Unsupported
    | MultiDisk
    | CountsDisagree
    | DirectoryTooLarge
    | OffsetOutOfBounds
    | NotAdjacent
    | TruncatedHeader
    | MalformedHeader
    | TruncatedEntry
    | BadExtra(verdict: ExtraVerdict)
    | BadName
    | TooManyEntries
    | SizeMismatch
    | RecordCountDisagrees

  datatype Result<+T> = Ok(value: T) | Err(error: ZipError)

  /** The filename decoding and validation of one entry, given its flags and raw bytes. */
  type NameCheck = (nat, bytes) -> bool

  // ---------------------------------------------------------------- extra fields

  datatype Extra = Extra(id: nat, data: bytes)

  datatype ExtraVerdict = ExtraOk | ExtraZip64 | ExtraTruncated | ExtraMalformed

  ghost predicate PlainExtra(e: Extra) {
    e.id < 0x10000 && e.id != ZIP64_EXTRA_ID && |e.data| < 0x10000
  }

  ghost predicate PlainExtras(es: seq<Extra>) {
    forall e | e in es :: PlainExtra(e)
  }

  function EncodeExtra(e: Extra): bytes {
    LittleEndian(e.id, 2) + LittleEndian(|e.data|, 2) + e.data
  }

  function EncodeExtras(es: seq<Extra>): bytes {
    if es == [] then [] else EncodeExtra(es[0]) + EncodeExtras(es[1..])
  }

  /** The verdict on a remainder: what stops the walk at its first record. */
  function StuckVerdict(tail: bytes): ExtraVerdict {
    if tail == [] then ExtraOk
    else if |tail| < 4 then ExtraMalformed
    else if U16(tail, 0) == ZIP64_EXTRA_ID then ExtraZip64
    else ExtraTruncated
  }

  /** No plain record can be taken off the front of `tail`. */
  predicate Stuck(tail: bytes) {
    |tail| < 4 || U16(tail, 0) == ZIP64_EXTRA_ID || 4 + U16(tail, 2) > |tail|
  }

  function ScanExtras(b: bytes): ExtraVerdict {
    if Stuck(b) then StuckVerdict(b) else ScanExtras(b[4 + U16(b, 2)..])
  }

  method RejectZip64ExtraField(extra: bytes) returns (verdict: ExtraVerdict)
    ensures verdict == ScanExtras(extra)
  {
    var offset := 0;
    while offset + 4 <= |extra|
      invariant 0 <= offset <= |extra|
      invariant ScanExtras(extra) == ScanExtras(extra[offset..])
    {
      var headerId := U16(extra, offset);
      var dataSize := U16(extra, offset + 2);
      if headerId == ZIP64_EXTRA_ID {
        return ExtraZip64;
      }
      offset := offset + 4 + dataSize;
      if offset > |extra| {
        return ExtraTruncated;
      }
      assert extra[offset - 4 - dataSize..][4 + dataSize..] == extra[offset..];
    }
    if offset != |extra| {
      return ExtraMalformed;
    }
    return ExtraOk;
  }

  lemma ExtraAtFront(e: Extra, rest: bytes)
    requires PlainExtra(e)
    ensures var b := EncodeExtra(e) + rest;
            !Stuck(b) && U16(b, 0) == e.id && U16(b, 2) == |e.data|
            && b[4..4 + |e.data|] == e.data && b[4 + |e.data|..] == rest
  {
    var b := EncodeExtra(e) + rest;
    assert b[0..2] == LittleEndian(e.id, 2);
    assert b[2..4] == LittleEndian(|e.data|, 2);
    U16OfLittleEndian(b, 0, e.id);
    U16OfLittleEndian(b, 2, |e.data|);
  }

  lemma {:induction false} ScanSkipsRecords(es: seq<Extra>, tail: bytes)
    requires PlainExtras(es)
    ensures ScanExtras(EncodeExtras(es) + tail) == ScanExtras(tail)
  {
    if es == [] {
      NoExtras(tail);
    } else {
      FirstExtra(es, tail);
      ExtraAtFront(es[0], EncodeExtras(es[1..]) + tail);
      ScanSkipsRecords(es[1..], tail);
    }
  }

  /** Every byte string is plain records followed by a remainder no plain record starts. */
  lemma {:induction false} ExtraDecomposition(b: bytes) returns (es: seq<Extra>, tail: bytes)
    ensures PlainExtras(es) && Stuck(tail) && b == EncodeExtras(es) + tail
  {
    if Stuck(b) {
      es, tail := [], b;
    } else {
      var n := U16(b, 2);
      var first := Extra(U16(b, 0), b[4..4 + n]);
      U16OfLittleEndian(b, 0, first.id);
      U16OfLittleEndian(b, 2, n);
      assert b == EncodeExtra(first) + b[4 + n..];
      var more;
      more, tail := ExtraDecomposition(b[4 + n..]);
      es := [first] + more;
      assert es[1..] == more;
    }
  }

  /** The decomposition is unique, so the verdict names the one reason a string is refused. */
  lemma {:induction false} ExtraDecompositionUnique(es: seq<Extra>, tail: bytes, es': seq<Extra>, tail': bytes)
    requires PlainExtras(es) && Stuck(tail) && PlainExtras(es') && Stuck(tail')
    requires EncodeExtras(es) + tail == EncodeExtras(es') + tail'
    ensures es == es' && tail == tail'
  {
    hide EncodeExtra, Stuck;
    NoExtras(tail);
    NoExtras(tail');
    if es != [] {
      FirstExtra(es, tail);
      ExtraAtFront(es[0], EncodeExtras(es[1..]) + tail);
    }
    if es' != [] {
      FirstExtra(es', tail');
      ExtraAtFront(es'[0], EncodeExtras(es'[1..]) + tail');
    }
    if es != [] && es' != [] {
      ExtraDecompositionUnique(es[1..], tail, es'[1..], tail');
      assert es == [es[0]] + es[1..] && es' == [es'[0]] + es'[1..];
    }
  }

  lemma NoExtras(tail: bytes)
    ensures EncodeExtras([]) + tail == tail
  {
  }

  lemma FirstExtra(es: seq<Extra>, tail: bytes)
    requires es != []
    ensures EncodeExtras(es) + tail == EncodeExtra(es[0]) + (EncodeExtras(es[1..]) + tail)
  {
  }

  /** The checker's verdict, read off the decomposition: all four outcomes exactly. */
  lemma ExtraVerdictIsExact(es: seq<Extra>, tail: bytes)
    requires PlainExtras(es) && Stuck(tail)
    ensures ScanExtras(EncodeExtras(es) + tail) == StuckVerdict(tail)
  {
    ScanSkipsRecords(es, tail);
  }

  /** Acceptance is being an exact concatenation of records none of which is the zip64 one. */
  lemma ExtraAcceptedIff(b: bytes)
    ensures ScanExtras(b) == ExtraOk <==> exists es :: PlainExtras(es) && EncodeExtras(es) == b
  {
    if ScanExtras(b) == ExtraOk {
      var es, tail := ExtraDecomposition(b);
      ScanSkipsRecords(es, tail);
      assert EncodeExtras(es) == b;
    }
    forall es | PlainExtras(es) && EncodeExtras(es) == b
      ensures ScanExtras(b) == ExtraOk
    {
      ScanSkipsRecords(es, []);
      assert EncodeExtras(es) + [] == b;
    }
  }

  // ------------------------------------------------------- central-directory records

  /** A header, then the three variable parts it declares the lengths of. */
  datatype Record = Record(header: Header, name: bytes, extra: bytes, comment: bytes)

  predicate PlainHeader(h: Header) {
    && h.signature == HEADER_SIGNATURE && h.diskStart == 0
    && h.compressedSize != SENTINEL_32 && h.expandedSize != SENTINEL_32 && h.localOffset != SENTINEL_32
  }

  ghost predicate WellFormed(r: Record, nameOk: NameCheck) {
    && HeaderFits(r.header) && r.header.signature == 0x02014b50 && r.header.diskStart == 0
    && r.header.compressedSize != 0xFFFF_FFFF && r.header.expandedSize != 0xFFFF_FFFF
    && r.header.localOffset != 0xFFFF_FFFF
    && r.header.nameLength == |r.name| && r.header.extraLength == |r.extra| && r.header.commentLength == |r.comment|
    && ScanExtras(r.extra) == ExtraOk
    && nameOk(r.header.flags, r.name)
  }

  ghost predicate AllWellFormed(rs: seq<Record>, nameOk: NameCheck) {
    forall i | 0 <= i < |rs| :: WellFormed(rs[i], nameOk)
  }

  function EncodeRecord(r: Record): bytes {
    PackHeader(r.header) + r.name + r.extra + r.comment
  }

  function EncodeRecords(rs: seq<Record>): bytes {
    if rs == [] then [] else EncodeRecord(rs[0]) + EncodeRecords(rs[1..])
  }

  /** A positioned read of at most `n` bytes, short at end of file. */
  function ReadAt(file: bytes, pos: nat, n: nat): (b: bytes)
    ensures pos + n <= |file| ==> b == file[pos..pos + n]
    ensures pos + n > |file| && n > 0 ==> |b| < n
  {
    var from := if pos <= |file| then pos else |file|;
    var to := if pos + n <= |file| then pos + n else |file|;
    file[from..to]
  }

  /** The three variable parts following an accepted header, in the order they are read. */
  function ReadBody(file: bytes, body: nat, h: Header, nameOk: NameCheck): (r: Result<nat>)
    ensures r.Ok? ==> r.value == body + h.nameLength + h.extraLength + h.commentLength
  {
    var name := ReadAt(file, body, h.nameLength);
    if |name| != h.nameLength then Err(TruncatedEntry) else
    var extra := ReadAt(file, body + |name|, h.extraLength);
    if |extra| != h.extraLength then Err(TruncatedEntry)
    else if ScanExtras(extra) != ExtraOk then Err(BadExtra(ScanExtras(extra)))
    else
      var comment := ReadAt(file, body + |name| + |extra|, h.commentLength);
      if |comment| != h.commentLength then Err(TruncatedEntry)
      else if !nameOk(h.flags, name) then Err(BadName)
      else Ok(body + |name| + |extra| + |comment|)
  }

  /** One iteration of the directory walk: the position after the record at `pos`. */
  function ReadRecord(file: bytes, pos: nat, end: nat, nameOk: NameCheck): (r: Result<nat>)
    ensures r.Ok? ==> pos + HEADER_SIZE <= r.value <= end
  {
    var b := ReadAt(file, pos, HEADER_SIZE);
    if |b| != HEADER_SIZE then Err(TruncatedHeader)
    else
      var h := UnpackHeader(b);
      if h.signature != HEADER_SIGNATURE then Err(MalformedHeader)
      else if h.diskStart != 0 then Err(MultiDisk)
      else if !PlainHeader(h) then Err(Zip64Unsupported)
      else if pos + HEADER_SIZE + h.nameLength + h.extraLength + h.commentLength > end then Err(TruncatedEntry)
      else ReadBody(file, pos + HEADER_SIZE, h, nameOk)
  }

  function ScanDirectory(file: bytes, pos: nat, end: nat, count: nat, nameOk: NameCheck): Result<nat>
    decreases end - pos
  {
    if pos >= end then
      if pos != end then Err(SizeMismatch) else Ok(count)
    else
      var next := ReadRecord(file, pos, end, nameOk);
      if next.Err? then Err(next.error)
      else if count + 1 > MAX_ARCHIVE_ENTRIES then Err(TooManyEntries)
      else ScanDirectory(file, next.value, end, count + 1, nameOk)
  }

  method ReadBodyAt(file: bytes, body: nat, h: Header, nameOk: NameCheck) returns (r: Result<nat>)
    ensures r == ReadBody(file, body, h, nameOk)
  {
    hide ScanExtras;
    var tell := body;
    var filename := ReadAt(file, tell, h.nameLength);
    tell := tell + |filename|;
    if |filename| != h.nameLength { return Err(TruncatedEntry); }
    var extra := ReadAt(file, tell, h.extraLength);
    tell := tell + |extra|;
    if |extra| != h.extraLength { return Err(TruncatedEntry); }
    var verdict := RejectZip64ExtraField(extra);
    if verdict != ExtraOk { return Err(BadExtra(verdict)); }
    if h.commentLength != 0 {
      var comment := ReadAt(file, tell, h.commentLength);
      tell := tell + |comment|;
      if |comment| != h.commentLength { return Err(TruncatedEntry); }
    }
    if !nameOk(h.flags, filename) { return Err(BadName); }
    return Ok(tell);
  }

  method ParseCentralDirectory(file: bytes, offset: nat, size: nat, nameOk: NameCheck) returns (r: Result<nat>)
    ensures r == ScanDirectory(file, offset, offset + size, 0, nameOk)
  {
    hide UnpackHeader, ReadBody, PlainHeader;
    var actualCount := 0;
    var tell := offset;
    var end := offset + size;
    while tell < end
      invariant tell <= end
      invariant ScanDirectory(file, offset, end, 0, nameOk) == ScanDirectory(file, tell, end, actualCount, nameOk)
    {
      ghost var start := tell;
      var bytesRead := ReadAt(file, tell, HEADER_SIZE);
      tell := tell + |bytesRead|;
      if |bytesRead| != HEADER_SIZE { return Err(TruncatedHeader); }
      var header := UnpackHeader(bytesRead);
      if header.signature != HEADER_SIGNATURE { return Err(MalformedHeader); }
      if header.diskStart != 0 { return Err(MultiDisk); }
      if !PlainHeader(header) { return Err(Zip64Unsupported); }
      var variableLength := header.nameLength + header.extraLength + header.commentLength;
      if tell + variableLength > end { return Err(TruncatedEntry); }
      var next := ReadBodyAt(file, tell, header, nameOk);
      assert ReadRecord(file, start, end, nameOk) == next;
      if next.Err? { return next; }
      tell := next.value;
      actualCount := actualCount + 1;
      if actualCount > MAX_ARCHIVE_ENTRIES { return Err(TooManyEntries); }
    }
    if tell != end { return Err(SizeMismatch); }
    return Ok(actualCount);
  }

  /** The closing size check never fires: every record read ends at or before the region's end. */
  lemma {:induction false} SizeMismatchUnreachable(file: bytes, pos: nat, end: nat, count: nat, nameOk: NameCheck)
    requires pos <= end
    ensures ScanDirectory(file, pos, end, count, nameOk) != Err(SizeMismatch)
    decreases end - pos
  {
    if pos < end {
      var next := ReadRecord(file, pos, end, nameOk);
      if next.Ok? && count + 1 <= MAX_ARCHIVE_ENTRIES {
        SizeMismatchUnreachable(file, next.value, end, count + 1, nameOk);
      }
    }
  }

  lemma BodyIsRead(file: bytes, body: nat, r: Record, nameOk: NameCheck)
    requires WellFormed(r, nameOk)
    requires body + |r.name| + |r.extra| + |r.comment| <= |file|
    requires file[body..body + |r.name|] == r.name
    requires file[body + |r.name|..body + |r.name| + |r.extra|] == r.extra
    ensures ReadBody(file, body, r.header, nameOk) == Ok(body + |r.name| + |r.extra| + |r.comment|)
  {
  }

  lemma HeaderIsRead(file: bytes, pos: nat, end: nat, r: Record, nameOk: NameCheck)
    requires WellFormed(r, nameOk)
    requires pos + |EncodeRecord(r)| <= end <= |file|
    requires file[pos..pos + HEADER_SIZE] == PackHeader(r.header)
    ensures ReadRecord(file, pos, end, nameOk) == ReadBody(file, pos + HEADER_SIZE, r.header, nameOk)
  {
    hide PackHeader, UnpackHeader;
    HeaderRoundTrip(r.header);
  }

  /** Where the parts of an encoded record lie in the file. */
  lemma EncodedParts(file: bytes, pos: nat, end: nat, r: Record, rest: bytes)
    requires pos <= end <= |file|
    requires file[pos..end] == EncodeRecord(r) + rest
    ensures pos + |EncodeRecord(r)| <= end
    ensures |EncodeRecord(r)| == HEADER_SIZE + |r.name| + |r.extra| + |r.comment|
    ensures file[pos..pos + HEADER_SIZE] == PackHeader(r.header)
    ensures var body := pos + HEADER_SIZE;
            && file[body..body + |r.name|] == r.name
            && file[body + |r.name|..body + |r.name| + |r.extra|] == r.extra
    ensures file[pos + |EncodeRecord(r)|..end] == rest
  {
    hide PackHeader;
    var a, b, c := HEADER_SIZE + |r.name|, HEADER_SIZE + |r.name| + |r.extra|, |EncodeRecord(r)|;
    FourParts(PackHeader(r.header), r.name, r.extra, r.comment);
    assert |file[pos..end]| == c + |rest|;
    SubSlice(file, pos, end, 0, HEADER_SIZE);
    SubSlice(file, pos, end, HEADER_SIZE, a);
    SubSlice(file, pos, end, a, b);
    SubSlice(file, pos, end, c, end - pos);
    SubSlice(EncodeRecord(r) + rest, 0, c, 0, HEADER_SIZE);
    SubSlice(EncodeRecord(r) + rest, 0, c, HEADER_SIZE, a);
    SubSlice(EncodeRecord(r) + rest, 0, c, a, b);
    assert (EncodeRecord(r) + rest)[..c] == EncodeRecord(r) && (EncodeRecord(r) + rest)[c..] == rest;
  }

  /** A well-formed record at the cursor is read, and exactly its bytes are passed over. */
  lemma EncodedRecordIsRead(file: bytes, pos: nat, end: nat, r: Record, rest: bytes, nameOk: NameCheck)
    requires pos <= end <= |file| && WellFormed(r, nameOk)
    requires file[pos..end] == EncodeRecord(r) + rest
    ensures ReadRecord(file, pos, end, nameOk) == Ok(pos + |EncodeRecord(r)|)
    ensures pos + |EncodeRecord(r)| <= end && |EncodeRecord(r)| >= HEADER_SIZE
    ensures file[pos + |EncodeRecord(r)|..end] == rest
  {
    hide PackHeader, PlainHeader, EncodeRecord, ReadRecord, ReadBody;
    EncodedParts(file, pos, end, r, rest);
    HeaderIsRead(file, pos, end, r, nameOk);
    BodyIsRead(file, pos + HEADER_SIZE, r, nameOk);
  }

  /** Conversely, whatever is read was a well-formed record. */
  lemma ReadRecordIsEncoded(file: bytes, pos: nat, end: nat, nameOk: NameCheck) returns (r: Record)
    requires end <= |file| && ReadRecord(file, pos, end, nameOk).Ok?
    ensures WellFormed(r, nameOk)
    ensures EncodeRecord(r) == file[pos..ReadRecord(file, pos, end, nameOk).value]
  {
    hide PackHeader, UnpackHeader;
    var a := pos + HEADER_SIZE;
    HeaderSurjective(file[pos..a]);
    var h := UnpackHeader(file[pos..a]);
    var b := a + h.nameLength;
    var c := b + h.extraLength;
    var d := c + h.commentLength;
    r := Record(h, file[a..b], file[b..c], file[c..d]);
    assert file[pos..d] == PackHeader(h) + file[a..b] + file[b..c] + file[c..d];
  }

  lemma {:induction false} EncodedRecordsAreScanned(
    file: bytes, pos: nat, end: nat, count: nat, rs: seq<Record>, nameOk: NameCheck)
    requires pos <= end <= |file| && AllWellFormed(rs, nameOk) && count <= MAX_ARCHIVE_ENTRIES
    requires file[pos..end] == EncodeRecords(rs)
    ensures ScanDirectory(file, pos, end, count, nameOk) ==
            if count + |rs| <= MAX_ARCHIVE_ENTRIES then Ok(count + |rs|) else Err(TooManyEntries)
    decreases |rs|
  {
    hide ReadRecord, EncodeRecord, WellFormed;
    if rs == [] {
      assert |file[pos..end]| == 0;
    } else {
      var r := rs[0];
      EncodedRecordIsRead(file, pos, end, r, EncodeRecords(rs[1..]), nameOk);
      if count + 1 <= MAX_ARCHIVE_ENTRIES {
        EncodedRecordsAreScanned(file, pos + |EncodeRecord(r)|, end, count + 1, rs[1..], nameOk);
      }
    }
  }

  lemma {:induction false} ScannedRegionIsEncoded(file: bytes, pos: nat, end: nat, count: nat, nameOk: NameCheck)
    returns (rs: seq<Record>)
    requires pos <= end <= |file| && count <= MAX_ARCHIVE_ENTRIES
    requires ScanDirectory(file, pos, end, count, nameOk).Ok?
    ensures AllWellFormed(rs, nameOk) && EncodeRecords(rs) == file[pos..end]
    ensures ScanDirectory(file, pos, end, count, nameOk) == Ok(count + |rs|)
    ensures count + |rs| <= MAX_ARCHIVE_ENTRIES
    decreases end - pos
  {
    hide ReadRecord, EncodeRecord, WellFormed;
    if pos == end {
      rs := [];
    } else {
      var next := ReadRecord(file, pos, end, nameOk).value;
      var first := ReadRecordIsEncoded(file, pos, end, nameOk);
      var more := ScannedRegionIsEncoded(file, next, end, count + 1, nameOk);
      rs := [first] + more;
      assert rs[1..] == more;
      assert file[pos..end] == file[pos..next] + file[next..end];
    }
  }

  /** `region` is a concatenation of `n` well-formed records, no more than the entry limit. */
  ghost predicate IsDirectory(region: bytes, n: nat, nameOk: NameCheck) {
    exists rs :: AllWellFormed(rs, nameOk) && |rs| == n <= 10_000 && EncodeRecords(rs) == region
  }

  /** The walk accepts a region exactly when it is such a concatenation, and returns its length. */
  lemma DirectoryAcceptedIff(file: bytes, offset: nat, size: nat, n: nat, nameOk: NameCheck)
    requires offset + size <= |file|
    ensures ScanDirectory(file, offset, offset + size, 0, nameOk) == Ok(n) <==>
            IsDirectory(file[offset..offset + size], n, nameOk)
  {
    hide ScanDirectory, EncodeRecords, AllWellFormed;
    if ScanDirectory(file, offset, offset + size, 0, nameOk) == Ok(n) {
      var rs := ScannedRegionIsEncoded(file, offset, offset + size, 0, nameOk);
      assert AllWellFormed(rs, nameOk) && |rs| == n;
    }
    if IsDirectory(file[offset..offset + size], n, nameOk) {
      var rs :| AllWellFormed(rs, nameOk) && |rs| == n && EncodeRecords(rs) == file[offset..offset + size];
      EncodedRecordsAreScanned(file, offset, offset + size, 0, rs, nameOk);
    }
  }

  /** A non-empty region that reaches past the end of the file is refused. */
  lemma {:induction false} DirectoryPastEndRefused(file: bytes, pos: nat, end: nat, count: nat, nameOk: NameCheck)
    requires pos < end && |file| < end
    ensures ScanDirectory(file, pos, end, count, nameOk).Err?
    decreases end - pos
  {
    var next := ReadRecord(file, pos, end, nameOk);
    if next.Ok? && count + 1 <= MAX_ARCHIVE_ENTRIES {
      assert next.value < end by { RecordReadInsideFile(file, pos, end, nameOk); }
      DirectoryPastEndRefused(file, next.value, end, count + 1, nameOk);
    }
  }

  lemma RecordReadInsideFile(file: bytes, pos: nat, end: nat, nameOk: NameCheck)
    requires ReadRecord(file, pos, end, nameOk).Ok?
    ensures ReadRecord(file, pos, end, nameOk).value <= |file|
  {
    hide UnpackHeader;
    var h := UnpackHeader(file[pos..pos + HEADER_SIZE]);
    var body := pos + HEADER_SIZE;
    var n, e, c := h.nameLength, h.extraLength, h.commentLength;
    assert n > 0 ==> body + n <= |file|;
    assert e > 0 ==> body + n + e <= |file|;
    assert c > 0 ==> body + n + e + c <= |file|;
  }

  // ------------------------------------------------------- end-of-central-directory search

  /** An end record at `pos` whose comment stops exactly at end of file. */
  predicate IsEndRecord(file: bytes, pos: int) {
    && 0 <= pos && pos + END_SIZE <= |file|
    && var f := UnpackEnd(file[pos..pos + END_SIZE]);
    && f.signature == END_SIGNATURE && pos + END_SIZE + f.commentLength == |file|
  }

  ghost predicate IsLastEndRecord(file: bytes, pos: int) {
    IsEndRecord(file, pos) && forall q | q > pos :: !IsEndRecord(file, q)
  }

  datatype EndRecord = NoEndRecord | EndRecord(offset: nat, fields: EndFields)

  lemma CommentIsShort(file: bytes, pos: int)
    ensures IsEndRecord(file, pos) ==> |file| - END_SIZE - MAX_COMMENT <= pos <= |file| - END_SIZE
  {
    hide UnpackEnd, PackEnd;
    if IsEndRecord(file, pos) {
      var record := file[pos..pos + END_SIZE];
      EndSurjective(record);
      EndFitsIff(UnpackEnd(record));
    }
  }

  /** Scans backwards from the end of file; it only ever reads the last 22 + 65535 bytes. */
  method LocateEndRecord(file: bytes) returns (found: EndRecord)
    ensures found.NoEndRecord? <==> forall q :: !IsEndRecord(file, q)
    ensures found.EndRecord? ==>
              && IsLastEndRecord(file, found.offset)
              && found.fields == UnpackEnd(file[found.offset..found.offset + END_SIZE])
  {
    hide UnpackEnd;
    var readSize := if |file| <= END_SIZE + MAX_COMMENT then |file| else END_SIZE + MAX_COMMENT;
    var base := |file| - readSize;
    var tail := file[base..];
    var pos := |tail| - END_SIZE;
    forall q | q > base + pos || (|tail| < |file| && q < base) ensures !IsEndRecord(file, q) {
      CommentIsShort(file, q);
    }
    while pos >= 0
      invariant -1 <= pos || |tail| < END_SIZE
      invariant pos + END_SIZE <= |tail|
      invariant forall q | q > base + pos :: !IsEndRecord(file, q)
      decreases pos + 1
    {
      var record := tail[pos..pos + END_SIZE];
      assert record == file[base + pos..base + pos + END_SIZE];
      var fields := UnpackEnd(record);
      if fields.signature == END_SIGNATURE && pos + END_SIZE + fields.commentLength == |tail| {
        assert IsEndRecord(file, base + pos);
        return EndRecord(base + pos, fields);
      }
      pos := pos - 1;
    }
    return NoEndRecord;
  }

  // ------------------------------------------------------------------------ preflight

  predicate Occurs(s: bytes, sub: bytes, at: int) {
    0 <= at <= |s| - |sub| && s[at..at + |sub|] == sub
  }

  predicate Contains(s: bytes, sub: bytes) {
    exists at | 0 <= at <= |s| - |sub| :: Occurs(s, sub, at)
  }

  /** The last 65557 bytes, where an end record and its zip64 locator would have to be. */
  function SearchTail(file: bytes): bytes {
    if |file| <= 65557 then file else file[|file| - 65557..]
  }

  datatype Preflight = Preflight(entryCount: nat, directoryOffset: nat, directorySize: nat)

  /**
   `file` is any prefix, then the encoded records, then an end record that describes them, then
   its comment; nothing later reads as an end record and no zip64 locator is in reach.
   */
  ghost predicate Archive(file: bytes, prefix: bytes, rs: seq<Record>, comment: bytes, nameOk: NameCheck) {
    && file == prefix + EncodeRecords(rs) + PackEnd(EndOfArchive(prefix, rs, comment)) + comment
    && AllWellFormed(rs, nameOk) && |rs| <= 10_000
    && |EncodeRecords(rs)| <= 64 * 1024 * 1024
    && |prefix| < 0xFFFF_FFFF && |comment| <= 0xFFFF
    && (forall q | q > |prefix| + |EncodeRecords(rs)| :: !IsEndRecord(file, q))
    && forall at | Occurs(file, [0x50, 0x4b, 0x06, 0x07], at) :: at < |file| - 65557
  }

  /** The locator is looked for where an end record and the longest comment would leave it. */
  lemma LocatorInReachIff(file: bytes)
    ensures Contains(SearchTail(file), LOCATOR_SIGNATURE) <==>
      exists at :: at >= |file| - 65557 && Occurs(file, [0x50, 0x4b, 0x06, 0x07], at)
  {
    var tail, base := SearchTail(file), if |file| <= 65557 then 0 else |file| - 65557;
    if at :| 0 <= at <= |tail| - |LOCATOR_SIGNATURE| && Occurs(tail, LOCATOR_SIGNATURE, at) {
      assert file[base + at..base + at + 4] == tail[at..at + 4];
      assert Occurs(file, [0x50, 0x4b, 0x06, 0x07], base + at);
    }
    if at :| at >= |file| - 65557 && Occurs(file, [0x50, 0x4b, 0x06, 0x07], at) {
      assert tail[at - base..at - base + 4] == file[at..at + 4];
      assert Occurs(tail, LOCATOR_SIGNATURE, at - base);
    }
  }

  /** The end record of a single-disk archive: its counts, sizes and offset are what it consists of. */
  function EndOfArchive(prefix: bytes, rs: seq<Record>, comment: bytes): EndFields {
    EndFields(0x06054b50, 0, 0, |rs|, |rs|, |EncodeRecords(rs)|, |prefix|, |comment|)
  }

  ghost predicate Preflights(file: bytes, p: Preflight, nameOk: NameCheck) {
    exists prefix, rs, comment ::
      && Archive(file, prefix, rs, comment, nameOk)
      && p == Preflight(|rs|, |prefix|, |EncodeRecords(rs)|)
  }

  /** What preflight checks of a located end record, before it walks the directory. */
  predicate PlainEnd(f: EndFields) {
    && f.diskNo == f.directoryDisk == 0
    && f.entriesOnDisk == f.entryCount
    && f.directorySize <= MAX_DIRECTORY_BYTES
    && f.directoryOffset != SENTINEL_32
  }

  method PreflightZipArchive(file: bytes, nameOk: NameCheck) returns (r: Result<Preflight>)
    ensures forall p :: r == Ok(p) <==> Preflights(file, p, nameOk)
    ensures |file| < END_SIZE ==> r == Err(MalformedArchive)
    ensures |file| >= END_SIZE && (exists at :: at >= |file| - 65557 && Occurs(file, [0x50, 0x4b, 0x06, 0x07], at)) ==>
      r == Err(Zip64Unsupported)
  {
    hide ScanDirectory, EncodeRecords, AllWellFormed, IsEndRecord, UnpackEnd, Occurs;
    if |file| < END_SIZE {
      return Err(MalformedArchive);
    }
    var tail := SearchTail(file);
    LocatorInReachIff(file);
    if Contains(tail, LOCATOR_SIGNATURE) {
      return Err(Zip64Unsupported);
    }
    var found := LocateEndRecord(file);
    forall p | Preflights(file, p, nameOk)
      ensures found.EndRecord? && PlainEnd(found.fields) && Describes(found, p)
      ensures ScanDirectory(file, p.directoryOffset, found.offset, 0, nameOk) == Ok(p.entryCount)
      ensures p.entryCount <= MAX_ARCHIVE_ENTRIES
    {
      ArchiveIsLocated(file, p, nameOk, found);
    }
    if found.NoEndRecord? { return Err(MalformedArchive); }
    var f := found.fields;
    if f.diskNo != 0 || f.directoryDisk != 0 { return Err(MultiDisk); }
    if f.entriesOnDisk == SENTINEL_16 || f.entryCount == SENTINEL_16 { return Err(Zip64Unsupported); }
    if f.directorySize == SENTINEL_32 || f.directoryOffset == SENTINEL_32 { return Err(Zip64Unsupported); }
    if f.entriesOnDisk != f.entryCount { return Err(CountsDisagree); }
    if f.directorySize > MAX_DIRECTORY_BYTES { return Err(DirectoryTooLarge); }
    if f.directoryOffset > |file| { return Err(OffsetOutOfBounds); }
    if f.directoryOffset + f.directorySize != found.offset { return Err(NotAdjacent); }
    var actual := ParseCentralDirectory(file, f.directoryOffset, f.directorySize, nameOk);
    if actual.Err? { return Err(actual.error); }
    if actual.value != f.entryCount { return Err(RecordCountDisagrees); }
    if actual.value > MAX_ARCHIVE_ENTRIES { return Err(TooManyEntries); }
    LocatedIsArchive(file, found, nameOk);
    return Ok(Preflight(actual.value, f.directoryOffset, f.directorySize));
  }

  ghost predicate Describes(found: EndRecord, p: Preflight)
    requires found.EndRecord?
  {
    && found.fields.entryCount == p.entryCount
    && found.fields.directoryOffset == p.directoryOffset
    && found.fields.directorySize == p.directorySize
    && found.offset == p.directoryOffset + p.directorySize
  }

  /** In any archive so laid out, the search finds the described end record and the walk its records. */
  lemma ArchiveIsLocated(file: bytes, p: Preflight, nameOk: NameCheck, found: EndRecord)
    requires Preflights(file, p, nameOk)
    requires found.NoEndRecord? <==> forall q :: !IsEndRecord(file, q)
    requires found.EndRecord? ==>
               && IsLastEndRecord(file, found.offset)
               && found.fields == UnpackEnd(file[found.offset..found.offset + END_SIZE])
    ensures found.EndRecord? && PlainEnd(found.fields) && Describes(found, p)
    ensures ScanDirectory(file, p.directoryOffset, found.offset, 0, nameOk) == Ok(p.entryCount)
    ensures p.entryCount <= MAX_ARCHIVE_ENTRIES
  {
    hide ScanDirectory, EncodeRecords, AllWellFormed, Contains, PackEnd, UnpackEnd;
    var prefix, rs, comment :|
      Archive(file, prefix, rs, comment, nameOk) && p == Preflight(|rs|, |prefix|, |EncodeRecords(rs)|);
    var pos := |prefix| + |EncodeRecords(rs)|;
    var f := EndOfArchive(prefix, rs, comment);
    assert file[|prefix|..pos] == EncodeRecords(rs);
    assert file[pos..pos + END_SIZE] == PackEnd(f);
    EndFitsIff(f);
    EndRoundTrip(f);
    assert IsEndRecord(file, pos);
    assert IsEndRecord(file, found.offset);
    EncodedRecordsAreScanned(file, |prefix|, pos, 0, rs, nameOk);
  }

  lemma LocatedIsArchive(file: bytes, found: EndRecord, nameOk: NameCheck)
    requires found.EndRecord? && IsLastEndRecord(file, found.offset)
    requires !Contains(SearchTail(file), LOCATOR_SIGNATURE)
    requires found.fields == UnpackEnd(file[found.offset..found.offset + END_SIZE])
    requires PlainEnd(found.fields) && found.fields.directoryOffset + found.fields.directorySize == found.offset
    requires ScanDirectory(file, found.fields.directoryOffset, found.offset, 0, nameOk) == Ok(found.fields.entryCount)
    ensures var f := found.fields;
            Preflights(file, Preflight(f.entryCount, f.directoryOffset, f.directorySize), nameOk)
  {
    hide ScanDirectory, EncodeRecords, AllWellFormed, Contains, PackEnd, UnpackEnd, Occurs;
    var f, pos := found.fields, found.offset;
    var prefix, end, comment := file[..f.directoryOffset], file[pos..pos + END_SIZE], file[pos + END_SIZE..];
    var rs := ScannedRegionIsEncoded(file, f.directoryOffset, pos, 0, nameOk);
    EndSurjective(end);
    EndFitsIff(f);
    LocatorInReachIff(file);
    assert f == EndOfArchive(prefix, rs, comment);
    assert file == prefix + EncodeRecords(rs) + end + comment;
    assert Archive(file, prefix, rs, comment, nameOk);
  }
}
