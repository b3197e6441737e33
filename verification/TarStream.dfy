/** The block walk over a tar stream (the "ustar Interchange Format" of pax, POSIX.1-2017). */
module TarStream {
  import opened Binary
  import opened Collections
  import opened EntryNames
  import opened LeastTree
  import opened Limits
  import opened Paths
  import opened Staging

  const BLOCK: nat := 512
  const TYPE_OFFSET: nat := 156

  datatype Kind = Directory | Regular | OtherKind

  datatype Member = Member(name: string, kind: Kind, size: int)

  /** Decoding of one header block: octal fields, checksum and text are left abstract. */
  type HeaderDecoder = bytes -> Option<Member>

  function ZeroBlock(): (b: bytes)
    ensures |b| == BLOCK
  {
    seq(BLOCK, i => 0)
  }

  /** Type flags '0', NUL and '5'; everything else, the pax headers included, is refused. */
  predicate ApprovedType(flag: byte) {
    flag == 0x30 || flag == 0x00 || flag == 0x35
  }

  function PaddingOf(size: int): nat {
    (BLOCK - size % BLOCK) % BLOCK
  }

  function PayloadOf(size: int): nat {
    if size < 0 then 0 else size
  }

  // ------------------------------------------------------------------ records and their encoding

  datatype TarRecord = TarRecord(header: bytes, payload: bytes, padding: bytes)

  ghost predicate GoodHeader(h: bytes, decode: HeaderDecoder) {
    && |h| == BLOCK && h != ZeroBlock() && ApprovedType(h[TYPE_OFFSET])
    && decode(h).Some?
    && (decode(h).value.kind == Directory ==> decode(h).value.size == 0)
    && decode(h).value.kind != OtherKind
  }

  ghost predicate GoodRecord(r: TarRecord, decode: HeaderDecoder) {
    && GoodHeader(r.header, decode)
    && var m := decode(r.header).value;
       |r.payload| == PayloadOf(m.size) && |r.padding| == (if m.kind == Directory then 0 else PaddingOf(m.size))
  }

  ghost predicate GoodRecords(rs: seq<TarRecord>, decode: HeaderDecoder) {
    forall i | 0 <= i < |rs| :: GoodRecord(rs[i], decode)
  }

  function EncodeRecord(r: TarRecord): bytes {
    r.header + r.payload + r.padding
  }

  function EncodeRecords(rs: seq<TarRecord>): bytes {
    if rs == [] then [] else EncodeRecord(rs[0]) + EncodeRecords(rs[1..])
  }

  /** A complete archive: its records, an all-zero block, and anything at all after that. */
  ghost predicate IsArchive(s: bytes, rs: seq<TarRecord>, decode: HeaderDecoder) {
    GoodRecords(rs, decode) && EncodeRecords(rs) + ZeroBlock() <= s
  }

  /** The good record a stream starts with, if it starts with one. */
  function TakeRecord(s: bytes, decode: HeaderDecoder): (taken: Option<TarRecord>)
    requires |s| >= BLOCK && s[..BLOCK] != ZeroBlock()
    ensures taken.Some? ==> && GoodRecord(taken.value, decode)
                            && |EncodeRecord(taken.value)| >= BLOCK && EncodeRecord(taken.value) <= s
  {
    var h := s[..BLOCK];
    if !ApprovedType(h[TYPE_OFFSET]) || decode(h).None? then None
    else
      var m := decode(h).value;
      var a := BLOCK + PayloadOf(m.size);
      var b := a + (if m.kind == Directory then 0 else PaddingOf(m.size));
      if m.kind == OtherKind || (m.kind == Directory && m.size != 0) || |s| < b then None
      else
        assert h + s[BLOCK..a] + s[a..b] == s[..b];
        Some(TarRecord(h, s[BLOCK..a], s[a..b]))
  }

  /** The one record list a stream encodes, if it encodes any. */
  function Decode(s: bytes, decode: HeaderDecoder): Option<seq<TarRecord>> {
    if |s| < BLOCK then None
    else if s[..BLOCK] == ZeroBlock() then Some([])
    else
      match TakeRecord(s, decode)
      case None => None
      case Some(r) =>
        match Decode(s[|EncodeRecord(r)|..], decode)
        case None => None
        case Some(more) => Some([r] + more)
  }

  lemma TakeFirst(r: TarRecord, rest: bytes, decode: HeaderDecoder)
    requires GoodRecord(r, decode)
    ensures var s := EncodeRecord(r) + rest;
            && |s| >= BLOCK && s[..BLOCK] != ZeroBlock() && TakeRecord(s, decode) == Some(r)
            && s[|EncodeRecord(r)|..] == rest
  {
    hide ZeroBlock, PaddingOf;
    var s := EncodeRecord(r) + rest;
    FourParts(r.header, r.payload, r.padding, rest);
    var a := BLOCK + |r.payload|;
    var b := a + |r.padding|;
    assert s[..BLOCK] == r.header && s[BLOCK..a] == r.payload && s[a..b] == r.padding && s[b..] == rest;
  }

  /** A good record in front of a stream is taken off whole. */
  lemma DecodeFirst(r: TarRecord, rest: bytes, decode: HeaderDecoder)
    requires GoodRecord(r, decode)
    ensures var d := Decode(rest, decode);
            Decode(EncodeRecord(r) + rest, decode) == (if d.None? then None else Some([r] + d.value))
  {
    hide TakeRecord, EncodeRecord, GoodRecord;
    TakeFirst(r, rest, decode);
  }

  lemma {:induction false} ArchiveDecodes(s: bytes, rs: seq<TarRecord>, decode: HeaderDecoder)
    requires IsArchive(s, rs, decode)
    ensures Decode(s, decode) == Some(rs)
  {
    hide GoodRecord, EncodeRecord, TakeRecord;
    if rs == [] {
      assert s[..BLOCK] == ZeroBlock();
    } else {
      var first := EncodeRecord(rs[0]);
      assert EncodeRecords(rs) == first + EncodeRecords(rs[1..]);
      assert first <= s && s == first + s[|first|..];
      assert EncodeRecords(rs[1..]) + ZeroBlock() <= s[|first|..];
      ArchiveDecodes(s[|first|..], rs[1..], decode);
      DecodeFirst(rs[0], s[|first|..], decode);
      assert [rs[0]] + rs[1..] == rs;
    }
  }

  lemma {:induction false} DecodedIsArchive(s: bytes, decode: HeaderDecoder)
    requires Decode(s, decode).Some?
    ensures IsArchive(s, Decode(s, decode).value, decode)
  {
    hide GoodRecord, EncodeRecord, TakeRecord;
    var rs := Decode(s, decode).value;
    if s[..BLOCK] == ZeroBlock() {
      assert EncodeRecords([]) + ZeroBlock() == ZeroBlock();
    } else {
      var first := EncodeRecord(rs[0]);
      DecodedIsArchive(s[|first|..], decode);
      assert s == first + s[|first|..] && rs[1..] == Decode(s[|first|..], decode).value;
      assert EncodeRecords(rs) + ZeroBlock() == first + (EncodeRecords(rs[1..]) + ZeroBlock());
    }
  }

  /** Decoding is exactly the inverse of encoding, so the record list of a stream is unique. */
  lemma DecodeIff(s: bytes, rs: seq<TarRecord>, decode: HeaderDecoder)
    ensures Decode(s, decode) == Some(rs) <==> IsArchive(s, rs, decode)
  {
    hide Decode, IsArchive;
    if Decode(s, decode) == Some(rs) {
      DecodedIsArchive(s, decode);
    }
    if IsArchive(s, rs, decode) {
      ArchiveDecodes(s, rs, decode);
    }
  }

  // ------------------------------------------------------------------ acceptance

  function RecordName(r: TarRecord, decode: HeaderDecoder): string {
    match decode(r.header)
    case None => ""
    case Some(m) => m.name
  }

  function RecordItem(r: TarRecord, decode: HeaderDecoder): Item {
    match decode(r.header)
    case None => Item([], Dir)
    case Some(m) => Item(Parts(m.name), if m.kind == Directory then Dir else File(r.payload))
  }

  function RecordNames(rs: seq<TarRecord>, decode: HeaderDecoder): seq<string> {
    if rs == [] then []
    else RecordNames(rs[..|rs| - 1], decode) + [RecordName(rs[|rs| - 1], decode)]
  }

  function RecordItems(rs: seq<TarRecord>, decode: HeaderDecoder): seq<Item> {
    if rs == [] then []
    else RecordItems(rs[..|rs| - 1], decode) + [RecordItem(rs[|rs| - 1], decode)]
  }

  /** Bytes debited for a record list: payloads and their padding to whole blocks. */
  function PaddedTotal(rs: seq<TarRecord>): nat {
    if rs == [] then 0
    else PaddedTotal(rs[..|rs| - 1]) + |rs[|rs| - 1].payload| + |rs[|rs| - 1].padding|
  }

  /** The least multiple of 512 that is not below the size. */
  function RoundedUp(size: nat): nat {
    512 * ((size + 511) / 512)
  }

  /** Payload and padding of a file take its size rounded up; a negative size takes no payload. */
  lemma RoundsUp(size: int)
    ensures 0 <= PaddingOf(size) < 512 && (size + PaddingOf(size)) % 512 == 0
    ensures size >= 0 ==> PayloadOf(size) + PaddingOf(size) == RoundedUp(size)
    ensures size < 0 ==> PayloadOf(size) == 0 && PaddingOf(size) == -size % 512
    ensures forall k | 512 * k >= size :: 512 * k >= size + PaddingOf(size)
  {
    var q := PaddingCases(size);
    hide PaddingOf;
    if size % 512 != 0 {
      assert (size + PaddingOf(size)) / 512 == q + 1 && (size + 511) / 512 == q + 1;
    } else {
      assert (size + 511) / 512 == q;
    }
    forall k | 512 * k >= size ensures 512 * k >= size + PaddingOf(size) {
      assert k >= q && (size % 512 != 0 ==> k > q);
    }
  }

  lemma PaddingCases(size: int) returns (q: int)
    ensures size == 512 * q + size % 512 && 0 <= size % 512 < 512
    ensures PaddingOf(size) == if size % 512 == 0 then 0 else 512 - size % 512
    ensures -size % 512 == PaddingOf(size)
  {
    q := size / 512;
    if size % 512 != 0 {
      assert -size == 512 * (-q - 1) + (512 - size % 512);
    }
  }

  /** What the file of this record takes of the stream and the budget, its header not counted. */
  function Taken(r: TarRecord, decode: HeaderDecoder): nat {
    match decode(r.header)
    case None => 0
    case Some(m) => if m.kind == Directory then 0 else if m.size < 0 then -m.size % 512 else RoundedUp(m.size)
  }

  function TakenTotal(rs: seq<TarRecord>, decode: HeaderDecoder): nat {
    if rs == [] then 0 else TakenTotal(rs[..|rs| - 1], decode) + Taken(rs[|rs| - 1], decode)
  }

  /** A well-formed file record is as long as its size says, and padded to the next multiple of 512. */
  lemma PaddedToBlock(r: TarRecord, decode: HeaderDecoder)
    requires GoodRecord(r, decode)
    ensures |r.payload| + |r.padding| == Taken(r, decode) && |r.padding| < 512
    ensures decode(r.header).value.size >= 0 ==>
      |r.payload| == decode(r.header).value.size && (|r.payload| + |r.padding|) % 512 == 0
  {
    hide PaddingOf;
    RoundsUp(decode(r.header).value.size);
  }

  /** The bytes debited are the sizes of the files, each rounded up to 512. */
  lemma {:induction false} PaddedIsTaken(rs: seq<TarRecord>, decode: HeaderDecoder)
    requires GoodRecords(rs, decode)
    ensures PaddedTotal(rs) == TakenTotal(rs, decode)
  {
    hide GoodRecord, Taken;
    if rs != [] {
      PaddedIsTaken(rs[..|rs| - 1], decode);
      PaddedToBlock(rs[|rs| - 1], decode);
    }
  }

  /**
   A member is taken off the stream exactly if its type flag, at offset 156, is '0', NUL or '5', its header
   decodes to a file or to a directory of size zero, and the stream has its size rounded up to 512.
   */
  lemma TakenOffIff(s: bytes, decode: HeaderDecoder)
    requires |s| >= 512 && s[..512] != ZeroBlock()
    ensures TakeRecord(s, decode).Some? <==>
      && s[156] in {0x30, 0x00, 0x35} && decode(s[..512]).Some?
      && var m := decode(s[..512]).value;
      && (m.kind == Regular || (m.kind == Directory && m.size == 0))
      && |s| >= 512 + if m.kind == Directory then 0 else if m.size < 0 then -m.size % 512 else RoundedUp(m.size)
  {
    hide PaddingOf, ZeroBlock, RoundedUp;
    if decode(s[..512]).Some? {
      RoundsUp(decode(s[..512]).value.size);
    }
  }

  function PayloadTotal(rs: seq<TarRecord>): nat {
    if rs == [] then 0
    else PayloadTotal(rs[..|rs| - 1]) + |rs[|rs| - 1].payload|
  }

  // ------------------------------------------------------------------ what arrives when writes may be short

  /** What is left of the script after all these payloads. */
  ghost function RestAfter(script: seq<WriteOutcome>, rs: seq<TarRecord>): seq<WriteOutcome> {
    if rs == [] then script else Rest(RestAfter(script, rs[..|rs| - 1]), rs[|rs| - 1].payload)
  }

  /** The records with the payloads that arrive in their files. */
  ghost function Received(script: seq<WriteOutcome>, rs: seq<TarRecord>): (got: seq<TarRecord>)
    ensures |got| == |rs| && forall i | 0 <= i < |rs| :: got[i].header == rs[i].header
  {
    if rs == [] then []
    else
      var front, r := rs[..|rs| - 1], rs[|rs| - 1];
      Received(script, front) + [r.(payload := Delivered(RestAfter(script, front), r.payload))]
  }

  ghost predicate NoWriteFails(script: seq<WriteOutcome>, rs: seq<TarRecord>) {
    rs == [] || (&& NoWriteFails(script, rs[..|rs| - 1])
                 && NoneFails(RestAfter(script, rs[..|rs| - 1]), rs[|rs| - 1].payload))
  }

  /** Every write takes its whole chunk. */
  ghost predicate AllWritesWhole(script: seq<WriteOutcome>, rs: seq<TarRecord>) {
    rs == [] || (&& AllWritesWhole(script, rs[..|rs| - 1])
                 && AllWhole(RestAfter(script, rs[..|rs| - 1]), rs[|rs| - 1].payload))
  }

  /** If no write fails, the files are right, and as long as they should be, exactly if every write was whole. */
  lemma {:induction false} ReceivedWholeIff(script: seq<WriteOutcome>, rs: seq<TarRecord>)
    requires NoWriteFails(script, rs)
    ensures Received(script, rs) == rs <==> AllWritesWhole(script, rs)
    ensures PayloadTotal(Received(script, rs)) <= PayloadTotal(rs)
    ensures PayloadTotal(Received(script, rs)) == PayloadTotal(rs) <==> AllWritesWhole(script, rs)
  {
    hide AllWhole, NoneFails, Delivered, Rest, RestAfter, PayloadTotal, Received, NoWriteFails;
    if rs == [] {
      NothingReceived(script);
    } else {
      var front, r := rs[..|rs| - 1], rs[|rs| - 1];
      var script' := RestAfter(script, front);
      var last := r.(payload := Delivered(script', r.payload));
      assert rs == front + [r];
      ReceivedMore(script, front, r);
      ReceivedWholeIff(script, front);
      DeliveredWholeIff(script', r.payload);
      SameEnds(Received(script, front), front, last, r);
    }
  }

  lemma NothingReceived(script: seq<WriteOutcome>)
    ensures Received(script, []) == [] && PayloadTotal([]) == 0
  {
  }

  lemma SameEnds(a: seq<TarRecord>, b: seq<TarRecord>, x: TarRecord, y: TarRecord)
    requires |a| == |b|
    ensures a + [x] == b + [y] <==> a == b && x == y
    ensures PayloadTotal(a + [x]) == PayloadTotal(a) + |x.payload|
    ensures PayloadTotal(b + [y]) == PayloadTotal(b) + |y.payload|
  {
    var s, t := a + [x], b + [y];
    assert s[..|a|] == a && t[..|b|] == b && s[|a|] == x && t[|b|] == y;
  }

  /** Without a script all writes are complete. */
  lemma {:induction false} CompleteWrites(rs: seq<TarRecord>)
    ensures NoWriteFails([], rs) && Received([], rs) == rs && RestAfter([], rs) == []
  {
    hide NoneFails, Delivered, Rest;
    if rs != [] {
      CompleteWrites(rs[..|rs| - 1]);
      CompleteCopy(rs[|rs| - 1].payload);
    }
  }

  lemma {:induction false} CompleteCopy(payload: bytes)
    ensures NoneFails([], payload) && Delivered([], payload) == payload && Rest([], payload) == []
    decreases |payload|
  {
    if payload != [] {
      var c := if |payload| <= COPY_CHUNK_SIZE then |payload| else COPY_CHUNK_SIZE;
      CompleteCopy(payload[c..]);
      assert payload == payload[..c] + payload[c..];
    }
  }

  lemma {:induction false} NoWriteFailsPrefix(script: seq<WriteOutcome>, rs: seq<TarRecord>, n: nat)
    requires n <= |rs| && NoWriteFails(script, rs)
    ensures NoWriteFails(script, rs[..n])
    decreases |rs|
  {
    hide NoneFails;
    if n < |rs| {
      NoWriteFailsPrefix(script, rs[..|rs| - 1], n);
      assert rs[..|rs| - 1][..n] == rs[..n];
    } else {
      assert rs[..n] == rs;
    }
  }

  /** A file's parent directory is the root, or was made by an earlier entry. */
  ghost predicate ParentListed(items: seq<Item>, item: Item) {
    |item.path| > 1 ==> exists earlier | earlier in items :: item.path[..|item.path| - 1] <= earlier.path
  }

  /** `r` may follow the accepted records `done`. */
  ghost predicate MayFollow(
    done: seq<TarRecord>, r: TarRecord, limit: nat, rules: NameRules, decode: HeaderDecoder)
  {
    var items, item := RecordItems(done, decode), RecordItem(r, decode);
    && |done| < 10_000
    && NamesAccepted(RecordNames(done, decode) + [RecordName(r, decode)], rules)
    && item.path != [] && ConflictsWithNone(items, item)
    && (item.entry.File? ==> ParentListed(items, item))
    && PaddedTotal(done) + |r.payload| + |r.padding| <= limit
  }

  /** Each record may follow the ones before it. */
  ghost predicate Acceptable(rs: seq<TarRecord>, limit: nat, rules: NameRules, decode: HeaderDecoder) {
    rs == [] || (Acceptable(rs[..|rs| - 1], limit, rules, decode)
                 && MayFollow(rs[..|rs| - 1], rs[|rs| - 1], limit, rules, decode))
  }

  lemma {:induction false} AcceptablePrefix(
    rs: seq<TarRecord>, k: nat, limit: nat, rules: NameRules, decode: HeaderDecoder)
    requires Acceptable(rs, limit, rules, decode) && k <= |rs|
    ensures Acceptable(rs[..k], limit, rules, decode)
    ensures k < |rs| ==> MayFollow(rs[..k], rs[k], limit, rules, decode)
    decreases |rs|
  {
    hide MayFollow;
    if k < |rs| {
      var shorter := rs[..|rs| - 1];
      if k < |shorter| {
        AcceptablePrefix(shorter, k, limit, rules, decode);
      }
      assert shorter[..k] == rs[..k];
    } else {
      assert rs[..k] == rs;
    }
  }

  /** Every file comes after an entry that makes its parent directory. */
  ghost predicate ParentsFirst(items: seq<Item>) {
    forall i | 0 <= i < |items| && items[i].entry.File? :: ParentListed(items[..i], items[i])
  }

  /** The same condition on the list as a whole. */
  ghost predicate WellOrderedArchive(rs: seq<TarRecord>, limit: nat, rules: NameRules, decode: HeaderDecoder) {
    && |rs| <= 10_000
    && NamesAccepted(RecordNames(rs, decode), rules)
    && (forall item | item in RecordItems(rs, decode) :: item.path != [])
    && ConflictFree(RecordItems(rs, decode))
    && ParentsFirst(RecordItems(rs, decode))
    && PaddedTotal(rs) <= limit
  }

  lemma {:induction false} AcceptableIff(rs: seq<TarRecord>, limit: nat, rules: NameRules, decode: HeaderDecoder)
    ensures Acceptable(rs, limit, rules, decode) <==> WellOrderedArchive(rs, limit, rules, decode)
  {
    hide RecordItem, RecordName, NamesAccepted, ParentListed, ConflictsWithNone, ConflictFree, ParentsFirst;
    if rs == [] {
      NothingListed(rules);
    } else {
      var less, r := rs[..|rs| - 1], rs[|rs| - 1];
      AcceptableIff(less, limit, rules, decode);
      var items, item := RecordItems(less, decode), RecordItem(r, decode);
      NamesStep(RecordNames(less, decode), RecordName(r, decode), rules);
      ConflictsStep(items, item);
      ParentsStep(items, item);
      assert item in items + [item] && forall i | i in items :: i in items + [item];
    }
  }

  lemma NothingListed(rules: NameRules)
    ensures NamesAccepted([], rules) && ConflictFree([]) && ParentsFirst([])
  {
  }

  lemma ConflictsStep(items: seq<Item>, item: Item)
    ensures ConflictFree(items + [item]) <==> ConflictFree(items) && ConflictsWithNone(items, item)
  {
    assert item in items + [item];
    assert forall i | i in items :: i in items + [item];
    if ConflictFree(items) {
      ConflictFreeStep(items, item);
    }
  }

  lemma ParentsStep(items: seq<Item>, item: Item)
    ensures ParentsFirst(items + [item]) <==>
            ParentsFirst(items) && (item.entry.File? ==> ParentListed(items, item))
  {
    hide ParentListed;
    var all := items + [item];
    assert all[..|items|] == items;
    assert forall i | 0 <= i < |items| :: all[i] == items[i] && all[..i] == items[..i];
    if ParentsFirst(all) {
      forall i | 0 <= i < |items| && items[i].entry.File? ensures ParentListed(items[..i], items[i]) {
        assert all[i].entry.File? && ParentListed(all[..i], all[i]);
      }
      assert all[|items|] == item;
    }
  }

  // ------------------------------------------------------------------ the walk

  class TarInput {
    const content: bytes
    var pos: nat

    ghost predicate Valid()
      reads this
    {
      pos <= |content|
    }

    constructor (content: bytes)
      ensures Valid() && this.content == content && pos == 0
    {
      this.content := content;
      pos := 0;
    }

    /** Exactly `n` bytes, or an unexpected end of archive. */
    method ReadExact(n: nat) returns (ok: bool, data: bytes)
      requires Valid()
      modifies this
      ensures Valid()
      ensures ok <==> old(pos) + n <= |content|
      ensures ok ==> pos == old(pos) + n && data == content[old(pos)..pos]
    {
      if pos + n > |content| {
        pos := |content|;
        return false, [];
      }
      data := content[pos..pos + n];
      pos := pos + n;
      return true, data;
    }
  }

  /** What one unchecked write per chunk leaves in the file. */
  ghost function Delivered(script: seq<WriteOutcome>, payload: bytes): bytes
    decreases |payload|
  {
    var c := if |payload| <= COPY_CHUNK_SIZE then |payload| else COPY_CHUNK_SIZE;
    if payload == [] || !NextWrite(script, c).Accepts? then []
    else payload[..Accepted(NextWrite(script, c), c)] + Delivered(LaterWrites(script), payload[c..])
  }

  /** No write fails; it may be short. */
  ghost predicate NoneFails(script: seq<WriteOutcome>, payload: bytes)
    decreases |payload|
  {
    var c := if |payload| <= COPY_CHUNK_SIZE then |payload| else COPY_CHUNK_SIZE;
    payload == [] || (NextWrite(script, c).Accepts? && NoneFails(LaterWrites(script), payload[c..]))
  }

  /** Every write takes its whole chunk. */
  ghost predicate AllWhole(script: seq<WriteOutcome>, payload: bytes)
    decreases |payload|
  {
    var c := if |payload| <= COPY_CHUNK_SIZE then |payload| else COPY_CHUNK_SIZE;
    payload == [] || (Accepted(NextWrite(script, c), c) == c && AllWhole(LaterWrites(script), payload[c..]))
  }

  /** What is left of the script after a copy during which no write fails. */
  ghost function Rest(script: seq<WriteOutcome>, payload: bytes): seq<WriteOutcome>
    decreases |payload|
  {
    var c := if |payload| <= COPY_CHUNK_SIZE then |payload| else COPY_CHUNK_SIZE;
    if payload == [] then script else Rest(LaterWrites(script), payload[c..])
  }

  /** When no write fails, the file holds the payload exactly if every write took its whole chunk. */
  lemma {:induction false} DeliveredWholeIff(script: seq<WriteOutcome>, payload: bytes)
    requires NoneFails(script, payload)
    ensures |Delivered(script, payload)| <= |payload|
    ensures Delivered(script, payload) == payload <==> AllWhole(script, payload)
    ensures |Delivered(script, payload)| == |payload| <==> AllWhole(script, payload)
    decreases |payload|
  {
    if payload != [] {
      var c := if |payload| <= COPY_CHUNK_SIZE then |payload| else COPY_CHUNK_SIZE;
      var n := Accepted(NextWrite(script, c), c);
      DeliveredWholeIff(LaterWrites(script), payload[c..]);
      if n == c {
        assert payload == payload[..c] + payload[c..];
        assert Delivered(script, payload)[c..] == Delivered(LaterWrites(script), payload[c..]);
      }
    }
  }

  /**
   Copies `size` bytes into the file, debiting each chunk in full. The return value of each write
   is ignored, so what arrives, `got`, is what each single write took of its chunk.
   */
  method CopyTarPayload(input: TarInput, staging: StagingDirectory, path: Path, size: int, budget: Budget)
    returns (ok: bool, ghost got: bytes)
    requires input.Valid() && IsFile(staging.tree, path)
    requires budget.total + PayloadOf(size) <= budget.limit
    modifies input, staging, budget
    ensures input.Valid()
    ensures staging.tree == Grown(old(staging.tree), path, got)
    ensures |got| <= budget.total - old(budget.total) <= PayloadOf(size)
    ensures ok ==> && old(input.pos) + PayloadOf(size) == input.pos
                   && budget.total == old(budget.total) + PayloadOf(size)
    ensures old(input.pos) + PayloadOf(size) <= |input.content| ==>
              var payload := input.content[old(input.pos)..old(input.pos) + PayloadOf(size)];
              && got == Delivered(old(staging.writes), payload) && (ok <==> NoneFails(old(staging.writes), payload))
              && (ok ==> staging.writes == Rest(old(staging.writes), payload))
  {
    hide Grown, Suffix, Delivered, NoneFails, Rest, NextWrite, Accepted, LaterWrites, OnTrack;
    var remaining := size;
    got := [];
    ghost var start := input.pos;
    OnTrackStart(staging.writes, input.content, start, PayloadOf(size));
    GrownNone(staging.tree, path);
    while remaining > 0
      invariant remaining <= size && (size >= 0 ==> remaining >= 0)
      invariant input.Valid() && IsFile(staging.tree, path)
      invariant input.pos == start + PayloadOf(size) - PayloadOf(remaining)
      invariant staging.tree == Grown(old(staging.tree), path, got)
      invariant budget.total == old(budget.total) + PayloadOf(size) - PayloadOf(remaining)
      invariant |got| <= input.pos - start
      invariant OnTrack(
        old(staging.writes), input.content, start, PayloadOf(size), input.pos - start, got, staging.writes)
    {
      var want := if remaining <= COPY_CHUNK_SIZE then remaining else COPY_CHUNK_SIZE;
      var chunk;
      ok, chunk := input.ReadExact(want);
      if !ok { return; }
      var within := budget.Consume(|chunk|);
      ghost var n;
      ghost var script := staging.writes;
      ok, n := staging.WriteOnce(path, chunk);
      OnTrackChunk(
        old(staging.writes), input.content, start, PayloadOf(size), input.pos - want - start, got, script, want);
      GrownMore(old(staging.tree), path, got, chunk[..n]);
      got := got + chunk[..n];
      if !ok { return; }
      remaining := remaining - |chunk|;
    }
    OnTrackEnd(old(staging.writes), input.content, start, PayloadOf(size), got, staging.writes);
    return true, got;
  }

  /** Where the copy stands after `done` bytes of the stream, if the whole payload is there. */
  ghost predicate OnTrack(first: seq<WriteOutcome>, content: bytes, start: nat, size: nat, done: nat, got: bytes,
    script: seq<WriteOutcome>)
  {
    start + size <= |content| ==>
      && done <= size
      && var payload, left := content[start..start + size], content[start + done..start + size];
      && Delivered(first, payload) == got + Delivered(script, left)
      && (NoneFails(first, payload) <==> NoneFails(script, left)) && Rest(first, payload) == Rest(script, left)
  }

  lemma OnTrackStart(script: seq<WriteOutcome>, content: bytes, start: nat, size: nat)
    ensures OnTrack(script, content, start, size, 0, [], script)
  {
  }

  lemma OnTrackChunk(first: seq<WriteOutcome>, content: bytes, start: nat, size: nat, done: nat, got: bytes,
    script: seq<WriteOutcome>, c: nat)
    requires OnTrack(first, content, start, size, done, got, script) && done + c <= size
    requires 0 < c == (if size - done <= COPY_CHUNK_SIZE then size - done else COPY_CHUNK_SIZE)
    requires start + done + c <= |content|
    ensures var more := got + content[start + done..start + done + c][..Accepted(NextWrite(script, c), c)];
      if NextWrite(script, c).Accepts? then
        OnTrack(first, content, start, size, done + c, more, LaterWrites(script))
      else
        start + size <= |content| ==>
          Delivered(first, content[start..start + size]) == more && !NoneFails(first, content[start..start + size])
  {
    hide Delivered, NoneFails, Rest, NextWrite, Accepted, LaterWrites;
    if start + size <= |content| {
      var left := content[start + done..start + size];
      assert left[..c] == content[start + done..start + done + c];
      assert left[c..] == content[start + done + c..start + size];
      DeliverChunk(script, left, c);
    }
  }

  lemma OnTrackEnd(
    first: seq<WriteOutcome>, content: bytes, start: nat, size: nat, got: bytes, script: seq<WriteOutcome>)
    requires OnTrack(first, content, start, size, size, got, script)
    ensures start + size <= |content| ==>
      && Delivered(first, content[start..start + size]) == got && NoneFails(first, content[start..start + size])
      && Rest(first, content[start..start + size]) == script
  {
    NothingLeft(script);
    if start + size <= |content| {
      assert content[start + size..start + size] == [];
    }
  }

  lemma NothingLeft(script: seq<WriteOutcome>)
    ensures Delivered(script, []) == [] && NoneFails(script, []) && Rest(script, []) == script
  {
  }

  lemma DeliverChunk(script: seq<WriteOutcome>, payload: bytes, c: nat)
    requires c == if |payload| <= COPY_CHUNK_SIZE then |payload| else COPY_CHUNK_SIZE
    requires payload != []
    ensures var next := NextWrite(script, c);
      && Delivered(script, payload) ==
           payload[..c][..Accepted(next, c)]
           + (if next.Accepts? then Delivered(LaterWrites(script), payload[c..]) else [])
      && (NoneFails(script, payload) <==> next.Accepts? && NoneFails(LaterWrites(script), payload[c..]))
      && Rest(script, payload) == Rest(LaterWrites(script), payload[c..])
  {
  }

  lemma OneByteDelivered()
    ensures Delivered([Accepts(1)], [1, 2, 3]) == [1] && NoneFails([Accepts(1)], [1, 2, 3])
    ensures !AllWhole([Accepts(1)], [1, 2, 3])
  {
    NothingLeft([]);
    assert [1, 2, 3][3..] == [] && [1, 2, 3][..1] == [1];
  }

  lemma GrownMore(t: Tree, p: Path, a: bytes, b: bytes)
    requires IsFile(t, p)
    ensures IsFile(Grown(t, p, a), p) && IsFile(Grown(t, p, a + b), p)
    ensures Grown(Grown(t, p, a), p, b) == Grown(t, p, a + b)
  {
    assert t[p].content + a + b == t[p].content + (a + b);
  }

  /** A file can be created at `p` without making any directory. */
  ghost predicate LeafFits(t: Tree, p: Path) {
    p != [] && ParentExists(t, p) && p !in t
  }

  /** The payload of this size at the cursor, if the stream is long enough. */
  function PayloadAt(content: bytes, pos: nat, size: int): bytes {
    if pos + PayloadOf(size) <= |content| then content[pos..pos + PayloadOf(size)] else []
  }

  /** A regular member: its exclusive file, its payload, then its padding. */
  method ExtractFile(
    m: Member, input: TarInput, staging: StagingDirectory, budget: Budget, rules: NameRules)
    returns (ok: bool, ghost got: bytes)
    requires input.Valid() && WellFormed(staging.tree) && budget.total <= budget.limit
    requires ValidName(m.name, rules)
    modifies input, staging, budget
    ensures input.Valid() && WellFormed(staging.tree)
    ensures Written(staging.tree) - Written(old(staging.tree)) <= budget.total - old(budget.total)
    ensures Written(staging.tree) - Written(old(staging.tree)) <= budget.limit - old(budget.total)
    ensures ok ==>
              && LeafFits(old(staging.tree), Parts(m.name))
              && staging.tree == old(staging.tree)[Parts(m.name) := File(got)]
              && input.pos == old(input.pos) + PayloadOf(m.size) + PaddingOf(m.size)
              && budget.total == old(budget.total) + PayloadOf(m.size) + PaddingOf(m.size) <= budget.limit
              && |got| <= PayloadOf(m.size)
              && got == Delivered(old(staging.writes), PayloadAt(input.content, old(input.pos), m.size))
              && staging.writes == Rest(old(staging.writes), PayloadAt(input.content, old(input.pos), m.size))
    ensures ok <==> && LeafFits(old(staging.tree), Parts(m.name))
                    && old(budget.total) + PayloadOf(m.size) + PaddingOf(m.size) <= budget.limit
                    && old(input.pos) + PayloadOf(m.size) + PaddingOf(m.size) <= |input.content|
                    && NoneFails(old(staging.writes), PayloadAt(input.content, old(input.pos), m.size))
  {
    hide Delivered, NoneFails, Rest, WellFormed, Written, Parts, ValidName, ParentExists, PaddingOf, Grown;
    got := [];
    if m.size > budget.limit - budget.total { return false, got; }
    var parts := Parts(m.name);
    ghost var was := staging.tree;
    var created := staging.OpenEntryForWrite(parts);
    if !created { return false, got; }
    LeafCreated(was, parts);
    ok, got := CopyTarPayload(input, staging, parts, m.size, budget);
    LeafGrown(was, parts, got);
    if !ok { return; }
    var padding := PaddingOf(m.size);
    if padding == 0 { return true, got; }
    var data;
    ok, data := input.ReadExact(padding);
    if !ok { return; }
    ok := budget.Consume(|data|);
  }

  lemma LeafCreated(t: Tree, p: Path)
    requires WellFormed(t) && LeafFits(t, p)
    ensures CanCreate(t, p) && AddDirs(t, p[..|p| - 1]) == t
    ensures IsFile(t[p := File([])], p)
  {
    var parent := p[..|p| - 1];
    forall k | 0 < k <= |parent| ensures IsDir(t, parent[..k]) {
      assert parent[..k] == p[..k];
    }
    assert Ancestors(parent) <= t.Keys;
  }

  lemma LeafGrown(t: Tree, p: Path, got: bytes)
    requires WellFormed(t) && LeafFits(t, p)
    ensures IsFile(t[p := File([])], p)
    ensures Grown(t[p := File([])], p, got) == t[p := File(got)] == Created(t, p, got)
    ensures WellFormed(t[p := File(got)])
    ensures Written(t[p := File(got)]) == Written(t) + |got|
  {
    hide WellFormed, Written, AddDirs, Ancestors, CanCreate;
    LeafCreated(t, p);
    CreatedIsWellFormed(t, p, got);
    assert [] + got == got;
  }

  /** Against a least tree, a leaf fits exactly when nothing conflicts and its parent is listed. */
  lemma LeafFitsIff(t: Tree, items: seq<Item>, item: Item)
    requires IsLeastTree(t, items) && item.entry.File?
    requires forall earlier | earlier in items :: earlier.path != item.path
    ensures LeafFits(t, item.path) <==>
            item.path != [] && ConflictsWithNone(items, item) && ParentListed(items, item)
  {
    hide IsLeastTree, WellFormed, Written, AddDirs, Ancestors, Blocked, ConflictsWithNone;
    var p := item.path;
    if p != [] {
      LeastIsWellFormed(t, items);
      FitsIff(t, items, item);
      var parent := p[..|p| - 1];
      if |p| > 1 {
        TakenIff(t, items, parent);
      }
      if LeafFits(t, p) {
        LeafCreated(t, p);
        if |p| > 1 {
          assert IsDir(t, p[..|p| - 1]) by { ParentIsDir(t, p); }
        }
      }
      if CanCreate(t, p) && ParentListed(items, item) {
        ParentsPresent(t, p);
      }
    }
  }

  lemma LeastIsWellFormed(t: Tree, items: seq<Item>)
    requires IsLeastTree(t, items)
    ensures WellFormed(t)
  {
  }

  lemma ParentIsDir(t: Tree, p: Path)
    requires ParentExists(t, p) && |p| > 1
    ensures IsDir(t, p[..|p| - 1])
  {
  }

  lemma ParentsPresent(t: Tree, p: Path)
    requires WellFormed(t) && CanCreate(t, p) && (|p| > 1 ==> p[..|p| - 1] in t)
    ensures ParentExists(t, p)
  {
    var parent := p[..|p| - 1];
    forall k | 0 < k < |p| ensures IsDir(t, p[..k]) {
      assert p[..k] == parent[..k];
      assert parent[..|parent|] == parent;
      assert !IsFile(t, parent[..k]);
    }
  }

  // ------------------------------------------------------------------ the whole stream

  /** After taking `done`, what is left at `pos` decodes to the rest of the stream's records. */
  ghost predicate Resumes(s: bytes, done: seq<TarRecord>, pos: nat, decode: HeaderDecoder)
    requires pos <= |s|
  {
    var rest := Decode(s[pos..], decode);
    Decode(s, decode) == (if rest.None? then None else Some(done + rest.value))
  }

  /** The stream encodes a record list, and that list is acceptable. */
  ghost predicate Extractable(s: bytes, limit: nat, rules: NameRules, decode: HeaderDecoder) {
    Decode(s, decode).Some? && Acceptable(Decode(s, decode).value, limit, rules, decode)
  }

  /** In an extractable stream the block at the cursor starts a record that may follow. */
  lemma NextMayFollow(
    s: bytes, done: seq<TarRecord>, pos: nat, limit: nat, rules: NameRules, decode: HeaderDecoder)
    requires pos + BLOCK <= |s| && s[pos..pos + BLOCK] != ZeroBlock()
    requires Resumes(s, done, pos, decode) && Extractable(s, limit, rules, decode)
    ensures s[pos..][..BLOCK] != ZeroBlock() && TakeRecord(s[pos..], decode).Some?
    ensures MayFollow(done, TakeRecord(s[pos..], decode).value, limit, rules, decode)
  {
    hide TakeRecord, MayFollow, Acceptable, ZeroBlock, EncodeRecord, GoodRecord;
    assert s[pos..][..BLOCK] == s[pos..pos + BLOCK];
    var full := Decode(s, decode).value;
    AcceptablePrefix(full, |done|, limit, rules, decode);
    assert full[..|done|] == done;
  }

  /** And if no write fails over the whole stream, none does for that record. */
  lemma NextWritten(
    first: seq<WriteOutcome>, s: bytes, done: seq<TarRecord>, pos: nat, decode: HeaderDecoder)
    requires pos + BLOCK <= |s| && s[pos..pos + BLOCK] != ZeroBlock()
    requires Resumes(s, done, pos, decode) && Decode(s, decode).Some? && NoWriteFails(first, Decode(s, decode).value)
    ensures s[pos..][..BLOCK] != ZeroBlock() && TakeRecord(s[pos..], decode).Some?
    ensures NoneFails(RestAfter(first, done), TakeRecord(s[pos..], decode).value.payload)
  {
    hide TakeRecord, ZeroBlock, Decode, NoneFails, Rest, Delivered, RestAfter, Received, NoWriteFails, Resumes;
    NextIsListed(s, done, pos, decode);
    var full, r := Decode(s, decode).value, TakeRecord(s[pos..], decode).value;
    NoWriteFailsPrefix(first, full, |done| + 1);
    ReceivedMore(first, done, r);
  }

  /** In a stream that decodes, the record at the cursor is the next of the list. */
  lemma NextIsListed(s: bytes, done: seq<TarRecord>, pos: nat, decode: HeaderDecoder)
    requires pos + BLOCK <= |s| && s[pos..pos + BLOCK] != ZeroBlock()
    requires Resumes(s, done, pos, decode) && Decode(s, decode).Some?
    ensures s[pos..][..BLOCK] != ZeroBlock() && TakeRecord(s[pos..], decode).Some?
    ensures var full := Decode(s, decode).value;
      |done| < |full| && full[..|done| + 1] == done + [TakeRecord(s[pos..], decode).value]
  {
    hide TakeRecord, ZeroBlock, Decode;
    assert s[pos..][..BLOCK] == s[pos..pos + BLOCK];
    DecodeHead(s[pos..], decode);
    OneMoreOf(done, Decode(s[pos..], decode).value);
  }

  lemma OneMoreOf<X>(done: seq<X>, rest: seq<X>)
    requires rest != []
    ensures |done| < |done + rest| && (done + rest)[..|done| + 1] == done + [rest[0]]
  {
  }

  lemma DecodeHead(s: bytes, decode: HeaderDecoder)
    requires |s| >= BLOCK && s[..BLOCK] != ZeroBlock() && Decode(s, decode).Some?
    ensures TakeRecord(s, decode).Some?
    ensures Decode(s, decode).value != [] && Decode(s, decode).value[0] == TakeRecord(s, decode).value
  {
    hide TakeRecord, ZeroBlock, EncodeRecord, GoodRecord;
  }

  lemma ResumeStep(s: bytes, done: seq<TarRecord>, pos: nat, decode: HeaderDecoder)
    requires pos + BLOCK <= |s| && s[pos..][..BLOCK] != ZeroBlock()
    requires Resumes(s, done, pos, decode) && TakeRecord(s[pos..], decode).Some?
    ensures var r := TakeRecord(s[pos..], decode).value;
            pos + |EncodeRecord(r)| <= |s| && Resumes(s, done + [r], pos + |EncodeRecord(r)|, decode)
  {
    hide TakeRecord, ZeroBlock, EncodeRecord, GoodRecord;
    var r := TakeRecord(s[pos..], decode).value;
    var next := pos + |EncodeRecord(r)|;
    assert s[pos..][|EncodeRecord(r)|..] == s[next..];
    var rest := Decode(s[next..], decode);
    if rest.Some? {
      assert done + ([r] + rest.value) == done + [r] + rest.value;
    }
  }

  /** What taking a record amounts to, given its decoded header. */
  lemma TakenParts(s: bytes, pos: nat, m: Member, decode: HeaderDecoder)
    requires pos + BLOCK <= |s| && s[pos..pos + BLOCK] != ZeroBlock()
    requires decode(s[pos..pos + BLOCK]) == Some(m)
    ensures s[pos..][..BLOCK] == s[pos..pos + BLOCK]
    ensures var taken := TakeRecord(s[pos..], decode);
            var padding := if m.kind == Directory then 0 else PaddingOf(m.size);
            && (taken.Some? <==> && ApprovedType(s[pos + TYPE_OFFSET])
                                 && m.kind != OtherKind && (m.kind == Directory ==> m.size == 0)
                                 && pos + BLOCK + PayloadOf(m.size) + padding <= |s|)
            && (taken.Some? ==> && RecordName(taken.value, decode) == m.name
                                && |EncodeRecord(taken.value)| == BLOCK + PayloadOf(m.size) + padding
                                && taken.value.payload == s[pos + BLOCK..pos + BLOCK + PayloadOf(m.size)]
                                && |taken.value.padding| == padding
                                && RecordItem(taken.value, decode) ==
                                   Item(Parts(m.name), if m.kind == Directory then Dir else File(taken.value.payload)))
  {
    hide Parts, PaddingOf, ZeroBlock;
    assert s[pos..][..BLOCK] == s[pos..pos + BLOCK];
    var a := BLOCK + PayloadOf(m.size);
    if pos + a <= |s| {
      SubSlice(s, pos, |s|, BLOCK, a);
    }
  }

  lemma TakenNeedsHeader(s: bytes, pos: nat, decode: HeaderDecoder)
    requires pos + BLOCK <= |s| && s[pos..pos + BLOCK] != ZeroBlock()
    ensures s[pos..][..BLOCK] == s[pos..pos + BLOCK]
    ensures TakeRecord(s[pos..], decode).Some? ==>
              ApprovedType(s[pos + TYPE_OFFSET]) && decode(s[pos..pos + BLOCK]).Some?
  {
    hide PaddingOf, ZeroBlock;
    assert s[pos..][..BLOCK] == s[pos..pos + BLOCK];
  }

  lemma StepTotals(done: seq<TarRecord>, r: TarRecord, limit: nat, rules: NameRules, decode: HeaderDecoder)
    ensures PaddedTotal(done + [r]) == PaddedTotal(done) + |r.payload| + |r.padding|
    ensures PayloadTotal(done + [r]) == PayloadTotal(done) + |r.payload|
    ensures RecordNames(done + [r], decode) == RecordNames(done, decode) + [RecordName(r, decode)]
    ensures RecordItems(done + [r], decode) == RecordItems(done, decode) + [RecordItem(r, decode)]
    ensures Acceptable(done + [r], limit, rules, decode) <==>
            Acceptable(done, limit, rules, decode) && MayFollow(done, r, limit, rules, decode)
  {
    hide MayFollow, RecordName, RecordItem;
    assert (done + [r])[..|done|] == done;
  }

  /** Distinct keys make the next record's path differ from every earlier item's. */
  lemma {:induction false} NewPath(done: seq<TarRecord>, r: TarRecord, rules: NameRules, decode: HeaderDecoder)
    requires NamesAccepted(RecordNames(done, decode) + [RecordName(r, decode)], rules)
    requires decode(r.header).Some? && forall i | 0 <= i < |done| :: decode(done[i].header).Some?
    ensures forall item | item in RecordItems(done, decode) :: item.path != RecordItem(r, decode).path
  {
    hide NamesAccepted, Parts;
    var names := RecordNames(done, decode) + [RecordName(r, decode)];
    ItemPaths(done, decode);
    EarlierPathsDiffer(names, |done|, rules);
    var items := RecordItems(done, decode);
    forall item | item in items ensures item.path != RecordItem(r, decode).path {
      var i :| 0 <= i < |items| && item == items[i];
      assert names[i] == RecordNames(done, decode)[i];
    }
  }

  lemma {:induction false} ItemPaths(rs: seq<TarRecord>, decode: HeaderDecoder)
    requires forall i | 0 <= i < |rs| :: decode(rs[i].header).Some?
    ensures |RecordItems(rs, decode)| == |RecordNames(rs, decode)| == |rs|
    ensures forall i | 0 <= i < |rs| :: RecordItems(rs, decode)[i].path == Parts(RecordNames(rs, decode)[i])
  {
    hide Parts;
    if rs != [] {
      ItemPaths(rs[..|rs| - 1], decode);
    }
  }

  ghost predicate SameHeaders(kept: seq<TarRecord>, done: seq<TarRecord>) {
    |kept| == |done| && forall i | 0 <= i < |done| :: kept[i].header == done[i].header
  }

  lemma {:induction false} ItemShapes(kept: seq<TarRecord>, done: seq<TarRecord>, decode: HeaderDecoder)
    requires SameHeaders(kept, done)
    ensures |RecordItems(done, decode)| == |done| && Alike(RecordItems(kept, decode), RecordItems(done, decode))
    ensures Alike(RecordItems(done, decode), RecordItems(kept, decode))
  {
    hide Parts;
    if done != [] {
      ItemShapes(kept[..|done| - 1], done[..|done| - 1], decode);
    }
  }

  /** The same paths, and the same of them directories. */
  ghost predicate Alike(items: seq<Item>, items': seq<Item>) {
    && |items| == |items'|
    && forall i | 0 <= i < |items| :: items[i].path == items'[i].path && items[i].entry.Dir? == items'[i].entry.Dir?
  }

  lemma Twin(items: seq<Item>, items': seq<Item>, item: Item) returns (other: Item)
    requires Alike(items, items') && item in items
    ensures other in items' && other.path == item.path && other.entry.Dir? == item.entry.Dir?
  {
    var i :| 0 <= i < |items| && items[i] == item;
    other := items'[i];
  }

  /** Where an item may go does not depend on the contents of files. */
  lemma SameShape(items: seq<Item>, items': seq<Item>, item: Item, item': Item)
    requires Alike(items, items') && item.path == item'.path && item.entry.Dir? == item'.entry.Dir?
    ensures ConflictsWithNone(items', item') ==> ConflictsWithNone(items, item)
    ensures ParentListed(items, item) ==> ParentListed(items', item')
    ensures (forall earlier | earlier in items' :: earlier.path != item'.path) ==>
      forall earlier | earlier in items :: earlier.path != item.path
  {
    hide Alike;
    if ConflictsWithNone(items', item') {
      forall earlier | earlier in items ensures !Conflict(earlier, item) && !Conflict(item, earlier) {
        var other := Twin(items, items', earlier);
      }
    }
    if ParentListed(items, item) && |item.path| > 1 {
      var earlier :| earlier in items && item.path[..|item.path| - 1] <= earlier.path;
      var other := Twin(items, items', earlier);
    }
    if forall earlier | earlier in items' :: earlier.path != item'.path {
      forall earlier | earlier in items ensures earlier.path != item.path {
        var other := Twin(items, items', earlier);
      }
    }
  }

  /**
   Placing an accepted record's item, with whatever content arrives, keeps the least tree; a refused one
   could not be placed.
   */
  lemma RecordStep(
    t: Tree, kept: seq<TarRecord>, done: seq<TarRecord>, r: TarRecord, got: bytes, limit: nat, rules: NameRules,
    decode: HeaderDecoder)
    requires SameHeaders(kept, done) && IsLeastTree(t, RecordItems(kept, decode))
    requires decode(r.header).Some? && forall i | 0 <= i < |done| :: decode(done[i].header).Some?
    requires |done| < MAX_ARCHIVE_ENTRIES
    requires NamesAccepted(RecordNames(done, decode) + [RecordName(r, decode)], rules)
    ensures var items, item := RecordItems(kept, decode), RecordItem(r.(payload := got), decode);
            && (item.entry.Dir? ==>
                (MayFollow(done, r, limit, rules, decode) <==>
                 && item.path != [] && !Blocked(t, item.path)
                 && PaddedTotal(done) + |r.payload| + |r.padding| <= limit))
            && (item.entry.File? ==>
                (MayFollow(done, r, limit, rules, decode) <==>
                 LeafFits(t, item.path) && PaddedTotal(done) + |r.payload| + |r.padding| <= limit))
            && (item.entry.Dir? && item.path != [] && !Blocked(t, item.path) ==>
                IsLeastTree(AddDirs(t, item.path), items + [item]))
            && (item.entry.File? && LeafFits(t, item.path) ==>
                IsLeastTree(t[item.path := item.entry], items + [item]))
  {
    hide IsLeastTree, NamesAccepted, RecordItems, RecordNames, RecordName, Blocked, LeafFits, Parts,
         ConflictsWithNone, PaddedTotal, ParentListed, AddDirs, WellFormed, Written, Placed;
    var items, item := RecordItems(kept, decode), RecordItem(r.(payload := got), decode);
    var items', item' := RecordItems(done, decode), RecordItem(r, decode);
    NewPath(done, r, rules, decode);
    ItemShapes(kept, done, decode);
    SameShape(items, items', item, item');
    SameShape(items', items, item', item);
    hide RecordItem;
    ItemPlaced(t, items, item);
  }

  lemma ItemPlaced(t: Tree, items: seq<Item>, item: Item)
    requires IsLeastTree(t, items) && forall earlier | earlier in items :: earlier.path != item.path
    ensures item.entry.File? ==>
      && (LeafFits(t, item.path) <==>
          item.path != [] && ConflictsWithNone(items, item) && ParentListed(items, item))
      && (LeafFits(t, item.path) ==> IsLeastTree(t[item.path := item.entry], items + [item]))
    ensures item.entry.Dir? && item.path != [] ==>
      && (!Blocked(t, item.path) <==> ConflictsWithNone(items, item))
      && (!Blocked(t, item.path) ==> IsLeastTree(AddDirs(t, item.path), items + [item]))
  {
    hide IsLeastTree, Blocked, LeafFits, ConflictsWithNone, ParentListed, AddDirs, WellFormed, Written, Placed;
    LeastIsWellFormed(t, items);
    if item.entry.File? {
      LeafFitsIff(t, items, item);
      if LeafFits(t, item.path) {
        LeafGrown(t, item.path, item.entry.content);
        LeafCreated(t, item.path);
        LeafIsPlaced(t, item);
        PlaceItem(t, items, item);
      }
    } else if item.path != [] {
      FitsIff(t, items, item);
      if !Blocked(t, item.path) {
        PlaceItem(t, items, item);
        DirIsPlaced(t, item);
      }
    }
  }

  lemma LeafIsPlaced(t: Tree, item: Item)
    requires WellFormed(t) && item.entry.File? && LeafFits(t, item.path)
    ensures item.path != [] && Fits(t, item) && Placed(t, item) == t[item.path := item.entry]
  {
    hide WellFormed, Written, LeafFits;
    LeafHasPath(t, item.path);
    LeafGrown(t, item.path, item.entry.content);
    LeafCreated(t, item.path);
  }

  lemma LeafHasPath(t: Tree, p: Path)
    requires LeafFits(t, p)
    ensures p != []
  {
  }

  lemma DirIsPlaced(t: Tree, item: Item)
    requires item.entry.Dir? && item.path != []
    ensures Placed(t, item) == AddDirs(t, item.path)
  {
  }

  /** What holds between records: `done` has been taken from `s`, up to `pos`. */
  ghost predicate Progress(
    s: bytes, done: seq<TarRecord>, pos: nat, t: Tree, total: nat, seen: set<string>, limit: nat,
    rules: NameRules, decode: HeaderDecoder)
  {
    && pos <= |s| && Resumes(s, done, pos, decode)
    && |done| <= MAX_ARCHIVE_ENTRIES && (forall i | 0 <= i < |done| :: decode(done[i].header).Some?)
    && NamesAccepted(RecordNames(done, decode), rules) && seen == Keys(RecordNames(done, decode), rules)
    && total == PaddedTotal(done) <= limit && Written(t) <= PayloadTotal(done) <= total
    && WellFormed(t) && Acceptable(done, limit, rules, decode)
  }

  /** What the tree holds after `done`, and what is left of the script of writes. */
  ghost predicate Kept(
    first: seq<WriteOutcome>, done: seq<TarRecord>, t: Tree, writes: seq<WriteOutcome>, decode: HeaderDecoder)
  {
    && NoWriteFails(first, done) && writes == RestAfter(first, done)
    && IsLeastTree(t, RecordItems(Received(first, done), decode))
    && Written(t) == PayloadTotal(Received(first, done))
  }

  lemma ProgressStart(s: bytes, limit: nat, rules: NameRules, decode: HeaderDecoder)
    ensures Progress(s, [], 0, map[], 0, {}, limit, rules, decode)
    ensures forall first :: Kept(first, [], map[], first, decode)
  {
    assert s[0..] == s;
    var rest := Decode(s, decode);
    assert rest.Some? ==> [] + rest.value == rest.value;
    EmptyIsLeast();
  }

  /** The record at the cursor, once its directory or file has been made. */
  lemma ProgressStep(
    s: bytes, done: seq<TarRecord>, pos: nat, t: Tree, total: nat, seen: set<string>, limit: nat,
    rules: NameRules, decode: HeaderDecoder, t': Tree)
    requires Progress(s, done, pos, t, total, seen, limit, rules, decode)
    requires pos + BLOCK <= |s| && s[pos..][..BLOCK] != ZeroBlock() && TakeRecord(s[pos..], decode).Some?
    requires var r := TakeRecord(s[pos..], decode).value;
             && MayFollow(done, r, limit, rules, decode)
             && WellFormed(t') && Written(t') - Written(t) <= |r.payload|
    ensures var r := TakeRecord(s[pos..], decode).value;
            Progress(s, done + [r], pos + |EncodeRecord(r)|, t', total + |r.payload| + |r.padding|,
                     seen + {LogicalKey(RecordName(r, decode), rules)}, limit, rules, decode)
  {
    hide Resumes, TakeRecord, RecordItem, RecordItems, RecordName, RecordNames, PaddedTotal, MayFollow,
         PayloadTotal, Acceptable, NamesAccepted, Keys, Written, WellFormed, LogicalKey, EncodeRecord, ZeroBlock;
    var r := TakeRecord(s[pos..], decode).value;
    TakenHeader(s[pos..], decode);
    ResumeStep(s, done, pos, decode);
    StepTotals(done, r, limit, rules, decode);
    FollowNeeds(done, r, limit, rules, decode);
    NamesStep(RecordNames(done, decode), RecordName(r, decode), rules);
  }

  /** What `Received` and the rest become with one record more. */
  lemma ReceivedMore(first: seq<WriteOutcome>, done: seq<TarRecord>, r: TarRecord)
    ensures var w := RestAfter(first, done);
      && Received(first, done + [r]) == Received(first, done) + [r.(payload := Delivered(w, r.payload))]
      && RestAfter(first, done + [r]) == Rest(w, r.payload)
      && (NoWriteFails(first, done + [r]) <==> NoWriteFails(first, done) && NoneFails(w, r.payload))
  {
    hide Delivered, Rest, NoneFails;
    assert (done + [r])[..|done|] == done;
  }

  /** The tree after one record more. */
  ghost function TreeAfter(t: Tree, item: Item): Tree {
    if item.entry.Dir? then AddDirs(t, item.path) else t[item.path := item.entry]
  }

  lemma KeptStep(
    first: seq<WriteOutcome>, done: seq<TarRecord>, t: Tree, writes: seq<WriteOutcome>, r: TarRecord, limit: nat,
    rules: NameRules, decode: HeaderDecoder)
    requires Kept(first, done, t, writes, decode) && NoneFails(writes, r.payload)
    requires decode(r.header).Some? && forall i | 0 <= i < |done| :: decode(done[i].header).Some?
    requires MayFollow(done, r, limit, rules, decode)
    requires RecordItem(r, decode).entry.Dir? ==> r.payload == []
    ensures var got := r.(payload := Delivered(writes, r.payload));
      && Kept(first, done + [r], TreeAfter(t, RecordItem(got, decode)), Rest(writes, r.payload), decode)
      && Written(TreeAfter(t, RecordItem(got, decode))) == Written(t) + |got.payload| <= Written(t) + |r.payload|
  {
    hide IsLeastTree, RecordItems, RecordNames, RecordName, PaddedTotal, PayloadTotal, MayFollow, NamesAccepted, Parts,
         Written, Blocked, LeafFits, AddDirs, NoneFails, Delivered, Rest, RestAfter, NoWriteFails;
    var kept := Received(first, done);
    var got := r.(payload := Delivered(writes, r.payload));
    ReceivedMore(first, done, r);
    FollowNeeds(done, r, limit, rules, decode);
    RecordStep(t, kept, done, r, got.payload, limit, rules, decode);
    StepTotals(kept, got, limit, rules, decode);
    LeastIsWellFormed(t, RecordItems(kept, decode));
    NothingLeft(writes);
    DeliveredWholeIff(writes, r.payload);
    hide Received;
    if RecordItem(got, decode).entry.File? {
      LeafGrown(t, RecordItem(got, decode).path, got.payload);
    } else {
      WrittenAddDirs(t, RecordItem(got, decode).path);
    }
  }

  lemma TakenHeader(s: bytes, decode: HeaderDecoder)
    requires |s| >= BLOCK && s[..BLOCK] != ZeroBlock() && TakeRecord(s, decode).Some?
    ensures decode(TakeRecord(s, decode).value.header).Some?
  {
  }

  lemma StreamTooShort(
    s: bytes, done: seq<TarRecord>, pos: nat, limit: nat, rules: NameRules, decode: HeaderDecoder)
    requires pos <= |s| < pos + BLOCK && Resumes(s, done, pos, decode)
    ensures !Extractable(s, limit, rules, decode)
  {
  }

  lemma StreamEnds(
    s: bytes, done: seq<TarRecord>, pos: nat, limit: nat, rules: NameRules, decode: HeaderDecoder)
    requires pos + BLOCK <= |s| && s[pos..pos + BLOCK] == ZeroBlock() && Resumes(s, done, pos, decode)
    ensures Decode(s, decode) == Some(done)
    ensures Extractable(s, limit, rules, decode) <==> Acceptable(done, limit, rules, decode)
  {
    hide ZeroBlock, TakeRecord, Acceptable;
    assert s[pos..][..BLOCK] == s[pos..pos + BLOCK];
    assert done + [] == done;
  }

  lemma FollowNeeds(
    done: seq<TarRecord>, r: TarRecord, limit: nat, rules: NameRules, decode: HeaderDecoder)
    requires MayFollow(done, r, limit, rules, decode)
    ensures |done| < MAX_ARCHIVE_ENTRIES
    ensures NamesAccepted(RecordNames(done, decode) + [RecordName(r, decode)], rules)
    ensures PaddedTotal(done) + |r.payload| + |r.padding| <= limit
  {
  }

  /** The checks on one header: type, decoding, entry count, registration, and shape. */
  method AdmitMember(
    ghost s: bytes, ghost start: nat, header: bytes, ghost done: seq<TarRecord>, entryCount: nat,
    ghost limit: nat, registry: Registry, rules: NameRules, decode: HeaderDecoder)
    returns (ok: bool, m: Member)
    requires start + BLOCK <= |s| && header == s[start..start + BLOCK] && header != ZeroBlock()
    requires Resumes(s, done, start, decode) && entryCount == |done|
    requires NamesAccepted(RecordNames(done, decode), rules)
    requires registry.seen == Keys(RecordNames(done, decode), rules)
    modifies registry
    ensures ok ==>
              && decode(header) == Some(m) && ApprovedType(header[TYPE_OFFSET])
              && m.kind != OtherKind && (m.kind == Directory ==> m.size == 0)
              && |done| < MAX_ARCHIVE_ENTRIES && ValidName(m.name, rules)
              && NamesAccepted(RecordNames(done, decode) + [m.name], rules)
              && registry.seen == old(registry.seen) + {LogicalKey(m.name, rules)}
    ensures Extractable(s, limit, rules, decode) ==> ok
  {
    hide Resumes, TakeRecord, RecordItem, RecordItems, RecordName, RecordNames, PaddedTotal, MayFollow,
         NamesAccepted, Keys, LogicalKey, EncodeRecord, ZeroBlock, ValidName, Parts, ApprovedType, PaddingOf,
         PayloadOf, Extractable, Decode;
    ghost var will := Extractable(s, limit, rules, decode);
    m := Member("", OtherKind, 0);
    TakenNeedsHeader(s, start, decode);
    if will {
      NextMayFollow(s, done, start, limit, rules, decode);
      FollowNeeds(done, TakeRecord(s[start..], decode).value, limit, rules, decode);
    }
    if !ApprovedType(header[TYPE_OFFSET]) { return false, m; }
    var decoded := decode(header);
    if decoded.None? { return false, m; }
    m := decoded.value;
    TakenParts(s, start, m, decode);
    if entryCount + 1 > MAX_ARCHIVE_ENTRIES { return false, m; }
    NamesStep(RecordNames(done, decode), m.name, rules);
    ok := registry.Register(m.name, rules);
    if !ok { return; }
    if m.kind == Directory {
      if m.size != 0 { return false, m; }
      return;
    }
    if m.kind != Regular { return false, m; }
  }

  /** What the stream, the tree and the writes must allow for the admitted member to be made. */
  ghost predicate MemberFits(
    m: Member, s: bytes, pos: nat, t: Tree, total: nat, writes: seq<WriteOutcome>, limit: nat)
  {
    if m.kind == Directory then Parts(m.name) != [] && !Blocked(t, Parts(m.name))
    else
      && LeafFits(t, Parts(m.name)) && total + PayloadOf(m.size) + PaddingOf(m.size) <= limit
      && pos + PayloadOf(m.size) + PaddingOf(m.size) <= |s| && NoneFails(writes, PayloadAt(s, pos, m.size))
  }

  /** Makes the directory or file of one registered member. */
  method ExtractMember(
    m: Member, input: TarInput, staging: StagingDirectory, budget: Budget, rules: NameRules) returns (ok: bool)
    requires input.Valid() && WellFormed(staging.tree) && budget.total <= budget.limit
    requires ValidName(m.name, rules) && m.kind != OtherKind && (m.kind == Directory ==> m.size == 0)
    modifies input, staging, budget
    ensures input.Valid() && WellFormed(staging.tree)
    ensures Written(staging.tree) - Written(old(staging.tree)) <= budget.total - old(budget.total)
    ensures Written(staging.tree) - Written(old(staging.tree)) <= budget.limit - old(budget.total)
    ensures ok ==>
              var padding := if m.kind == Directory then 0 else PaddingOf(m.size);
              && input.pos == old(input.pos) + PayloadOf(m.size) + padding
              && budget.total == old(budget.total) + PayloadOf(m.size) + padding <= budget.limit
              && staging.writes == Rest(old(staging.writes), PayloadAt(input.content, old(input.pos), m.size))
              && staging.tree ==
                   if m.kind == Directory then AddDirs(old(staging.tree), Parts(m.name))
                   else old(staging.tree)[Parts(m.name) :=
                     File(Delivered(old(staging.writes), PayloadAt(input.content, old(input.pos), m.size)))]
    ensures ok <==> MemberFits(
      m, input.content, old(input.pos), old(staging.tree), old(budget.total), old(staging.writes), budget.limit)
  {
    hide WellFormed, Written, Parts, ValidName, PaddingOf, Blocked, AddDirs, LeafFits, Delivered, NoneFails, Rest;
    ghost var t := staging.tree;
    NothingLeft(staging.writes);
    if m.kind == Directory {
      assert input.content[input.pos..input.pos] == [];
      WrittenAddDirs(staging.tree, Parts(m.name));
      ok := staging.MkdirEntry(m.name, rules);
    } else {
      ghost var got;
      ok, got := ExtractFile(m, input, staging, budget, rules);
      if ok {
        LeafGrown(t, Parts(m.name), got);
      }
    }
  }

  /** The tree and the record that come of making it. */
  lemma MemberTaken(
    first: seq<WriteOutcome>, s: bytes, done: seq<TarRecord>, pos: nat, t: Tree, writes: seq<WriteOutcome>,
    seen: set<string>, m: Member, limit: nat, rules: NameRules, decode: HeaderDecoder)
    requires Progress(s, done, pos, t, PaddedTotal(done), seen, limit, rules, decode)
    requires Kept(first, done, t, writes, decode)
    requires pos + BLOCK <= |s| && s[pos..pos + BLOCK] != ZeroBlock() && decode(s[pos..pos + BLOCK]) == Some(m)
    requires ApprovedType(s[pos..pos + BLOCK][TYPE_OFFSET])
    requires m.kind != OtherKind && (m.kind == Directory ==> m.size == 0)
    requires |done| < MAX_ARCHIVE_ENTRIES && NamesAccepted(RecordNames(done, decode) + [m.name], rules)
    requires MemberFits(m, s, pos + BLOCK, t, PaddedTotal(done), writes, limit)
    ensures TakeRecord(s[pos..], decode).Some?
    ensures var r, payload := TakeRecord(s[pos..], decode).value, PayloadAt(s, pos + BLOCK, m.size);
      var t' := if m.kind == Directory then AddDirs(t, Parts(m.name))
                else t[Parts(m.name) := File(Delivered(writes, payload))];
      var padding := if m.kind == Directory then 0 else PaddingOf(m.size);
      && Progress(s, done + [r], pos + BLOCK + PayloadOf(m.size) + padding, t',
           PaddedTotal(done) + PayloadOf(m.size) + padding, seen + {LogicalKey(m.name, rules)}, limit, rules, decode)
      && Kept(first, done + [r], t', Rest(writes, payload), decode)
  {
    hide Progress, MemberFits, TakeRecord, IsLeastTree, RecordItem, RecordItems, RecordNames, RecordName, PaddedTotal,
         PayloadAt, PayloadTotal, Acceptable, MayFollow, NamesAccepted, Keys, Written, Blocked, LeafFits, AddDirs,
         WellFormed, LogicalKey, EncodeRecord, ZeroBlock, ValidName, Parts, ApprovedType, PaddingOf, NoneFails,
         Delivered, Rest, RestAfter, Received, NoWriteFails;
    MemberFollows(first, s, done, pos, t, writes, seen, m, limit, rules, decode);
    TakenHeader(s[pos..], decode);
    ProgressKnows(s, done, pos, t, PaddedTotal(done), seen, limit, rules, decode);
    var r := TakeRecord(s[pos..], decode).value;
    var got := r.(payload := Delivered(writes, r.payload));
    ItemWith(r, got.payload, decode);
    KeptStep(first, done, t, writes, r, limit, rules, decode);
    KeptKnows(first, done + [r], TreeAfter(t, RecordItem(got, decode)), Rest(writes, r.payload), decode);
    ProgressStep(s, done, pos, t, PaddedTotal(done), seen, limit, rules, decode, TreeAfter(t, RecordItem(got, decode)));
  }

  /** The record that an admitted member which fits stands for, and that it may follow. */
  lemma MemberFollows(
    first: seq<WriteOutcome>, s: bytes, done: seq<TarRecord>, pos: nat, t: Tree, writes: seq<WriteOutcome>,
    seen: set<string>, m: Member, limit: nat, rules: NameRules, decode: HeaderDecoder)
    requires Progress(s, done, pos, t, PaddedTotal(done), seen, limit, rules, decode)
    requires Kept(first, done, t, writes, decode)
    requires pos + BLOCK <= |s| && s[pos..pos + BLOCK] != ZeroBlock() && decode(s[pos..pos + BLOCK]) == Some(m)
    requires ApprovedType(s[pos..pos + BLOCK][TYPE_OFFSET])
    requires m.kind != OtherKind && (m.kind == Directory ==> m.size == 0)
    requires |done| < MAX_ARCHIVE_ENTRIES && NamesAccepted(RecordNames(done, decode) + [m.name], rules)
    requires MemberFits(m, s, pos + BLOCK, t, PaddedTotal(done), writes, limit)
    ensures s[pos..][..BLOCK] == s[pos..pos + BLOCK] && TakeRecord(s[pos..], decode).Some?
    ensures var r := TakeRecord(s[pos..], decode).value;
      var padding := if m.kind == Directory then 0 else PaddingOf(m.size);
      && r.payload == PayloadAt(s, pos + BLOCK, m.size) && |r.payload| == PayloadOf(m.size) && |r.padding| == padding
      && |EncodeRecord(r)| == BLOCK + PayloadOf(m.size) + padding && RecordName(r, decode) == m.name
      && RecordItem(r, decode) == Item(Parts(m.name), if m.kind == Directory then Dir else File(r.payload))
      && (m.kind == Directory ==> r.payload == [])
      && MayFollow(done, r, limit, rules, decode) && NoneFails(writes, r.payload)
  {
    hide Progress, TakeRecord, IsLeastTree, RecordItem, RecordItems, RecordNames, RecordName, PaddedTotal,
         PayloadTotal, Acceptable, MayFollow, NamesAccepted, Keys, Written, Blocked, LeafFits, AddDirs, WellFormed,
         LogicalKey, EncodeRecord, ZeroBlock, ValidName, Parts, ApprovedType, PaddingOf, NoneFails, Delivered, Rest,
         RestAfter, Received, NoWriteFails;
    assert s[pos..pos + BLOCK][TYPE_OFFSET] == s[pos + TYPE_OFFSET];
    TakenParts(s, pos, m, decode);
    TakenHeader(s[pos..], decode);
    NothingLeft(writes);
    var r := TakeRecord(s[pos..], decode).value;
    ProgressKnows(s, done, pos, t, PaddedTotal(done), seen, limit, rules, decode);
    RecordStep(t, Received(first, done), done, r, r.payload, limit, rules, decode);
    assert r.(payload := r.payload) == r;
  }

  lemma ItemWith(r: TarRecord, got: bytes, decode: HeaderDecoder)
    ensures var item, item' := RecordItem(r, decode), RecordItem(r.(payload := got), decode);
      item'.path == item.path && item'.entry == if item.entry.Dir? then Dir else File(got)
  {
    hide Parts;
  }

  lemma ProgressKnows(
    s: bytes, done: seq<TarRecord>, pos: nat, t: Tree, total: nat, seen: set<string>, limit: nat,
    rules: NameRules, decode: HeaderDecoder)
    requires Progress(s, done, pos, t, total, seen, limit, rules, decode)
    ensures pos <= |s| && Resumes(s, done, pos, decode) && total == PaddedTotal(done) <= limit && WellFormed(t)
    ensures NamesAccepted(RecordNames(done, decode), rules) && seen == Keys(RecordNames(done, decode), rules)
    ensures |done| <= MAX_ARCHIVE_ENTRIES && (forall i | 0 <= i < |done| :: decode(done[i].header).Some?)
    ensures Written(t) <= PayloadTotal(done) <= total && Acceptable(done, limit, rules, decode)
  {
  }

  lemma KeptKnows(
    first: seq<WriteOutcome>, done: seq<TarRecord>, t: Tree, writes: seq<WriteOutcome>, decode: HeaderDecoder)
    requires Kept(first, done, t, writes, decode)
    ensures WellFormed(t) && Written(t) == PayloadTotal(Received(first, done))
  {
    LeastIsWellFormed(t, RecordItems(Received(first, done), decode));
  }

  /** If the whole stream can be extracted and no write fails, the member at the cursor fits. */
  lemma MemberMustFit(
    first: seq<WriteOutcome>, s: bytes, done: seq<TarRecord>, pos: nat, t: Tree, writes: seq<WriteOutcome>,
    seen: set<string>, m: Member, limit: nat, rules: NameRules, decode: HeaderDecoder)
    requires Progress(s, done, pos, t, PaddedTotal(done), seen, limit, rules, decode)
    requires pos + BLOCK <= |s| && Kept(first, done, t, writes, decode)
    requires s[pos..pos + BLOCK] != ZeroBlock() && decode(s[pos..pos + BLOCK]) == Some(m)
    ensures Extractable(s, limit, rules, decode) && NoWriteFails(first, Decode(s, decode).value) ==>
      MemberFits(m, s, pos + BLOCK, t, PaddedTotal(done), writes, limit)
  {
    hide Progress, Resumes, TakeRecord, IsLeastTree, RecordItems, RecordNames, RecordName, PaddedTotal,
         PayloadTotal, Acceptable, MayFollow, NamesAccepted, Written, Blocked, LeafFits, AddDirs, WellFormed,
         EncodeRecord, Extractable, Decode, ZeroBlock, Parts, ApprovedType, PaddingOf, NoneFails, Delivered, Rest,
         RestAfter, Received, NoWriteFails;
    ProgressKnows(s, done, pos, t, PaddedTotal(done), seen, limit, rules, decode);
    ExtractableDecodes(s, limit, rules, decode);
    if Extractable(s, limit, rules, decode) && NoWriteFails(first, Decode(s, decode).value) {
      NextMayFollow(s, done, pos, limit, rules, decode);
      NextWritten(first, s, done, pos, decode);
      TakenParts(s, pos, m, decode);
      TakenHeader(s[pos..], decode);
      var r := TakeRecord(s[pos..], decode).value;
      FollowNeeds(done, r, limit, rules, decode);
      RecordStep(t, Received(first, done), done, r, r.payload, limit, rules, decode);
      assert r.(payload := r.payload) == r;
    }
  }

  lemma ExtractableDecodes(s: bytes, limit: nat, rules: NameRules, decode: HeaderDecoder)
    ensures Extractable(s, limit, rules, decode) ==> Decode(s, decode).Some?
  {
  }

  /**
   The whole stream. It is extracted exactly if it is the writing of an acceptable list and no write fails;
   short writes go unnoticed, and each file holds what arrived of its payload.
   */
  method ParseTarStream(
    input: TarInput, staging: StagingDirectory, budget: Budget, registry: Registry, rules: NameRules,
    decode: HeaderDecoder) returns (ok: bool)
    requires input.pos == 0 && staging.tree == map[] && budget.total == 0 && registry.seen == {}
    modifies input, staging, budget, registry
    ensures Written(staging.tree) <= budget.limit && Written(staging.tree) <= budget.total
    ensures ok <==> && Extractable(input.content, budget.limit, rules, decode)
                    && NoWriteFails(old(staging.writes), Decode(input.content, decode).value)
    ensures ok ==>
              var rs := Decode(input.content, decode).value;
              var got := Received(old(staging.writes), rs);
              && budget.total == TakenTotal(rs, decode) <= budget.limit
              && IsLeastTree(staging.tree, RecordItems(got, decode))
              && Written(staging.tree) == PayloadTotal(got) <= PayloadTotal(rs)
  {
    hide Progress, Kept, MemberFits, Resumes, TakeRecord, IsLeastTree, RecordItem, RecordItems, RecordName, RecordNames,
         PaddedTotal, PayloadTotal, Acceptable, MayFollow, NamesAccepted, Keys, Written, Blocked, LeafFits, AddDirs,
         WellFormed, LogicalKey, EncodeRecord, ZeroBlock, ValidName, Parts, ApprovedType, PayloadOf, PaddingOf,
         Extractable, Decode, Delivered, NoneFails, Rest, RestAfter, Received, NoWriteFails, PayloadAt, TakenTotal;
    var entryCount := 0;
    ghost var first := staging.writes;
    ghost var done: seq<TarRecord> := [];
    ProgressStart(input.content, budget.limit, rules, decode);
    while true
      invariant Progress(
        input.content, done, input.pos, staging.tree, budget.total, registry.seen, budget.limit, rules, decode)
      invariant entryCount == |done| && input.Valid()
      invariant Kept(first, done, staging.tree, staging.writes, decode)
      decreases |input.content| - input.pos
    {
      ghost var start, t, writes, seen := input.pos, staging.tree, staging.writes, registry.seen;
      ProgressBounds(input.content, done, start, t, budget.total, seen, budget.limit, rules, decode);
      var read, header := input.ReadExact(BLOCK);
      if !read {
        StreamTooShort(input.content, done, start, budget.limit, rules, decode);
        return false;
      }
      if header == ZeroBlock() {
        AllReceived(
          first, input.content, done, start, t, budget.total, seen, writes, budget.limit, rules, decode);
        return true;
      }
      var admitted, m := AdmitMember(
        input.content, start, header, done, entryCount, budget.limit, registry, rules, decode);
      if !admitted { return false; }
      entryCount := entryCount + 1;
      ok := ExtractMember(m, input, staging, budget, rules);
      if !ok {
        MemberMustFit(first, input.content, done, start, t, writes, seen, m, budget.limit, rules, decode);
        return false;
      }
      MemberTaken(first, input.content, done, start, t, writes, seen, m, budget.limit, rules, decode);
      done := done + [TakeRecord(input.content[start..], decode).value];
    }
  }

  lemma ProgressBounds(
    s: bytes, done: seq<TarRecord>, pos: nat, t: Tree, total: nat, seen: set<string>, limit: nat,
    rules: NameRules, decode: HeaderDecoder)
    requires Progress(s, done, pos, t, total, seen, limit, rules, decode)
    ensures pos <= |s| && Resumes(s, done, pos, decode) && total == PaddedTotal(done) <= limit && WellFormed(t)
    ensures NamesAccepted(RecordNames(done, decode), rules) && seen == Keys(RecordNames(done, decode), rules)
    ensures Written(t) <= total
  {
    hide Resumes, PaddedTotal, WellFormed, NamesAccepted, RecordNames, Keys, Written, Acceptable;
  }

  /** At the end of the stream. */
  lemma AllReceived(
    first: seq<WriteOutcome>, s: bytes, done: seq<TarRecord>, pos: nat, t: Tree, total: nat, seen: set<string>,
    writes: seq<WriteOutcome>, limit: nat, rules: NameRules, decode: HeaderDecoder)
    requires Progress(s, done, pos, t, total, seen, limit, rules, decode) && Kept(first, done, t, writes, decode)
    requires pos + BLOCK <= |s| && s[pos..pos + BLOCK] == ZeroBlock()
    ensures Decode(s, decode) == Some(done) && Extractable(s, limit, rules, decode) && NoWriteFails(first, done)
    ensures IsLeastTree(t, RecordItems(Received(first, done), decode))
    ensures Written(t) == PayloadTotal(Received(first, done)) <= PayloadTotal(done)
    ensures total == TakenTotal(done, decode) <= limit
  {
    hide TakenTotal, GoodRecords, EncodeRecords, Resumes, PaddedTotal, WellFormed, NamesAccepted, RecordNames, Keys,
      Written, Acceptable, Decode, Extractable, IsLeastTree, RecordItems, Received, NoWriteFails, PayloadTotal,
      ZeroBlock;
    StreamEnds(s, done, pos, limit, rules, decode);
    ReceivedWholeIff(first, done);
    DecodedIsArchive(s, decode);
    PaddedIsTaken(done, decode);
  }

  // ------------------------------------------------------------------ a stream that is cut short unnoticed

  const PLAIN_RULES: NameRules := NameRules(_ => false, s => s)

  /** Every header stands for a file "f" of three bytes. */
  const SAMPLE_DECODER: HeaderDecoder := _ => Some(Member("f", Regular, 3))

  function SampleRecord(): TarRecord {
    TarRecord(seq(BLOCK, i => if i == 156 then 0x30 else 0xFF), [1, 2, 3], seq(BLOCK - 3, _ => 0))
  }

  function SampleStream(): bytes {
    EncodeRecords([SampleRecord()]) + ZeroBlock()
  }

  /** The stream of one file of three bytes is extracted whatever the writes take, unless one fails. */
  method ExtractSample(script: seq<WriteOutcome>) returns (ok: bool, file: Option<Entry>)
    ensures ok <==> NoneFails(script, [1, 2, 3])
    ensures ok ==> file == Some(File(Delivered(script, [1, 2, 3])))
  {
    hide *;
    var input := new TarInput(SampleStream());
    var staging := new StagingDirectory(script);
    var budget := new Budget(BLOCK);
    var registry := new Registry();
    ok := ParseTarStream(input, staging, budget, registry, PLAIN_RULES, SAMPLE_DECODER);
    SampleIsExtractable();
    SampleReceived(script);
    if !ok { return false, None; }
    SampleTree(staging.tree, Delivered(script, [1, 2, 3]));
    file := Some(staging.tree[["f"]]);
  }

  lemma SampleIsExtractable()
    ensures Decode(SampleStream(), SAMPLE_DECODER) == Some([SampleRecord()])
    ensures Extractable(SampleStream(), BLOCK, PLAIN_RULES, SAMPLE_DECODER)
  {
    SampleIsGood();
    hide GoodRecord, EncodeRecord, ZeroBlock, Decode, MayFollow;
    DecodeIff(SampleStream(), [SampleRecord()], SAMPLE_DECODER);
    SampleMayFollow();
    assert [SampleRecord()][..0] == [];
  }

  lemma SampleIsGood()
    ensures GoodRecord(SampleRecord(), SAMPLE_DECODER)
  {
    assert SampleRecord().header[0] != ZeroBlock()[0];
  }

  lemma SampleMayFollow()
    ensures MayFollow([], SampleRecord(), BLOCK, PLAIN_RULES, SAMPLE_DECODER)
  {
    PlainName();
    hide ValidName, Parts, LogicalKey;
  }

  lemma PlainName()
    ensures ValidName("f", PLAIN_RULES) && Parts("f") == ["f"]
  {
    assert Split("f", '/') == ["f"] by { SplitPlain("f", '/'); }
    assert Filter(["f"]) == ["f"] + Filter([]);
  }

  lemma SampleReceived(script: seq<WriteOutcome>)
    ensures NoWriteFails(script, [SampleRecord()]) <==> NoneFails(script, [1, 2, 3])
    ensures Received(script, [SampleRecord()]) ==
      [SampleRecord().(payload := Delivered(script, [1, 2, 3]))]
  {
    hide NoneFails, Delivered, Rest;
    ReceivedMore(script, [], SampleRecord());
    assert [] + [SampleRecord()] == [SampleRecord()];
  }

  lemma SampleTree(t: Tree, got: bytes)
    requires IsLeastTree(t, RecordItems([SampleRecord().(payload := got)], SAMPLE_DECODER))
    ensures ["f"] in t && t[["f"]] == File(got)
  {
    PlainName();
    hide Parts;
    var r := SampleRecord().(payload := got);
    assert [r][..0] == [];
    assert RecordItems([r], SAMPLE_DECODER) == [] + [Item(["f"], File(got))];
    assert Item(["f"], File(got)) in RecordItems([r], SAMPLE_DECODER);
  }

  /** The only write takes one byte of the three: the extraction succeeds, and the file is cut short. */
  method TruncatedStream() returns (script: seq<WriteOutcome>, ok: bool, file: Option<Entry>)
    ensures NoneFails(script, [1, 2, 3]) && !AllWhole(script, [1, 2, 3])
    ensures ok && file == Some(File(Delivered(script, [1, 2, 3]))) && Delivered(script, [1, 2, 3]) == [1]
  {
    hide *;
    script := [Accepts(1)];
    OneByteDelivered();
    ok, file := ExtractSample(script);
  }
}
