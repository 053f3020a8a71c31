/**
 The ZIP reader: end-of-central-directory search, central directory walk and entry extraction
 (sections 4.3.7, 4.3.12 and 4.3.16 of APPNOTE.TXT), against a writer of archives.
 Inflation is a parameter: None when the deflated data is malformed.
 */
module Zip {
  import opened Wrappers
  import opened Wire

  datatype ZipError =
    | NoEndRecord
    | CorruptDirectory
    | UnsupportedMethod(method_: nat)
    | EntryNotFound
    | OutOfRange
    | InflateFailed

  const END_SIG: nat := 0x0605_4b50
  const CENTRAL_SIG: nat := 0x0201_4b50

  type Inflate = Bytes -> Option<Bytes>

  // ---------- reading ----------

  /** buffer.readUInt16LE and readUInt32LE throw when the bytes are not all there. */
  function U16(buf: Bytes, i: nat): Result<nat, ZipError> {
    if i + 2 <= |buf| then Ok(buf[i] as int + 0x100 * buf[i + 1] as int) else Err(OutOfRange)
  }

  function U32(buf: Bytes, i: nat): Result<nat, ZipError> {
    if i + 4 <= |buf| then
      Ok(buf[i] as int + 0x100 * buf[i + 1] as int + 0x1_0000 * buf[i + 2] as int + 0x100_0000 * buf[i + 3] as int)
    else Err(OutOfRange)
  }

  /** The end record is the last signature in the final 65557 bytes with room for 22 bytes. */
  ghost predicate IsEnd(buf: Bytes, i: nat) {
    |buf| - 65557 <= i <= |buf| - 22 && U32(buf, i) == Ok(END_SIG)
  }

  ghost predicate IsLastEnd(buf: Bytes, end: Option<nat>) {
    match end
    case Some(e) => IsEnd(buf, e) && forall i: nat :: e < i ==> !IsEnd(buf, i)
    case None => forall i: nat :: !IsEnd(buf, i)
  }

  function EndDownFrom(buf: Bytes, i: int): (end: Option<nat>)
    requires i <= |buf| - 22
    decreases i + 1
  {
    if i < 0 || i < |buf| - 65557 then None
    else if U32(buf, i) == Ok(END_SIG) then Some(i)
    else EndDownFrom(buf, i - 1)
  }

  lemma {:induction false} EndDownFromLast(buf: Bytes, i: int)
    requires i <= |buf| - 22
    requires forall j: nat :: i < j ==> !IsEnd(buf, j)
    ensures IsLastEnd(buf, EndDownFrom(buf, i))
    decreases i + 1
  {
    if i >= 0 && i >= |buf| - 65557 && U32(buf, i) != Ok(END_SIG) { EndDownFromLast(buf, i - 1); }
  }

  function Stored(data: Bytes, how: nat, inflate: Inflate): Result<Bytes, ZipError> {
    if how == 0 then Ok(data)
    else if how == 8 then (match inflate(data) case Some(b) => Ok(b) case None => Err(InflateFailed))
    else Err(UnsupportedMethod(how))
  }

  function Extract(buf: Bytes, how: nat, size: nat, localOffset: nat, inflate: Inflate): Result<Bytes, ZipError> {
    var nameLen :- U16(buf, localOffset + 26);
    var extraLen :- U16(buf, localOffset + 28);
    var start := localOffset + 30 + nameLen + extraLen;
    Stored(Subarray(buf, start, start + size), how, inflate)
  }

  function Walk(buf: Bytes, offset: nat, left: nat, wanted: Bytes, inflate: Inflate): Result<Bytes, ZipError>
    decreases left
  {
    if left == 0 then Err(EntryNotFound) else
    var sig :- U32(buf, offset);
    if sig != CENTRAL_SIG then Err(CorruptDirectory) else
    var how :- U16(buf, offset + 10);
    var size :- U32(buf, offset + 20);
    var nameLen :- U16(buf, offset + 28);
    var extraLen :- U16(buf, offset + 30);
    var commentLen :- U16(buf, offset + 32);
    var localOffset :- U32(buf, offset + 42);
    if Subarray(buf, offset + 46, offset + 46 + nameLen) == wanted then
      Extract(buf, how, size, localOffset, inflate)
    else
      Walk(buf, offset + 46 + nameLen + extraLen + commentLen, left - 1, wanted, inflate)
  }

  function EntryOf(buf: Bytes, wanted: Bytes, inflate: Inflate): Result<Bytes, ZipError> {
    match EndDownFrom(buf, |buf| - 22)
    case None => Err(NoEndRecord)
    case Some(e) =>
      var total :- U16(buf, e + 10);
      var offset :- U32(buf, e + 16);
      Walk(buf, offset, total, wanted, inflate)
  }

  /** Without an end record in the window there is nothing to read. */
  lemma NothingWithoutEnd(buf: Bytes, wanted: Bytes, inflate: Inflate)
    ensures (forall i: nat :: !IsEnd(buf, i)) ==> EntryOf(buf, wanted, inflate) == Err(NoEndRecord)
  {
    EndDownFromLast(buf, |buf| - 22);
    hide IsEnd, Walk;
  }

  /** The backward search for the end record. */
  method FindEnd(buf: Bytes) returns (eocd: Option<nat>)
    ensures eocd == EndDownFrom(buf, |buf| - 22)
    ensures IsLastEnd(buf, eocd)
  {
    EndDownFromLast(buf, |buf| - 22);
    eocd := None;
    var i := |buf| - 22;
    while i >= 0 && i >= |buf| - 65557
      invariant i <= |buf| - 22
      invariant EndDownFrom(buf, |buf| - 22) == EndDownFrom(buf, i)
      decreases i + 1
    {
      if U32(buf, i) == Ok(END_SIG) {
        return Some(i);
      }
      i := i - 1;
    }
  }

  method ReadZipEntry(buf: Bytes, wanted: Bytes, inflate: Inflate) returns (r: Result<Bytes, ZipError>)
    ensures r == EntryOf(buf, wanted, inflate)
  {
    hide U16, U32, Subarray, EndDownFrom;
    var eocd := FindEnd(buf);
    if eocd.None? {
      return Err(NoEndRecord);
    }
    var total :- U16(buf, eocd.value + 10);
    var offset :- U32(buf, eocd.value + 16);
    var n := 0;
    while n < total
      invariant 0 <= n <= total
      invariant EntryOf(buf, wanted, inflate) == Walk(buf, offset, total - n, wanted, inflate)
    {
      var sig :- U32(buf, offset);
      if sig != CENTRAL_SIG {
        return Err(CorruptDirectory);
      }
      var how :- U16(buf, offset + 10);
      var size :- U32(buf, offset + 20);
      var nameLen :- U16(buf, offset + 28);
      var extraLen :- U16(buf, offset + 30);
      var commentLen :- U16(buf, offset + 32);
      var localOffset :- U32(buf, offset + 42);
      var name := Subarray(buf, offset + 46, offset + 46 + nameLen);
      if name == wanted {
        var localNameLen :- U16(buf, localOffset + 26);
        var localExtraLen :- U16(buf, localOffset + 28);
        var dataStart := localOffset + 30 + localNameLen + localExtraLen;
        var data := Subarray(buf, dataStart, dataStart + size);
        if how == 0 {
          return Ok(data);
        }
        if how == 8 {
          var inflated := inflate(data);
          return if inflated.Some? then Ok(inflated.value) else Err(InflateFailed);
        }
        return Err(UnsupportedMethod(how));
      }
      offset := offset + 46 + nameLen + extraLen + commentLen;
      n := n + 1;
    }
    return Err(EntryNotFound);
  }

  // ---------- writing ----------

  /** An entry as a writer lays it out.  Bytes the reader never looks at are arbitrary: versions,
      flags, times, checksums and attributes are the four fillers. */
  datatype Entry = Entry(
    name: Bytes, how: nat, data: Bytes,
    localHead: Bytes, localName: Bytes, localExtra: Bytes,
    versions: Bytes, times: Bytes, fullSize: Bytes, attributes: Bytes, extra: Bytes, comment: Bytes)

  ghost predicate ValidEntry(e: Entry) {
    && |e.name| < 0x1_0000 && |e.localName| < 0x1_0000 && |e.localExtra| < 0x1_0000
    && |e.extra| < 0x1_0000 && |e.comment| < 0x1_0000
    && e.how < 0x1_0000 && |e.data| < 0x1_0000_0000
    && |e.localHead| == 26 && |e.versions| == 6 && |e.times| == 8 && |e.fullSize| == 4 && |e.attributes| == 8
  }

  function Le16(n: nat): (bs: Bytes)
    requires n < 0x1_0000
  {
    [n % 0x100, n / 0x100]
  }

  function Le32(n: nat): Bytes
    requires n < 0x1_0000_0000
  {
    Le16(n % 0x1_0000) + Le16(n / 0x1_0000)
  }

  function LocalRecord(e: Entry): Bytes
    requires ValidEntry(e)
  {
    e.localHead + (Le16(|e.localName|) + (Le16(|e.localExtra|) + (e.localName + (e.localExtra + e.data))))
  }

  function CentralHead(e: Entry, at: nat): (bs: Bytes)
    requires ValidEntry(e) && at < 0x1_0000_0000
    ensures |bs| == 46
  {
    Le32(CENTRAL_SIG) + (e.versions + (Le16(e.how) + (e.times + (Le32(|e.data|) + (e.fullSize + (Le16(|e.name|) +
      (Le16(|e.extra|) + (Le16(|e.comment|) + (e.attributes + Le32(at))))))))))
  }

  function CentralRecord(e: Entry, at: nat): Bytes
    requires ValidEntry(e) && at < 0x1_0000_0000
  {
    CentralHead(e, at) + (e.name + (e.extra + e.comment))
  }

  ghost predicate ValidEntries(es: seq<Entry>) {
    forall i :: 0 <= i < |es| ==> ValidEntry(es[i])
  }

  ghost predicate ValidOffsets(ats: seq<nat>) {
    forall i :: 0 <= i < |ats| ==> ats[i] < 0x1_0000_0000
  }

  /** The central directory of entries whose local records start at the given offsets. */
  function Directory(es: seq<Entry>, ats: seq<nat>): Bytes
    requires ValidEntries(es) && ValidOffsets(ats) && |ats| == |es|
  {
    if es == [] then [] else CentralRecord(es[0], ats[0]) + Directory(es[1..], ats[1..])
  }

  /** The end record: counts of this disk and directory size are arbitrary. */
  function EndRecord(total: nat, offset: nat, disks: Bytes, size: Bytes, comment: Bytes): (bs: Bytes)
    requires total < 0x1_0000 && offset < 0x1_0000_0000 && |comment| < 0x1_0000
    requires |disks| == 6 && |size| == 4
    ensures |bs| == 22 + |comment|
  {
    Le32(END_SIG) + (disks + (Le16(total) + (size + (Le32(offset) + (Le16(|comment|) + comment)))))
  }

  /** body is everything before the end record: local records and directory stand in it anywhere, with
      any bytes around them, such as data descriptors, padding, signatures or dead records. */
  datatype Archive = Archive(
    body: Bytes, entries: seq<Entry>, ats: seq<nat>, directoryAt: nat, disks: Bytes, size: Bytes, comment: Bytes)

  /** Every entry's local record stands at its offset. */
  ghost predicate LocalsStand(buf: Bytes, es: seq<Entry>, ats: seq<nat>)
    requires ValidEntries(es) && |ats| == |es|
  {
    forall i :: 0 <= i < |es| ==> Occurs(buf, ats[i], LocalRecord(es[i]))
  }

  ghost predicate ValidArchive(a: Archive) {
    && ValidEntries(a.entries) && |a.entries| < 0x1_0000
    && |a.disks| == 6 && |a.size| == 4 && |a.comment| < 0x1_0000
    && |a.ats| == |a.entries| && ValidOffsets(a.ats) && a.directoryAt < 0x1_0000_0000
    && LocalsStand(a.body, a.entries, a.ats)
    && Occurs(a.body, a.directoryAt, Directory(a.entries, a.ats))
  }

  function End(a: Archive): Bytes
    requires ValidArchive(a)
  {
    EndRecord(|a.entries|, a.directoryAt, a.disks, a.size, a.comment)
  }

  function PrintZip(a: Archive): Bytes
    requires ValidArchive(a)
  {
    a.body + End(a)
  }

  /** No end signature starts inside the end record or its comment with 22 bytes after it. */
  ghost predicate NoFalseEnd(a: Archive)
    requires ValidArchive(a)
  {
    forall i: nat :: 1 <= i <= |a.comment| ==> U32(End(a), i) != Ok(END_SIG)
  }

  /** The first entry with the wanted name, or the error. */
  function FirstMatch(es: seq<Entry>, wanted: Bytes, inflate: Inflate): Result<Bytes, ZipError> {
    if es == [] then Err(EntryNotFound)
    else if es[0].name == wanted then Stored(es[0].data, es[0].how, inflate)
    else FirstMatch(es[1..], wanted, inflate)
  }

  // ---------- reading undoes writing ----------

  lemma U16Decodes(buf: Bytes, i: nat, n: nat)
    requires n < 0x1_0000 && Occurs(buf, i, Le16(n))
    ensures U16(buf, i) == Ok(n)
  {
    var part := buf[i..i + 2];
    assert part[0] == buf[i] && part[1] == buf[i + 1];
  }

  lemma U32Decodes(buf: Bytes, i: nat, n: nat)
    requires n < 0x1_0000_0000 && Occurs(buf, i, Le32(n))
    ensures U32(buf, i) == Ok(n)
  {
    OccursSplit(buf, i, Le16(n % 0x1_0000), Le16(n / 0x1_0000));
    U16Decodes(buf, i, n % 0x1_0000);
    U16Decodes(buf, i + 2, n / 0x1_0000);
  }

  lemma Le16Length(n: nat)
    requires n < 0x1_0000
    ensures |Le16(n)| == 2
  {
  }

  lemma Le32Length(n: nat)
    requires n < 0x1_0000_0000
    ensures |Le32(n)| == 4
  {
  }

  /** The fields of a directory record, wherever the record stands. */
  lemma CentralDecodes(buf: Bytes, pos: nat, e: Entry, at: nat)
    requires ValidEntry(e) && at < 0x1_0000_0000 && Occurs(buf, pos, CentralHead(e, at))
    ensures U32(buf, pos) == Ok(CENTRAL_SIG)
    ensures U16(buf, pos + 10) == Ok(e.how)
    ensures U32(buf, pos + 20) == Ok(|e.data|)
    ensures U16(buf, pos + 28) == Ok(|e.name|)
    ensures U16(buf, pos + 30) == Ok(|e.extra|)
    ensures U16(buf, pos + 32) == Ok(|e.comment|)
    ensures U32(buf, pos + 42) == Ok(at)
  {
    hide Le16, Le32, U16, U32, Occurs;
    Le32Length(CENTRAL_SIG); Le32Length(|e.data|); Le32Length(at);
    Le16Length(e.how); Le16Length(|e.name|); Le16Length(|e.extra|); Le16Length(|e.comment|);
    var r10 := Le32(at);
    var r9 := e.attributes + r10;
    var r8 := Le16(|e.comment|) + r9;
    var r7 := Le16(|e.extra|) + r8;
    var r6 := Le16(|e.name|) + r7;
    var r5 := e.fullSize + r6;
    var r4 := Le32(|e.data|) + r5;
    var r3 := e.times + r4;
    var r2 := Le16(e.how) + r3;
    var r1 := e.versions + r2;
    OccursSplit(buf, pos, Le32(CENTRAL_SIG), r1);
    OccursSplit(buf, pos + 4, e.versions, r2);
    OccursSplit(buf, pos + 10, Le16(e.how), r3);
    OccursSplit(buf, pos + 12, e.times, r4);
    OccursSplit(buf, pos + 20, Le32(|e.data|), r5);
    OccursSplit(buf, pos + 24, e.fullSize, r6);
    OccursSplit(buf, pos + 28, Le16(|e.name|), r7);
    OccursSplit(buf, pos + 30, Le16(|e.extra|), r8);
    OccursSplit(buf, pos + 32, Le16(|e.comment|), r9);
    OccursSplit(buf, pos + 34, e.attributes, r10);
    U32Decodes(buf, pos, CENTRAL_SIG);
    U16Decodes(buf, pos + 10, e.how);
    U32Decodes(buf, pos + 20, |e.data|);
    U16Decodes(buf, pos + 28, |e.name|);
    U16Decodes(buf, pos + 30, |e.extra|);
    U16Decodes(buf, pos + 32, |e.comment|);
    U32Decodes(buf, pos + 42, at);
  }

  /** Where the parts of a local record stand. */
  lemma LocalParts(buf: Bytes, at: nat, e: Entry)
    requires ValidEntry(e) && Occurs(buf, at, LocalRecord(e))
    ensures Occurs(buf, at + 26, Le16(|e.localName|))
    ensures Occurs(buf, at + 28, Le16(|e.localExtra|))
    ensures Occurs(buf, at + 30 + |e.localName| + |e.localExtra|, e.data)
  {
    hide Le16, Occurs;
    Le16Length(|e.localName|); Le16Length(|e.localExtra|);
    var r4 := e.localExtra + e.data;
    var r3 := e.localName + r4;
    var r2 := Le16(|e.localExtra|) + r3;
    var r1 := Le16(|e.localName|) + r2;
    OccursSplit(buf, at, e.localHead, r1);
    OccursSplit(buf, at + 26, Le16(|e.localName|), r2);
    OccursSplit(buf, at + 28, Le16(|e.localExtra|), r3);
    OccursSplit(buf, at + 30, e.localName, r4);
    OccursSplit(buf, at + 30 + |e.localName|, e.localExtra, e.data);
  }

  lemma LocalDecodes(buf: Bytes, at: nat, e: Entry, inflate: Inflate)
    requires ValidEntry(e) && Occurs(buf, at, LocalRecord(e))
    ensures Extract(buf, e.how, |e.data|, at, inflate) == Stored(e.data, e.how, inflate)
  {
    hide Le16, U16, Subarray, Stored, LocalRecord, Occurs;
    LocalParts(buf, at, e);
    U16Decodes(buf, at + 26, |e.localName|);
    U16Decodes(buf, at + 28, |e.localExtra|);
    SubarrayOfPart(buf, at + 30 + |e.localName| + |e.localExtra|, e.data);
  }

  /** One turn of the walk over a printed record. */
  lemma WalkStep(buf: Bytes, pos: nat, e: Entry, at: nat, left: nat, wanted: Bytes, inflate: Inflate)
    requires ValidEntry(e) && at < 0x1_0000_0000
    requires Occurs(buf, at, LocalRecord(e)) && Occurs(buf, pos, CentralRecord(e, at))
    ensures Walk(buf, pos, left + 1, wanted, inflate) ==
            if e.name == wanted then Stored(e.data, e.how, inflate)
            else Walk(buf, pos + |CentralRecord(e, at)|, left, wanted, inflate)
  {
    hide U16, U32, Extract, Stored, LocalRecord, CentralHead, Subarray;
    var tail := e.extra + e.comment;
    OccursSplit(buf, pos, CentralHead(e, at), e.name + tail);
    OccursSplit(buf, pos + 46, e.name, tail);
    CentralDecodes(buf, pos, e, at);
    SubarrayOfPart(buf, pos + 46, e.name);
    LocalDecodes(buf, at, e, inflate);
  }

  /** A directory stands at pos and the local records of its entries at their offsets. */
  ghost predicate Written(buf: Bytes, pos: nat, es: seq<Entry>, ats: seq<nat>) {
    && ValidEntries(es) && ValidOffsets(ats) && |ats| == |es|
    && LocalsStand(buf, es, ats) && Occurs(buf, pos, Directory(es, ats))
  }

  lemma FirstStands(buf: Bytes, pos: nat, es: seq<Entry>, ats: seq<nat>)
    requires Written(buf, pos, es, ats) && es != []
    ensures |ats| == |es| && ValidEntry(es[0]) && ats[0] < 0x1_0000_0000
    ensures Occurs(buf, ats[0], LocalRecord(es[0])) && Occurs(buf, pos, CentralRecord(es[0], ats[0]))
    ensures Written(buf, pos + |CentralRecord(es[0], ats[0])|, es[1..], ats[1..])
  {
    hide LocalRecord, CentralRecord, Occurs, ValidEntry;
    OccursSplit(buf, pos, CentralRecord(es[0], ats[0]), Directory(es[1..], ats[1..]));
  }

  lemma NothingToFind(buf: Bytes, pos: nat, wanted: Bytes, inflate: Inflate)
    ensures Walk(buf, pos, 0, wanted, inflate) == FirstMatch([], wanted, inflate)
  {
  }

  lemma FirstMatchStep(es: seq<Entry>, wanted: Bytes, inflate: Inflate)
    requires es != []
    ensures FirstMatch(es, wanted, inflate) ==
            if es[0].name == wanted then Stored(es[0].data, es[0].how, inflate)
            else FirstMatch(es[1..], wanted, inflate)
  {
  }

  /** Walking a written directory returns the first entry of the name, wherever the records stand. */
  lemma {:induction false} WalkFindsFirst(
    buf: Bytes, pos: nat, es: seq<Entry>, ats: seq<nat>, wanted: Bytes, inflate: Inflate)
    requires Written(buf, pos, es, ats)
    ensures Walk(buf, pos, |es|, wanted, inflate) == FirstMatch(es, wanted, inflate)
    decreases |es|
  {
    hide Written, Walk, FirstMatch;
    if es == [] {
      NothingToFind(buf, pos, wanted, inflate);
    } else {
      hide *;
      FirstStands(buf, pos, es, ats);
      FirstMatchStep(es, wanted, inflate);
      var e, rest, next := es[0], es[1..], pos + |CentralRecord(es[0], ats[0])|;
      WalkStep(buf, pos, e, ats[0], |rest|, wanted, inflate);
      WalkFindsFirst(buf, next, rest, ats[1..], wanted, inflate);
    }
  }

  /** What a walk answers where no record stands. */
  ghost predicate StopsAt(buf: Bytes, end: nat, r: Result<Bytes, ZipError>) {
    (end + 4 > |buf| ==> r == Err(OutOfRange)) &&
    (end + 4 <= |buf| && buf[end..end + 4] != ['P' as int, 'K' as int, 1, 2] ==> r == Err(CorruptDirectory))
  }

  lemma NoRecord(buf: Bytes, end: nat, left: nat, wanted: Bytes, inflate: Inflate)
    requires left > 0
    ensures StopsAt(buf, end, Walk(buf, end, left, wanted, inflate))
  {
    hide Extract, Subarray, U16;
    if end + 4 <= |buf| { assert buf[end..end + 4] == [buf[end], buf[end + 1], buf[end + 2], buf[end + 3]]; }
  }

  lemma DirectoryLength(es: seq<Entry>, ats: seq<nat>)
    requires ValidEntries(es) && ValidOffsets(ats) && |ats| == |es|
    ensures |Directory(es, ats)| ==
            if es == [] then 0 else |CentralRecord(es[0], ats[0])| + |Directory(es[1..], ats[1..])|
  {
    hide CentralRecord;
  }

  lemma WrittenSizes(buf: Bytes, pos: nat, es: seq<Entry>, ats: seq<nat>)
    requires Written(buf, pos, es, ats)
    ensures ValidEntries(es) && ValidOffsets(ats) && |ats| == |es|
  {
    hide Directory, LocalRecord, CentralRecord, Occurs;
  }

  /** An end record that counts more entries than the directory holds: a name none of them has is answered by
      what follows the directory, which is no record or not even four bytes. */
  lemma {:induction false} DirectoryEndsEarly(
    buf: Bytes, pos: nat, es: seq<Entry>, ats: seq<nat>, missing: nat, wanted: Bytes, inflate: Inflate)
    requires Written(buf, pos, es, ats) && missing > 0
    requires forall i :: 0 <= i < |es| ==> es[i].name != wanted
    ensures StopsAt(buf, pos + |Directory(es, ats)|, Walk(buf, pos, |es| + missing, wanted, inflate))
    decreases |es|
  {
    hide *;
    WrittenSizes(buf, pos, es, ats);
    DirectoryLength(es, ats);
    if es == [] {
      NoRecord(buf, pos, missing, wanted, inflate);
    } else {
      FirstStands(buf, pos, es, ats);
      var next := pos + |CentralRecord(es[0], ats[0])|;
      WalkStep(buf, pos, es[0], ats[0], |es| - 1 + missing, wanted, inflate);
      DirectoryEndsEarly(buf, next, es[1..], ats[1..], missing, wanted, inflate);
    }
  }

  lemma EndDecodes(buf: Bytes, pos: nat, a: Archive)
    requires ValidArchive(a) && Occurs(buf, pos, End(a))
    ensures U32(buf, pos) == Ok(END_SIG)
    ensures U16(buf, pos + 10) == Ok(|a.entries|)
    ensures U32(buf, pos + 16) == Ok(a.directoryAt)
  {
    hide Le16, Le32, U16, U32, Occurs;
    var total, offset := |a.entries|, a.directoryAt;
    Le32Length(END_SIG); Le32Length(offset); Le16Length(total);
    var r5 := Le16(|a.comment|) + a.comment;
    var r4 := Le32(offset) + r5;
    var r3 := a.size + r4;
    var r2 := Le16(total) + r3;
    var r1 := a.disks + r2;
    OccursSplit(buf, pos, Le32(END_SIG), r1);
    OccursSplit(buf, pos + 4, a.disks, r2);
    OccursSplit(buf, pos + 10, Le16(total), r3);
    OccursSplit(buf, pos + 12, a.size, r4);
    OccursSplit(buf, pos + 16, Le32(offset), r5);
    U32Decodes(buf, pos, END_SIG);
    U16Decodes(buf, pos + 10, total);
    U32Decodes(buf, pos + 16, offset);
  }

  lemma U32Shifted(a: Bytes, b: Bytes, i: nat)
    ensures U32(a + b, |a| + i) == U32(b, i)
  {
  }

  lemma EndStands(a: Archive)
    requires ValidArchive(a)
    ensures Occurs(PrintZip(a), |a.body|, End(a))
  {
    hide EndRecord, Directory, LocalRecord;
  }

  /** The search returns the true end record exactly when no false one follows it. */
  lemma EndFoundIff(a: Archive)
    requires ValidArchive(a)
    ensures EndDownFrom(PrintZip(a), |PrintZip(a)| - 22) == Some(|a.body|) <==> NoFalseEnd(a)
  {
    hide U32, EndRecord, Directory, LocalRecord, Occurs;
    var buf, e := PrintZip(a), |a.body|;
    EndStands(a);
    EndDecodes(buf, e, a);
    EndDownFromLast(buf, |buf| - 22);
    assert IsEnd(buf, e);
    forall i: nat | 1 <= i <= |a.comment|
      ensures IsEnd(buf, e + i) <==> U32(End(a), i) == Ok(END_SIG)
    {
      U32Shifted(a.body, End(a), i);
    }
    if NoFalseEnd(a) {
      forall i: nat | e < i
        ensures !IsEnd(buf, i)
      {
        if i <= |buf| - 22 {
          var k := i - e;
          assert 1 <= k <= |a.comment| && i == e + k;
          assert U32(End(a), k) != Ok(END_SIG);
        }
      }
    }
  }

  lemma StillStand(body: Bytes, more: Bytes, es: seq<Entry>, ats: seq<nat>)
    requires ValidEntries(es) && |ats| == |es| && LocalsStand(body, es, ats)
    ensures LocalsStand(body + more, es, ats)
  {
    hide LocalRecord;
    forall i | 0 <= i < |es| ensures Occurs(body + more, ats[i], LocalRecord(es[i])) {
      assert Occurs(body, ats[i], LocalRecord(es[i]));
    }
  }

  /** Main result: from any archive, whatever its layout, the reader returns exactly the first entry
      with the wanted name, and fails with "not found" exactly when no entry has it. */
  lemma ArchiveRoundTrip(a: Archive, wanted: Bytes, inflate: Inflate)
    requires ValidArchive(a) && NoFalseEnd(a)
    ensures EntryOf(PrintZip(a), wanted, inflate) == FirstMatch(a.entries, wanted, inflate)
  {
    hide Walk, U32, U16, Directory, EndRecord, LocalRecord;
    var buf := PrintZip(a);
    EndFoundIff(a);
    EndStands(a);
    EndDecodes(buf, |a.body|, a);
    StillStand(a.body, End(a), a.entries, a.ats);
    assert Occurs(buf, a.directoryAt, Directory(a.entries, a.ats));
    WalkFindsFirst(buf, a.directoryAt, a.entries, a.ats, wanted, inflate);
  }

  // ---------- the plain layout ----------

  function Locals(es: seq<Entry>): Bytes
    requires ValidEntries(es)
  {
    if es == [] then [] else LocalRecord(es[0]) + Locals(es[1..])
  }

  /** Where the local records start when they are written one after the other. */
  function OffsetsFrom(es: seq<Entry>, at: nat): (ats: seq<nat>)
    requires ValidEntries(es)
    ensures |ats| == |es|
    ensures forall i :: 0 <= i < |ats| ==> ats[i] <= at + |Locals(es)|
  {
    if es == [] then [] else [at] + OffsetsFrom(es[1..], at + |LocalRecord(es[0])|)
  }

  lemma {:induction false} LaidOut(buf: Bytes, es: seq<Entry>, at: nat)
    requires ValidEntries(es) && Occurs(buf, at, Locals(es))
    ensures LocalsStand(buf, es, OffsetsFrom(es, at))
  {
    hide LocalRecord, Occurs, ValidEntry;
    if es != [] {
      OccursSplit(buf, at, LocalRecord(es[0]), Locals(es[1..]));
      LaidOut(buf, es[1..], at + |LocalRecord(es[0])|);
      var ats := OffsetsFrom(es[1..], at + |LocalRecord(es[0])|);
      assert OffsetsFrom(es, at) == [at] + ats;
      forall i | 0 <= i < |es| ensures Occurs(buf, ([at] + ats)[i], LocalRecord(es[i])) {
        if i > 0 { assert es[1..][i - 1] == es[i] && Occurs(buf, ats[i - 1], LocalRecord(es[1..][i - 1])); }
      }
    }
  }

  /** Records back to back and the directory after them is one of the archives covered. */
  lemma PlainLayoutIsValid(prefix: Bytes, es: seq<Entry>, disks: Bytes, size: Bytes, comment: Bytes)
    requires ValidEntries(es) && |es| < 0x1_0000 && |prefix| + |Locals(es)| < 0x1_0000_0000
    requires |disks| == 6 && |size| == 4 && |comment| < 0x1_0000
    ensures var ats := OffsetsFrom(es, |prefix|);
            ValidArchive(Archive(prefix + Locals(es) + Directory(es, ats), es, ats, |prefix| + |Locals(es)|,
                                 disks, size, comment))
  {
    hide LocalRecord, CentralRecord, Directory, Locals, OffsetsFrom, ValidEntry;
    var ats := OffsetsFrom(es, |prefix|);
    var body := prefix + Locals(es) + Directory(es, ats);
    assert Occurs(body, |prefix|, Locals(es)) && Occurs(body, |prefix| + |Locals(es)|, Directory(es, ats));
    LaidOut(body, es, |prefix|);
  }

  /** FirstMatch said by position: the k-th entry is the one returned exactly when it is the first of
      its name. */
  lemma {:induction false} FirstMatchIs(es: seq<Entry>, k: nat, inflate: Inflate)
    requires k < |es| && forall i :: 0 <= i < k ==> es[i].name != es[k].name
    ensures FirstMatch(es, es[k].name, inflate) == Stored(es[k].data, es[k].how, inflate)
  {
    if k > 0 { FirstMatchIs(es[1..], k - 1, inflate); }
  }

  /** What comes back for the first entry of a name, by its compression method. */
  lemma FirstEntryIsRead(a: Archive, k: nat, inflate: Inflate)
    requires ValidArchive(a) && NoFalseEnd(a)
    requires k < |a.entries| && forall j :: 0 <= j < k ==> a.entries[j].name != a.entries[k].name
    ensures var e, r := a.entries[k], EntryOf(PrintZip(a), a.entries[k].name, inflate);
            (e.how == 0 ==> r == Ok(e.data)) &&
            (e.how == 8 && inflate(e.data).Some? ==> r == Ok(inflate(e.data).value)) &&
            (e.how == 8 && inflate(e.data).None? ==> r == Err(InflateFailed)) &&
            (e.how != 0 && e.how != 8 ==> r == Err(UnsupportedMethod(e.how)))
  {
    hide EntryOf, PrintZip, ValidArchive, NoFalseEnd;
    ArchiveRoundTrip(a, a.entries[k].name, inflate);
    FirstMatchIs(a.entries, k, inflate);
  }

  lemma {:induction false} NoMatch(es: seq<Entry>, wanted: Bytes, inflate: Inflate)
    requires forall i :: 0 <= i < |es| ==> es[i].name != wanted
    ensures FirstMatch(es, wanted, inflate) == Err(EntryNotFound)
  {
    if es != [] { NoMatch(es[1..], wanted, inflate); }
  }
}
