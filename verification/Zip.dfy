/** atlas/js/export.js makeZip and atlas/js/import.js readZip / unzipEntry for stored entries, in the
    layout of PKWARE APPNOTE sections 4.3.7 (local header), 4.3.12 (central header) and 4.3.16
    (end of central directory). Names and contents are bytes; text encoding is not modelled. */
module Zip {
  import opened Common
  import opened Crc32

  datatype File = File(name: seq<Byte>, data: seq<Byte>)

  const LOCAL_SIG := 0x04034b50
  const CENTRAL_SIG := 0x02014b50
  const END_SIG := 0x06054b50

  // ------------------------------------------------------------------ little-endian fields

  function U16(b: seq<Byte>, i: nat): (v: nat)
    requires i + 2 <= |b|
    ensures v < 0x1_0000
  {
    b[i] as nat + 256 * (b[i + 1] as nat)
  }

  function U32(b: seq<Byte>, i: nat): (v: nat)
    requires i + 4 <= |b|
    ensures v < 0x1_0000_0000
  {
    U16(b, i) + 0x1_0000 * U16(b, i + 2)
  }

  /** DataView.setUint16: the value modulo 2^16. */
  method SetUint16(a: array<Byte>, i: nat, v: nat)
    requires i + 2 <= a.Length
    modifies a
    ensures U16(a[..], i) == v % 0x1_0000
    ensures forall k :: 0 <= k < a.Length && !(i <= k < i + 2) ==> a[k] == old(a[k])
  {
    LowWord(v);
    a[i] := v % 256;
    a[i + 1] := v / 256 % 256;
  }

  lemma LowWord(v: nat)
    ensures v % 256 + 256 * (v / 256 % 256) == v % 0x1_0000
  {
    var q, h := v / 256, v / 256 / 256;
    assert v == 256 * q + v % 256 && q == 256 * h + q % 256;
    assert v == 0x1_0000 * h + (256 * (q % 256) + v % 256);
  }

  /** DataView.setUint32: the value modulo 2^32. */
  method SetUint32(a: array<Byte>, i: nat, v: nat)
    requires i + 4 <= a.Length
    modifies a
    ensures U32(a[..], i) == v % 0x1_0000_0000
    ensures forall k :: 0 <= k < a.Length && !(i <= k < i + 4) ==> a[k] == old(a[k])
  {
    SetUint16(a, i, v % 0x1_0000);
    SetUint16(a, i + 2, v / 0x1_0000);
    assert U16(a[..], i) == v % 0x1_0000 && U16(a[..], i + 2) == v / 0x1_0000 % 0x1_0000;
  }

  /** Uint8Array.set */
  method SetBytes(a: array<Byte>, i: nat, bytes: seq<Byte>)
    requires i + |bytes| <= a.Length
    modifies a
    ensures a[i..i + |bytes|] == bytes
    ensures forall k :: 0 <= k < a.Length && !(i <= k < i + |bytes|) ==> a[k] == old(a[k])
  {
    for j := 0 to |bytes|
      invariant forall k :: 0 <= k < j ==> a[i + k] == bytes[k]
      invariant forall k :: 0 <= k < a.Length && !(i <= k < i + j) ==> a[k] == old(a[k])
    {
      a[i + j] := bytes[j];
    }
  }

  // ------------------------------------------------------------------ records

  ghost predicate LocalVersions(b: seq<Byte>)
    requires |b| >= 30
  {
    U32(b, 0) == LOCAL_SIG && U16(b, 4) == 20 && U16(b, 6) == 0 && U16(b, 8) == 0 && U16(b, 10) == 0
      && U16(b, 12) == 0x21
  }

  ghost predicate LocalSizes(b: seq<Byte>, crc: nat, size: nat, nameLen: nat)
    requires |b| >= 30
  {
    U32(b, 14) == crc % 0x1_0000_0000 && U32(b, 18) == U32(b, 22) == size % 0x1_0000_0000
    && U16(b, 26) == nameLen % 0x1_0000 && U16(b, 28) == 0
  }

  /** A local header: every field, then the name. The fields cover all 30 bytes. */
  ghost predicate IsLocal(b: seq<Byte>, f: File) {
    && |b| == 30 + |f.name|
    && LocalVersions(b)
    && LocalSizes(b, BitSerialCrc(f.data), |f.data|, |f.name|)
    && b[30..] == f.name
  }

  ghost predicate CentralVersions(b: seq<Byte>)
    requires |b| >= 46
  {
    U32(b, 0) == CENTRAL_SIG && U16(b, 4) == 20 && U16(b, 6) == 20 && U16(b, 8) == 0 && U16(b, 10) == 0
    && U16(b, 12) == 0 && U16(b, 14) == 0x21
  }

  ghost predicate CentralSizes(b: seq<Byte>, crc: nat, size: nat, nameLen: nat)
    requires |b| >= 46
  {
    U32(b, 16) == crc % 0x1_0000_0000 && U32(b, 20) == U32(b, 24) == size % 0x1_0000_0000
      && U16(b, 28) == nameLen % 0x1_0000
  }

  /** A central header that records local-header offset `off`; the fields cover all 46 bytes. */
  ghost predicate IsCentral(b: seq<Byte>, f: File, off: nat) {
    && |b| == 46 + |f.name|
    && CentralVersions(b)
    && CentralSizes(b, BitSerialCrc(f.data), |f.data|, |f.name|)
    && U16(b, 30) == 0 && U16(b, 32) == 0 && U16(b, 34) == 0 && U16(b, 36) == 0 && U32(b, 38) == 0
    && U32(b, 42) == off % 0x1_0000_0000
    && b[46..] == f.name
  }

  ghost predicate IsEnd(b: seq<Byte>, count: nat, size: nat, start: nat) {
    && |b| == 22
    && U32(b, 0) == END_SIG && U16(b, 4) == 0 && U16(b, 6) == 0
    && U16(b, 8) == U16(b, 10) == count % 0x1_0000
    && U32(b, 12) == size % 0x1_0000_0000 && U32(b, 16) == start % 0x1_0000_0000 && U16(b, 20) == 0
  }

  method StampLocalVersions(local: array<Byte>)
    requires local.Length >= 30
    modifies local
    ensures LocalVersions(local[..])
    ensures forall k :: 14 <= k < local.Length ==> local[k] == old(local[k])
  {
    SetUint32(local, 0, LOCAL_SIG);
    SetUint16(local, 4, 20);
    SetUint16(local, 6, 0);
    SetUint16(local, 8, 0);
    SetUint16(local, 10, 0);
    SetUint16(local, 12, 0x21);
  }

  method StampLocalSizes(local: array<Byte>, crc: nat, size: nat, nameLen: nat)
    requires local.Length >= 30
    modifies local
    ensures LocalSizes(local[..], crc, size, nameLen)
    ensures forall k :: 0 <= k < local.Length && !(14 <= k < 30) ==> local[k] == old(local[k])
  {
    SetUint32(local, 14, crc);
    SetUint32(local, 18, size);
    SetUint32(local, 22, size);
    SetUint16(local, 26, nameLen);
    SetUint16(local, 28, 0);
  }

  lemma SameLocal(a: seq<Byte>, b: seq<Byte>, crc: nat, size: nat, nameLen: nat)
    requires |a| >= 30 && |b| >= 30
    requires forall k :: 0 <= k < 14 ==> a[k] == b[k]
    ensures LocalVersions(a) ==> LocalVersions(b)
    ensures (forall k :: 14 <= k < 30 ==> a[k] == b[k]) && LocalSizes(a, crc, size, nameLen) ==>
        LocalSizes(b, crc, size, nameLen)
  {
  }

  method LocalHeader(f: File, crc: Word) returns (b: seq<Byte>)
    requires crc == BitSerialCrc(f.data)
    ensures IsLocal(b, f)
  {
    hide LocalVersions, LocalSizes, U16, U32;
    var local := new Byte[30 + |f.name|](_ => 0);
    StampLocalVersions(local);
    ghost var one := local[..];
    StampLocalSizes(local, crc, |f.data|, |f.name|);
    ghost var two := local[..];
    SetBytes(local, 30, f.name);
    b := local[..];
    assert b[30..] == local[30..30 + |f.name|];
    SameLocal(one, two, crc, |f.data|, |f.name|);
    SameLocal(two, b, crc, |f.data|, |f.name|);
  }

  method StampVersions(cen: array<Byte>)
    requires cen.Length >= 46
    modifies cen
    ensures CentralVersions(cen[..])
    ensures forall k :: 16 <= k < cen.Length ==> cen[k] == old(cen[k])
  {
    SetUint32(cen, 0, CENTRAL_SIG);
    SetUint16(cen, 4, 20);
    SetUint16(cen, 6, 20);
    SetUint16(cen, 8, 0);
    SetUint16(cen, 10, 0);
    SetUint16(cen, 12, 0);
    SetUint16(cen, 14, 0x21);
  }

  method StampSizes(cen: array<Byte>, crc: nat, size: nat, nameLen: nat)
    requires cen.Length >= 46
    modifies cen
    ensures CentralSizes(cen[..], crc, size, nameLen)
    ensures forall k :: 0 <= k < cen.Length && !(16 <= k < 30) ==> cen[k] == old(cen[k])
  {
    SetUint32(cen, 16, crc);
    SetUint32(cen, 20, size);
    SetUint32(cen, 24, size);
    SetUint16(cen, 28, nameLen);
  }

  lemma SameCentral(a: seq<Byte>, b: seq<Byte>, crc: nat, size: nat, nameLen: nat)
    requires |a| >= 46 && |b| >= 46
    requires forall k :: 0 <= k < 16 ==> a[k] == b[k]
    ensures CentralVersions(a) ==> CentralVersions(b)
    ensures (forall k :: 16 <= k < 30 ==> a[k] == b[k]) && CentralSizes(a, crc, size, nameLen) ==>
        CentralSizes(b, crc, size, nameLen)
  {
  }

  lemma CentralTail(a: seq<Byte>, b: seq<Byte>, off: nat)
    requires |a| >= 46 && |b| >= 46 && U32(a, 42) == off % 0x1_0000_0000
    requires forall k :: 30 <= k < 46 ==> a[k] == b[k]
    requires forall k :: 30 <= k < 42 ==> b[k] == 0
    ensures U16(b, 30) == 0 && U16(b, 32) == 0 && U16(b, 34) == 0 && U16(b, 36) == 0 && U32(b, 38) == 0
    ensures U32(b, 42) == off % 0x1_0000_0000
  {
  }

  method CentralHeader(f: File, crc: Word, off: nat) returns (b: seq<Byte>)
    requires crc == BitSerialCrc(f.data)
    ensures IsCentral(b, f, off)
  {
    hide CentralVersions, CentralSizes, U16, U32;
    var cen := new Byte[46 + |f.name|](_ => 0);
    StampVersions(cen);
    ghost var one := cen[..];
    StampSizes(cen, crc, |f.data|, |f.name|);
    ghost var two := cen[..];
    SetUint32(cen, 42, off);
    ghost var three := cen[..];
    SetBytes(cen, 46, f.name);
    b := cen[..];
    assert b[46..] == cen[46..46 + |f.name|];
    SameCentral(one, two, crc, |f.data|, |f.name|);
    SameCentral(two, b, crc, |f.data|, |f.name|);
    CentralTail(three, b, off);
  }

  lemma SameField(a: seq<Byte>, b: seq<Byte>, i: nat)
    requires i + 2 <= |a| == |b| && a[i] == b[i] && a[i + 1] == b[i + 1]
    ensures U16(a, i) == U16(b, i)
    ensures i + 4 <= |a| && a[i + 2] == b[i + 2] && a[i + 3] == b[i + 3] ==> U32(a, i) == U32(b, i)
  {
  }

  lemma ZeroField(b: seq<Byte>, i: nat)
    requires i + 2 <= |b| && b[i] == 0 && b[i + 1] == 0
    ensures U16(b, i) == 0
  {
  }

  method EndRecord(count: nat, size: nat, start: nat) returns (b: seq<Byte>)
    ensures IsEnd(b, count, size, start)
  {
    hide U16, U32;
    var end := new Byte[22](_ => 0);
    SetUint32(end, 0, END_SIG);
    ghost var one := end[..];
    SetUint16(end, 8, count);
    ghost var two := end[..];
    SetUint16(end, 10, count);
    ghost var three := end[..];
    SetUint32(end, 12, size);
    ghost var four := end[..];
    SetUint32(end, 16, start);
    b := end[..];
    SameField(one, b, 0);
    SameField(two, b, 8);
    SameField(three, b, 10);
    SameField(four, b, 12);
    ZeroField(b, 4);
    ZeroField(b, 6);
    ZeroField(b, 20);
  }

  // ------------------------------------------------------------------ the archive

  /** Where the local header of file i starts; at i == |files|, where the central directory starts. */
  function Offset(files: seq<File>, i: nat): nat
    requires i <= |files|
  {
    if i == 0 then 0 else Offset(files, i - 1) + 30 + |files[i - 1].name| + |files[i - 1].data|
  }

  /** Where central header i starts within the central directory. */
  function CentralOffset(files: seq<File>, i: nat): nat
    requires i <= |files|
  {
    if i == 0 then 0 else CentralOffset(files, i - 1) + 46 + |files[i - 1].name|
  }

  /** The local headers and contents of the first i files, in order. */
  ghost function Body(locals: seq<seq<Byte>>, files: seq<File>, i: nat): seq<Byte>
    requires i <= |files| && i <= |locals|
  {
    if i == 0 then [] else Body(locals, files, i - 1) + locals[i - 1] + files[i - 1].data
  }

  ghost function Directory(centrals: seq<seq<Byte>>, i: nat): seq<Byte>
    requires i <= |centrals|
  {
    if i == 0 then [] else Directory(centrals, i - 1) + centrals[i - 1]
  }

  /** The parts of an archive of `files`; `recorded` says whether the central headers record the real
      local-header offsets. */
  datatype Parts = Parts(locals: seq<seq<Byte>>, centrals: seq<seq<Byte>>, end: seq<Byte>)

  function RecordedOffset(files: seq<File>, i: nat, recorded: bool): nat
    requires i <= |files|
  {
    if recorded then Offset(files, i) else 0
  }

  ghost predicate Sized(files: seq<File>, p: Parts) {
    && |p.locals| == |p.centrals| == |files|
    && (forall j :: 0 <= j < |files| ==> |p.locals[j]| == 30 + |files[j].name|)
    && (forall j :: 0 <= j < |files| ==> |p.centrals[j]| == 46 + |files[j].name|)
  }

  /** The parts are concatenated in archive order. */
  ghost predicate Assembled(blob: seq<Byte>, files: seq<File>, p: Parts) {
    && Sized(files, p)
    && |p.end| == 22
    && blob == Body(p.locals, files, |files|) + Directory(p.centrals, |files|) + p.end
  }

  ghost predicate IsArchive(blob: seq<Byte>, files: seq<File>, recorded: bool, p: Parts) {
    && Assembled(blob, files, p)
    && (forall i :: 0 <= i < |files| ==> IsLocal(p.locals[i], files[i]))
    && (forall i :: 0 <= i < |files| ==> IsCentral(p.centrals[i], files[i], RecordedOffset(files, i, recorded)))
    && IsEnd(p.end, |files|, CentralOffset(files, |files|), Offset(files, |files|))
  }

  lemma {:induction false} BodyPrefix(locals: seq<seq<Byte>>, last: seq<Byte>, files: seq<File>, i: nat)
    requires i <= |files| && i <= |locals|
    ensures Body(locals + [last], files, i) == Body(locals, files, i)
  {
    if i > 0 {
      BodyPrefix(locals, last, files, i - 1);
    }
  }

  lemma {:induction false} Lengths(files: seq<File>, p: Parts, i: nat)
    requires Sized(files, p) && i <= |files|
    ensures |Body(p.locals, files, i)| == Offset(files, i)
    ensures |Directory(p.centrals, i)| == CentralOffset(files, i)
  {
    if i > 0 {
      Lengths(files, p, i - 1);
    }
  }

  lemma BodyNone(locals: seq<seq<Byte>>, files: seq<File>)
    ensures Body(locals, files, 0) == [] && Offset(files, 0) == 0
  {
  }

  lemma BodyStep(locals: seq<seq<Byte>>, local: seq<Byte>, files: seq<File>, i: nat)
    requires |locals| == i < |files| && IsLocal(local, files[i])
    requires |Body(locals, files, i)| == Offset(files, i)
    ensures Body(locals + [local], files, i + 1) == Body(locals, files, i) + local + files[i].data
    ensures |Body(locals + [local], files, i + 1)| == Offset(files, i + 1)
  {
    hide LocalVersions, LocalSizes, BitSerialCrc;
    BodyPrefix(locals, local, files, i);
  }

  /** The loop over the files. */
  method WriteFiles(table: array<Word>, files: seq<File>, recorded: bool)
    returns (body: seq<Byte>, central: seq<seq<Byte>>, ghost locals: seq<seq<Byte>>)
    requires IsTable(table)
    ensures |locals| == |central| == |files|
    ensures forall j :: 0 <= j < |files| ==> IsLocal(locals[j], files[j])
    ensures forall j :: 0 <= j < |files| ==> IsCentral(central[j], files[j], RecordedOffset(files, j, recorded))
    ensures body == Body(locals, files, |files|) && |body| == Offset(files, |files|)
    ensures Sized(files, Parts(locals, central, []))
  {
    hide IsLocal, IsCentral, BitSerialCrc, Body, Sized, IsTable, Offset;
    body, central, locals := [], [], [];
    BodyNone(locals, files);
    for i := 0 to |files|
      invariant |locals| == |central| == i
      invariant forall j :: 0 <= j < i ==> IsLocal(locals[j], files[j])
      invariant forall j :: 0 <= j < i ==> IsCentral(central[j], files[j], RecordedOffset(files, j, recorded))
      invariant body == Body(locals, files, i) && |body| == Offset(files, i)
    {
      var f := files[i];
      var crc := Crc(table, f.data);
      var local := LocalHeader(f, crc);
      var cen := CentralHeader(f, crc, if recorded then |body| else 0);
      BodyStep(locals, local, files, i);
      body := body + local + f.data;
      locals := locals + [local];
      central := central + [cen];
    }
    SizedParts(files, locals, central, recorded);
  }

  lemma SizedParts(files: seq<File>, locals: seq<seq<Byte>>, central: seq<seq<Byte>>, recorded: bool)
    requires |locals| == |central| == |files|
    requires forall j :: 0 <= j < |files| ==> IsLocal(locals[j], files[j])
    requires forall j :: 0 <= j < |files| ==> IsCentral(central[j], files[j], RecordedOffset(files, j, recorded))
    ensures Sized(files, Parts(locals, central, []))
  {
    hide BitSerialCrc, CentralVersions, CentralSizes, LocalVersions, LocalSizes;
  }

  lemma EndLength(b: seq<Byte>, count: nat, size: nat, start: nat)
    requires IsEnd(b, count, size, start)
    ensures |b| == 22
  {
  }

  /** makeZip. With `recorded` false this is the code as written, which stores local-header offset 0 in
      every central header; with `recorded` true it stores the offset section 4.4.16 asks for. */
  method MakeZip(table: array<Word>, files: seq<File>, recorded: bool) returns (blob: seq<Byte>, ghost parts: Parts)
    requires IsTable(table)
    ensures IsArchive(blob, files, recorded, parts)
    ensures WithinLimits(files) ==> ParseZip(blob) == Ok(EntriesOf(files, 0, recorded))
    ensures WithinLimits(files) && recorded ==> forall i :: 0 <= i < |files| ==>
        UnzipEntry(blob, EntryOf(files, i, true)) == Ok(files[i].data)
  {
    hide IsLocal, IsCentral, IsEnd, Body, Offset, CentralOffset, WithinLimits, ParseZip, UnzipEntry;
    var body, central, locals := WriteFiles(table, files, recorded);
    var centralStart := |body|;
    blob := body;
    for i := 0 to |central|
      invariant blob == body + Directory(central, i)
    {
      blob := blob + central[i];
    }
    Lengths(files, Parts(locals, central, []), |files|);
    var end := EndRecord(|files|, |blob| - centralStart, centralStart);
    blob := blob + end;
    parts := Parts(locals, central, end);
    assert |end| == 22 by { EndLength(end, |files|, CentralOffset(files, |files|), Offset(files, |files|)); }
    assert IsArchive(blob, files, recorded, parts);
    hide IsArchive;
    if WithinLimits(files) {
      ListingReadsBack(blob, files, recorded, parts);
      if recorded {
        forall i | 0 <= i < |files| ensures UnzipEntry(blob, EntryOf(files, i, true)) == Ok(files[i].data) {
          FileReadsBack(blob, files, parts, i);
        }
      }
    }
  }

  // ------------------------------------------------------------------ the reader

  datatype Entry = Entry(name: seq<Byte>, compression: nat, compSize: nat, localOff: nat)

  datatype ZipError = NotAZip | OutOfRange | NeedsInflate | Unsupported(compression: nat)

  /** Uint8Array.subarray, which clamps its bounds. */
  function Subarray(b: seq<Byte>, from: nat, to: nat): seq<Byte> {
    var hi := Min(to, |b|);
    if from < hi then b[from..hi] else []
  }

  /** The backward search for the end-of-central-directory record, at most 66000 bytes from the end. */
  function ScanEnd(buf: seq<Byte>, i: int): (r: Option<nat>)
    requires i + 22 <= |buf|
    ensures r.Some? ==> r.value <= i
    decreases i + 1
  {
    if i < Max(0, |buf| - 66000) then None
    else if U32(buf, i) == END_SIG then Some(i)
    else ScanEnd(buf, i - 1)
  }

  /** The search returns the last signature in its window, the final 66000 bytes. */
  lemma {:induction false} ScanEndFindsLast(buf: seq<Byte>, i: int)
    requires i + 22 <= |buf|
    ensures ScanEnd(buf, i).Some? ==> U32(buf, ScanEnd(buf, i).value) == END_SIG
    ensures ScanEnd(buf, i).Some? ==> ScanEnd(buf, i).value >= |buf| - 66000
    ensures forall j: nat :: j <= i && j >= |buf| - 66000 && U32(buf, j) == END_SIG ==>
      ScanEnd(buf, i).Some? && j <= ScanEnd(buf, i).value
    decreases i + 1
  {
    if i >= Max(0, |buf| - 66000) && U32(buf, i) != END_SIG {
      ScanEndFindsLast(buf, i - 1);
    }
  }

  /** The entry at `ptr`, and the length of its central header. */
  function EntryAt(buf: seq<Byte>, ptr: nat): (Entry, nat)
    requires ptr + 46 <= |buf|
  {
    var nameLen := U16(buf, ptr + 28);
    (Entry(Subarray(buf, ptr + 46, ptr + 46 + nameLen), U16(buf, ptr + 10), U32(buf, ptr + 20), U32(buf, ptr + 42)),
     46 + nameLen + U16(buf, ptr + 30) + U16(buf, ptr + 32))
  }

  /** The central directory walk: stops early at a wrong signature, fails on a read past the end. */
  function Entries(buf: seq<Byte>, ptr: nat, count: nat): Result<seq<Entry>, ZipError>
    decreases count
  {
    if count == 0 then Ok([])
    else if ptr + 4 > |buf| then Err(OutOfRange)
    else if U32(buf, ptr) != CENTRAL_SIG then Ok([])
    else if ptr + 46 > |buf| then Err(OutOfRange)
    else
      var (entry, length) := EntryAt(buf, ptr);
      Prepend([entry], Entries(buf, ptr + length, count - 1))
  }

  function ParseZip(buf: seq<Byte>): Result<seq<Entry>, ZipError> {
    var eocd := if |buf| < 22 then None else ScanEnd(buf, |buf| - 22);
    if eocd.None? then Err(NotAZip)
    else Entries(buf, U32(buf, eocd.value + 16), U16(buf, eocd.value + 10))
  }

  method FindEnd(buf: seq<Byte>) returns (eocd: int)
    ensures eocd == -1 || 0 <= eocd <= |buf| - 22
    ensures (if |buf| < 22 then None else ScanEnd(buf, |buf| - 22)) == if eocd < 0 then None else Some(eocd)
  {
    eocd := -1;
    var i := |buf| - 22;
    while i >= Max(0, |buf| - 66000)
      invariant i <= |buf| - 22
      invariant |buf| >= 22 ==> ScanEnd(buf, |buf| - 22) == ScanEnd(buf, i)
    {
      if U32(buf, i) == END_SIG {
        return i;
      }
      i := i - 1;
    }
  }

  function Prepend(es: seq<Entry>, r: Result<seq<Entry>, ZipError>): Result<seq<Entry>, ZipError> {
    match r
    case Ok(rest) => Ok(es + rest)
    case Err(e) => Err(e)
  }

  lemma PrependOne(es: seq<Entry>, e: Entry, r: Result<seq<Entry>, ZipError>)
    ensures Prepend(es, Prepend([e], r)) == Prepend(es + [e], r)
    ensures Prepend([], r) == r
  {
    if r.Ok? {
      assert es + ([e] + r.value) == (es + [e]) + r.value;
      assert [] + r.value == r.value;
    }
  }

  /** readZip */
  method ReadZip(buf: seq<Byte>) returns (r: Result<seq<Entry>, ZipError>)
    ensures r == ParseZip(buf)
  {
    var eocd := FindEnd(buf);
    if eocd < 0 {
      return Err(NotAZip);
    }
    var count := U16(buf, eocd + 10);
    var ptr: nat := U32(buf, eocd + 16);
    ghost var all := Entries(buf, ptr, count);
    var entries: seq<Entry> := [];
    PrependOne([], Entry([], 0, 0, 0), all);
    var n := 0;
    while n < count
      invariant n <= count
      invariant all == Prepend(entries, Entries(buf, ptr, count - n))
    {
      if ptr + 4 > |buf| {
        return Err(OutOfRange);
      }
      if U32(buf, ptr) != CENTRAL_SIG {
        break;
      }
      if ptr + 46 > |buf| {
        return Err(OutOfRange);
      }
      var (entry, length) := EntryAt(buf, ptr);
      PrependOne(entries, entry, Entries(buf, ptr + length, count - n - 1));
      entries := entries + [entry];
      ptr := ptr + length;
      n := n + 1;
    }
    assert entries + [] == entries;
    r := Ok(entries);
  }

  /** unzipEntry, up to the inflating of compressed entries. */
  function UnzipEntry(buf: seq<Byte>, e: Entry): Result<seq<Byte>, ZipError> {
    if e.localOff + 30 > |buf| then Err(OutOfRange)
    else
      var start := e.localOff + 30 + U16(buf, e.localOff + 26) + U16(buf, e.localOff + 28);
      if e.compression == 0 then Ok(Subarray(buf, start, start + e.compSize))
      else if e.compression == 8 then Err(NeedsInflate)
      else Err(Unsupported(e.compression))
  }

  // ------------------------------------------------------------------ round trip

  /** The field limits of the format: 16-bit counts and name lengths, 32-bit sizes and offsets. */
  predicate WithinLimits(files: seq<File>) {
    && |files| < 0x1_0000
    && (forall i :: 0 <= i < |files| ==> |files[i].name| < 0x1_0000)
    && Offset(files, |files|) < 0x1_0000_0000
  }

  lemma {:induction false} OffsetsBounded(files: seq<File>, i: nat, n: nat)
    requires i <= n <= |files|
    ensures Offset(files, i) <= Offset(files, n)
    ensures i < n ==> Offset(files, i) + 30 + |files[i].name| + |files[i].data| <= Offset(files, n)
    ensures CentralOffset(files, i) <= CentralOffset(files, n)
    ensures i < n ==> CentralOffset(files, i) + 46 + |files[i].name| <= CentralOffset(files, n)
    decreases n
  {
    if i < n {
      OffsetsBounded(files, i, n - 1);
    }
  }

  /** `part` occurs in `buf` at position `at`. */
  ghost predicate At(buf: seq<Byte>, at: nat, part: seq<Byte>) {
    at + |part| <= |buf| && forall k {:trigger part[k]} :: 0 <= k < |part| ==> buf[at + k] == part[k]
  }

  lemma Within(front: seq<Byte>, mid: seq<Byte>, back: seq<Byte>, at: nat, part: seq<Byte>)
    requires At(mid, at, part)
    ensures At(front + mid + back, |front| + at, part)
  {
    var all := front + mid + back;
    forall k | 0 <= k < |part| ensures all[|front| + at + k] == part[k] {
      assert all[|front| + (at + k)] == mid[at + k];
    }
  }

  lemma SubarrayAt(buf: seq<Byte>, at: nat, part: seq<Byte>, skip: nat)
    requires At(buf, at, part) && skip <= |part|
    ensures Subarray(buf, at + skip, at + |part|) == part[skip..]
  {
    var s := Subarray(buf, at + skip, at + |part|);
    assert |s| == |part| - skip;
    forall k | 0 <= k < |s| ensures s[k] == part[skip..][k] {
      assert part[skip..][k] == part[skip + k] && buf[at + (skip + k)] == part[skip + k];
    }
  }

  /** Local header i and its contents sit at Offset(i). */
  lemma {:induction false} BodyAt(files: seq<File>, p: Parts, i: nat, n: nat)
    requires Sized(files, p) && i < n <= |files|
    ensures At(Body(p.locals, files, n), Offset(files, i), p.locals[i] + files[i].data)
    decreases n
  {
    Lengths(files, p, n - 1);
    var front, last := Body(p.locals, files, n - 1), p.locals[n - 1] + files[n - 1].data;
    assert Body(p.locals, files, n) == front + last;
    assert [] + front + last == front + last && front + last + [] == front + last;
    if i < n - 1 {
      BodyAt(files, p, i, n - 1);
      Within([], front, last, Offset(files, i), p.locals[i] + files[i].data);
    } else {
      Within(front, last, [], 0, last);
    }
  }

  lemma {:induction false} DirectoryAt(files: seq<File>, p: Parts, i: nat, n: nat)
    requires Sized(files, p) && i < n <= |files|
    ensures At(Directory(p.centrals, n), CentralOffset(files, i), p.centrals[i])
    decreases n
  {
    Lengths(files, p, n - 1);
    var front, last := Directory(p.centrals, n - 1), p.centrals[n - 1];
    assert Directory(p.centrals, n) == front + last;
    assert [] + front + last == front + last && front + last + [] == front + last;
    if i < n - 1 {
      DirectoryAt(files, p, i, n - 1);
      Within([], front, last, CentralOffset(files, i), p.centrals[i]);
    } else {
      Within(front, last, [], 0, last);
    }
  }

  lemma WhereParts(blob: seq<Byte>, files: seq<File>, p: Parts, i: nat)
    requires Assembled(blob, files, p) && i < |files|
    ensures At(blob, Offset(files, i), p.locals[i] + files[i].data)
    ensures At(blob, Offset(files, |files|) + CentralOffset(files, i), p.centrals[i])
  {
    var n := |files|;
    Lengths(files, p, n);
    BodyAt(files, p, i, n);
    DirectoryAt(files, p, i, n);
    Split(blob, Body(p.locals, files, n), Directory(p.centrals, n), p.end);
    AtInside(blob, 0, Body(p.locals, files, n), Offset(files, i), p.locals[i] + files[i].data);
    AtInside(blob, Offset(files, n), Directory(p.centrals, n), CentralOffset(files, i), p.centrals[i]);
  }

  lemma Split(blob: seq<Byte>, a: seq<Byte>, b: seq<Byte>, c: seq<Byte>)
    requires blob == a + b + c
    ensures At(blob, 0, a) && At(blob, |a|, b) && At(blob, |a| + |b|, c)
  {
  }

  lemma AtInside(buf: seq<Byte>, at: nat, mid: seq<Byte>, inner: nat, part: seq<Byte>)
    requires At(buf, at, mid) && At(mid, inner, part)
    ensures At(buf, at + inner, part)
  {
    forall k | 0 <= k < |part| ensures buf[at + inner + k] == part[k] {
      assert mid[inner + k] == part[k];
      assert buf[at + (inner + k)] == mid[inner + k];
    }
  }

  lemma WhereEnd(blob: seq<Byte>, files: seq<File>, p: Parts)
    requires Assembled(blob, files, p)
    ensures |blob| == Offset(files, |files|) + CentralOffset(files, |files|) + 22 && At(blob, |blob| - 22, p.end)
  {
    Lengths(files, p, |files|);
    Split(blob, Body(p.locals, files, |files|), Directory(p.centrals, |files|), p.end);
  }

  lemma FieldsAt(buf: seq<Byte>, at: nat, part: seq<Byte>, i: nat)
    requires At(buf, at, part)
    ensures i + 2 <= |part| ==> U16(buf, at + i) == U16(part, i)
    ensures i + 4 <= |part| ==> U32(buf, at + i) == U32(part, i)
  {
  }

  function EntryOf(files: seq<File>, i: nat, recorded: bool): Entry
    requires i < |files|
  {
    Entry(files[i].name, 0, |files[i].data|, RecordedOffset(files, i, recorded))
  }

  /** A central header at `ptr` reads back as the entry it was written for. */
  ghost predicate EntryThere(buf: seq<Byte>, ptr: nat, e: Entry) {
    ptr + 46 <= |buf| && U32(buf, ptr) == CENTRAL_SIG && EntryAt(buf, ptr) == (e, 46 + |e.name|)
  }

  lemma CentralFields(c: seq<Byte>, f: File, off: nat)
    requires IsCentral(c, f, off) && |f.name| < 0x1_0000 && |f.data| < 0x1_0000_0000 && off < 0x1_0000_0000
    ensures |c| == 46 + |f.name| && c[46..] == f.name
    ensures U32(c, 0) == CENTRAL_SIG && U16(c, 10) == 0 && U32(c, 20) == |f.data| && U16(c, 28) == |f.name|
    ensures U16(c, 30) == 0 && U16(c, 32) == 0 && U32(c, 42) == off
  {
    hide BitSerialCrc, U16, U32;
  }

  lemma LocalFields(b: seq<Byte>, f: File)
    requires IsLocal(b, f) && |f.name| < 0x1_0000
    ensures |b| == 30 + |f.name| && U16(b, 26) == |f.name| && U16(b, 28) == 0
  {
    hide BitSerialCrc, U16, U32;
  }

  lemma CentralReadsBack(buf: seq<Byte>, ptr: nat, c: seq<Byte>, f: File, off: nat)
    requires At(buf, ptr, c) && IsCentral(c, f, off)
    requires |f.name| < 0x1_0000 && |f.data| < 0x1_0000_0000 && off < 0x1_0000_0000
    ensures EntryThere(buf, ptr, Entry(f.name, 0, |f.data|, off))
  {
    hide IsCentral, U16, U32, Subarray;
    CentralFields(c, f, off);
    FieldsAt(buf, ptr, c, 0);
    FieldsAt(buf, ptr, c, 10);
    FieldsAt(buf, ptr, c, 20);
    FieldsAt(buf, ptr, c, 28);
    FieldsAt(buf, ptr, c, 30);
    FieldsAt(buf, ptr, c, 32);
    FieldsAt(buf, ptr, c, 42);
    SubarrayAt(buf, ptr, c, 46);
  }

  ghost predicate Listed(buf: seq<Byte>, files: seq<File>, recorded: bool) {
    forall i :: 0 <= i < |files| ==>
      EntryThere(buf, Offset(files, |files|) + CentralOffset(files, i), EntryOf(files, i, recorded))
  }

  lemma ArchiveListed(blob: seq<Byte>, files: seq<File>, recorded: bool, p: Parts)
    requires IsArchive(blob, files, recorded, p) && WithinLimits(files)
    ensures Listed(blob, files, recorded)
  {
    hide IsLocal, IsCentral, IsEnd, EntryThere, Body, Directory;
    forall i | 0 <= i < |files|
      ensures EntryThere(blob, Offset(files, |files|) + CentralOffset(files, i), EntryOf(files, i, recorded))
    {
      WhereParts(blob, files, p, i);
      OffsetsBounded(files, i, |files|);
      CentralReadsBack(blob, Offset(files, |files|) + CentralOffset(files, i), p.centrals[i], files[i],
                       RecordedOffset(files, i, recorded));
    }
  }

  function EntriesOf(files: seq<File>, i: nat, recorded: bool): (r: seq<Entry>)
    requires i <= |files|
    ensures |r| == |files| - i && forall k :: 0 <= k < |r| ==> r[k] == EntryOf(files, i + k, recorded)
  {
    seq(|files| - i, k requires 0 <= k < |files| - i => EntryOf(files, i + k, recorded))
  }

  lemma EntriesStep(buf: seq<Byte>, ptr: nat, count: nat, e: Entry)
    requires EntryThere(buf, ptr, e) && count > 0
    ensures Entries(buf, ptr, count) == Prepend([e], Entries(buf, ptr + 46 + |e.name|, count - 1))
  {
    hide Subarray;
  }

  lemma NoEntries(buf: seq<Byte>, ptr: nat)
    ensures Entries(buf, ptr, 0) == Ok([])
  {
  }

  lemma {:induction false} DirectoryReadsBack(buf: seq<Byte>, files: seq<File>, recorded: bool, i: nat)
    requires Listed(buf, files, recorded) && i <= |files|
    ensures Entries(buf, Offset(files, |files|) + CentralOffset(files, i), |files| - i)
         == Ok(EntriesOf(files, i, recorded))
    decreases |files| - i
  {
    hide EntryThere, Entries;
    if i < |files| {
      EntriesStep(buf, Offset(files, |files|) + CentralOffset(files, i), |files| - i, EntryOf(files, i, recorded));
      DirectoryReadsBack(buf, files, recorded, i + 1);
      assert [EntryOf(files, i, recorded)] + EntriesOf(files, i + 1, recorded) == EntriesOf(files, i, recorded);
    } else {
      NoEntries(buf, Offset(files, |files|) + CentralOffset(files, i));
      assert EntriesOf(files, i, recorded) == [];
    }
  }

  lemma EndReadsBack(buf: seq<Byte>, end: seq<Byte>, count: nat, size: nat, start: nat)
    requires |buf| >= 22 && At(buf, |buf| - 22, end) && IsEnd(end, count, size, start)
    requires count < 0x1_0000 && start < 0x1_0000_0000
    ensures ParseZip(buf) == Entries(buf, start, count)
  {
    hide Entries;
    var i := |buf| - 22;
    FieldsAt(buf, i, end, 0);
    FieldsAt(buf, i, end, 10);
    FieldsAt(buf, i, end, 16);
    assert ScanEnd(buf, i) == Some(i);
  }

  /** Whatever makeZip wrote, readZip lists the files in order with their names and sizes. */
  lemma ListingReadsBack(blob: seq<Byte>, files: seq<File>, recorded: bool, p: Parts)
    requires IsArchive(blob, files, recorded, p) && WithinLimits(files)
    ensures ParseZip(blob) == Ok(EntriesOf(files, 0, recorded))
  {
    hide IsLocal, IsCentral, IsEnd, Entries, ParseZip, Body, Directory, Listed;
    WhereEnd(blob, files, p);
    EndReadsBack(blob, p.end, |files|, CentralOffset(files, |files|), Offset(files, |files|));
    ArchiveListed(blob, files, recorded, p);
    DirectoryReadsBack(blob, files, recorded, 0);
  }

  /** An entry that points at a local header yields the bytes that follow that header. */
  lemma ContentsAt(buf: seq<Byte>, at: nat, local: seq<Byte>, f: File, size: nat, name: seq<Byte>)
    requires At(buf, at, local + f.data) && IsLocal(local, f) && |f.name| < 0x1_0000
    ensures var start := at + 30 + |f.name|;
      At(buf, start, f.data) && UnzipEntry(buf, Entry(name, 0, size, at)) == Ok(Subarray(buf, start, start + size))
  {
    hide IsLocal, U16, U32;
    var whole := local + f.data;
    LocalFields(local, f);
    Split(whole, local, f.data, []);
    AtInside(buf, at, whole, 0, local);
    AtInside(buf, at, whole, |local|, f.data);
    FieldsAt(buf, at, local, 26);
    FieldsAt(buf, at, local, 28);
  }

  lemma FileReadsBack(blob: seq<Byte>, files: seq<File>, p: Parts, i: nat)
    requires IsArchive(blob, files, true, p) && WithinLimits(files) && i < |files|
    ensures UnzipEntry(blob, EntryOf(files, i, true)) == Ok(files[i].data)
  {
    hide IsCentral, IsLocal, IsEnd, UnzipEntry, Body, Directory, Subarray, Offset, CentralOffset, At;
    WhereParts(blob, files, p, i);
    ContentsAt(blob, Offset(files, i), p.locals[i], files[i], |files[i].data|, files[i].name);
    SubarrayAt(blob, Offset(files, i) + 30 + |files[i].name|, files[i].data, 0);
  }

  /** The round trip with recorded offsets: every file comes back with its exact name and bytes. */
  lemma RoundTrip(blob: seq<Byte>, files: seq<File>, p: Parts)
    requires IsArchive(blob, files, true, p) && WithinLimits(files)
    ensures ParseZip(blob).Ok? && |ParseZip(blob).value| == |files|
    ensures forall i :: 0 <= i < |files| ==> ParseZip(blob).value[i].name == files[i].name
    ensures forall i :: 0 <= i < |files| ==> UnzipEntry(blob, ParseZip(blob).value[i]) == Ok(files[i].data)
  {
    hide IsArchive, ParseZip, UnzipEntry, WithinLimits;
    ListingReadsBack(blob, files, true, p);
    forall i | 0 <= i < |files| ensures UnzipEntry(blob, EntryOf(files, i, true)) == Ok(files[i].data) {
      FileReadsBack(blob, files, p, i);
    }
  }

  /** The bytes of an as-written archive from the first file's contents on. */
  function FromFirstContents(blob: seq<Byte>, files: seq<File>): seq<Byte>
    requires files != []
  {
    if 30 + |files[0].name| <= |blob| then blob[30 + |files[0].name|..] else []
  }

  /** As written, with offset 0 in every central header, entry i comes back intact exactly if its bytes
      are a prefix of the archive from the first file's contents on. That always holds for the
      first file; for a file no longer than the first one it means being a prefix of it. */
  lemma AsWrittenReadsBack(blob: seq<Byte>, files: seq<File>, p: Parts, i: nat)
    requires IsArchive(blob, files, false, p) && WithinLimits(files) && i < |files|
    ensures ParseZip(blob).Ok? && |ParseZip(blob).value| == |files| && ParseZip(blob).value[i].name == files[i].name
    ensures UnzipEntry(blob, ParseZip(blob).value[i]) == Ok(files[i].data) <==>
        files[i].data <= FromFirstContents(blob, files)
    ensures files[0].data <= FromFirstContents(blob, files)
    ensures |files[i].data| <= |files[0].data| ==>
      (UnzipEntry(blob, ParseZip(blob).value[i]) == Ok(files[i].data) <==> files[i].data <= files[0].data)
  {
    hide IsCentral, IsLocal, IsEnd, ParseZip, UnzipEntry, Body, Directory;
    ListingReadsBack(blob, files, false, p);
    WhereParts(blob, files, p, 0);
    ContentsAt(blob, 0, p.locals[0], files[0], |files[i].data|, files[i].name);
    PrefixOrNot(blob, 30 + |files[0].name|, files[i].data, files[0].data);
  }

  lemma PrefixOrNot(buf: seq<Byte>, start: nat, d: seq<Byte>, first: seq<Byte>)
    requires At(buf, start, first)
    ensures Subarray(buf, start, start + |d|) == d <==> d <= buf[start..]
    ensures first <= buf[start..]
    ensures |d| <= |first| ==> (d <= buf[start..] <==> d <= first)
  {
    var tail := buf[start..];
    forall k | 0 <= k < |first| ensures tail[..|first|][k] == first[k] {
      assert buf[start + k] == first[k];
    }
    assert tail[..|first|] == first;
    if |d| <= |tail| {
      assert tail[..|d|] == Subarray(buf, start, start + |d|);
    }
    if |d| <= |first| {
      assert tail[..|d|] == first[..|d|];
    }
  }

  /** Two files the as-written archive does not return: the second one reads back as the first. */
  lemma AsWrittenFailsForTwoFiles(blob: seq<Byte>, p: Parts)
    requires IsArchive(blob, [File([97], [1]), File([98], [2])], false, p)
    ensures ParseZip(blob).Ok? && |ParseZip(blob).value| == 2
    ensures UnzipEntry(blob, ParseZip(blob).value[0]) == Ok([1])
    ensures UnzipEntry(blob, ParseZip(blob).value[1]) == Ok([1])
  {
    hide IsCentral, IsLocal, IsEnd, ParseZip, UnzipEntry, Body, Directory;
    var files := [File([97], [1]), File([98], [2])];
    assert Offset(files, 1) == 32 && Offset(files, 2) == 64;
    AsWrittenReadsBack(blob, files, p, 0);
    ListingReadsBack(blob, files, false, p);
    assert EntryOf(files, 1, false) == Entry([98], 0, 1, 0);
    WhereParts(blob, files, p, 0);
    ContentsAt(blob, 0, p.locals[0], files[0], 1, [98]);
    SubarrayAt(blob, 31, [1], 0);
    assert EntriesOf(files, 0, false)[1] == EntryOf(files, 1, false);
  }
}
