/** The archive makeZip writes as one function of the file list: the records' fields determine every byte.
    With it, what an as-written archive (offset 0 in every central header) gives back is decided by the
    file list alone. */
module ZipBytes {
  import opened Common
  import opened Crc32
  import opened Zip

  // ------------------------------------------------------------------ records as bytes

  function Le16(v: nat): seq<Byte> {
    [v % 256, v / 256 % 256]
  }

  function Le32(v: nat): seq<Byte> {
    Le16(v) + Le16(v / 0x1_0000)
  }

  /** Section 4.3.7: signature, version 2.0, no flags, stored, time 0, date 0x21, CRC, sizes, name. */
  function LocalBytes(f: File): seq<Byte> {
    Le32(LOCAL_SIG) + (Le16(20) + (Le16(0) + (Le16(0) + (Le16(0) + (Le16(0x21) + LocalRest(f))))))
  }

  function LocalRest(f: File): seq<Byte> {
    Le32(BitSerialCrc(f.data)) + (Le32(|f.data|) + (Le32(|f.data|) + (Le16(|f.name|) + (Le16(0) + f.name))))
  }

  /** Section 4.3.12. */
  function CentralBytes(f: File, off: nat): seq<Byte> {
    Le32(CENTRAL_SIG) + (Le16(20) + (Le16(20) + (Le16(0) + (Le16(0) + (Le16(0) + (Le16(0x21) + CentralRest(f, off)))))))
  }

  function CentralRest(f: File, off: nat): seq<Byte> {
    Le32(BitSerialCrc(f.data)) + (Le32(|f.data|) + (Le32(|f.data|) + (Le16(|f.name|) + CentralEnd(f, off))))
  }

  function CentralEnd(f: File, off: nat): seq<Byte> {
    Le16(0) + (Le16(0) + (Le16(0) + (Le16(0) + (Le32(0) + (Le32(off) + f.name)))))
  }

  /** Section 4.3.16. */
  function EndBytes(count: nat, size: nat, start: nat): seq<Byte> {
    Le32(END_SIG) + (Le16(0) + (Le16(0) + (Le16(count) + (Le16(count) + (Le32(size) + (Le32(start) + Le16(0)))))))
  }

  lemma Field16(b: seq<Byte>, i: nat, v: nat)
    requires i + 2 <= |b| && U16(b, i) == v % 0x1_0000
    ensures b[i..] == Le16(v) + b[i + 2..]
  {
    SplitWord(b[i], b[i + 1], v);
    assert b[i..] == [b[i], b[i + 1]] + b[i + 2..];
  }

  lemma SplitWord(lo: Byte, hi: Byte, v: nat)
    requires lo as nat + 256 * (hi as nat) == v % 0x1_0000
    ensures lo == v % 256 && hi == v / 256 % 256
  {
    var q := v / 0x1_0000;
    DividedBy256(v, 256 * q + hi, lo);
    DividedBy256(256 * q + hi, q, hi);
  }

  lemma DividedBy256(v: nat, q: nat, r: nat)
    requires r < 256 && v == 256 * q + r
    ensures v / 256 == q && v % 256 == r
  {
  }

  lemma DividedBy65536(v: nat, q: nat, r: nat)
    requires r < 0x1_0000 && v == 0x1_0000 * q + r
    ensures v / 0x1_0000 == q && v % 0x1_0000 == r
  {
  }

  lemma Field32(b: seq<Byte>, i: nat, v: nat)
    requires i + 4 <= |b| && U32(b, i) == v % 0x1_0000_0000
    ensures b[i..] == Le32(v) + b[i + 4..]
  {
    SplitLong(U16(b, i), U16(b, i + 2), v);
    Field16(b, i, v);
    Field16(b, i + 2, v / 0x1_0000);
    hide Le16;
    var a, c, t := Le16(v), Le16(v / 0x1_0000), b[i + 4..];
    assert b[i..] == a + (c + t) == (a + c) + t;
  }

  lemma SplitLong(lo: nat, hi: nat, v: nat)
    requires lo < 0x1_0000 && hi < 0x1_0000 && lo + 0x1_0000 * hi == v % 0x1_0000_0000
    ensures lo == v % 0x1_0000 && hi == v / 0x1_0000 % 0x1_0000
  {
    var q := v / 0x1_0000_0000;
    DividedBy65536(v, 0x1_0000 * q + hi, lo);
    DividedBy65536(0x1_0000 * q + hi, q, hi);
  }

  lemma LocalIsBytes(b: seq<Byte>, f: File)
    requires IsLocal(b, f)
    ensures b == LocalBytes(f)
  {
    hide U16, U32, Le16, Le32, BitSerialCrc;
    Field32(b, 0, LOCAL_SIG);
    Field16(b, 4, 20);
    Field16(b, 6, 0);
    Field16(b, 8, 0);
    Field16(b, 10, 0);
    Field16(b, 12, 0x21);
    LocalRestIsBytes(b, f);
    assert b[0..] == b;
  }

  lemma LocalRestIsBytes(b: seq<Byte>, f: File)
    requires IsLocal(b, f)
    ensures b[14..] == LocalRest(f)
  {
    hide U16, U32, Le16, Le32, BitSerialCrc;
    Field32(b, 14, BitSerialCrc(f.data));
    Field32(b, 18, |f.data|);
    Field32(b, 22, |f.data|);
    Field16(b, 26, |f.name|);
    Field16(b, 28, 0);
  }

  lemma CentralIsBytes(b: seq<Byte>, f: File, off: nat)
    requires IsCentral(b, f, off)
    ensures b == CentralBytes(f, off)
  {
    hide U16, U32, Le16, Le32, BitSerialCrc, CentralRest;
    Field32(b, 0, CENTRAL_SIG);
    Field16(b, 4, 20);
    Field16(b, 6, 20);
    Field16(b, 8, 0);
    Field16(b, 10, 0);
    Field16(b, 12, 0);
    Field16(b, 14, 0x21);
    CentralRestIsBytes(b, f, off);
    assert b[0..] == b;
  }

  lemma CentralRestIsBytes(b: seq<Byte>, f: File, off: nat)
    requires IsCentral(b, f, off)
    ensures b[16..] == CentralRest(f, off)
  {
    hide U16, U32, Le16, Le32, BitSerialCrc, CentralEnd;
    Field32(b, 16, BitSerialCrc(f.data));
    Field32(b, 20, |f.data|);
    Field32(b, 24, |f.data|);
    Field16(b, 28, |f.name|);
    CentralEndIsBytes(b, f, off);
  }

  lemma CentralEndIsBytes(b: seq<Byte>, f: File, off: nat)
    requires IsCentral(b, f, off)
    ensures b[30..] == CentralEnd(f, off)
  {
    hide U16, U32, Le16, Le32, BitSerialCrc;
    Field16(b, 30, 0);
    Field16(b, 32, 0);
    Field16(b, 34, 0);
    Field16(b, 36, 0);
    Field32(b, 38, 0);
    Field32(b, 42, off);
  }

  lemma EndIsBytes(b: seq<Byte>, count: nat, size: nat, start: nat)
    requires IsEnd(b, count, size, start)
    ensures b == EndBytes(count, size, start)
  {
    hide U16, U32, Le16, Le32;
    Field32(b, 0, END_SIG);
    Field16(b, 4, 0);
    Field16(b, 6, 0);
    Field16(b, 8, count);
    Field16(b, 10, count);
    Field32(b, 12, size);
    Field32(b, 16, start);
    Field16(b, 20, 0);
    assert b[22..] == [] && Le16(0) + [] == Le16(0);
    assert b[0..] == b;
  }

  // ------------------------------------------------------------------ the archive as bytes

  /** From central header j on: the rest of the directory, then the end record. */
  function FromCentral(files: seq<File>, recorded: bool, j: nat): seq<Byte>
    requires j <= |files|
    decreases |files| - j
  {
    if j == |files| then EndBytes(|files|, CentralOffset(files, |files|), Offset(files, |files|))
    else CentralBytes(files[j], RecordedOffset(files, j, recorded)) + FromCentral(files, recorded, j + 1)
  }

  /** From local header i on: each header followed by its contents, then the directory. */
  function FromLocal(files: seq<File>, recorded: bool, i: nat): seq<Byte>
    requires i <= |files|
    decreases |files| - i
  {
    if i == |files| then FromCentral(files, recorded, 0)
    else LocalBytes(files[i]) + (files[i].data + FromLocal(files, recorded, i + 1))
  }

  /** The whole archive. */
  function ArchiveBytes(files: seq<File>, recorded: bool): seq<Byte> {
    FromLocal(files, recorded, 0)
  }

  lemma TailAt(buf: seq<Byte>, at: nat, part: seq<Byte>)
    requires At(buf, at, part)
    ensures at + |part| <= |buf| && buf[at..] == part + buf[at + |part|..]
  {
    var s, t := buf[at..], part + buf[at + |part|..];
    forall k | 0 <= k < |s| ensures s[k] == t[k] {
      if k < |part| {
        assert buf[at + k] == part[k];
      }
    }
  }

  lemma {:induction false} CentralTail(blob: seq<Byte>, files: seq<File>, recorded: bool, p: Parts, j: nat)
    requires IsArchive(blob, files, recorded, p) && j <= |files|
    ensures Offset(files, |files|) + CentralOffset(files, j) <= |blob|
    ensures blob[Offset(files, |files|) + CentralOffset(files, j)..] == FromCentral(files, recorded, j)
    decreases |files| - j
  {
    hide IsLocal, IsCentral, IsEnd, Body, Directory, CentralBytes, EndBytes, At, Offset;
    var at := Offset(files, |files|) + CentralOffset(files, j);
    if j == |files| {
      WhereEnd(blob, files, p);
      TailAt(blob, at, p.end);
      EndIsBytes(p.end, |files|, CentralOffset(files, |files|), Offset(files, |files|));
      assert blob[|blob|..] == [] && p.end + [] == p.end;
    } else {
      WhereParts(blob, files, p, j);
      TailAt(blob, at, p.centrals[j]);
      CentralIsBytes(p.centrals[j], files[j], RecordedOffset(files, j, recorded));
      CentralTail(blob, files, recorded, p, j + 1);
    }
  }

  lemma {:induction false} LocalTail(blob: seq<Byte>, files: seq<File>, recorded: bool, p: Parts, i: nat)
    requires IsArchive(blob, files, recorded, p) && i <= |files|
    ensures Offset(files, i) <= |blob| && blob[Offset(files, i)..] == FromLocal(files, recorded, i)
    decreases |files| - i
  {
    hide IsArchive, LocalBytes, FromCentral, CentralOffset, Offset;
    if i == |files| {
      CentralTail(blob, files, recorded, p, 0);
      NoCentralBefore(files);
    } else {
      LocalStepsOver(blob, files, recorded, p, i);
      LocalTail(blob, files, recorded, p, i + 1);
      Regroup(LocalBytes(files[i]), files[i].data, FromLocal(files, recorded, i + 1));
    }
  }

  lemma NoCentralBefore(files: seq<File>)
    ensures CentralOffset(files, 0) == 0
  {
  }

  /** Header i and its contents take the archive from Offset(i) to Offset(i + 1). */
  lemma LocalStepsOver(blob: seq<Byte>, files: seq<File>, recorded: bool, p: Parts, i: nat)
    requires IsArchive(blob, files, recorded, p) && i < |files|
    ensures Offset(files, i) <= Offset(files, i + 1) <= |blob|
    ensures blob[Offset(files, i)..] == (LocalBytes(files[i]) + files[i].data) + blob[Offset(files, i + 1)..]
  {
    hide IsLocal, IsCentral, IsEnd, Body, Directory, LocalBytes, At, CentralOffset;
    WhereParts(blob, files, p, i);
    TailAt(blob, Offset(files, i), p.locals[i] + files[i].data);
    LocalIsBytes(p.locals[i], files[i]);
  }

  lemma Regroup(a: seq<Byte>, b: seq<Byte>, c: seq<Byte>)
    ensures (a + b) + c == a + (b + c)
  {
  }

  /** The field values fix every byte: whatever makeZip writes for `files` is this sequence. */
  lemma ArchiveIsBytes(blob: seq<Byte>, files: seq<File>, recorded: bool, p: Parts)
    requires IsArchive(blob, files, recorded, p)
    ensures blob == ArchiveBytes(files, recorded)
  {
    LocalTail(blob, files, recorded, p, 0);
    assert blob[0..] == blob;
  }

  // ------------------------------------------------------------------ as written

  /** What every entry of an as-written archive is read from: contents 0, header 1, contents 1, and so on. */
  function AfterFirstHeader(files: seq<File>): seq<Byte>
    requires files != []
  {
    files[0].data + FromLocal(files, false, 1)
  }

  /** As written, entry i of any file list comes back intact exactly if its bytes are a prefix of the first
      file's contents followed by the second file's header, its contents, and so on. */
  lemma AsWrittenReadsBackIff(blob: seq<Byte>, files: seq<File>, p: Parts, i: nat)
    requires IsArchive(blob, files, false, p) && WithinLimits(files) && i < |files|
    ensures ParseZip(blob).Ok? && |ParseZip(blob).value| == |files| && ParseZip(blob).value[i].name == files[i].name
    ensures UnzipEntry(blob, ParseZip(blob).value[i]) == Ok(files[i].data) <==> files[i].data <= AfterFirstHeader(files)
  {
    hide ParseZip, UnzipEntry, Body, Directory, IsLocal, IsCentral, IsEnd, LocalBytes;
    AsWrittenReadsBack(blob, files, p, i);
    ArchiveIsBytes(blob, files, false, p);
    LocalLength(files[0], p.locals[0]);
    HeaderDropped(LocalBytes(files[0]), AfterFirstHeader(files));
    assert blob[30 + |files[0].name|..] == AfterFirstHeader(files);
  }

  lemma LocalLength(f: File, b: seq<Byte>)
    requires IsLocal(b, f)
    ensures |LocalBytes(f)| == 30 + |f.name|
  {
    LocalIsBytes(b, f);
  }

  lemma HeaderDropped(header: seq<Byte>, rest: seq<Byte>)
    ensures (header + rest)[|header|..] == rest
  {
  }

  /** So a file reads back if it is a prefix of the first one, and a longer one only if it starts with the
      first one's contents followed by a local header signature (or as much of it as it has room for). */
  lemma LongerEntryHoldsHeader(files: seq<File>, i: nat)
    requires 0 < i < |files| && files[i].data <= AfterFirstHeader(files)
    ensures |files[i].data| <= |files[0].data| ==> files[i].data <= files[0].data
    ensures |files[i].data| > |files[0].data| ==>
      files[0].data <= files[i].data && (files[i].data[|files[0].data|..] <= [0x50, 0x4b, 0x03, 0x04]
        || [0x50, 0x4b, 0x03, 0x04] <= files[i].data[|files[0].data|..])
  {
    hide LocalBytes, Le32;
    var a, d := files[0].data, files[i].data;
    var t := FromLocal(files, false, 1);
    SignatureFirst(files[1]);
    var rest := files[1].data + FromLocal(files, false, 2);
    assert t == LocalBytes(files[1]) + rest;
    assert LocalBytes(files[1])[..4] == t[..4];
    PrefixOfPair(d, a, t);
    if |d| > |a| {
      PrefixesCompare(d[|a|..], [0x50, 0x4b, 0x03, 0x04], t);
    }
  }

  lemma SignatureFirst(f: File)
    ensures |LocalBytes(f)| >= 4 && LocalBytes(f)[..4] == [0x50, 0x4b, 0x03, 0x04]
  {
    SignatureBytes();
    hide LocalRest, BitSerialCrc, Le16, Le32;
  }

  lemma SignatureBytes()
    ensures Le32(LOCAL_SIG) == [0x50, 0x4b, 0x03, 0x04]
  {
    SplitWord(0x50, 0x4b, 0x4b50);
    SplitWord(0x03, 0x04, 0x0403);
    SplitLong(0x4b50, 0x0403, LOCAL_SIG);
    DividedBy65536(LOCAL_SIG, 0x0403, 0x4b50);
    DividedBy256(LOCAL_SIG, 0x04034b, 0x50);
    DividedBy256(0x04034b, 0x0403, 0x4b);
    assert Le16(LOCAL_SIG) == [0x50, 0x4b] && Le16(0x0403) == [0x03, 0x04];
  }

  lemma PrefixOfPair(d: seq<Byte>, a: seq<Byte>, t: seq<Byte>)
    requires d <= a + t
    ensures |d| <= |a| ==> d <= a
    ensures |d| > |a| ==> a <= d && d[|a|..] <= t
  {
    if |d| <= |a| {
      assert a[..|d|] == (a + t)[..|d|];
    } else {
      assert d[..|a|] == (a + t)[..|a|] == a;
      assert d[|a|..] == (a + t)[|a|..|d|] == t[..|d| - |a|];
    }
  }

  lemma PrefixesCompare(d: seq<Byte>, sig: seq<Byte>, t: seq<Byte>)
    requires d <= t && |sig| <= |t| && t[..|sig|] == sig
    ensures d <= sig || sig <= d
  {
    if |d| <= |sig| {
      assert sig[..|d|] == t[..|d|] == d;
    } else {
      assert d[..|sig|] == t[..|sig|];
    }
  }
}
