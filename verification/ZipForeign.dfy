/** The reader on archives of other writers: any central directory laid out as section 4.3.12 of APPNOTE has
    it, extra fields and comments included, is listed entry by entry, and a stored entry unpacks to its
    contents behind a local header with its own extra field. */
module ZipForeign {
  import opened Common
  import opened Zip
  import opened ZipBytes

  /** A central header; the fields the reader does not look at are bytes. */
  datatype Member = Member(made: seq<Byte>, compression: nat, stamps: seq<Byte>, compSize: nat, size: seq<Byte>,
                           attributes: seq<Byte>, offset: nat, name: seq<Byte>, extra: seq<Byte>, comment: seq<Byte>)

  predicate InFormat(m: Member) {
    && |m.made| == 6 && |m.stamps| == 8 && |m.size| == 4 && |m.attributes| == 8
    && m.compression < 0x1_0000 && m.compSize < 0x1_0000_0000 && m.offset < 0x1_0000_0000
    && |m.name| < 0x1_0000 && |m.extra| < 0x1_0000 && |m.comment| < 0x1_0000
  }

  function CentralRecord(m: Member): seq<Byte> {
    [0x50, 0x4B, 1, 2] + (m.made + (Le16(m.compression) + (m.stamps + (Le32(m.compSize) + (m.size + Behind(m))))))
  }

  function Behind(m: Member): seq<Byte> {
    Le16(|m.name|) + (Le16(|m.extra|) + (Le16(|m.comment|) + (m.attributes + (Le32(m.offset) + Texts(m)))))
  }

  function Texts(m: Member): seq<Byte> {
    m.name + (m.extra + m.comment)
  }

  function Records(ms: seq<Member>): seq<Byte> {
    if ms == [] then [] else CentralRecord(ms[0]) + Records(ms[1..])
  }

  function Listed(ms: seq<Member>): (r: seq<Entry>)
    ensures |r| == |ms|
    ensures forall i :: 0 <= i < |ms| ==> r[i] == Entry(ms[i].name, ms[i].compression, ms[i].compSize, ms[i].offset)
  {
    seq(|ms|, i requires 0 <= i < |ms| => Entry(ms[i].name, ms[i].compression, ms[i].compSize, ms[i].offset))
  }

  // ------------------------------------------------------------------ fields

  lemma Skip(a: seq<Byte>, b: seq<Byte>, i: nat)
    ensures i + 2 <= |b| ==> U16(a + b, |a| + i) == U16(b, i)
    ensures i + 4 <= |b| ==> U32(a + b, |a| + i) == U32(b, i)
  {
  }

  lemma Head(v: nat, b: seq<Byte>)
    ensures v < 0x1_0000 ==> U16(Le16(v) + b, 0) == v
    ensures v < 0x1_0000_0000 ==> U32(Le32(v) + b, 0) == v
  {
    var x := Le32(v) + b;
    assert x[0] == v % 256 && x[1] == v / 256 % 256;
    assert x[2] == v / 0x1_0000 % 256 && x[3] == v / 0x1_0000 / 256 % 256;
    Digits16(v % 0x1_0000);
    Digits16(v / 0x1_0000 % 0x1_0000);
    Mod256(v);
    Mod256(v / 0x1_0000);
  }

  lemma Digits16(v: nat)
    requires v < 0x1_0000
    ensures v % 256 + 256 * (v / 256 % 256) == v
  {
    assert v / 256 < 256;
  }

  lemma Mod256(v: nat)
    ensures v % 0x1_0000 % 256 == v % 256 && v % 0x1_0000 / 256 % 256 == v / 256 % 256
  {
    var q := v / 0x1_0000;
    var r := v % 0x1_0000;
    assert v == 256 * (256 * q + r / 256) + r % 256;
    DividedBy256(v, 256 * q + r / 256, r % 256);
    DividedBy256(256 * q + r / 256, q, r / 256);
  }

  lemma BehindFields(m: Member)
    requires InFormat(m)
    ensures var b := Behind(m);
      && |b| == 18 + |Texts(m)|
      && U16(b, 0) == |m.name| && U16(b, 2) == |m.extra| && U16(b, 4) == |m.comment| && U32(b, 14) == m.offset
      && b[18..] == Texts(m)
  {
    hide Le16, Le32, U16, U32, Texts;
    var t4 := Le32(m.offset) + Texts(m);
    var t3 := m.attributes + t4;
    var t2 := Le16(|m.comment|) + t3;
    var t1 := Le16(|m.extra|) + t2;
    assert Behind(m) == Le16(|m.name|) + t1;
    Widths();
    Head(|m.name|, t1);
    Head(|m.extra|, t2);
    Head(|m.comment|, t3);
    Head(m.offset, Texts(m));
    Skip(Le16(|m.name|), t1, 0);
    Skip(Le16(|m.name|), t1, 2);
    Skip(Le16(|m.name|), t1, 12);
    Skip(Le16(|m.extra|), t2, 0);
    Skip(Le16(|m.extra|), t2, 10);
    Skip(Le16(|m.comment|), t3, 8);
    Skip(m.attributes, t4, 0);
  }

  lemma Widths()
    ensures forall v: nat :: |Le16(v)| == 2 && |Le32(v)| == 4
  {
  }

  lemma RecordFields(m: Member)
    requires InFormat(m)
    ensures var r := CentralRecord(m);
      && |r| == 46 + |m.name| + |m.extra| + |m.comment|
      && U32(r, 0) == CENTRAL_SIG && U16(r, 10) == m.compression && U32(r, 20) == m.compSize
      && U16(r, 28) == |m.name| && U16(r, 30) == |m.extra| && U16(r, 32) == |m.comment| && U32(r, 42) == m.offset
      && r[46..46 + |m.name|] == m.name
  {
    hide Le16, Le32, U16, U32, Behind, InFormat;
    assert InFormat(m);
    BehindFields(m);
    Widths();
    FixedWidths(m);
    var sig: seq<Byte> := [0x50, 0x4B, 1, 2];
    var t5 := m.size + Behind(m);
    var t4 := Le32(m.compSize) + t5;
    var t3 := m.stamps + t4;
    var t2 := Le16(m.compression) + t3;
    var t1 := m.made + t2;
    assert CentralRecord(m) == sig + t1;
    Head(m.compression, t3);
    Head(m.compSize, t5);
    Skip(sig, t1, 6);
    Skip(m.made, t2, 0);
    Skip(sig, t1, 16);
    Skip(m.made, t2, 10);
    Skip(Le16(m.compression), t3, 8);
    Skip(m.stamps, t4, 0);
    BehindAt(sig, m, 0);
    BehindAt(sig, m, 2);
    BehindAt(sig, m, 4);
    BehindAt(sig, m, 14);
    Signature(t1);
    assert CentralRecord(m)[28..] == Behind(m);
    assert CentralRecord(m)[46..] == Behind(m)[18..] == Texts(m);
  }

  lemma FixedWidths(m: Member)
    requires InFormat(m)
    ensures |m.made| == 6 && |m.stamps| == 8 && |m.size| == 4
    ensures m.compression < 0x1_0000 && m.compSize < 0x1_0000_0000
  {
  }

  lemma Signature(t: seq<Byte>)
    ensures U32([0x50, 0x4B, 1, 2] + t, 0) == CENTRAL_SIG
  {
  }

  lemma BehindAt(sig: seq<Byte>, m: Member, i: nat)
    requires InFormat(m) && |sig| == 4
    ensures var r := sig + (m.made + (Le16(m.compression) + (m.stamps + (Le32(m.compSize) + (m.size + Behind(m))))));
      && |r| == 28 + |Behind(m)|
      && (i + 2 <= |Behind(m)| ==> U16(r, 28 + i) == U16(Behind(m), i))
      && (i + 4 <= |Behind(m)| ==> U32(r, 28 + i) == U32(Behind(m), i))
  {
    hide Le16, Le32, U16, U32, Behind;
    Widths();
    var a := sig + (m.made + (Le16(m.compression) + (m.stamps + (Le32(m.compSize) + m.size))));
    assert sig + (m.made + (Le16(m.compression) + (m.stamps + (Le32(m.compSize) + (m.size + Behind(m))))))
        == a + Behind(m);
    Skip(a, Behind(m), i);
  }

  // ------------------------------------------------------------------ the listing

  /** Every record is listed with its name, method, size and offset, and the walk steps over its extra field
      and comment. */
  lemma {:induction false} ReadsDirectory(buf: seq<Byte>, ptr: nat, ms: seq<Member>)
    requires (forall i :: 0 <= i < |ms| ==> InFormat(ms[i])) && At(buf, ptr, Records(ms))
    ensures Entries(buf, ptr, |ms|) == Ok(Listed(ms))
    decreases ms
  {
    hide U16, U32, CentralRecord, At, EntryAt;
    if ms != [] {
      var r := CentralRecord(ms[0]);
      RecordFields(ms[0]);
      FirstOf(buf, ptr, r, Records(ms[1..]));
      RecordThere(buf, ptr, ms[0]);
      ReadsDirectory(buf, ptr + |r|, ms[1..]);
      assert Listed(ms) == [Listed(ms)[0]] + Listed(ms[1..]);
    } else {
      assert Listed(ms) == [];
    }
  }

  lemma FirstOf(buf: seq<Byte>, ptr: nat, a: seq<Byte>, b: seq<Byte>)
    requires At(buf, ptr, a + b)
    ensures At(buf, ptr, a) && At(buf, ptr + |a|, b)
  {
    var all := a + b;
    forall k | 0 <= k < |a| ensures buf[ptr + k] == a[k] {
      assert all[k] == a[k];
    }
    forall k | 0 <= k < |b| ensures buf[ptr + |a| + k] == b[k] {
      assert all[|a| + k] == b[k] && buf[ptr + (|a| + k)] == all[|a| + k];
    }
  }

  lemma RecordThere(buf: seq<Byte>, ptr: nat, m: Member)
    requires InFormat(m) && At(buf, ptr, CentralRecord(m))
    ensures ptr + 46 <= |buf| && U32(buf, ptr) == CENTRAL_SIG
    ensures EntryAt(buf, ptr) == (Entry(m.name, m.compression, m.compSize, m.offset), |CentralRecord(m)|)
  {
    hide U16, U32, CentralRecord;
    var r := CentralRecord(m);
    RecordFields(m);
    FieldsAt(buf, ptr, r, 0);
    FieldsAt(buf, ptr, r, 10);
    FieldsAt(buf, ptr, r, 20);
    FieldsAt(buf, ptr, r, 28);
    FieldsAt(buf, ptr, r, 30);
    FieldsAt(buf, ptr, r, 32);
    FieldsAt(buf, ptr, r, 42);
    var n := ptr + 46 + |m.name|;
    var s := Subarray(buf, ptr + 46, n);
    assert |s| == |m.name|;
    forall k | 0 <= k < |s| ensures s[k] == m.name[k] {
      assert r[46..46 + |m.name|][k] == r[46 + k] && buf[ptr + (46 + k)] == r[46 + k];
    }
    assert s == m.name;
    assert U16(buf, ptr + 28) == |m.name| && ptr + 46 + |m.name| == n;
  }

  /** The end record: the count and the directory's position are all the reader takes from it. */
  function EndRecord(disks: seq<Byte>, count: nat, size: seq<Byte>, start: nat, comment: seq<Byte>): seq<Byte> {
    [0x50, 0x4B, 5, 6] + (disks + (Le16(count) + (size + (Le32(start) + (Le16(|comment|) + comment)))))
  }

  lemma EndFields(disks: seq<Byte>, count: nat, size: seq<Byte>, start: nat, comment: seq<Byte>)
    requires |disks| == 6 && |size| == 4 && count < 0x1_0000 && start < 0x1_0000_0000
    ensures var e := EndRecord(disks, count, size, start, comment);
      |e| == 22 + |comment| && U32(e, 0) == END_SIG && U16(e, 10) == count && U32(e, 16) == start
  {
    hide Le16, Le32, U16, U32;
    Widths();
    var sig: seq<Byte> := [0x50, 0x4B, 5, 6];
    var t4 := Le16(|comment|) + comment;
    var t3 := Le32(start) + t4;
    var t2 := size + t3;
    var t1 := Le16(count) + t2;
    Head(count, t2);
    Head(start, t4);
    Skip(sig, disks + t1, 6);
    Skip(disks, t1, 0);
    Skip(sig, disks + t1, 12);
    Skip(disks, t1, 6);
    Skip(Le16(count), t2, 4);
    Skip(size, t3, 0);
    EndSignature(disks + t1);
  }

  lemma EndSignature(t: seq<Byte>)
    ensures U32([0x50, 0x4B, 5, 6] + t, 0) == END_SIG
  {
  }

  /** Any archive of the format whose last end record lies in the search window is listed. */
  lemma ListsAnyArchive(buf: seq<Byte>, at: nat, ms: seq<Member>, disks: seq<Byte>, size: seq<Byte>, start: nat,
                        comment: seq<Byte>)
    requires (forall i :: 0 <= i < |ms| ==> InFormat(ms[i])) && |ms| < 0x1_0000
    requires |disks| == 6 && |size| == 4 && start < 0x1_0000_0000
    requires At(buf, start, Records(ms)) && At(buf, at, EndRecord(disks, |ms|, size, start, comment))
    requires at >= |buf| - 66000 && forall j :: at < j <= |buf| - 22 ==> U32(buf, j) != 0x06054b50
    ensures ParseZip(buf) == Ok(Listed(ms))
  {
    hide At, U16, U32, Records, EndRecord, Listed, InFormat, ScanEnd, Entries;
    EndFields(disks, |ms|, size, start, comment);
    EndThere(buf, at, EndRecord(disks, |ms|, size, start, comment));
    ReadsDirectory(buf, start, ms);
  }

  lemma EndThere(buf: seq<Byte>, at: nat, e: seq<Byte>)
    requires At(buf, at, e) && |e| >= 22 && U32(e, 0) == END_SIG
    requires at >= |buf| - 66000 && forall j :: at < j <= |buf| - 22 ==> U32(buf, j) != END_SIG
    ensures at + 22 <= |buf| && ScanEnd(buf, |buf| - 22) == Some(at)
    ensures U16(buf, at + 10) == U16(e, 10) && U32(buf, at + 16) == U32(e, 16)
  {
    hide U16, U32, ScanEnd;
    FieldsAt(buf, at, e, 0);
    FieldsAt(buf, at, e, 10);
    FieldsAt(buf, at, e, 16);
    ScanEndFindsLast(buf, |buf| - 22);
  }

  // ------------------------------------------------------------------ one entry

  function LocalRecord(before: seq<Byte>, name: seq<Byte>, extra: seq<Byte>, data: seq<Byte>): seq<Byte> {
    before + (Le16(|name|) + (Le16(|extra|) + (name + (extra + data))))
  }

  /** A stored entry is unpacked from behind its local header, however long name and extra field are. */
  lemma UnzipsStored(buf: seq<Byte>, before: seq<Byte>, name: seq<Byte>, extra: seq<Byte>, data: seq<Byte>, e: Entry)
    requires |before| == 26 && |name| < 0x1_0000 && |extra| < 0x1_0000
    requires e.compression == 0 && e.compSize == |data| && At(buf, e.localOff, LocalRecord(before, name, extra, data))
    ensures UnzipEntry(buf, e) == Ok(data)
  {
    hide U16, U32, Le16, Le32;
    Widths();
    var r := LocalRecord(before, name, extra, data);
    var t2 := name + (extra + data);
    var t1 := Le16(|extra|) + t2;
    Head(|name|, t1);
    Head(|extra|, t2);
    Skip(before, Le16(|name|) + t1, 0);
    Skip(before, Le16(|name|) + t1, 2);
    Skip(Le16(|name|), t1, 0);
    FieldsAt(buf, e.localOff, r, 26);
    FieldsAt(buf, e.localOff, r, 28);
    var skip := 30 + |name| + |extra|;
    assert r[skip..] == data;
    SubarrayAt(buf, e.localOff, r, skip);
  }

  /** The listing ends early, without an error, at a record of another kind, and fails where a record would run
      past the end. */
  lemma ListingEnds(buf: seq<Byte>, ptr: nat, count: nat)
    ensures count > 0 && ptr + 4 <= |buf| && U32(buf, ptr) != 0x02014b50 ==> Entries(buf, ptr, count) == Ok([])
    ensures count > 0 && ptr + 4 > |buf| ==> Entries(buf, ptr, count) == Err(OutOfRange)
    ensures count > 0 && ptr + 4 <= |buf| < ptr + 46 && U32(buf, ptr) == 0x02014b50 ==>
      Entries(buf, ptr, count) == Err(OutOfRange)
    ensures count == 0 ==> Entries(buf, ptr, count) == Ok([])
  {
  }

  /** Without an end record in the window the file is not an archive; with one, a listing is attempted. */
  lemma NotAZipIff(buf: seq<Byte>)
    ensures ParseZip(buf) == Err(NotAZip) <==>
      |buf| < 22 || forall j: nat :: |buf| - 66000 <= j <= |buf| - 22 ==> U32(buf, j) != 0x06054b50
  {
    hide U16, U32, Entries, ScanEnd;
    if |buf| >= 22 {
      ScanEndFindsLast(buf, |buf| - 22);
      if ScanEnd(buf, |buf| - 22).Some? {
        var at := ScanEnd(buf, |buf| - 22).value;
        EntriesErrors(buf, U32(buf, at + 16), U16(buf, at + 10));
      }
    }
  }

  lemma {:induction false} EntriesErrors(buf: seq<Byte>, ptr: nat, count: nat)
    ensures Entries(buf, ptr, count).Err? ==> Entries(buf, ptr, count).error == OutOfRange
    decreases count
  {
    hide U16, U32, EntryAt;
    if count > 0 && ptr + 46 <= |buf| && U32(buf, ptr) == CENTRAL_SIG {
      EntriesErrors(buf, ptr + EntryAt(buf, ptr).1, count - 1);
    }
  }

  /** Which entries unpack: a local header must be there, and of the methods only 0 is stored and 8 deflated. */
  lemma UnzipOutcome(buf: seq<Byte>, e: Entry)
    ensures e.localOff + 30 > |buf| ==> UnzipEntry(buf, e) == Err(OutOfRange)
    ensures e.localOff + 30 <= |buf| && e.compression == 8 ==> UnzipEntry(buf, e) == Err(NeedsInflate)
    ensures e.localOff + 30 <= |buf| && e.compression != 0 && e.compression != 8 ==>
      UnzipEntry(buf, e) == Err(Unsupported(e.compression))
    ensures UnzipEntry(buf, e).Ok? <==> e.localOff + 30 <= |buf| && e.compression == 0
  {
  }

  /** The three signatures as bytes: "PK" and two more. */
  lemma Signatures()
    ensures Le32(LOCAL_SIG) == [0x50, 0x4B, 3, 4]
    ensures Le32(CENTRAL_SIG) == [0x50, 0x4B, 1, 2]
    ensures Le32(END_SIG) == [0x50, 0x4B, 5, 6]
  {
  }
}
