/**
 * An archive as anybody else's reader sees it: a reader written from the PKWARE APPNOTE (sections 4.3.7, 4.3.12,
 * 4.3.14 to 4.3.16 and 4.5.3), with the numbers given there, for archives on one disk without comments or data
 * descriptors. Every field of every record is read, also those that the archive's own readers skip.
 */
module ZipStandard {
  import opened LittleEndian
  import opened Outcome
  import opened ZipFormat
  import opened ZipRoundTrip
  import opened ZipArchive
  import opened ZipAppend

  // ---------- the reader ----------

  datatype Index = Index(madeBy: nat, version: nat, entries: nat, size: nat, offset: nat)

  /** Section 4.3.14: the Zip64 end record that a locator (4.3.15) at l points at. */
  function ReadZip64Index(f: Bytes, l: nat): Option<Index>
    requires l + 20 <= |f|
  {
    if Get32(f, l) != 0x0706_4b50 || Get32(f, l + 4) != 0 || Get32(f, l + 16) != 1 then None
    else
      var z := Get64(f, l + 8);
      if z + 56 > l || Get32(f, z) != 0x0606_4b50 || Get64(f, z + 4) != 44 then None
      else if Get32(f, z + 16) != 0 || Get32(f, z + 20) != 0 || Get64(f, z + 24) != Get64(f, z + 32) then None
      else Some(Index(Get16(f, z + 12), Get16(f, z + 14), Get64(f, z + 32), Get64(f, z + 40), Get64(f, z + 48)))
  }

  /** Section 4.3.16: counts, size and offset from the end record, each from the Zip64 one where it is all ones. */
  function ReadIndex(f: Bytes): Option<Index> {
    if |f| < 22 then None
    else
      var e := |f| - 22;
      if Get32(f, e) != 0x0605_4b50 || Get16(f, e + 4) != 0 || Get16(f, e + 6) != 0 || Get16(f, e + 20) != 0 then None
      else
        var here, entries := Get16(f, e + 8), Get16(f, e + 10);
        var size, offset := Get32(f, e + 12), Get32(f, e + 16);
        if here != entries then None
        else if entries != 0xffff && size != 0xffff_ffff && offset != 0xffff_ffff then
          Some(Index(0, 20, entries, size, offset))
        else if e < 20 then None
        else
          match ReadZip64Index(f, e - 20)
          case None => None
          case Some(wide) =>
            Some(Index(wide.madeBy, wide.version,
                       if entries == 0xffff then wide.entries else entries,
                       if size == 0xffff_ffff then wide.size else size,
                       if offset == 0xffff_ffff then wide.offset else offset))
  }

  /** What a local and a central header have in common. */
  datatype Common = Common(
    version: nat, flags: nat, compression: nat, time: nat, date: nat, crc: nat, compressedSize: nat, size: nat,
    name: Bytes)

  datatype Record = Record(common: Common, madeBy: nat, disk: nat, internal: nat, external: nat, offset: nat)

  /** Section 4.5.3: where the Zip64 extra field starts among those from x to end. */
  function FindZip64(f: Bytes, x: nat, end: nat): (r: Option<nat>)
    requires end <= |f|
    ensures r.Some? ==> x <= r.value && r.value + 4 <= end && r.value + 4 + Get16(f, r.value + 2) <= end
    decreases end - x
  {
    if x + 4 > end then None
    else if Get16(f, x) == 1 then (if x + 4 + Get16(f, x + 2) <= end then Some(x) else None)
    else FindZip64(f, x + 4 + Get16(f, x + 2), end)
  }

  /** Section 4.3.7: a local header, its name, where its data starts. Both sizes are in the Zip64 field or neither. */
  function ReadLocalRecord(f: Bytes, at: nat): Option<(Common, nat)> {
    if at + 30 > |f| || Get32(f, at) != 0x0403_4b50 then None
    else
      var x := at + 30 + Get16(f, at + 26);
      var end := x + Get16(f, at + 28);
      if end > |f| then None
      else
        var compressedSize, size := Get32(f, at + 18), Get32(f, at + 22);
        var zip64 := FindZip64(f, x, end);
        var wide := size == 0xffff_ffff && compressedSize == 0xffff_ffff;
        if wide && (zip64.None? || Get16(f, zip64.value + 2) < 16) then None
        else Some((Common(Get16(f, at + 4), Get16(f, at + 6), Get16(f, at + 8), Get16(f, at + 10), Get16(f, at + 12),
                          Get32(f, at + 14),
                          if wide then Get64(f, zip64.value + 12) else compressedSize,
                          if wide then Get64(f, zip64.value + 4) else size,
                          f[at + 30..x]),
                   end))
  }

  /** Section 4.3.12: a directory entry, where the next one starts. The Zip64 field holds what is all ones, in order. */
  function ReadRecord(f: Bytes, at: nat): Option<(Record, nat)> {
    if at + 46 > |f| || Get32(f, at) != 0x0201_4b50 then None
    else
      var x := at + 46 + Get16(f, at + 28);
      var end := x + Get16(f, at + 30);
      if end > |f| || Get16(f, at + 32) != 0 then None
      else
        var compressedSize, size, offset := Get32(f, at + 20), Get32(f, at + 24), Get32(f, at + 42);
        var zip64 := FindZip64(f, x, end);
        var wide := size == 0xffff_ffff && compressedSize == 0xffff_ffff && offset == 0xffff_ffff;
        if wide && (zip64.None? || Get16(f, zip64.value + 2) < 24) then None
        else Some((Record(Common(Get16(f, at + 6), Get16(f, at + 8), Get16(f, at + 10), Get16(f, at + 12),
                                 Get16(f, at + 14), Get32(f, at + 16),
                                 if wide then Get64(f, zip64.value + 12) else compressedSize,
                                 if wide then Get64(f, zip64.value + 4) else size,
                                 f[at + 46..x]),
                          Get16(f, at + 4), Get16(f, at + 34), Get16(f, at + 36), Get32(f, at + 38),
                          if wide then Get64(f, zip64.value + 20) else offset),
                   end))
  }

  function ReadRecords(f: Bytes, at: nat, n: nat): Option<seq<Record>>
    decreases n
  {
    if n == 0 then Some([])
    else
      match ReadRecord(f, at)
      case None => None
      case Some((record, next)) =>
        match ReadRecords(f, next, n - 1)
        case None => None
        case Some(rest) => Some([record] + rest)
  }

  /** The whole directory, from the end of the file. */
  function ReadArchive(f: Bytes): Option<seq<Record>> {
    match ReadIndex(f)
    case None => None
    case Some(index) => ReadRecords(f, index.offset, index.entries)
  }

  // ---------- the fields the archive's own readers skip ----------

  lemma LocalFixedRest(n: nat, m: ZipMember, dos: DosTime)
    ensures var h := LocalFixed(n, m, dos, true);
            |h| == 30 && Get16(h, 4) == 45 && Get16(h, 6) == 0x0800
  {
    hide Put16, Put32, Put64, Get16, Get32, Get64;
    var h := LocalFixed(n, m, dos, true);
    Get16Put16(h, 4, 45);
    Get16Put16(h, 6, 0x0800);
  }

  lemma CentralFixedFront(n: nat, m: ZipMember, dos: DosTime)
    ensures var h := CentralFixed(n, m, dos);
            && |h| == 46 && Get16(h, 4) == 0x032d && Get16(h, 6) == 45 && Get16(h, 8) == 0x0800
            && Get16(h, 12) == dos.time && Get16(h, 14) == dos.date
  {
    hide Put16, Put32, Put64, Get16, Get32, Get64;
    var h := CentralFixed(n, m, dos);
    Get16Put16(h, 4, 0x032d);
    Get16Put16(h, 6, 45);
    Get16Put16(h, 8, 0x0800);
    Get16Put16(h, 12, dos.time);
    Get16Put16(h, 14, dos.date);
  }

  lemma CentralFixedBack(n: nat, m: ZipMember, dos: DosTime)
    ensures var h := CentralFixed(n, m, dos);
            |h| == 46 && Get16(h, 34) == 0 && Get16(h, 36) == 0 && Get32(h, 38) == 0x81a4_0000
  {
    hide Put16, Put32, Put64, Get16, Get32, Get64;
    var h := CentralFixed(n, m, dos);
    Get16Put16(h, 34, 0);
    Get16Put16(h, 36, 0);
    Get32Put32(h, 38, 0x81a4_0000);
  }

  lemma Zip64EndFront(offset: nat, size: nat, entries: nat)
    ensures var e := Zip64End(offset, size, entries);
            && |e| == 56 && Get64(e, 4) == 44 && Get16(e, 12) == 0x032d && Get16(e, 14) == 45
  {
    hide Put16, Put32, Put64, Get16, Get32, Get64;
    var e := Zip64End(offset, size, entries);
    Get64Put64(e, 4, 44);
    Get16Put16(e, 12, 0x032d);
    Get16Put16(e, 14, 45);
  }

  lemma Zip64EndBack(offset: nat, size: nat, entries: nat)
    requires entries < 0x1_0000_0000_0000_0000
    ensures var e := Zip64End(offset, size, entries);
            |e| == 56 && Get32(e, 16) == 0 && Get32(e, 20) == 0 && Get64(e, 24) == entries
  {
    hide Put16, Put32, Put64, Get16, Get32, Get64;
    var e := Zip64End(offset, size, entries);
    Get32Put32(e, 16, 0);
    Get32Put32(e, 20, 0);
    Get64Put64(e, 24, entries);
  }

  lemma LocatorRest(at: nat)
    ensures var l := Locator(at); |l| == 20 && Get32(l, 4) == 0 && Get32(l, 16) == 1
  {
    hide Put16, Put32, Put64, Get16, Get32, Get64;
    var l := Locator(at);
    Get32Put32(l, 4, 0);
    Get32Put32(l, 16, 1);
  }

  /** The classic end record holds all ones, which is what sends a reader to the Zip64 one. */
  lemma EndRecordBytes()
    ensures EndRecord() == [0x50, 0x4b, 0x05, 0x06, 0, 0, 0, 0, 0xff, 0xff, 0xff, 0xff,
                            0xff, 0xff, 0xff, 0xff, 0xff, 0xff, 0xff, 0xff, 0, 0]
  {
  }

  lemma EndRecordFields()
    ensures var e := EndRecord();
            && |e| == 22 && Get32(e, 0) == 0x0605_4b50 && Get16(e, 4) == 0 && Get16(e, 6) == 0
            && Get16(e, 8) == 0xffff && Get16(e, 10) == 0xffff && Get32(e, 12) == 0xffff_ffff
            && Get32(e, 16) == 0xffff_ffff && Get16(e, 20) == 0
  {
    hide EndRecord, Get16, Get32, Get64;
    EndRecordBytes();
    var e := EndRecord();
    GetBytes(e, 0);
    GetBytes(e, 4);
    GetBytes(e, 6);
    GetBytes(e, 8);
    GetBytes(e, 10);
    GetBytes(e, 12);
    GetBytes(e, 16);
    GetBytes(e, 20);
  }

  // ---------- records ----------

  lemma ZipFieldFound(f: Bytes, x: nat, length: nat)
    requires x + 4 + length <= |f| && Get16(f, x) == 1 && Get16(f, x + 2) == length
    ensures FindZip64(f, x, x + 4 + length) == Some(x)
  {
  }

  lemma CentralParts(f: Bytes, at: nat, n: nat, m: ZipMember, dos: DosTime)
    requires n < 0x1_0000 && at + 46 <= |f| && f[at..at + 46] == CentralFixed(n, m, dos)
    ensures Get32(f, at) == 0x0201_4b50 && Get16(f, at + 4) == 0x032d && Get16(f, at + 6) == 45
    ensures Get16(f, at + 8) == 0x0800 && Get16(f, at + 10) == m.compression && Get16(f, at + 12) == dos.time
    ensures Get16(f, at + 14) == dos.date && Get32(f, at + 16) == m.crc && Get32(f, at + 20) == 0xffff_ffff
    ensures Get32(f, at + 24) == 0xffff_ffff && Get16(f, at + 28) == n && Get16(f, at + 30) == 28
    ensures Get16(f, at + 32) == 0 && Get16(f, at + 34) == 0 && Get16(f, at + 36) == 0
    ensures Get32(f, at + 38) == 0x81a4_0000 && Get32(f, at + 42) == 0xffff_ffff
  {
    hide CentralFixed, Get16, Get32, Get64;
    var h := CentralFixed(n, m, dos);
    CentralFixedFields(n, m, dos);
    CentralFixedFront(n, m, dos);
    CentralFixedBack(n, m, dos);
    Fields(f, at, h);
  }

  /** Every two, four or eight bytes of a part are those of the whole. */
  lemma Fields(f: Bytes, at: nat, h: Bytes)
    requires at + |h| <= |f| && f[at..at + |h|] == h
    ensures forall k: nat :: k + 2 <= |h| ==> Get16(f, at + k) == Get16(h, k)
    ensures forall k: nat :: k + 4 <= |h| ==> Get32(f, at + k) == Get32(h, k)
    ensures forall k: nat :: k + 8 <= |h| ==> Get64(f, at + k) == Get64(h, k)
  {
    hide Get16, Get32, Get64;
    forall k: nat
      ensures k + 2 <= |h| ==> Get16(f, at + k) == Get16(h, k)
      ensures k + 4 <= |h| ==> Get32(f, at + k) == Get32(h, k)
      ensures k + 8 <= |h| ==> Get64(f, at + k) == Get64(h, k)
    {
      Shifted(f, at, h, k);
    }
  }

  lemma ExtraParts(f: Bytes, x: nat, m: ZipMember)
    requires m.size < 0x1_0000_0000_0000_0000 && m.compressedSize < 0x1_0000_0000_0000_0000
    requires m.offset < 0x1_0000_0000_0000_0000
    requires x + 28 <= |f| && f[x..x + 28] == CentralExtra(m)
    ensures Get16(f, x) == 1 && Get16(f, x + 2) == 24
    ensures Get64(f, x + 4) == m.size && Get64(f, x + 12) == m.compressedSize && Get64(f, x + 20) == m.offset
  {
    hide CentralExtra, Get16, Get32, Get64;
    CentralExtraFields(m);
    Fields(f, x, CentralExtra(m));
  }

  /** The record a directory entry is to a standard reader. */
  function RecordOf(i: Item): Record {
    Record(CommonOf(i), 0x032d, 0, 0, 0x81a4_0000, i.member.offset)
  }

  function CommonOf(i: Item): Common {
    Common(45, 0x0800, i.member.compression, i.dos.time, i.dos.date, i.member.crc, i.member.compressedSize,
           i.member.size, i.name)
  }

  function RecordsOf(items: seq<Item>): seq<Record> {
    if items == [] then [] else [RecordOf(items[0])] + RecordsOf(items[1..])
  }

  lemma {:induction false} RecordsOfAt(items: seq<Item>, i: nat)
    requires i < |items|
    ensures |RecordsOf(items)| == |items| && RecordsOf(items)[i] == RecordOf(items[i])
  {
    hide RecordOf;
    if |items| > 1 { RecordsOfAt(items[1..], if i > 0 then i - 1 else 0); }
  }

  lemma RecordReads(f: Bytes, at: nat, i: Item)
    requires Encodable(i.name, i.member) && at + |Central(i)| <= |f| && f[at..at + |Central(i)|] == Central(i)
    ensures ReadRecord(f, at) == Some((RecordOf(i), at + |Central(i)|))
  {
    hide CentralFixed, CentralExtra, Get16, Get32, Get64, FindZip64;
    var n, x := |i.name|, at + 46 + |i.name|;
    CentralHeaderLength(i.name, i.member, i.dos);
    Split(f, at, CentralFixed(n, i.member, i.dos), i.name, CentralExtra(i.member));
    CentralParts(f, at, n, i.member, i.dos);
    ExtraParts(f, x, i.member);
    ZipFieldFound(f, x, 24);
  }

  lemma LocalParts(f: Bytes, at: nat, n: nat, m: ZipMember, dos: DosTime)
    requires n < 0x1_0000 && at + 30 <= |f| && f[at..at + 30] == LocalFixed(n, m, dos, true)
    ensures Get32(f, at) == 0x0403_4b50 && Get16(f, at + 4) == 45 && Get16(f, at + 6) == 0x0800
    ensures Get16(f, at + 8) == m.compression && Get16(f, at + 10) == dos.time && Get16(f, at + 12) == dos.date
    ensures Get32(f, at + 14) == m.crc && Get32(f, at + 18) == 0xffff_ffff && Get32(f, at + 22) == 0xffff_ffff
    ensures Get16(f, at + 26) == n && Get16(f, at + 28) == 20
  {
    hide LocalFixed, Get16, Get32, Get64;
    LocalFixedFields(n, m, dos, true);
    LocalFixedRest(n, m, dos);
    Fields(f, at, LocalFixed(n, m, dos, true));
  }

  lemma LocalExtraParts(f: Bytes, x: nat, m: ZipMember)
    requires m.size < 0x1_0000_0000_0000_0000 && m.compressedSize < 0x1_0000_0000_0000_0000
    requires x + 20 <= |f| && f[x..x + 20] == LocalExtra(m)
    ensures Get16(f, x) == 1 && Get16(f, x + 2) == 16
    ensures Get64(f, x + 4) == m.size && Get64(f, x + 12) == m.compressedSize
  {
    hide LocalExtra, Get16, Get32, Get64;
    LocalExtraFields([], m);
    assert [] + LocalExtra(m) == LocalExtra(m);
    Fields(f, x, LocalExtra(m));
  }

  lemma LocalReads(f: Bytes, at: nat, i: Item)
    requires Encodable(i.name, i.member)
    requires var h := LocalHeader(i.name, i.member, i.dos, true); at + |h| <= |f| && f[at..at + |h|] == h
    ensures ReadLocalRecord(f, at) == Some((CommonOf(i), at + |LocalHeader(i.name, i.member, i.dos, true)|))
  {
    hide LocalFixed, LocalExtra, Get16, Get32, Get64, FindZip64;
    var n, x := |i.name|, at + 30 + |i.name|;
    LocalHeaderLength(i.name, i.member, i.dos, true);
    LocalFixedFields(n, i.member, i.dos, true);
    Split(f, at, LocalFixed(n, i.member, i.dos, true), i.name, LocalExtra(i.member));
    LocalParts(f, at, n, i.member, i.dos);
    LocalExtraParts(f, x, i.member);
    ZipFieldFound(f, x, 16);
  }

  // ---------- whole archives ----------

  lemma LocatorParts(f: Bytes, l: nat, z: nat)
    requires z < 0x1_0000_0000_0000_0000 && l + 20 <= |f| && f[l..l + 20] == Locator(z)
    ensures Get32(f, l) == 0x0706_4b50 && Get32(f, l + 4) == 0 && Get64(f, l + 8) == z && Get32(f, l + 16) == 1
  {
    hide Locator, Get16, Get32, Get64;
    LocatorFields(z);
    LocatorRest(z);
    Fields(f, l, Locator(z));
  }

  lemma Zip64Parts(f: Bytes, z: nat, offset: nat, size: nat, entries: nat)
    requires offset < 0x1_0000_0000_0000_0000 && size < 0x1_0000_0000_0000_0000 && entries < 0x1_0000_0000_0000_0000
    requires z + 56 <= |f| && f[z..z + 56] == Zip64End(offset, size, entries)
    ensures Get32(f, z) == 0x0606_4b50 && Get64(f, z + 4) == 44 && Get16(f, z + 12) == 0x032d && Get16(f, z + 14) == 45
    ensures Get32(f, z + 16) == 0 && Get32(f, z + 20) == 0 && Get64(f, z + 24) == entries == Get64(f, z + 32)
    ensures Get64(f, z + 40) == size && Get64(f, z + 48) == offset
  {
    hide Zip64End, Get16, Get32, Get64;
    Zip64EndFields(offset, size, entries);
    Zip64EndFront(offset, size, entries);
    Zip64EndBack(offset, size, entries);
    Fields(f, z, Zip64End(offset, size, entries));
  }

  lemma IndexOfTrailer(body: Bytes, directory: Bytes, entries: nat)
    requires |body| + |directory| < 0x1_0000_0000_0000_0000 && entries < 0x1_0000_0000_0000_0000
    ensures ReadIndex(body + directory + Trailer(|body|, |directory|, entries))
         == Some(Index(0x032d, 45, entries, |directory|, |body|))
  {
    hide Zip64End, Locator, EndRecord, Get16, Get32, Get64;
    var b, d := |body|, |directory|;
    var z, l, e := Zip64End(b, d, entries), Locator(b + d), EndRecord();
    Zip64EndFront(b, d, entries);
    LocatorRest(b + d);
    EndRecordFields();
    var f := body + directory + Trailer(b, d, entries);
    assert f == body + directory + (z + l + e);
    TrailerParts(body + directory, z, l, e);
    Zip64Parts(f, b + d, b, d, entries);
    LocatorParts(f, b + d + 56, b + d);
    Fields(f, b + d + 76, e);
  }

  lemma TrailerParts(body: Bytes, z: Bytes, l: Bytes, e: Bytes)
    requires |z| == 56 && |l| == 20 && |e| == 22
    ensures var f, n := body + (z + l + e), |body|;
            && |f| == n + 98 && f[n..n + 56] == z && f[n + 56..n + 76] == l && f[n + 76..n + 98] == e
  {
  }

  lemma {:induction false} RecordsFrom(f: Bytes, items: seq<Item>, i: nat)
    requires WellFormed(items) && i <= |items| && |Members(items)| + |Directory(items)| <= |f|
    requires f[|Members(items)|..|Members(items)| + |Directory(items)|] == Directory(items)
    ensures ReadRecords(f, |Members(items)| + |Directory(items[..i])|, |items| - i)
         == Some(RecordsOf(items[i..]))
    decreases |items| - i
  {
    hide ReadRecord, Members, Directory, Encodable, RecordOf, CentralHeader;
    if i < |items| {
      var at, h := |Members(items)| + |Directory(items[..i])|, Central(items[i]);
      EntryAt(items, i);
      Slice(f, |Members(items)|, Directory(items), |Directory(items[..i])|, |Directory(items[..i])| + |h|);
      RecordReads(f, at, items[i]);
      RecordsFrom(f, items, i + 1);
      assert items[i..][1..] == items[i + 1..];
    }
  }

  lemma DirectoryReads(file: Bytes, items: seq<Item>)
    requires Complete(file, items)
    ensures ReadArchive(file) == Some(RecordsOf(items))
  {
    hide ReadIndex, ReadRecords, Members, Directory, Trailer, WellFormed, RecordOf;
    var a, d := Members(items), Directory(items);
    ManyMembers(items);
    IndexOfTrailer(a, d, |items|);
    Behind(a, d);
    assert file[|a|..|a| + |d|] == (a + d)[|a|..|a| + |d|];
    RecordsFrom(file, items, 0);
    assert items[0..] == items && items[..0] == [];
    EmptyDirectory();
  }

  lemma EmptyDirectory()
    ensures Directory([]) == []
  {
  }

  lemma MemberReads(file: Bytes, items: seq<Item>, i: nat)
    requires Holds(file, items) && i < |items|
    ensures var it := items[i];
            && ReadLocalRecord(file, it.member.offset).Some?
            && var (common, dataAt) := ReadLocalRecord(file, it.member.offset).value;
               && common == CommonOf(it) && dataAt + it.member.compressedSize <= |file|
               && file[dataAt..dataAt + it.member.compressedSize] == it.data
  {
    hide Members, LocalHeader, ReadLocalRecord, ReadLocal, CommonOf;
    var it := items[i];
    var h, at := LocalHeader(it.name, it.member, it.dos, true), it.member.offset;
    MemberAt(items, i);
    var whole := ItemBytes(it);
    assert file[at..at + |whole|] == Members(items)[at..at + |whole|];
    assert whole[..|h|] == h && whole[|h|..] == it.data;
    Slice(file, at, whole, 0, |h|);
    Slice(file, at, whole, |h|, |whole|);
    LocalReads(file, at, it);
  }

  /**
   * The archive every finished append leaves is one that any reader of the standard lists: as many records as members,
   * version 4.5, made on Unix, UTF-8 names, an ordinary file of mode 644, on one disk; and each member's own header
   * agrees with its record, its data right behind it.
   */
  lemma StandardReads(file: Bytes, items: seq<Item>, i: nat)
    requires Complete(file, items) && i < |items|
    ensures ReadArchive(file).Some? && |ReadArchive(file).value| == |items|
    ensures var it, record := items[i], ReadArchive(file).value[i];
            && record.madeBy == 0x032d && record.disk == 0 && record.internal == 0 && record.external == 0x81a4_0000
            && record.offset == it.member.offset
            && record.common == Common(45, 0x0800, it.member.compression, it.dos.time, it.dos.date, it.member.crc,
                                       |it.data|, it.member.size, it.name)
            && ReadLocalRecord(file, record.offset).Some?
            && var (common, dataAt) := ReadLocalRecord(file, record.offset).value;
               && common == record.common && dataAt + |it.data| <= |file|
               && file[dataAt..dataAt + |it.data|] == it.data
  {
    hide ReadArchive, ReadLocalRecord, Members, Directory, Trailer;
    DirectoryReads(file, items);
    RecordsOfAt(items, i);
    MemberReads(file, items, i);
  }

  /** And its last bytes are these, whatever it holds. */
  lemma EndsInOnes(file: Bytes, items: seq<Item>)
    requires Complete(file, items)
    ensures 22 <= |file|
    ensures file[|file| - 22..] == [0x50, 0x4b, 0x05, 0x06, 0, 0, 0, 0, 0xff, 0xff, 0xff, 0xff,
                                    0xff, 0xff, 0xff, 0xff, 0xff, 0xff, 0xff, 0xff, 0, 0]
  {
    hide Members, Directory, Zip64End, Locator, EndRecord;
    EndRecordBytes();
    var a, d := Members(items), Directory(items);
    assert file[|file| - 22..] == EndRecord();
  }

  /** What an append writes of a request is what a reader gets of it. */
  lemma AppendedReads(c: Codec, file: Bytes, items: seq<Item>, r: Request)
    requires Holds(file, items) && LayoutOf(file) == LayoutFor(items)
    requires 1 <= |r.name| <= 65535 && |Appended(c, file, r)| < 0x8000_0000_0000_0000
    requires |r.source| < 0x8000_0000_0000_0000
    ensures var f := Appended(c, file, r);
            && ReadArchive(f).Some? && |ReadArchive(f).value| == |items| + 1
            && var common := ReadArchive(f).value[|items|].common;
               && common.name == r.name && common.compression == (if r.deflate then 8 else 0)
               && common.size == |r.source| && common.crc == c.crc(0, r.source)
               && common.compressedSize == (if r.deflate then |c.deflate(r.source)| else |r.source|)
               && common.time == r.dos.time && common.date == r.dos.date
  {
    hide ReadArchive, ReadLocalRecord, Appended, LayoutOf, LayoutFor, Complete, Holds;
    AppendCompletes(c, file, items, r);
    StandardReads(Appended(c, file, r), items + [NewItem(c, r, |Members(items)|)], |items|);
  }
}
