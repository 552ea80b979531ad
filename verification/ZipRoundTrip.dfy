/** Every record of ZipFormat reads back as what was written, wherever in a file it lies. */
module ZipRoundTrip {
  import opened LittleEndian
  import opened Outcome
  import opened ZipFormat

  /** The values fit the widths the format gives them. */
  ghost predicate Encodable(name: Bytes, m: ZipMember) {
    && |name| < 0x1_0000
    && m.size < 0x1_0000_0000_0000_0000 && m.compressedSize < 0x1_0000_0000_0000_0000
    && m.offset < 0x1_0000_0000_0000_0000
  }

  lemma LocalFixedFields(n: nat, m: ZipMember, dos: DosTime, complete: bool)
    requires n < 0x1_0000
    ensures var h := LocalFixed(n, m, dos, complete);
      && |h| == LOCAL_HEADER_SIZE
      && Get32(h, 0) == (if complete then LOCAL_SIGNATURE else 0)
      && Get16(h, 8) == m.compression && Get16(h, 10) == dos.time && Get16(h, 12) == dos.date
      && Get32(h, 14) == m.crc && Get32(h, 18) == IN_ZIP64 && Get32(h, 22) == IN_ZIP64
      && Get16(h, 26) == n && Get16(h, 28) == LOCAL_EXTRA_SIZE
  {
    hide Put16, Put32, Put64, Get16, Get32, Get64;
    var h := LocalFixed(n, m, dos, complete);
    Get32Put32(h, 0, if complete then LOCAL_SIGNATURE else 0);
    Get16Put16(h, 8, m.compression);
    Get16Put16(h, 10, dos.time);
    Get16Put16(h, 12, dos.date);
    Get32Put32(h, 14, m.crc);
    Get32Put32(h, 18, IN_ZIP64);
    Get32Put32(h, 22, IN_ZIP64);
    Get16Put16(h, 26, n);
    Get16Put16(h, 28, LOCAL_EXTRA_SIZE);
  }

  lemma LocalExtraFields(name: Bytes, m: ZipMember)
    requires m.size < 0x1_0000_0000_0000_0000 && m.compressedSize < 0x1_0000_0000_0000_0000
    ensures var rest := name + LocalExtra(m); var n := |name|;
      && |rest| == n + LOCAL_EXTRA_SIZE
      && Get16(rest, n) == 1 && Get16(rest, n + 2) == 16
      && Get64(rest, n + 4) == m.size && Get64(rest, n + 12) == m.compressedSize
  {
    hide Put16, Put32, Put64, Get16, Get32, Get64;
    var rest, n := name + LocalExtra(m), |name|;
    Get16Put16(rest, n, 1);
    Get16Put16(rest, n + 2, 16);
    Get64Put64(rest, n + 4, m.size);
    Get64Put64(rest, n + 12, m.compressedSize);
  }

  lemma LocalExtraSizes(name: Bytes, m: ZipMember)
    requires m.size < 0x1_0000_0000_0000_0000 && m.compressedSize < 0x1_0000_0000_0000_0000
    ensures var fixed := Sizes(IN_ZIP64, IN_ZIP64);
      ReadExtras(name + LocalExtra(m), |name|, fixed, fixed) == Sizes(m.size, m.compressedSize)
  {
    LocalExtraFields(name, m);
    var rest, n, fixed := name + LocalExtra(m), |name|, Sizes(IN_ZIP64, IN_ZIP64);
    assert ApplyExtra(rest, n, 16, fixed, fixed) == Sizes(m.size, m.compressedSize);
    assert n + 4 + 16 == |rest|;
  }

  lemma LocalHeaderLength(name: Bytes, m: ZipMember, dos: DosTime, complete: bool)
    ensures |LocalHeader(name, m, dos, complete)| == LOCAL_HEADER_SIZE + |name| + LOCAL_EXTRA_SIZE
  {
  }

  lemma ParseLocalParts(fixed: Bytes, name: Bytes, extra: Bytes, m: ZipMember, dos: DosTime)
    requires |fixed| == LOCAL_HEADER_SIZE && |extra| == LOCAL_EXTRA_SIZE
    requires Get16(fixed, 8) == m.compression && Get16(fixed, 10) == dos.time && Get16(fixed, 12) == dos.date
    requires Get32(fixed, 14) == m.crc && Get32(fixed, 18) == IN_ZIP64 && Get32(fixed, 22) == IN_ZIP64
    requires Get16(fixed, 26) == |name|
    requires var zip64 := Sizes(IN_ZIP64, IN_ZIP64);
      ReadExtras(name + extra, |name|, zip64, zip64) == Sizes(m.size, m.compressedSize)
    ensures ParseLocal(fixed, name + extra, m.offset)
         == Local(name, m, dos, m.offset + LOCAL_HEADER_SIZE + |name| + LOCAL_EXTRA_SIZE)
  {
    hide Put16, Put32, Put64, Get16, Get32, Get64;
    assert (name + extra)[..|name|] == name;
  }

  /** Reading a member depends on the fields of its header alone. */
  lemma ReadLocalParts(file: Bytes, offset: nat, fixed: Bytes, rest: Bytes, local: Local)
    requires |fixed| == LOCAL_HEADER_SIZE && Get32(fixed, 0) == LOCAL_SIGNATURE
    requires Get16(fixed, 26) + Get16(fixed, 28) == |rest| && ParseLocal(fixed, rest, offset) == local
    requires local.dataAt + local.member.compressedSize <= |file|
    requires file[offset..offset + LOCAL_HEADER_SIZE] == fixed
    requires file[offset + LOCAL_HEADER_SIZE..local.dataAt] == rest
    ensures ReadLocal(file, offset) == Some(local)
  {
    hide Put16, Put32, Put64, Get16, Get32, Get64;
  }

  /** A complete header with its data behind it is read as the member it was written for. */
  lemma ReadLocalHeader(file: Bytes, name: Bytes, m: ZipMember, dos: DosTime)
    requires Encodable(name, m)
    requires var h := LocalHeader(name, m, dos, true);
      m.offset + |h| + m.compressedSize <= |file| && file[m.offset..m.offset + |h|] == h
    ensures ReadLocal(file, m.offset)
         == Some(Local(name, m, dos, m.offset + |LocalHeader(name, m, dos, true)|))
  {
    hide LocalFixed, LocalExtra, ReadLocal, ParseLocal, ReadExtras, Get16, Get32, Get64;
    LocalHeaderLength(name, m, dos, true);
    LocalFixedFields(|name|, m, dos, true);
    LocalExtraSizes(name, m);
    Split(file, m.offset, LocalFixed(|name|, m, dos, true), name, LocalExtra(m));
    ParseLocalParts(LocalFixed(|name|, m, dos, true), name, LocalExtra(m), m, dos);
    ReadLocalParts(file, m.offset, LocalFixed(|name|, m, dos, true), name + LocalExtra(m),
                   Local(name, m, dos, m.offset + LOCAL_HEADER_SIZE + |name| + LOCAL_EXTRA_SIZE));
  }

  lemma Split(file: Bytes, at: nat, a: Bytes, b: Bytes, c: Bytes)
    requires at + |a| + |b| + |c| <= |file| && file[at..at + |a| + |b| + |c|] == a + b + c
    ensures file[at..at + |a|] == a && file[at + |a|..at + |a| + |b|] == b
    ensures file[at + |a| + |b|..at + |a| + |b| + |c|] == c
    ensures file[at + |a|..at + |a| + |b| + |c|] == b + c
  {
    var whole := a + b + c;
    forall k | 0 <= k < |whole| ensures file[at + k] == whole[k] {
      assert file[at..at + |whole|][k] == whole[k];
    }
    assert whole[..|a|] == a && whole[|a|..|a| + |b|] == b && whole[|a| + |b|..] == c && whole[|a|..] == b + c;
    Slice(file, at, whole, 0, |a|);
    Slice(file, at, whole, |a|, |a| + |b|);
    Slice(file, at, whole, |a| + |b|, |whole|);
    Slice(file, at, whole, |a|, |whole|);
  }

  lemma CentralFixedFields(n: nat, m: ZipMember, dos: DosTime)
    requires n < 0x1_0000
    ensures var h := CentralFixed(n, m, dos);
      && |h| == CENTRAL_HEADER_SIZE && Get32(h, 0) == CENTRAL_SIGNATURE
      && Get16(h, 10) == m.compression && Get32(h, 16) == m.crc
      && Get32(h, 20) == IN_ZIP64 && Get32(h, 24) == IN_ZIP64
      && Get16(h, 28) == n && Get16(h, 30) == 28 && Get16(h, 32) == 0 && Get32(h, 42) == IN_ZIP64
  {
    hide CentralFixed, Get16, Get32, Get64;
    CentralFixedFieldsFront(n, m, dos);
    CentralFixedFieldsBack(n, m, dos);
  }

  lemma CentralFixedFieldsFront(n: nat, m: ZipMember, dos: DosTime)
    ensures var h := CentralFixed(n, m, dos);
      && |h| == CENTRAL_HEADER_SIZE && Get32(h, 0) == CENTRAL_SIGNATURE
      && Get16(h, 10) == m.compression && Get32(h, 16) == m.crc && Get32(h, 20) == IN_ZIP64
  {
    hide Put16, Put32, Put64, Get16, Get32, Get64;
    var h := CentralFixed(n, m, dos);
    Get32Put32(h, 0, CENTRAL_SIGNATURE);
    Get16Put16(h, 10, m.compression);
    Get32Put32(h, 16, m.crc);
    Get32Put32(h, 20, IN_ZIP64);
  }

  lemma CentralFixedFieldsBack(n: nat, m: ZipMember, dos: DosTime)
    requires n < 0x1_0000
    ensures var h := CentralFixed(n, m, dos);
      && |h| == CENTRAL_HEADER_SIZE && Get32(h, 24) == IN_ZIP64
      && Get16(h, 28) == n && Get16(h, 30) == 28 && Get16(h, 32) == 0 && Get32(h, 42) == IN_ZIP64
  {
    hide Put16, Put32, Put64, Get16, Get32, Get64;
    var h := CentralFixed(n, m, dos);
    Get32Put32(h, 24, IN_ZIP64);
    Get16Put16(h, 28, n);
    Get16Put16(h, 30, 28);
    Get16Put16(h, 32, 0);
    Get32Put32(h, 42, IN_ZIP64);
  }

  lemma CentralExtraFields(m: ZipMember)
    requires m.size < 0x1_0000_0000_0000_0000 && m.compressedSize < 0x1_0000_0000_0000_0000
    requires m.offset < 0x1_0000_0000_0000_0000
    ensures var e := CentralExtra(m);
      && |e| == 28 && Get16(e, 0) == 1 && Get16(e, 2) == 24
      && Get64(e, 4) == m.size && Get64(e, 12) == m.compressedSize && Get64(e, 20) == m.offset
  {
    hide Put16, Put32, Put64, Get16, Get32, Get64;
    var e := CentralExtra(m);
    Get16Put16(e, 0, 1);
    Get16Put16(e, 2, 24);
    Get64Put64(e, 4, m.size);
    Get64Put64(e, 12, m.compressedSize);
    Get64Put64(e, 20, m.offset);
  }

  /** Reading is local: what lies at an offset of a part lies at the shifted offset of the whole. */
  lemma Shifted(whole: Bytes, base: nat, part: Bytes, at: nat)
    requires base + |part| <= |whole| && whole[base..base + |part|] == part
    ensures at + 2 <= |part| ==> Get16(whole, base + at) == Get16(part, at)
    ensures at + 4 <= |part| ==> Get32(whole, base + at) == Get32(part, at)
    ensures at + 8 <= |part| ==> Get64(whole, base + at) == Get64(part, at)
  {
    forall k | 0 <= k < |part| ensures whole[base + k] == part[k] {
      assert whole[base..base + |part|][k] == part[k];
    }
  }

  lemma ReadCentralParts(directory: Bytes, at: nat, name: Bytes, m: ZipMember)
    requires at + CENTRAL_HEADER_SIZE + |name| + 28 <= |directory|
    requires Get16(directory, at + 10) == m.compression && Get32(directory, at + 16) == m.crc
    requires Get32(directory, at + 20) == IN_ZIP64 && Get32(directory, at + 24) == IN_ZIP64
    requires Get16(directory, at + 28) == |name| && Get16(directory, at + 30) == 28 && Get16(directory, at + 32) == 0
    requires Get32(directory, at + 42) == IN_ZIP64
    requires directory[at + CENTRAL_HEADER_SIZE..at + CENTRAL_HEADER_SIZE + |name|] == name
    requires var x, zip64 := at + CENTRAL_HEADER_SIZE + |name|, Wide(IN_ZIP64, IN_ZIP64, IN_ZIP64);
      ReadCentralExtras(directory, x, x + 28, zip64, zip64) == Some(Wide(m.size, m.compressedSize, m.offset))
    ensures ReadCentral(directory, at) == Some((Entry(name, m), at + CENTRAL_HEADER_SIZE + |name| + 28))
  {
    hide Put16, Put32, Put64, Get16, Get32, Get64;
  }

  lemma CentralHeaderLength(name: Bytes, m: ZipMember, dos: DosTime)
    ensures |CentralFixed(|name|, m, dos)| == CENTRAL_HEADER_SIZE && |CentralExtra(m)| == 28
    ensures |CentralHeader(name, m, dos)| == CENTRAL_HEADER_SIZE + |name| + 28
  {
  }

  /** A directory entry reads back as its name and member, and the next one starts right behind it. */
  lemma ReadCentralHeader(directory: Bytes, at: nat, name: Bytes, m: ZipMember, dos: DosTime)
    requires Encodable(name, m)
    requires var h := CentralHeader(name, m, dos); at + |h| <= |directory| && directory[at..at + |h|] == h
    ensures at + CENTRAL_HEADER_SIZE <= |directory| && Get32(directory, at) == CENTRAL_SIGNATURE
    ensures ReadCentral(directory, at) == Some((Entry(name, m), at + |CentralHeader(name, m, dos)|))
  {
    hide CentralFixed, CentralExtra, ReadCentral, ReadCentralExtras, Get16, Get32, Get64;
    CentralHeaderLength(name, m, dos);
    Split(directory, at, CentralFixed(|name|, m, dos), name, CentralExtra(m));
    CentralFixedInDirectory(directory, at, |name|, m, dos);
    CentralExtraInDirectory(directory, at + CENTRAL_HEADER_SIZE + |name|, m);
    ReadCentralParts(directory, at, name, m);
  }

  lemma CentralFixedInDirectory(directory: Bytes, at: nat, n: nat, m: ZipMember, dos: DosTime)
    requires n < 0x1_0000
    requires at + CENTRAL_HEADER_SIZE <= |directory|
    requires directory[at..at + CENTRAL_HEADER_SIZE] == CentralFixed(n, m, dos)
    ensures Get32(directory, at) == CENTRAL_SIGNATURE
    ensures Get16(directory, at + 10) == m.compression && Get32(directory, at + 16) == m.crc
    ensures Get32(directory, at + 20) == IN_ZIP64 && Get32(directory, at + 24) == IN_ZIP64
    ensures Get16(directory, at + 28) == n && Get16(directory, at + 30) == 28 && Get16(directory, at + 32) == 0
    ensures Get32(directory, at + 42) == IN_ZIP64
  {
    hide Put16, Put32, Put64, Get16, Get32, Get64;
    var fixed := CentralFixed(n, m, dos);
    CentralFixedFields(n, m, dos);
    Shifted(directory, at, fixed, 0);
    Shifted(directory, at, fixed, 10);
    Shifted(directory, at, fixed, 16);
    Shifted(directory, at, fixed, 20);
    Shifted(directory, at, fixed, 24);
    Shifted(directory, at, fixed, 28);
    Shifted(directory, at, fixed, 30);
    Shifted(directory, at, fixed, 32);
    Shifted(directory, at, fixed, 42);
  }

  lemma CentralExtraInDirectory(directory: Bytes, x: nat, m: ZipMember)
    requires m.size < 0x1_0000_0000_0000_0000 && m.compressedSize < 0x1_0000_0000_0000_0000
    requires m.offset < 0x1_0000_0000_0000_0000
    requires x + 28 <= |directory| && directory[x..x + 28] == CentralExtra(m)
    ensures var fixed := Wide(IN_ZIP64, IN_ZIP64, IN_ZIP64);
      ReadCentralExtras(directory, x, x + 28, fixed, fixed) == Some(Wide(m.size, m.compressedSize, m.offset))
  {
    var e := CentralExtra(m);
    CentralExtraFields(m);
    Shifted(directory, x, e, 0);
    Shifted(directory, x, e, 2);
    Shifted(directory, x, e, 4);
    Shifted(directory, x, e, 12);
    Shifted(directory, x, e, 20);
    var fixed := Wide(IN_ZIP64, IN_ZIP64, IN_ZIP64);
    assert ApplyCentralExtra(directory, x, fixed, fixed) == Some(Wide(m.size, m.compressedSize, m.offset));
  }

  lemma Zip64EndFields(directoryOffset: nat, directorySize: nat, entries: nat)
    requires directoryOffset < 0x1_0000_0000_0000_0000 && directorySize < 0x1_0000_0000_0000_0000
    requires entries < 0x1_0000_0000_0000_0000
    ensures var e := Zip64End(directoryOffset, directorySize, entries);
      && |e| == ZIP64_END_SIZE && Get32(e, 0) == ZIP64_END_SIGNATURE && Get64(e, 32) == entries
      && Get64(e, 40) == directorySize && Get64(e, 48) == directoryOffset
  {
    hide Put16, Put32, Put64, Get16, Get32, Get64;
    var e := Zip64End(directoryOffset, directorySize, entries);
    Get32Put32(e, 0, ZIP64_END_SIGNATURE);
    Get64Put64(e, 32, entries);
    Get64Put64(e, 40, directorySize);
    Get64Put64(e, 48, directoryOffset);
  }

  lemma LocatorFields(at: nat)
    requires at < 0x1_0000_0000_0000_0000
    ensures var l := Locator(at);
      |l| == LOCATOR_SIZE && Get32(l, 0) == ZIP64_LOCATOR_SIGNATURE && Get64(l, 8) == at
    ensures |EndRecord()| == END_SIZE && Get32(EndRecord(), 0) == END_SIGNATURE
  {
    hide Put16, Put32, Put64, Get16, Get32, Get64;
    Get32Put32(Locator(at), 0, ZIP64_LOCATOR_SIGNATURE);
    Get64Put64(Locator(at), 8, at);
    Get32Put32(EndRecord(), 0, END_SIGNATURE);
  }

  lemma FromDirectoryParts(body: Bytes, directory: Bytes, z: Bytes, l: Bytes, e: Bytes, entries: nat)
    requires |z| == ZIP64_END_SIZE && Get32(z, 0) == ZIP64_END_SIGNATURE && Get64(z, 32) == entries
    requires Get64(z, 40) == |directory| && Get64(z, 48) == |body|
    requires |l| == LOCATOR_SIZE && Get32(l, 0) == ZIP64_LOCATOR_SIGNATURE && Get64(l, 8) == |body| + |directory|
    requires |e| == END_SIZE && Get32(e, 0) == END_SIGNATURE
    ensures FromDirectory(body + directory + (z + l + e))
         == if directory == [] || (4 <= |directory| && Get32(directory, 0) == CENTRAL_SIGNATURE)
            then Some(Layout(|body|, directory, entries)) else None
  {
    hide Put16, Put32, Put64, Get16, Get32, Get64;
    var b, d, file := |body|, |directory|, body + directory + (z + l + e);
    var n := |file|;
    assert file[n - END_SIZE..] == e;
    assert file[n - END_SIZE - LOCATOR_SIZE..n - END_SIZE] == l;
    assert file[b + d..b + d + ZIP64_END_SIZE] == z;
    assert file[b..b + d] == directory;
  }

  /** End records written behind a directory lead straight back to it, whatever lies before. */
  lemma FromDirectoryTrailer(body: Bytes, directory: Bytes, entries: nat)
    requires |body| + |directory| < 0x1_0000_0000_0000_0000 && entries < 0x1_0000_0000_0000_0000
    requires directory == [] || (4 <= |directory| && Get32(directory, 0) == CENTRAL_SIGNATURE)
    ensures |Trailer(|body|, |directory|, entries)| == TRAILER_SIZE
    ensures FromDirectory(body + directory + Trailer(|body|, |directory|, entries))
         == Some(Layout(|body|, directory, entries))
  {
    hide Zip64End, Locator, EndRecord, FromDirectory, Get16, Get32, Get64;
    var b, d := |body|, |directory|;
    Zip64EndFields(b, d, entries);
    LocatorFields(b + d);
    FromDirectoryParts(body, directory, Zip64End(b, d, entries), Locator(b + d), EndRecord(), entries);
  }
}
