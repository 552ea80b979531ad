/**
 * The Zip64 records of core/src/ArchiveZip.cpp, byte for byte (PKWARE APPNOTE sections 4.3.7, 4.3.12,
 * 4.3.14, 4.3.15, 4.3.16 and 4.5.3), and the readers that take them apart again.
 *
 * A file is a byte sequence; a file that is not there is the empty one.
 */
module ZipFormat {
  import opened LittleEndian
  import opened Outcome

  const LOCAL_SIGNATURE := 0x04034b50
  const CENTRAL_SIGNATURE := 0x02014b50
  const ZIP64_END_SIGNATURE := 0x06064b50
  const ZIP64_LOCATOR_SIGNATURE := 0x07064b50
  const END_SIGNATURE := 0x06054b50
  const VERSION := 45
  const MADE_BY := 3 * 0x100 + VERSION
  const REGULAR_FILE := 0x81a4_0000
  const UTF8_NAMES := 0x0800
  const IN_ZIP64 := 0xffff_ffff

  const LOCAL_HEADER_SIZE := 30
  const LOCAL_EXTRA_SIZE := 20
  const CENTRAL_HEADER_SIZE := 46
  const END_SIZE := 22
  const LOCATOR_SIZE := 20
  const ZIP64_END_SIZE := 56
  const TRAILER_SIZE := 98

  datatype DosTime = DosTime(time: Half, date: Half)

  datatype ZipMember = ZipMember(offset: nat, compressedSize: nat, size: nat, crc: Word, compression: Half)

  // ---------- writing ----------

  function LocalFixed(nameLength: nat, m: ZipMember, dos: DosTime, complete: bool): Bytes {
    Put32(if complete then LOCAL_SIGNATURE else 0) + Put16(VERSION) + Put16(UTF8_NAMES) + Put16(m.compression)
    + Put16(dos.time) + Put16(dos.date) + Put32(m.crc) + Put32(IN_ZIP64) + Put32(IN_ZIP64)
    + Put16(nameLength) + Put16(LOCAL_EXTRA_SIZE)
  }

  function LocalExtra(m: ZipMember): Bytes {
    Put16(1) + Put16(16) + Put64(m.size) + Put64(m.compressedSize)
  }

  /** A member's local header; without its signature while the bytes after it are still arriving. */
  function LocalHeader(name: Bytes, m: ZipMember, dos: DosTime, complete: bool): Bytes {
    LocalFixed(|name|, m, dos, complete) + name + LocalExtra(m)
  }

  function CentralFixed(nameLength: nat, m: ZipMember, dos: DosTime): Bytes {
    Put32(CENTRAL_SIGNATURE) + Put16(MADE_BY) + Put16(VERSION) + Put16(UTF8_NAMES) + Put16(m.compression)
    + Put16(dos.time) + Put16(dos.date) + Put32(m.crc) + Put32(IN_ZIP64) + Put32(IN_ZIP64)
    + Put16(nameLength) + Put16(28) + Put16(0) + Put16(0) + Put16(0) + Put32(REGULAR_FILE) + Put32(IN_ZIP64)
  }

  function CentralExtra(m: ZipMember): Bytes {
    Put16(1) + Put16(24) + Put64(m.size) + Put64(m.compressedSize) + Put64(m.offset)
  }

  function CentralHeader(name: Bytes, m: ZipMember, dos: DosTime): Bytes {
    CentralFixed(|name|, m, dos) + name + CentralExtra(m)
  }

  function Zip64End(directoryOffset: nat, directorySize: nat, entries: nat): Bytes {
    Put32(ZIP64_END_SIGNATURE) + Put64(ZIP64_END_SIZE - 12) + Put16(MADE_BY) + Put16(VERSION) + Put32(0) + Put32(0)
    + Put64(entries) + Put64(entries) + Put64(directorySize) + Put64(directoryOffset)
  }

  function Locator(zip64EndAt: nat): Bytes {
    Put32(ZIP64_LOCATOR_SIGNATURE) + Put32(0) + Put64(zip64EndAt) + Put32(1)
  }

  function EndRecord(): Bytes {
    Put32(END_SIGNATURE) + Put16(0) + Put16(0) + Put16(0xffff) + Put16(0xffff)
    + Put32(IN_ZIP64) + Put32(IN_ZIP64) + Put16(0)
  }

  /** What a finished archive ends in, behind its directory. */
  function Trailer(directoryOffset: nat, directorySize: nat, entries: nat): Bytes {
    Zip64End(directoryOffset, directorySize, entries) + Locator(directoryOffset + directorySize) + EndRecord()
  }

  // ---------- reading ----------

  datatype Local = Local(name: Bytes, member: ZipMember, dos: DosTime, dataAt: nat)

  /** The two sizes of a member while its extra fields are being read. */
  datatype Sizes = Sizes(size: nat, compressedSize: nat)

  /** One extra field: a Zip64 one supplies whichever sizes the header itself left at 0xffffffff. */
  function ApplyExtra(extra: Bytes, at: nat, length: nat, fixed: Sizes, sofar: Sizes): Sizes
    requires at + 4 + length <= |extra|
  {
    if Get16(extra, at) != 1 then sofar
    else
      var hasSize := fixed.size == IN_ZIP64 && 8 <= length;
      var size := if hasSize then Get64(extra, at + 4) else sofar.size;
      var field := if hasSize then at + 12 else at + 4;
      var compressedSize := if fixed.compressedSize == IN_ZIP64 && field + 8 <= at + 4 + length
                            then Get64(extra, field) else sofar.compressedSize;
      Sizes(size, compressedSize)
  }

  function ReadExtras(extra: Bytes, at: nat, fixed: Sizes, sofar: Sizes): Sizes
    decreases |extra| - at
  {
    if at + 4 > |extra| then sofar
    else
      var length := Get16(extra, at + 2);
      if at + 4 + length > |extra| then sofar
      else ReadExtras(extra, at + 4 + length, fixed, ApplyExtra(extra, at, length, fixed, sofar))
  }

  /** A member out of its fixed header and the name and extra fields behind it. */
  function ParseLocal(header: Bytes, rest: Bytes, offset: nat): (r: Local)
    requires |header| == LOCAL_HEADER_SIZE && Get16(header, 26) <= |rest|
    ensures r.dataAt == offset + LOCAL_HEADER_SIZE + |rest|
  {
    var nameLength := Get16(header, 26);
    var fixed := Sizes(Get32(header, 22), Get32(header, 18));
    var sizes := ReadExtras(rest, nameLength, fixed, fixed);
    Local(rest[..nameLength],
          ZipMember(offset, sizes.compressedSize, sizes.size, Get32(header, 14), Get16(header, 8)),
          DosTime(Get16(header, 10), Get16(header, 12)),
          offset + LOCAL_HEADER_SIZE + |rest|)
  }

  /** What is read at an offset: a signed header whose name, extra fields and data all lie within the file. */
  function ReadLocal(file: Bytes, offset: nat): (r: Option<Local>)
    ensures r.Some? ==> offset + LOCAL_HEADER_SIZE <= r.value.dataAt
                        && r.value.dataAt + r.value.member.compressedSize <= |file|
  {
    if offset + LOCAL_HEADER_SIZE > |file| then None
    else
      var header := file[offset..offset + LOCAL_HEADER_SIZE];
      if Get32(header, 0) != LOCAL_SIGNATURE then None
      else
        var dataAt := offset + LOCAL_HEADER_SIZE + Get16(header, 26) + Get16(header, 28);
        if dataAt > |file| then None
        else
          var local := ParseLocal(header, file[offset + LOCAL_HEADER_SIZE..dataAt], offset);
          if dataAt + local.member.compressedSize > |file| then None else Some(local)
  }

  /** An archive as an append needs to know it: the end of its members, their directory, and how many they are. */
  datatype Layout = Layout(appendAt: nat, directory: Bytes, entries: nat)

  /** The layout the end records give. */
  function FromDirectory(file: Bytes): (r: Option<Layout>)
    ensures r.Some? ==> r.value.appendAt + |r.value.directory| + ZIP64_END_SIZE <= |file|
  {
    if |file| < TRAILER_SIZE then None
    else
      var end := file[|file| - END_SIZE..];
      var locator := file[|file| - END_SIZE - LOCATOR_SIZE..|file| - END_SIZE];
      if Get32(end, 0) != END_SIGNATURE || Get32(locator, 0) != ZIP64_LOCATOR_SIGNATURE then None
      else
        var zip64EndAt := Get64(locator, 8);
        if zip64EndAt + ZIP64_END_SIZE > |file| then None
        else
          var zip64End := file[zip64EndAt..zip64EndAt + ZIP64_END_SIZE];
          if Get32(zip64End, 0) != ZIP64_END_SIGNATURE then None
          else
            var directorySize := Get64(zip64End, 40);
            var appendAt := Get64(zip64End, 48);
            if appendAt + directorySize != zip64EndAt then None
            else
              var directory := file[appendAt..zip64EndAt];
              // A directory of fewer than four bytes has no signature to read.
              if directory != [] && (|directory| < 4 || Get32(directory, 0) != CENTRAL_SIGNATURE) then None
              else Some(Layout(appendAt, directory, Get64(zip64End, 32)))
  }

  /** The walk over the members themselves, from an offset on. */
  function RecoverFrom(file: Bytes, sofar: Layout): (r: Layout)
    ensures sofar.appendAt <= r.appendAt
    ensures sofar.appendAt <= |file| ==> r.appendAt <= |file|
    ensures ReadLocal(file, r.appendAt).None?
    decreases |file| + LOCAL_HEADER_SIZE - sofar.appendAt
  {
    match ReadLocal(file, sofar.appendAt)
    case None => sofar
    case Some(local) =>
      RecoverFrom(file, Layout(local.dataAt + local.member.compressedSize,
                               sofar.directory + CentralHeader(local.name, local.member, local.dos),
                               sofar.entries + 1))
  }

  function Recover(file: Bytes): Layout {
    RecoverFrom(file, Layout(0, [], 0))
  }

  function LayoutOf(file: Bytes): (r: Layout)
    ensures r.appendAt <= |file|
  {
    match FromDirectory(file)
    case Some(layout) => layout
    case None => Recover(file)
  }

  datatype Entry = Entry(name: Bytes, member: ZipMember)

  /** The three Zip64 values of a directory entry while its extra fields are being read. */
  datatype Wide = Wide(size: nat, compressedSize: nat, offset: nat)

  /** Reads past the end of the directory, which the source does not guard against, are an error here. */
  function ApplyCentralExtra(directory: Bytes, x: nat, fixed: Wide, sofar: Wide): Option<Wide> {
    if x + 4 > |directory| then None
    else if Get16(directory, x) != 1 then Some(sofar)
    else
      var f0 := x + 4;
      var f1 := if fixed.size == IN_ZIP64 then f0 + 8 else f0;
      var f2 := if fixed.compressedSize == IN_ZIP64 then f1 + 8 else f1;
      var f3 := if fixed.offset == IN_ZIP64 then f2 + 8 else f2;
      if f3 > |directory| then None
      else Some(Wide(if fixed.size == IN_ZIP64 then Get64(directory, f0) else sofar.size,
                     if fixed.compressedSize == IN_ZIP64 then Get64(directory, f1) else sofar.compressedSize,
                     if fixed.offset == IN_ZIP64 then Get64(directory, f2) else sofar.offset))
  }

  function ReadCentralExtras(directory: Bytes, x: nat, end: nat, fixed: Wide, sofar: Wide): Option<Wide>
    decreases end - x
  {
    if x + 4 > end then Some(sofar)
    else
      match ApplyCentralExtra(directory, x, fixed, sofar)
      case None => None
      case Some(next) => ReadCentralExtras(directory, x + 4 + Get16(directory, x + 2), end, fixed, next)
  }

  /** One directory entry and where the next one starts. */
  function ReadCentral(directory: Bytes, at: nat): (r: Option<(Entry, nat)>)
    requires at + CENTRAL_HEADER_SIZE <= |directory|
    ensures r.Some? ==> at + CENTRAL_HEADER_SIZE <= r.value.1
  {
    var fixed := Wide(Get32(directory, at + 24), Get32(directory, at + 20), Get32(directory, at + 42));
    var nameLength := Get16(directory, at + 28);
    var extraLength := Get16(directory, at + 30);
    var extraAt := at + CENTRAL_HEADER_SIZE + nameLength;
    if extraAt > |directory| then None
    else
      match ReadCentralExtras(directory, extraAt, extraAt + extraLength, fixed, fixed)
      case None => None
      case Some(w) =>
        Some((Entry(directory[at + CENTRAL_HEADER_SIZE..extraAt],
                    ZipMember(w.offset, w.compressedSize, w.size,
                              Get32(directory, at + 16), Get16(directory, at + 10))),
              extraAt + extraLength + Get16(directory, at + 32)))
  }

  function ListFrom(directory: Bytes, at: nat): Result<seq<Entry>>
    decreases |directory| - at
  {
    if at + CENTRAL_HEADER_SIZE > |directory| || Get32(directory, at) != CENTRAL_SIGNATURE then Ok([])
    else
      match ReadCentral(directory, at)
      case None => Error("directory cut short")
      case Some((entry, next)) =>
        match ListFrom(directory, next)
        case Error(e) => Error(e)
        case Ok(rest) => Ok([entry] + rest)
  }
}
