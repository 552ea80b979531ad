/** The archive as Append(), Extract() and List() work on it: a file overwritten in place. */
module ZipFiles {
  import opened LittleEndian
  import opened Outcome
  import opened ZipFormat
  import opened ZipAppend
  import ZipRuns

  const CHUNK := 0x1_0000

  /** The extra fields of a local header, one after the other. */
  method ScanExtras(extra: Bytes, from: nat, fixed: Sizes) returns (sizes: Sizes)
    ensures sizes == ReadExtras(extra, from, fixed, fixed)
  {
    sizes := fixed;
    var at := from;
    while at + 4 <= |extra|
      invariant ReadExtras(extra, at, fixed, sizes) == ReadExtras(extra, from, fixed, fixed)
      decreases |extra| - at
    {
      var length := Get16(extra, at + 2);
      if at + 4 + length > |extra| {
        break;
      }
      if Get16(extra, at) == 1 {
        var field := at + 4;
        if fixed.size == IN_ZIP64 && field + 8 <= at + 4 + length {
          sizes := sizes.(size := Get64(extra, field));
          field := field + 8;
        }
        if fixed.compressedSize == IN_ZIP64 && field + 8 <= at + 4 + length {
          sizes := sizes.(compressedSize := Get64(extra, field));
        }
      }
      at := at + 4 + length;
    }
  }

  /** The extra fields of one directory entry. */
  method ScanCentralExtras(directory: Bytes, from: nat, end: nat, fixed: Wide) returns (r: Option<Wide>)
    ensures r == ReadCentralExtras(directory, from, end, fixed, fixed)
  {
    var wide, x := fixed, from;
    while x + 4 <= end
      invariant ReadCentralExtras(directory, x, end, fixed, wide)
             == ReadCentralExtras(directory, from, end, fixed, fixed)
      decreases end - x
    {
      var next := ApplyCentralExtra(directory, x, fixed, wide);
      if next.None? {
        return None;
      }
      wide := next.value;
      x := x + 4 + Get16(directory, x + 2);
    }
    return Some(wide);
  }

  class ZipFile {
    var bytes: Bytes

    constructor ()
      ensures bytes == []
    {
      bytes := [];
    }

    method WriteAt(at: nat, chunk: Bytes)
      requires at <= |bytes|
      modifies this
      ensures bytes == Land(old(bytes), Write(at, chunk))
      ensures |bytes| >= at + |chunk| && |bytes| >= |old(bytes)|
    {
      bytes := bytes[..at] + chunk + if at + |chunk| <= |bytes| then bytes[at + |chunk|..] else [];
    }

    method ReadLocalAt(offset: nat) returns (r: Option<Local>)
      ensures r == ReadLocal(bytes, offset)
    {
      if offset + LOCAL_HEADER_SIZE > |bytes| {
        return None;
      }
      var header := bytes[offset..offset + LOCAL_HEADER_SIZE];
      if Get32(header, 0) != LOCAL_SIGNATURE {
        return None;
      }
      var nameLength, extraLength := Get16(header, 26), Get16(header, 28);
      var dataAt := offset + LOCAL_HEADER_SIZE + nameLength + extraLength;
      if dataAt > |bytes| {
        return None;
      }
      var rest := bytes[offset + LOCAL_HEADER_SIZE..dataAt];
      var sizes := ScanExtras(rest, nameLength, Sizes(Get32(header, 22), Get32(header, 18)));
      if dataAt + sizes.compressedSize > |bytes| {
        return None;
      }
      return Some(Local(rest[..nameLength],
                        ZipMember(offset, sizes.compressedSize, sizes.size, Get32(header, 14), Get16(header, 8)),
                        DosTime(Get16(header, 10), Get16(header, 12)), dataAt));
    }

    method RecoverLayout() returns (layout: Layout)
      ensures layout == Recover(bytes)
    {
      hide ReadLocal, CentralHeader;
      layout := Layout(0, [], 0);
      var local := ReadLocalAt(0);
      while local.Some?
        invariant local == ReadLocal(bytes, layout.appendAt)
        invariant RecoverFrom(bytes, layout) == Recover(bytes)
        decreases |bytes| + LOCAL_HEADER_SIZE - layout.appendAt, local.Some?
      {
        var l := local.value;
        layout := Layout(l.dataAt + l.member.compressedSize,
                         layout.directory + CentralHeader(l.name, l.member, l.dos), layout.entries + 1);
        local := ReadLocalAt(layout.appendAt);
      }
    }

    method CurrentLayout() returns (layout: Layout)
      ensures layout == LayoutOf(bytes)
    {
      hide FromDirectory, Recover;
      var indexed := FromDirectory(bytes);
      if indexed.Some? {
        return indexed.value;
      }
      layout := RecoverLayout();
    }

    /** Copies a source in chunks from an offset on, with its running CRC and size. */
    method CopyStored(c: Codec, source: Bytes, at: nat) returns (crc: Word, size: nat)
      requires Laws(c) && at <= |bytes|
      modifies this
      ensures bytes == Land(old(bytes), Write(at, source))
      ensures crc == c.crc(0, source) && size == |source|
    {
      hide Laws, Land;
      crc, size := 0, 0;
      NothingToCopy(c, bytes, at);
      assert source[..0] == [];
      while size < |source|
        invariant size <= |source|
        invariant at + size <= |bytes| && bytes == Land(old(bytes), Write(at, source[..size]))
        invariant crc == c.crc(0, source[..size])
      {
        var next := if size + CHUNK <= |source| then size + CHUNK else |source|;
        var chunk := source[size..next];
        crc := c.crc(crc, chunk);
        CrcChains(c, source[..size], chunk);
        WriteAt(at + size, chunk);
        assert source[..next] == source[..size] + chunk;
        ChunkLands(old(bytes), at, source[..size], chunk);
        size := next;
      }
      assert source[..size] == source;
    }

    method Append(c: Codec, r: Request) returns (res: Result<ZipMember>)
      requires Laws(c)
      modifies this
      ensures !(1 <= |r.name| <= 0xffff) ==> res.Error? && bytes == old(bytes)
      ensures 1 <= |r.name| <= 0xffff ==>
        && res == Ok(NewMember(c, r, LayoutOf(old(bytes)).appendAt))
        && bytes == Appended(c, old(bytes), r)
    {
      hide LocalHeader, CentralHeader, Trailer, LayoutOf, Land, Laws;
      if !(1 <= |r.name| <= 0xffff) {
        return Error("zip entry name has to be 1 to 65535 bytes");
      }
      var layout := CurrentLayout();
      var at := layout.appendAt;
      var placeholder := LocalHeader(r.name, Blank(r, at), r.dos, false);
      ghost var f0 := bytes;
      WriteAt(at, placeholder);
      ghost var f1 := bytes;
      var member := Blank(r, at);
      if r.deflate {
        var packed := c.deflate(r.source);
        WriteAt(at + |placeholder|, packed);
        member := member.(crc := c.crc(0, r.source), size := |r.source|, compressedSize := |packed|);
      } else {
        var crc, size := CopyStored(c, r.source, at + |placeholder|);
        member := member.(crc := crc, size := size, compressedSize := size);
      }
      ghost var f2 := bytes;
      LandedLength(f1, at + |placeholder|, Stored(c, r));
      var dataEnd := at + |placeholder| + member.compressedSize;
      WriteAt(at, LocalHeader(r.name, member, r.dos, true));
      ghost var f3 := bytes;
      var directory := layout.directory + CentralHeader(r.name, member, r.dos);
      var end := Trailer(dataEnd, |directory|, layout.entries + 1);
      WriteAt(dataEnd, directory);
      ghost var f4 := bytes;
      WriteAt(dataEnd + |directory|, end);
      ghost var f5 := bytes;
      var finalSize := dataEnd + |directory| + |end|;
      if |bytes| != finalSize {
        bytes := bytes[..finalSize];
      }
      ResizeLands(f5, finalSize);
      Chain(AppendWrites(c, f0, r), f0, f1, f2, f3, f4, f5, bytes);
      return Ok(member);
    }

    method Extract(c: Codec, m: ZipMember) returns (res: Result<Bytes>)
      requires Laws(c)
      ensures res == ZipRuns.Extract(c, bytes, m)
    {
      hide ReadLocal, Laws;
      var local := ReadLocalAt(m.offset);
      if local.None? || local.value.member.compressedSize != m.compressedSize
         || local.value.member.compression != m.compression {
        return Error("no such member");
      }
      var from, out, crc: Word, done := local.value.dataAt, [], 0, 0;
      var data := bytes[from..from + m.compressedSize];
      CrcOfNothing(c);
      if m.compression == 0 || data == [] {
        while done < |data|
          invariant done <= |data| && out == data[..done] && crc == c.crc(0, out)
        {
          var next := if done + CHUNK <= |data| then done + CHUNK else |data|;
          CrcChains(c, out, data[done..next]);
          crc := c.crc(crc, data[done..next]);
          out := out + data[done..next];
          done := next;
        }
        assert data[..done] == data;
      } else {
        var inflated := c.inflate(data);
        if inflated.None? {
          return Error("does not inflate");
        }
        out, crc := inflated.value, c.crc(0, inflated.value);
      }
      if |out| != m.size || crc != m.crc {
        return Error("does not match its size or CRC");
      }
      return Ok(out);
    }

    method List() returns (res: Result<seq<Entry>>)
      ensures res == ListFrom(LayoutOf(bytes).directory, 0)
    {
      hide LayoutOf, Get16, Get32, Get64, ReadCentralExtras;
      var layout := CurrentLayout();
      var directory := layout.directory;
      var entries, at := [], 0;
      assert ListFrom(directory, 0) == Prepended([], ListFrom(directory, 0)) by {
        PrependNothing(ListFrom(directory, 0));
      }
      while at + CENTRAL_HEADER_SIZE <= |directory| && Get32(directory, at) == CENTRAL_SIGNATURE
        invariant ListFrom(directory, 0) == Prepended(entries, ListFrom(directory, at))
        decreases |directory| - at
      {
        var nameLength, extraLength := Get16(directory, at + 28), Get16(directory, at + 30);
        var extraAt := at + CENTRAL_HEADER_SIZE + nameLength;
        if extraAt > |directory| {
          return Error("directory cut short");
        }
        var fixed := Wide(Get32(directory, at + 24), Get32(directory, at + 20), Get32(directory, at + 42));
        var wide := ScanCentralExtras(directory, extraAt, extraAt + extraLength, fixed);
        if wide.None? {
          return Error("directory cut short");
        }
        var w := wide.value;
        var entry := Entry(directory[at + CENTRAL_HEADER_SIZE..extraAt],
                           ZipMember(w.offset, w.compressedSize, w.size,
                                     Get32(directory, at + 16), Get16(directory, at + 10)));
        ghost var before := entries;
        entries := entries + [entry];
        at := extraAt + extraLength + Get16(directory, at + 32);
        PrependTwice(before, entry, ListFrom(directory, at));
      }
      assert entries + [] == entries;
      return Ok(entries);
    }
  }

  function Prepended(entries: seq<Entry>, r: Result<seq<Entry>>): Result<seq<Entry>> {
    match r case Error(e) => Error(e) case Ok(rest) => Ok(entries + rest)
  }

  lemma PrependNothing(r: Result<seq<Entry>>)
    ensures Prepended([], r) == r
  {
    match r
    case Error(_) =>
    case Ok(rest) => assert [] + rest == rest;
  }

  lemma PrependTwice(a: seq<Entry>, e: Entry, r: Result<seq<Entry>>)
    ensures Prepended(a, Prepended([e], r)) == Prepended(a + [e], r)
  {
    match r
    case Error(_) =>
    case Ok(rest) => assert a + ([e] + rest) == a + [e] + rest;
  }

  lemma CrcOfNothing(c: Codec)
    requires Laws(c)
    ensures c.crc(0, []) == 0
  {
  }

  lemma CrcChains(c: Codec, a: Bytes, b: Bytes)
    requires Laws(c)
    ensures c.crc(c.crc(0, a), b) == c.crc(0, a + b)
  {
  }

  lemma NothingToCopy(c: Codec, file: Bytes, at: nat)
    requires Laws(c) && at <= |file|
    ensures Land(file, Write(at, [])) == file && c.crc(0, []) == 0
  {
  }

  lemma ChunkLands(file: Bytes, at: nat, a: Bytes, b: Bytes)
    requires at <= |file|
    ensures Land(Land(file, Write(at, a)), Write(at + |a|, b)) == Land(file, Write(at, a + b))
  {
    hide Beyond, Land;
    var front, rest := file[..at], Beyond(file, at);
    FrontAndRest(file, at);
    WriteBehind(front, rest, a);
    WriteBehind(front + a, Beyond(rest, |a|), b);
    WriteBehind(front, rest, a + b);
    BeyondBeyond(rest, |a|, |b|);
    assert front + a + b == front + (a + b);
  }

  lemma FrontAndRest(file: Bytes, at: nat)
    requires at <= |file|
    ensures file == file[..at] + Beyond(file, at) && |file[..at]| == at
  {
  }

  lemma LandedLength(file: Bytes, at: nat, b: Bytes)
    requires at <= |file|
    ensures |Land(file, Write(at, b))| >= at + |b|
  {
  }

  lemma ResizeLands(file: Bytes, size: nat)
    requires size <= |file|
    ensures Land(file, Resize(size)) == file[..size]
  {
  }
}
