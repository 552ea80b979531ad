/**
 * What the archive's own readers make of any bytes, also those that nobody here wrote: which fields they take, when
 * they refuse, and what an extra field does.
 */
module ZipMeans {
  import opened LittleEndian
  import opened Outcome
  import opened ZipFormat
  import opened ZipRoundTrip
  import opened ZipAppend
  import opened ZipRuns

  // ---------- extra fields ----------

  /**
   * A field that does not fit ends the extra fields, and one that is not Zip64 is skipped. A Zip64 field holds the size
   * if the header's own is all ones, and behind it the compressed size if that one is, as far as the field is long.
   */
  lemma ExtraMeans(extra: Bytes, at: nat, fixed: Sizes, sofar: Sizes)
    ensures at + 4 > |extra| ==> ReadExtras(extra, at, fixed, sofar) == sofar
    ensures at + 4 <= |extra| && at + 4 + Get16(extra, at + 2) > |extra| ==>
              ReadExtras(extra, at, fixed, sofar) == sofar
    ensures at + 4 <= |extra| && at + 4 + Get16(extra, at + 2) <= |extra| ==>
              var length := Get16(extra, at + 2);
              var both := fixed.size == 0xffff_ffff && length >= 8;
              ReadExtras(extra, at, fixed, sofar)
              == ReadExtras(extra, at + 4 + length, fixed,
                            if Get16(extra, at) != 1 then sofar
                            else Sizes(if both then Get64(extra, at + 4) else sofar.size,
                                       if fixed.compressedSize != 0xffff_ffff then sofar.compressedSize
                                       else if both && length >= 16 then Get64(extra, at + 12)
                                       else if !both && length >= 8 then Get64(extra, at + 4)
                                       else sofar.compressedSize))
  {
    hide Get16, Get64;
  }

  /** Sizes a header gives itself are not touched by any extra field. */
  lemma {:induction false} OwnSizesStay(extra: Bytes, at: nat, fixed: Sizes, sofar: Sizes)
    ensures fixed.size != 0xffff_ffff ==> ReadExtras(extra, at, fixed, sofar).size == sofar.size
    ensures fixed.compressedSize != 0xffff_ffff ==>
              ReadExtras(extra, at, fixed, sofar).compressedSize == sofar.compressedSize
    decreases |extra| - at
  {
    hide Get16, Get64;
    if at + 4 <= |extra| && at + 4 + Get16(extra, at + 2) <= |extra| {
      var length := Get16(extra, at + 2);
      OwnSizesStay(extra, at + 4 + length, fixed, ApplyExtra(extra, at, length, fixed, sofar));
    }
  }

  /**
   * The same in the directory, where the Zip64 field holds the size, the compressed size and the offset, those of them
   * that the entry itself has at all ones. A field that runs out of the directory is an error.
   */
  lemma CentralExtraMeans(directory: Bytes, x: nat, end: nat, fixed: Wide, sofar: Wide)
    ensures x + 4 > end ==> ReadCentralExtras(directory, x, end, fixed, sofar) == Some(sofar)
    ensures x + 4 <= end && x + 4 > |directory| ==> ReadCentralExtras(directory, x, end, fixed, sofar) == None
    ensures x + 4 <= end && x + 4 <= |directory| ==>
              var next := x + 4 + Get16(directory, x + 2);
              var a := x + 4 + if fixed.size == 0xffff_ffff then 8 else 0;
              var b := a + if fixed.compressedSize == 0xffff_ffff then 8 else 0;
              var all := b + if fixed.offset == 0xffff_ffff then 8 else 0;
              ReadCentralExtras(directory, x, end, fixed, sofar)
              == if Get16(directory, x) != 1 then ReadCentralExtras(directory, next, end, fixed, sofar)
                 else if all > |directory| then None
                 else ReadCentralExtras(
                        directory, next, end, fixed,
                        Wide(if fixed.size == 0xffff_ffff then Get64(directory, x + 4) else sofar.size,
                             if fixed.compressedSize == 0xffff_ffff then Get64(directory, a) else sofar.compressedSize,
                             if fixed.offset == 0xffff_ffff then Get64(directory, b) else sofar.offset))
  {
    hide Get16, Get64;
  }

  /** What an entry gives itself is not touched by any extra field. */
  lemma {:induction false} OwnWideStays(directory: Bytes, x: nat, end: nat, fixed: Wide, sofar: Wide)
    requires ReadCentralExtras(directory, x, end, fixed, sofar).Some?
    ensures var w := ReadCentralExtras(directory, x, end, fixed, sofar).value;
            && (fixed.size != 0xffff_ffff ==> w.size == sofar.size)
            && (fixed.compressedSize != 0xffff_ffff ==> w.compressedSize == sofar.compressedSize)
            && (fixed.offset != 0xffff_ffff ==> w.offset == sofar.offset)
    decreases end - x
  {
    hide Get16, Get64;
    if x + 4 <= end {
      var next := ApplyCentralExtra(directory, x, fixed, sofar).value;
      OwnWideStays(directory, x + 4 + Get16(directory, x + 2), end, fixed, next);
    }
  }

  // ---------- the directory ----------

  /** What is read of a directory entry: its name, its values, and where the next one starts, behind its comment. */
  lemma CentralMeans(directory: Bytes, at: nat)
    requires at + 46 <= |directory|
    ensures at + 46 + Get16(directory, at + 28) > |directory| ==> ReadCentral(directory, at).None?
    ensures ReadCentral(directory, at).Some? ==>
              var (e, next) := ReadCentral(directory, at).value;
              var n := Get16(directory, at + 28);
              && at + 46 + n <= |directory| && e.name == directory[at + 46..at + 46 + n]
              && next == at + 46 + n + Get16(directory, at + 30) + Get16(directory, at + 32)
              && e.member.compression == Get16(directory, at + 10) && e.member.crc == Get32(directory, at + 16)
              && (Get32(directory, at + 20) != 0xffff_ffff ==> e.member.compressedSize == Get32(directory, at + 20))
              && (Get32(directory, at + 24) != 0xffff_ffff ==> e.member.size == Get32(directory, at + 24))
              && (Get32(directory, at + 42) != 0xffff_ffff ==> e.member.offset == Get32(directory, at + 42))
  {
    hide Get16, Get32, Get64, ReadCentralExtras;
    if ReadCentral(directory, at).Some? {
      var fixed := Wide(Get32(directory, at + 24), Get32(directory, at + 20), Get32(directory, at + 42));
      var extraAt := at + 46 + Get16(directory, at + 28);
      OwnWideStays(directory, extraAt, extraAt + Get16(directory, at + 30), fixed, fixed);
    }
  }

  /** The list is taken entry by entry, up to the first place where there is none. */
  lemma ListMeans(directory: Bytes, at: nat)
    ensures at + 46 > |directory| ==> ListFrom(directory, at) == Ok([])
    ensures at + 46 <= |directory| && Get32(directory, at) != 0x0201_4b50 ==> ListFrom(directory, at) == Ok([])
    ensures at + 46 <= |directory| && Get32(directory, at) == 0x0201_4b50 ==>
              match ReadCentral(directory, at)
              case None => ListFrom(directory, at).Error?
              case Some((e, next)) =>
                (ListFrom(directory, at).Ok? <==> ListFrom(directory, next).Ok?)
                && (ListFrom(directory, at).Ok? ==>
                      ListFrom(directory, at).value == [e] + ListFrom(directory, next).value)
  {
    hide Get32, ReadCentral;
  }

  // ---------- members ----------

  /** What is read of a member's header, wherever it came from. */
  lemma LocalMeans(file: Bytes, at: nat)
    ensures at + 30 > |file| ==> ReadLocal(file, at).None?
    ensures at + 30 <= |file| && Get32(file, at) != 0x0403_4b50 ==> ReadLocal(file, at).None?
    ensures at + 30 <= |file| && at + 30 + Get16(file, at + 26) + Get16(file, at + 28) > |file| ==>
              ReadLocal(file, at).None?
    ensures ReadLocal(file, at).Some? ==>
              var l := ReadLocal(file, at).value;
              var n := Get16(file, at + 26);
              && Get32(file, at) == 0x0403_4b50 && l.dataAt == at + 30 + n + Get16(file, at + 28)
              && l.dataAt + l.member.compressedSize <= |file| && l.name == file[at + 30..at + 30 + n]
              && l.member.offset == at && l.member.compression == Get16(file, at + 8)
              && l.dos == DosTime(Get16(file, at + 10), Get16(file, at + 12)) && l.member.crc == Get32(file, at + 14)
              && (Get32(file, at + 18) != 0xffff_ffff ==> l.member.compressedSize == Get32(file, at + 18))
              && (Get32(file, at + 22) != 0xffff_ffff ==> l.member.size == Get32(file, at + 22))
  {
    hide Get16, Get32, Get64, ReadExtras;
    if at + 30 <= |file| {
      var h := file[at..at + 30];
      HeaderFields(file, at, h);
      var dataAt := at + 30 + Get16(h, 26) + Get16(h, 28);
      if dataAt <= |file| {
        var rest, n := file[at + 30..dataAt], Get16(h, 26);
        assert rest[..n] == file[at + 30..at + 30 + n];
        var fixed := Sizes(Get32(h, 22), Get32(h, 18));
        OwnSizesStay(rest, n, fixed, fixed);
      }
    }
  }

  lemma HeaderFields(file: Bytes, at: nat, h: Bytes)
    requires at + |h| <= |file| && |h| == 30 && h == file[at..at + 30]
    ensures Get32(h, 0) == Get32(file, at) && Get16(h, 8) == Get16(file, at + 8) && Get16(h, 10) == Get16(file, at + 10)
    ensures Get16(h, 12) == Get16(file, at + 12) && Get32(h, 14) == Get32(file, at + 14)
    ensures Get32(h, 18) == Get32(file, at + 18) && Get32(h, 22) == Get32(file, at + 22)
    ensures Get16(h, 26) == Get16(file, at + 26) && Get16(h, 28) == Get16(file, at + 28)
  {
    hide Get16, Get32, Get64;
    Shifted(file, at, h, 0);
    Shifted(file, at, h, 8);
    Shifted(file, at, h, 10);
    Shifted(file, at, h, 12);
    Shifted(file, at, h, 14);
    Shifted(file, at, h, 18);
    Shifted(file, at, h, 22);
    Shifted(file, at, h, 26);
    Shifted(file, at, h, 28);
  }

  /** The walk takes one member after another, from the start, while there is one. */
  lemma WalkMeans(file: Bytes, sofar: Layout)
    ensures Recover(file) == RecoverFrom(file, Layout(0, [], 0))
    ensures ReadLocal(file, sofar.appendAt).None? ==> RecoverFrom(file, sofar) == sofar
    ensures ReadLocal(file, sofar.appendAt).Some? ==>
              var l := ReadLocal(file, sofar.appendAt).value;
              RecoverFrom(file, sofar)
              == RecoverFrom(file, Layout(l.dataAt + l.member.compressedSize,
                                          sofar.directory + CentralHeader(l.name, l.member, l.dos), sofar.entries + 1))
  {
    hide ReadLocal, CentralHeader;
  }

  // ---------- extracting ----------

  /**
   * A member is extracted exactly if the header at its offset has its compressed size and its method, its bytes unpack,
   * and what they unpack to has its size and its CRC.
   */
  lemma ExtractMeans(c: Codec, file: Bytes, m: ZipMember, out: Bytes)
    ensures Extract(c, file, m) == Ok(out) <==>
              && ReadLocal(file, m.offset).Some?
              && var l := ReadLocal(file, m.offset).value;
                 && l.member.compressedSize == m.compressedSize && l.member.compression == m.compression
                 && var data := file[l.dataAt..l.dataAt + m.compressedSize];
                    && (if m.compression == 0 || data == [] then out == data else c.inflate(data) == Some(out))
                    && |out| == m.size && c.crc(0, out) == m.crc
  {
    hide ReadLocal;
  }

  /** An append stores the source, or what it deflates to, under method 0 or 8. */
  lemma StoredMeans(c: Codec, r: Request, offset: nat)
    ensures Stored(c, r) == if r.deflate then c.deflate(r.source) else r.source
    ensures NewMember(c, r, offset)
         == ZipMember(offset, |if r.deflate then c.deflate(r.source) else r.source|, |r.source|, c.crc(0, r.source),
                      if r.deflate then 8 else 0)
  {
  }
}
