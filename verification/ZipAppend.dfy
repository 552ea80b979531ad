/**
 * Appending to an archive: the writes it makes, where they leave the file, and what the walk over the members finds
 * after an interruption of them.
 *
 * Writes land in order and the last one may land in part, except the rewrite of the local header, which
 * lands whole or not at all.
 */
module ZipAppend {
  import opened LittleEndian
  import opened Outcome
  import opened ZipFormat
  import opened ZipRoundTrip
  import opened ZipArchive

  /** zlib, as far as it is relied on: a running CRC, and a deflate that inflate undoes. */
  datatype Codec = Codec(crc: (Word, Bytes) -> Word, deflate: Bytes -> Bytes, inflate: Bytes -> Option<Bytes>)

  ghost predicate Laws(c: Codec) {
    && (forall k: Word :: c.crc(k, []) == k)
    && (forall k: Word, s, t :: c.crc(c.crc(k, s), t) == c.crc(k, s + t))
    && (forall s :: c.inflate(c.deflate(s)) == Some(s))
    && (forall s :: c.deflate(s) != [])
  }

  datatype Request = Request(name: Bytes, source: Bytes, deflate: bool, dos: DosTime)

  /** What Append() asks of its entry name; a source file has fewer than 2^63 bytes. */
  predicate Acceptable(r: Request) {
    1 <= |r.name| <= 0xffff && |r.source| < 0x8000_0000_0000_0000
  }

  function Stored(c: Codec, r: Request): Bytes {
    if r.deflate then c.deflate(r.source) else r.source
  }

  function NewMember(c: Codec, r: Request, offset: nat): ZipMember {
    ZipMember(offset, |Stored(c, r)|, |r.source|, c.crc(0, r.source), if r.deflate then 8 else 0)
  }

  /** The member as it is while its bytes are still arriving. */
  function Blank(r: Request, offset: nat): ZipMember {
    ZipMember(offset, 0, 0, 0, if r.deflate then 8 else 0)
  }

  function NewItem(c: Codec, r: Request, offset: nat): Item {
    Item(r.name, r.dos, NewMember(c, r, offset), Stored(c, r))
  }

  // ---------- writes ----------

  datatype Write = Write(at: nat, bytes: Bytes) | Resize(size: nat)

  function Beyond(file: Bytes, n: nat): Bytes {
    if n <= |file| then file[n..] else []
  }

  function Overwrite(file: Bytes, at: nat, bytes: Bytes): Bytes
    requires at <= |file|
  {
    file[..at] + bytes + Beyond(file, at + |bytes|)
  }

  function Land(file: Bytes, w: Write): Bytes {
    match w
    case Write(at, bytes) => if at <= |file| then Overwrite(file, at, bytes) else file
    case Resize(size) => if size <= |file| then file[..size] else file
  }

  /** The file once the first i writes have landed. */
  function After(file: Bytes, ws: seq<Write>, i: nat): Bytes
    requires i <= |ws|
  {
    if i == 0 then file else Land(After(file, ws, i - 1), ws[i - 1])
  }

  /** The writes of one append, in order; the third is the header rewrite. */
  function AppendWrites(c: Codec, file: Bytes, r: Request): (ws: seq<Write>)
    ensures |ws| == 6
  {
    var layout := LayoutOf(file);
    var at := layout.appendAt;
    var placeholder := LocalHeader(r.name, Blank(r, at), r.dos, false);
    var member := NewMember(c, r, at);
    var dataEnd := at + |placeholder| + |Stored(c, r)|;
    var directory := layout.directory + CentralHeader(r.name, member, r.dos);
    var end := Trailer(dataEnd, |directory|, layout.entries + 1);
    [Write(at, placeholder), Write(at + |placeholder|, Stored(c, r)),
     Write(at, LocalHeader(r.name, member, r.dos, true)),
     Write(dataEnd, directory), Write(dataEnd + |directory|, end),
     Resize(dataEnd + |directory| + |end|)]
  }

  const HEADER_WRITE := 2

  function First(s: Bytes, k: nat): Bytes {
    if k <= |s| then s[..k] else s
  }

  /** An append stopped after its first i writes and k bytes of the next; a header rewrite has no part. */
  function Interrupted(c: Codec, file: Bytes, r: Request, i: nat, k: nat): Bytes
    requires i < 6
  {
    var ws := AppendWrites(c, file, r);
    var landed := After(file, ws, i);
    if ws[i].Write? && i != HEADER_WRITE then Land(landed, Write(ws[i].at, First(ws[i].bytes, k))) else landed
  }

  function Appended(c: Codec, file: Bytes, r: Request): Bytes {
    After(file, AppendWrites(c, file, r), 6)
  }

  // ---------- where the writes leave the file ----------

  /** Writing at the end of what is settled replaces as much of the rest as it is long. */
  lemma WriteBehind(a: Bytes, rest: Bytes, b: Bytes)
    ensures Land(a + rest, Write(|a|, b)) == a + b + Beyond(rest, |b|)
  {
    assert (a + rest)[..|a|] == a;
    if |b| <= |rest| {
      assert (a + rest)[|a| + |b|..] == rest[|b|..];
    }
  }

  /** Rewriting bytes in place by as many others. */
  lemma WriteOver(a: Bytes, b: Bytes, b': Bytes, rest: Bytes)
    requires |b| == |b'|
    ensures Land(a + b + rest, Write(|a|, b')) == a + b' + rest
  {
    assert a + b + rest == a + (b + rest);
    assert Beyond(b + rest, |b'|) == rest;
    WriteBehind(a, b + rest, b');
  }

  /** The file after i whole writes: the settled part, and what is left of the old bytes behind it. */
  lemma Landing(ws: seq<Write>, a: Bytes, rest: Bytes, ph: Bytes, data: Bytes, h: Bytes, d: Bytes, e: Bytes,
                m: Bytes, left: Bytes)
    requires |ph| == |h| && m == a + h + data && left == Beyond(Beyond(rest, |ph|), |data|)
    requires ws == [Write(|a|, ph), Write(|a| + |ph|, data), Write(|a|, h), Write(|m|, d), Write(|m| + |d|, e),
                    Resize(|m| + |d| + |e|)]
    ensures After(a + rest, ws, 0) == a + rest
    ensures After(a + rest, ws, 1) == a + ph + Beyond(rest, |ph|)
    ensures After(a + rest, ws, 2) == a + ph + data + left
    ensures After(a + rest, ws, 3) == m + left
    ensures After(a + rest, ws, 4) == m + d + Beyond(left, |d|)
    ensures After(a + rest, ws, 5) == m + d + e + Beyond(Beyond(left, |d|), |e|)
    ensures After(a + rest, ws, 6) == m + d + e
  {
    hide Beyond, Land, After;
    LandingData(a, rest, ph, data, h);
    WriteBehind(m, left, d);
    WriteBehind(m + d, Beyond(left, |d|), e);
    Cut(m + d + e, Beyond(Beyond(left, |d|), |e|));
    Chain(ws, a + rest, a + ph + Beyond(rest, |ph|), a + ph + data + left, m + left, m + d + Beyond(left, |d|),
          m + d + e + Beyond(Beyond(left, |d|), |e|), m + d + e);
  }

  lemma Chain(ws: seq<Write>, f0: Bytes, f1: Bytes, f2: Bytes, f3: Bytes, f4: Bytes, f5: Bytes, f6: Bytes)
    requires |ws| == 6 && Land(f0, ws[0]) == f1 && Land(f1, ws[1]) == f2 && Land(f2, ws[2]) == f3
    requires Land(f3, ws[3]) == f4 && Land(f4, ws[4]) == f5 && Land(f5, ws[5]) == f6
    ensures After(f0, ws, 0) == f0 && After(f0, ws, 1) == f1 && After(f0, ws, 2) == f2 && After(f0, ws, 3) == f3
    ensures After(f0, ws, 4) == f4 && After(f0, ws, 5) == f5 && After(f0, ws, 6) == f6
  {
    hide Land;
  }

  lemma LandingData(a: Bytes, rest: Bytes, ph: Bytes, data: Bytes, h: Bytes)
    requires |ph| == |h|
    ensures var left := Beyond(Beyond(rest, |ph|), |data|);
      var f1 := a + ph + Beyond(rest, |ph|); var f2 := a + ph + data + left;
      && Land(a + rest, Write(|a|, ph)) == f1
      && Land(f1, Write(|a| + |ph|, data)) == f2
      && Land(f2, Write(|a|, h)) == a + h + data + left
  {
    hide Beyond, Land;
    var left := Beyond(Beyond(rest, |ph|), |data|);
    WriteBehind(a, rest, ph);
    WriteBehind(a + ph, Beyond(rest, |ph|), data);
    assert a + ph + data + left == a + ph + (data + left);
    WriteOver(a, ph, h, data + left);
    assert a + h + (data + left) == a + h + data + left;
  }

  lemma Cut(a: Bytes, rest: Bytes)
    ensures Land(a + rest, Resize(|a|)) == a
  {
  }

  /** The parts an append is made of, in terms of the members the archive already holds. */
  lemma WritesFor(c: Codec, file: Bytes, items: seq<Item>, r: Request)
    requires Holds(file, items) && LayoutOf(file) == LayoutFor(items)
    ensures var a := Members(items); var x := NewItem(c, r, |a|);
      var ph := LocalHeader(r.name, Blank(r, |a|), r.dos, false); var h := LocalHeader(x.name, x.member, x.dos, true);
      var m, d := Members(items + [x]), Directory(items + [x]); var e := Trailer(|m|, |d|, |items| + 1);
      && |ph| == |h| && file == a + file[|a|..] && m == a + h + x.data
      && AppendWrites(c, file, r)
         == [Write(|a|, ph), Write(|a| + |ph|, x.data), Write(|a|, h), Write(|m|, d), Write(|m| + |d|, e),
             Resize(|m| + |d| + |e|)]
  {
    hide LocalHeader, CentralHeader, Trailer, LayoutOf, Members, Directory;
    var x := NewItem(c, r, |Members(items)|);
    LocalHeaderLength(r.name, Blank(r, |Members(items)|), r.dos, false);
    LocalHeaderLength(x.name, x.member, x.dos, true);
    SnocMembers(items, x);
  }

  /** What an append works with: the members there were, and what it will put behind them. */
  datatype Parts = Parts(members: Bytes, placeholder: Bytes, data: Bytes, grown: Bytes, directory: Bytes, end: Bytes,
                         rest: Bytes, left: Bytes)

  function PartsOf(c: Codec, file: Bytes, items: seq<Item>, r: Request): (p: Parts)
    ensures p.members == Members(items) && p.data == Stored(c, r)
  {
    var a := Members(items);
    var x := NewItem(c, r, |a|);
    var ph := LocalHeader(r.name, Blank(r, |a|), r.dos, false);
    var m, d := Members(items + [x]), Directory(items + [x]);
    Parts(a, ph, x.data, m, d, Trailer(|m|, |d|, |items| + 1), Beyond(file, |a|),
          Beyond(Beyond(Beyond(file, |a|), |ph|), |x.data|))
  }

  /** The file after each of an append's writes. */
  lemma AppendLanding(c: Codec, file: Bytes, items: seq<Item>, r: Request, p: Parts)
    requires Holds(file, items) && LayoutOf(file) == LayoutFor(items) && p == PartsOf(c, file, items, r)
    ensures p.members <= p.grown
    ensures var ws := AppendWrites(c, file, r);
      && ws[0] == Write(|p.members|, p.placeholder) && ws[1] == Write(|p.members + p.placeholder|, p.data)
      && ws[2].Write? && ws[3] == Write(|p.grown|, p.directory) && ws[4] == Write(|p.grown + p.directory|, p.end)
      && ws[5].Resize?
      && After(file, ws, 0) == file == p.members + p.rest
      && After(file, ws, 1) == p.members + p.placeholder + Beyond(p.rest, |p.placeholder|)
      && After(file, ws, 2) == p.members + p.placeholder + p.data + p.left
      && After(file, ws, 3) == p.grown + p.left
      && After(file, ws, 4) == p.grown + p.directory + Beyond(p.left, |p.directory|)
      && After(file, ws, 5) == p.grown + p.directory + p.end + Beyond(Beyond(p.left, |p.directory|), |p.end|)
      && After(file, ws, 6) == p.grown + p.directory + p.end
  {
    hide LocalHeader, CentralHeader, Trailer, LayoutOf, Members, Directory, AppendWrites, After;
    var a := p.members;
    assert file == a + file[|a|..] && p.rest == file[|a|..];
    var x := NewItem(c, r, |a|);
    WritesFor(c, file, items, r);
    Landing(AppendWrites(c, file, r), a, p.rest, p.placeholder, p.data, LocalHeader(x.name, x.member, x.dos, true),
            p.directory, p.end, p.grown, p.left);
  }

  lemma NewItemFits(c: Codec, items: seq<Item>, r: Request)
    requires WellFormed(items) && Acceptable(r)
    requires |Members(items)| + |Stored(c, r)| < 0x1_0000_0000_0000_0000
    ensures WellFormed(items + [NewItem(c, r, |Members(items)|)])
  {
    hide Members;
    SnocWellFormed(items, NewItem(c, r, |Members(items)|));
  }

  /** A finished append leaves a complete archive: the members there were, and the new one. */
  lemma AppendCompletes(c: Codec, file: Bytes, items: seq<Item>, r: Request)
    requires Holds(file, items) && LayoutOf(file) == LayoutFor(items) && Acceptable(r)
    requires |Appended(c, file, r)| < 0x8000_0000_0000_0000
    ensures Complete(Appended(c, file, r), items + [NewItem(c, r, |Members(items)|)])
  {
    hide LocalHeader, CentralHeader, Trailer, LayoutOf, AppendWrites, After, Beyond, WellFormed, Directory, Members;
    var p := PartsOf(c, file, items, r);
    AppendLanding(c, file, items, r, p);
    SnocMembers(items, NewItem(c, r, |Members(items)|));
    NewItemFits(c, items, r);
  }

  // ---------- interrupted appends ----------

  /** The place the next member goes to does not read as a member: that is where the walk stops. */
  lemma StopsAtAppend(file: Bytes)
    ensures ReadLocal(file, LayoutOf(file).appendAt).None?
  {
    hide ReadLocal, Get16, Get64, RecoverFrom;
    match FromDirectory(file)
    case None =>
    case Some(l) =>
      var at, end := l.appendAt, l.appendAt + |l.directory|;
      if l.directory != [] {
        assert file[at..at + |l.directory|] == l.directory;
        Shifted(file, at, l.directory, 0);
      } else {
        Shifted(file, at, file[end..end + ZIP64_END_SIZE], 0);
      }
      NoMemberAt(file, at);
  }

  /** Once a byte of a placeholder has landed, no member begins there. */
  lemma PlaceholderIsNoMember(file: Bytes, at: nat)
    requires at < |file| && file[at] == 0
    ensures ReadLocal(file, at).None?
  {
    hide ReadLocal;
    if at + 4 <= |file| {
      assert Get32(file, at) % 0x100 == 0;
    }
    NoMemberAt(file, at);
  }

  lemma PlaceholderStartsZero(name: Bytes, m: ZipMember, dos: DosTime)
    ensures LocalHeader(name, m, dos, false) != [] && LocalHeader(name, m, dos, false)[0] == 0
  {
    assert Put32(0)[0] == 0;
    assert LocalFixed(|name|, m, dos, false)[..4] == Put32(0);
    assert LocalFixed(|name|, m, dos, false)[0] == Put32(0)[0];
  }

  /** What of the placeholder and the data has landed. */
  function Landed(c: Codec, r: Request, at: nat, i: nat, k: nat): Bytes {
    var ph := LocalHeader(r.name, Blank(r, at), r.dos, false);
    if i == 0 then First(ph, k) else if i == 1 then ph + First(Stored(c, r), k) else ph + Stored(c, r)
  }

  lemma BeyondBeyond(s: Bytes, m: nat, n: nat)
    ensures Beyond(Beyond(s, m), n) == Beyond(s, m + n)
  {
  }

  /** A file interrupted before the header rewrite: its members, what landed, and the rest of the old bytes. */
  lemma InterruptedBytes(c: Codec, file: Bytes, items: seq<Item>, r: Request, i: nat, k: nat)
    requires Holds(file, items) && LayoutOf(file) == LayoutFor(items) && i <= HEADER_WRITE
    ensures var a := Members(items); var w := Landed(c, r, |a|, i, k);
      Interrupted(c, file, r, i, k) == a + w + Beyond(Beyond(file, |a|), |w|)
  {
    hide LocalHeader, CentralHeader, Trailer, LayoutOf, AppendWrites;
    hide After, Beyond, WellFormed, Members, Directory, Land;
    var a := Members(items);
    var p := PartsOf(c, file, items, r);
    AppendLanding(c, file, items, r, p);
    if i == 0 {
      WriteBehind(a, p.rest, First(p.placeholder, k));
    } else {
      var data := if i == 1 then First(p.data, k) else p.data;
      BeyondBeyond(p.rest, |p.placeholder|, |data|);
      if i == 1 {
        WriteBehind(a + p.placeholder, Beyond(p.rest, |p.placeholder|), data);
      }
      assert a + (p.placeholder + data) == a + p.placeholder + data;
    }
  }

  lemma NothingLanded(a: Bytes, file: Bytes)
    requires a <= file
    ensures a + [] + Beyond(Beyond(file, |a|), 0) == file
  {
  }

  /** Interrupted before the header rewrite, at whatever byte: the walk yields exactly the earlier members. */
  lemma CrashBeforeHeader(c: Codec, file: Bytes, items: seq<Item>, r: Request, i: nat, k: nat)
    requires Holds(file, items) && LayoutOf(file) == LayoutFor(items) && i <= HEADER_WRITE
    ensures Holds(Interrupted(c, file, r, i, k), items)
    ensures Recover(Interrupted(c, file, r, i, k)) == LayoutFor(items)
  {
    hide Interrupted, LayoutOf, Recover, ReadLocal, Members, LocalHeader, Beyond, WellFormed, Directory;
    var f, a := Interrupted(c, file, r, i, k), Members(items);
    var w := Landed(c, r, |a|, i, k);
    InterruptedBytes(c, file, items, r, i, k);
    PlaceholderStartsZero(r.name, Blank(r, |a|), r.dos);
    if w == [] {
      NothingLanded(a, file);
      StopsAtAppend(file);
    } else {
      PlaceholderIsNoMember(f, |a|);
    }
    RecoverLists(f, items);
  }

  lemma CentralIsNoMember(file: Bytes, m: Bytes, d: Bytes)
    requires m + d <= file && 4 <= |d| && Get32(d, 0) == CENTRAL_SIGNATURE
    ensures ReadLocal(file, |m|).None?
  {
    hide ReadLocal, Get32;
    Behind(m, d);
    assert file[|m|..|m| + |d|] == (m + d)[|m|..|m| + |d|];
    Shifted(file, |m|, d, 0);
    NoMemberAt(file, |m|);
  }

  /**
   * Interrupted after the header rewrite: the new member is there behind the earlier ones, and the walk
   * yields exactly these if and only if no old bytes at the data end read as yet another member.
   */
  lemma CrashAfterHeader(c: Codec, file: Bytes, items: seq<Item>, r: Request, i: nat, k: nat)
    requires Holds(file, items) && LayoutOf(file) == LayoutFor(items) && Acceptable(r)
    requires HEADER_WRITE < i < 6 && |Members(items)| + |Stored(c, r)| < 0x1_0000_0000_0000_0000
    ensures var f, all := Interrupted(c, file, r, i, k), items + [NewItem(c, r, |Members(items)|)];
      && Holds(f, all)
      && LayoutFor(all).directory <= Recover(f).directory && |all| <= Recover(f).entries
      && (Recover(f) == LayoutFor(all) <==> ReadLocal(f, |Members(all)|).None?)
      // From the fourth directory byte on there is nothing left to mistake.
      && (i > 3 || 4 <= k ==> Recover(f) == LayoutFor(all))
  {
    hide LocalHeader, CentralHeader, Trailer, LayoutOf, AppendWrites;
    hide After, Beyond, WellFormed, Members, Directory, Land;
    hide Recover, ReadLocal;
    var a := Members(items);
    var x := NewItem(c, r, |a|);
    var all, f := items + [x], Interrupted(c, file, r, i, k);
    var m, d := Members(all), Directory(all);
    NewItemFits(c, items, r);
    var p := PartsOf(c, file, items, r);
    AppendLanding(c, file, items, r, p);
    DirectorySignature(all);
    if i == 3 {
      WriteBehind(m, p.left, First(d, k));
      if 4 <= k {
        CentralIsNoMember(f, m, First(d, k));
      }
    } else {
      if i == 4 {
        WriteBehind(m + d, Beyond(p.left, |d|), First(p.end, k));
      }
      CentralIsNoMember(f, m, d);
    }
    RecoverLists(f, all);
  }

  // ---------- end records that are none ----------

  /**
   * The next append can be misled: a file that is itself end records, pointing at where they will lie, appended to
   * an empty archive and stopped just before the header rewrite, is believed by it, whatever number of entries it
   * claims; the walk finds none.
   */
  lemma ForgedEndRecords(c: Codec, file: Bytes, r: Request, claimed: nat)
    requires file == [] && !r.deflate && claimed < 0x1_0000_0000_0000_0000
    requires r.source == Trailer(LOCAL_HEADER_SIZE + |r.name| + LOCAL_EXTRA_SIZE, 0, claimed)
    requires |r.name| <= 0xffff
    ensures LayoutOf(Interrupted(c, file, r, HEADER_WRITE, 0))
         == Layout(LOCAL_HEADER_SIZE + |r.name| + LOCAL_EXTRA_SIZE, [], claimed)
    ensures Recover(Interrupted(c, file, r, HEADER_WRITE, 0)) == Layout(0, [], 0)
  {
    hide LocalHeader, Trailer, LayoutOf, FromDirectory, Recover, Interrupted;
    var f := Interrupted(c, file, r, HEADER_WRITE, 0);
    EmptyArchive();
    CrashBeforeHeader(c, file, [], r, HEADER_WRITE, 0);
    var ph := LocalHeader(r.name, Blank(r, 0), r.dos, false);
    LocalHeaderLength(r.name, Blank(r, 0), r.dos, false);
    FromDirectoryTrailer(ph, [], claimed);
    InterruptedBytes(c, file, [], r, HEADER_WRITE, 0);
    assert f == ph + [] + r.source;
    EndRecordsFirst(f);
  }

  lemma EndRecordsFirst(file: Bytes)
    ensures FromDirectory(file).Some? ==> LayoutOf(file) == FromDirectory(file).value
    ensures FromDirectory(file).None? ==> LayoutOf(file) == Recover(file)
  {
    hide FromDirectory, Recover;
  }

  lemma EmptyArchive()
    ensures FromDirectory([]).None? && LayoutOf([]) == LayoutFor([]) && Holds([], [])
  {
  }
}
