/**
 * The append after an interrupted one: what it takes the archive to hold, and exactly which bytes can mislead it.
 * An archive that has only seen finished appends is empty or complete; one that has seen interrupted ones is a torn
 * file, of which the last finished append left the untouched end.
 */
module ZipCrash {
  import opened LittleEndian
  import opened Outcome
  import opened ZipFormat
  import opened ZipRoundTrip
  import opened ZipArchive
  import opened ZipAppend
  import opened ZipTorn

  // ---------- what an interrupted append has laid over the old bytes ----------

  /** Placeholder and data, as they are written before the header is. */
  function Draft(c: Codec, items: seq<Item>, r: Request): Bytes {
    LocalHeader(r.name, Blank(r, |Members(items)|), r.dos, false) + Stored(c, r)
  }

  function Grown(c: Codec, items: seq<Item>, r: Request): seq<Item> {
    items + [NewItem(c, r, |Members(items)|)]
  }

  /** The directory and the end records a finished append leaves behind its member. */
  function NewEnd(c: Codec, items: seq<Item>, r: Request): Bytes {
    var all := Grown(c, items, r);
    Trailer(|Members(all)|, |Directory(all)|, |items| + 1)
  }

  /** Everything an append has to write, from its header on. */
  function Final(c: Codec, items: seq<Item>, r: Request): Bytes {
    ItemBytes(NewItem(c, r, |Members(items)|)) + Directory(Grown(c, items, r)) + NewEnd(c, items, r)
  }

  /** What of it has landed behind the earlier members after i whole writes and k bytes of the next. */
  function Laid(c: Codec, items: seq<Item>, r: Request, i: nat, k: nat): Bytes
    requires i < 6
  {
    if i <= HEADER_WRITE then Landed(c, r, |Members(items)|, i, k)
    else
      var member := ItemBytes(NewItem(c, r, |Members(items)|));
      var directory := Directory(Grown(c, items, r));
      if i == 3 then member + First(directory, k)
      else member + directory + if i == 4 then First(NewEnd(c, items, r), k) else NewEnd(c, items, r)
  }

  lemma BeyondChain(rest: Bytes, h: nat, data: nat, x: nat)
    ensures Beyond(Beyond(Beyond(rest, h), data), x) == Beyond(rest, h + data + x)
  {
    BeyondBeyond(rest, h, data);
    BeyondBeyond(rest, h + data, x);
  }

  /** At every interruption the file is the earlier members, what was laid, and the old bytes beyond. */
  lemma LaidBytes(c: Codec, file: Bytes, items: seq<Item>, r: Request, i: nat, k: nat)
    requires Holds(file, items) && LayoutOf(file) == LayoutFor(items) && i < 6
    ensures var a, w := Members(items), Laid(c, items, r, i, k);
            Interrupted(c, file, r, i, k) == a + w + Beyond(Beyond(file, |a|), |w|)
  {
    hide LocalHeader, CentralHeader, Trailer, LayoutOf, AppendWrites;
    hide After, Beyond, WellFormed, Members, Directory, Land;
    if i <= HEADER_WRITE {
      InterruptedBytes(c, file, items, r, i, k);
    } else {
      var p := PartsOf(c, file, items, r);
      var a, x := Members(items), NewItem(c, r, |Members(items)|);
      var member := ItemBytes(x);
      AppendLanding(c, file, items, r, p);
      SnocMembers(items, x);
      LocalHeaderLength(r.name, Blank(r, |a|), r.dos, false);
      LocalHeaderLength(x.name, x.member, x.dos, true);
      assert p.grown == a + member && |member| == |p.placeholder| + |p.data|;
      if i == 3 {
        var d := First(p.directory, k);
        WriteBehind(p.grown, p.left, d);
        BeyondChain(p.rest, |p.placeholder|, |p.data|, |d|);
        assert a + member + d == a + (member + d);
      } else {
        var d, t := p.directory, if i == 4 then First(p.end, k) else p.end;
        WriteBehind(p.grown + d, Beyond(p.left, |d|), t);
        BeyondBeyond(p.left, |d|, |t|);
        BeyondChain(p.rest, |p.placeholder|, |p.data|, |d| + |t|);
        assert a + member + d + t == a + (member + d + t);
      }
    }
  }

  /** Before the header rewrite it is a prefix of the draft, and every prefix can be it. */
  lemma LaidIsDraft(c: Codec, items: seq<Item>, r: Request, i: nat, k: nat)
    requires i <= HEADER_WRITE
    ensures Laid(c, items, r, i, k) <= Draft(c, items, r)
  {
    hide LocalHeader, Members;
  }

  lemma DraftIsLaid(c: Codec, items: seq<Item>, r: Request, n: nat) returns (i: nat, k: nat)
    requires n <= |Draft(c, items, r)|
    ensures i <= HEADER_WRITE && Laid(c, items, r, i, k) == Draft(c, items, r)[..n]
  {
    hide LocalHeader, Members;
    var ph := LocalHeader(r.name, Blank(r, |Members(items)|), r.dos, false);
    if n <= |ph| {
      i, k := 0, n;
    } else {
      i, k := 1, n - |ph|;
    }
  }

  /** From the header rewrite on it is a prefix of the final bytes. */
  lemma LaidIsFinal(c: Codec, items: seq<Item>, r: Request, i: nat, k: nat)
    requires HEADER_WRITE < i < 6
    ensures Laid(c, items, r, i, k) <= Final(c, items, r)
  {
    hide ItemBytes, Directory, NewEnd, Grown, Members;
  }

  // ---------- exactly when the next append is misled ----------

  /** Whatever end records a file with a placeholder at its append offset ends in, they are not the members'. */
  lemma PlaceholderDecides(f: Bytes, items: seq<Item>)
    requires Recover(f) == LayoutFor(items) && |Members(items)| < |f| && f[|Members(items)|] == 0
    ensures LayoutOf(f) == LayoutFor(items) <==> !EndsInRecords(f)
  {
    hide FromDirectory, Recover, Get32, Get64, Members, Directory;
    EndRecordsFirst(f);
    IndexReads(f);
    ZeroSpellsNothing(f, |Members(items)|);
    if EndsInRecords(f) {
      var z: nat, d: nat :| RecordsSay(f, z, d);
      RecordsRead(f, z, d);
    }
  }

  /**
   * Before the header rewrite, over all interruptions: the next append builds on the earlier members after every one
   * of them if and only if no prefix of placeholder and data, laid over the old bytes, ends in end records.
   */
  lemma NextLayout(c: Codec, file: Bytes, items: seq<Item>, r: Request)
    requires Holds(file, items) && LayoutOf(file) == LayoutFor(items)
    ensures (forall i: nat, k: nat :: i <= HEADER_WRITE ==> LayoutOf(Interrupted(c, file, r, i, k)) == LayoutFor(items))
       <==> (forall n :: 1 <= n <= |Draft(c, items, r)| ==>
               !EndsInRecords(Members(items) + Draft(c, items, r)[..n] + Beyond(Beyond(file, |Members(items)|), n)))
  {
    hide Interrupted, LayoutOf, LayoutFor, Draft, EndsInRecords, Beyond, Members, WellFormed, Laid;
    var a, draft := Members(items), Draft(c, items, r);
    if forall i: nat, k: nat :: i <= HEADER_WRITE ==> LayoutOf(Interrupted(c, file, r, i, k)) == LayoutFor(items) {
      forall n | 1 <= n <= |draft| ensures !EndsInRecords(a + draft[..n] + Beyond(Beyond(file, |a|), n)) {
        var i, k := DraftIsLaid(c, items, r, n);
        CutDecides(c, file, items, r, i, k);
      }
    }
    if forall n :: 1 <= n <= |draft| ==> !EndsInRecords(a + draft[..n] + Beyond(Beyond(file, |a|), n)) {
      forall i: nat, k: nat | i <= HEADER_WRITE ensures LayoutOf(Interrupted(c, file, r, i, k)) == LayoutFor(items) {
        LaidIsDraft(c, items, r, i, k);
        assert Laid(c, items, r, i, k) == draft[..|Laid(c, items, r, i, k)|];
        CutDecides(c, file, items, r, i, k);
      }
    }
  }

  /** One interruption: nothing has landed, or end records decide. */
  lemma CutDecides(c: Codec, file: Bytes, items: seq<Item>, r: Request, i: nat, k: nat)
    requires Holds(file, items) && LayoutOf(file) == LayoutFor(items) && i <= HEADER_WRITE
    ensures var a, w := Members(items), Laid(c, items, r, i, k); var f := a + w + Beyond(Beyond(file, |a|), |w|);
            f == Interrupted(c, file, r, i, k) && (LayoutOf(f) == LayoutFor(items) <==> w == [] || !EndsInRecords(f))
  {
    hide LayoutOf, EndsInRecords, Recover, Interrupted, LocalHeader, Beyond, WellFormed, Members, Directory;
    var a, w := Members(items), Laid(c, items, r, i, k);
    var f := a + w + Beyond(Beyond(file, |a|), |w|);
    LaidBytes(c, file, items, r, i, k);
    if w == [] {
      NothingLanded(a, file);
    } else {
      CrashBeforeHeader(c, file, items, r, i, k);
      PlaceholderStartsZero(r.name, Blank(r, |a|), r.dos);
      assert f[|a|] == w[0] == 0;
      PlaceholderDecides(f, items);
    }
  }

  /**
   * After the header rewrite: the next append builds on the earlier members and the new one if and only if the file
   * ends in records that say so, or in none and the bytes behind the new member do not read as another.
   */
  lemma NextLayoutKept(c: Codec, file: Bytes, items: seq<Item>, r: Request, i: nat, k: nat)
    requires Holds(file, items) && LayoutOf(file) == LayoutFor(items) && Acceptable(r)
    requires HEADER_WRITE < i < 6 && |Members(items)| + |Stored(c, r)| < 0x1_0000_0000_0000_0000
    ensures var f, all := Interrupted(c, file, r, i, k), Grown(c, items, r);
            LayoutOf(f) == LayoutFor(all)
            <==> if EndsInRecords(f) then FromDirectory(f) == Some(LayoutFor(all))
                 else ReadLocal(f, |Members(all)|).None?
  {
    hide LayoutOf, FromDirectory, Recover, Interrupted, ReadLocal;
    hide Members, Directory, WellFormed, Stored, EndsInRecords;
    var f := Interrupted(c, file, r, i, k);
    CrashAfterHeader(c, file, items, r, i, k);
    EndRecordsFirst(f);
    IndexReads(f);
  }

  // ---------- archives that have been torn ----------

  /** The file the last finished append left, for the first j members; empty before the first. */
  ghost predicate IsBase(b: Bytes, items: seq<Item>) {
    if items == [] then b == [] else Complete(b, items)
  }

  function MembersEnd(items: seq<Item>): nat { |Members(items)| }

  function DirectoryEnd(items: seq<Item>): nat { |Members(items)| + |Directory(items)| }

  /** Finished as b with the first j members and not touched since, or written over up to e. */
  ghost predicate TornSince(file: Bytes, items: seq<Item>, b: Bytes, j: nat, e: nat) {
    && j <= |items| && IsBase(b, items[..j])
    && if file == b then j == |items|
       else MembersEnd(items) <= e && Torn(file, b, MembersEnd(items[..j]), DirectoryEnd(items[..j]), e)
  }

  ghost predicate Archive(file: Bytes, items: seq<Item>) {
    && Holds(file, items) && LayoutOf(file) == LayoutFor(items)
    && exists b, j, e :: TornSince(file, items, b, j, e)
  }

  lemma FinishedParts(a: Bytes, d: Bytes, z: Bytes, l: Bytes, e: Bytes)
    requires |z| == ZIP64_END_SIZE && Get64(z, 40) == |d| && Get64(z, 48) == |a| && 4 <= |d|
    requires |l| == LOCATOR_SIZE && Get64(l, 8) == |a| + |d| && |e| == END_SIZE
    ensures Finished(a + d + (z + l + e), |a|, |a| + |d|)
  {
    hide Get64;
    var b := a + d + (z + l + e);
    assert b[|a| + |d|..|a| + |d| + |z|] == z;
    assert b[|a| + |d| + |z|..|a| + |d| + |z| + |l|] == l;
    Shifted(b, |a| + |d|, z, 40);
    Shifted(b, |a| + |d|, z, 48);
    Shifted(b, |a| + |d| + |z|, l, 8);
  }

  lemma TearOf(file: Bytes, items: seq<Item>) returns (b: Bytes, j: nat, e: nat)
    requires Archive(file, items)
    ensures TornSince(file, items, b, j, e) && j <= |items| && IsBase(b, items[..j])
  {
    hide Holds, LayoutOf, LayoutFor, IsBase, Torn;
    b, j, e :| TornSince(file, items, b, j, e);
  }

  lemma FinishedBytes(a: Bytes, d: Bytes, n: nat)
    requires 4 <= |d| && |a| + |d| < 0x1_0000_0000_0000_0000 && n < 0x1_0000_0000_0000_0000
    ensures Finished(a + d + Trailer(|a|, |d|, n), |a|, |a| + |d|)
  {
    hide Zip64End, Locator, EndRecord, Get32, Get64, Finished;
    Zip64EndFields(|a|, |d|, n);
    LocatorFields(|a| + |d|);
    FinishedParts(a, d, Zip64End(|a|, |d|, n), Locator(|a| + |d|), EndRecord());
  }

  lemma BaseIsFinished(b: Bytes, items: seq<Item>)
    requires IsBase(b, items)
    ensures Finished(b, MembersEnd(items), DirectoryEnd(items))
  {
    hide Members, Directory, Trailer, Get32, WellFormed, Finished;
    if items == [] {
      NothingThere();
    } else {
      DirectorySignature(items);
      ManyMembers(items);
      FinishedBytes(Members(items), Directory(items), |items|);
    }
  }

  lemma NothingThere()
    ensures Members([]) == [] && Directory([]) == [] && Finished([], 0, 0)
  {
  }

  lemma EmptyIsArchive()
    ensures Archive([], [])
  {
    hide LayoutOf, LayoutFor;
    EmptyArchive();
    assert TornSince([], [], [], 0, 0);
  }

  lemma CompleteIsArchive(file: Bytes, items: seq<Item>)
    requires Complete(file, items)
    ensures Archive(file, items)
  {
    hide LayoutOf, LayoutFor, WellFormed, Members, Directory, Trailer;
    IndexEqualsWalk(file, items);
    assert items[..|items|] == items;
    assert TornSince(file, items, file, |items|, 0);
  }

  // ---------- what is laid can be told from end records ----------

  /** Where the new end records go. */
  function EndAt(c: Codec, items: seq<Item>, r: Request): nat {
    DirectoryEnd(Grown(c, items, r))
  }

  /**
   * The check on the bytes of an interruption: what was laid, and the 42 bytes before it, spell neither the Zip64 end
   * record's nor the locator's signature but in the append's own end records; and right behind a member whose
   * directory has not landed there is no local signature.
   */
  ghost predicate Telling(c: Codec, file: Bytes, items: seq<Item>, r: Request, i: nat, k: nat)
    requires i < 6
  {
    var f, a := Interrupted(c, file, r, i, k), MembersEnd(items);
    && Clear(f, a, a + |Laid(c, items, r, i, k)|, EndAt(c, items, r))
    && (i == 3 && k < 4 ==> !Spells(f, MembersEnd(Grown(c, items, r)), LOCAL_SIGNATURE))
  }

  lemma ItemStarts(x: Item)
    requires Encodable(x.name, x.member)
    ensures LOCAL_HEADER_SIZE <= |ItemBytes(x)| && Get32(ItemBytes(x), 0) == LOCAL_SIGNATURE
  {
    hide Get32, Put16, Put32, Put64;
    var h := ItemBytes(x);
    LocalFixedFields(|x.name|, x.member, x.dos, true);
    var fixed := LocalFixed(|x.name|, x.member, x.dos, true);
    assert h[..|fixed|] == fixed;
    Shifted(h, 0, fixed, 0);
  }

  lemma {:induction false} EndsGrow(items: seq<Item>, j: nat)
    requires j <= |items|
    ensures MembersEnd(items[..j]) <= MembersEnd(items) && DirectoryEnd(items[..j]) <= DirectoryEnd(items)
    decreases |items|
  {
    hide Members, Directory, ItemBytes, Central;
    if j == |items| {
      assert items[..j] == items;
    } else {
      var n := |items| - 1;
      EndsGrow(items[..n], j);
      assert items[..n][..j] == items[..j];
      assert items == items[..n] + [items[n]];
      SnocMembers(items[..n], items[n]);
    }
  }

  /** The new end records go behind the old ones' place, the old directory and the old members. */
  lemma EndIsBehind(c: Codec, items: seq<Item>, r: Request, j: nat)
    requires j <= |items|
    ensures DirectoryEnd(items[..j]) < EndAt(c, items, r)
  {
    hide LocalHeader, CentralHeader, Members, Directory;
    var x := NewItem(c, r, |Members(items)|);
    EndsGrow(items, j);
    SnocMembers(items, x);
    LocalHeaderLength(x.name, x.member, x.dos, true);
  }

  /** The first member added since the base lies where its directory was. */
  lemma MemberOverDirectory(file: Bytes, items: seq<Item>, j: nat)
    requires Holds(file, items) && j < |items|
    ensures MembersEnd(items[..j]) + 4 <= MembersEnd(items) && Spells(file, MembersEnd(items[..j]), LOCAL_SIGNATURE)
  {
    hide Members, ItemBytes, Get32, Encodable;
    var a0, x := |Members(items[..j])|, ItemBytes(items[j]);
    MemberAt(items, j);
    ItemStarts(items[j]);
    assert file[a0..a0 + |x|] == Members(items)[a0..a0 + |x|];
    Shifted(file, a0, x, 0);
  }

  lemma LaidStarts(c: Codec, items: seq<Item>, r: Request, i: nat, k: nat)
    requires i < 6 && Laid(c, items, r, i, k) != []
    requires i > HEADER_WRITE ==> Encodable(r.name, NewMember(c, r, |Members(items)|))
    ensures var w := Laid(c, items, r, i, k);
            w[0] == 0 || (i > HEADER_WRITE && Spells(w, 0, LOCAL_SIGNATURE))
  {
    hide LocalHeader, Members, Directory, Get32, Encodable, ItemBytes, NewEnd;
    PlaceholderStartsZero(r.name, Blank(r, |Members(items)|), r.dos);
    if i > HEADER_WRITE {
      var x, w := NewItem(c, r, |Members(items)|), Laid(c, items, r, i, k);
      ItemStarts(x);
      assert w[0..|ItemBytes(x)|] == ItemBytes(x);
      Shifted(w, 0, ItemBytes(x), 0);
    }
  }

  /** Writing over an archive's rest tears it, or tears it further. */
  lemma RestIsTorn(file: Bytes, items: seq<Item>, b: Bytes, j: nat, e: nat, w: Bytes, t: nat, f: Bytes)
    returns (e': nat)
    requires Holds(file, items) && TornSince(file, items, b, j, e)
    requires w != [] && (w[0] == 0 || Spells(w, 0, LOCAL_SIGNATURE)) && DirectoryEnd(items[..j]) < t
    requires f == Members(items) + w + Beyond(Beyond(file, |Members(items)|), |w|)
    requires Clear(f, MembersEnd(items), MembersEnd(items) + |w|, t)
    ensures MembersEnd(items) + |w| <= e'
    ensures Torn(f, b, MembersEnd(items[..j]), DirectoryEnd(items[..j]), e')
  {
    hide Members, Directory, WellFormed, Clear, Torn, IsBase, Finished, Get32, Spells, Beyond;
    var a0, z0, q := MembersEnd(items[..j]), DirectoryEnd(items[..j]), MembersEnd(items);
    var e0 := if file == b then a0 else e;
    BaseIsFinished(b, items[..j]);
    EndsGrow(items, j);
    if j == |items| {
      assert items[..j] == items;
    } else {
      MemberOverDirectory(file, items, j);
    }
    OverlayIs(file, Members(items), w);
    assert (file == b && q == e0 == a0) || Torn(file, b, a0, z0, e0);
    BaseLength(b, items[..j]);
    Tears(file, b, a0, z0, e0, q, w, t);
    e' := Later(e0, q + |w|);
  }

  lemma InterruptionTears(c: Codec, file: Bytes, items: seq<Item>, r: Request, i: nat, k: nat, b: Bytes, j: nat, e: nat)
    returns (e': nat)
    requires Holds(file, items) && LayoutOf(file) == LayoutFor(items) && TornSince(file, items, b, j, e)
    requires i < 6 && Laid(c, items, r, i, k) != []
    requires i > HEADER_WRITE ==> Encodable(r.name, NewMember(c, r, |Members(items)|))
    requires Clear(Interrupted(c, file, r, i, k), MembersEnd(items), MembersEnd(items) + |Laid(c, items, r, i, k)|,
                   EndAt(c, items, r))
    ensures MembersEnd(items) + |Laid(c, items, r, i, k)| <= e'
    ensures Torn(Interrupted(c, file, r, i, k), b, MembersEnd(items[..j]), DirectoryEnd(items[..j]), e')
  {
    hide LayoutOf, LayoutFor, Interrupted, Laid, Clear, Torn;
    hide EndAt, Encodable, Holds, TornSince, DirectoryEnd, Beyond, Spells;
    LaidBytes(c, file, items, r, i, k);
    LaidStarts(c, items, r, i, k);
    assert j <= |items| by { BaseWithin(file, items, b, j, e); }
    EndIsBehind(c, items, r, j);
    e' := RestIsTorn(file, items, b, j, e, Laid(c, items, r, i, k), EndAt(c, items, r), Interrupted(c, file, r, i, k));
  }

  lemma BaseWithin(file: Bytes, items: seq<Item>, b: Bytes, j: nat, e: nat)
    requires TornSince(file, items, b, j, e)
    ensures j <= |items|
  {
  }

  lemma OverlayIs(file: Bytes, a: Bytes, w: Bytes)
    requires a <= file
    ensures a + w + Beyond(Beyond(file, |a|), |w|) == file[..|a|] + w + Beyond(file, |a| + |w|)
  {
    BeyondBeyond(file, |a|, |w|);
  }

  // ---------- every interruption that can be told leaves an archive ----------

  /** The members an interrupted append leaves: the new one counts from its header on. */
  function ItemsAfter(c: Codec, items: seq<Item>, r: Request, i: nat): seq<Item> {
    if i <= HEADER_WRITE then items else Grown(c, items, r)
  }

  /** The append got as far as its last byte, or what it laid cannot be mistaken. */
  ghost predicate Safe(c: Codec, file: Bytes, items: seq<Item>, r: Request, i: nat, k: nat)
    requires i < 6
  {
    (i > 3 && Interrupted(c, file, r, i, k) == Appended(c, file, r)) || Telling(c, file, items, r, i, k)
  }

  lemma DraftKeepsArchive(c: Codec, file: Bytes, items: seq<Item>, r: Request, i: nat, k: nat)
    requires Archive(file, items) && i <= HEADER_WRITE && Telling(c, file, items, r, i, k)
    ensures Archive(Interrupted(c, file, r, i, k), items)
  {
    hide LayoutOf, LayoutFor, Interrupted, Laid, Clear, Torn;
    hide TornSince, Recover, Members, WellFormed, FromDirectory, IsBase;
    var f, w := Interrupted(c, file, r, i, k), Laid(c, items, r, i, k);
    LaidBytes(c, file, items, r, i, k);
    if w == [] {
      NothingLanded(Members(items), file);
    } else {
      var b, j, e := TearOf(file, items);
      var e' := InterruptionTears(c, file, items, r, i, k, b, j, e);
      TornIsArchive(f, items, b, j, e') by { CrashBeforeHeader(c, file, items, r, i, k); }
    }
  }

  /** Where a file is torn the walk decides. */
  lemma TornIsArchive(f: Bytes, items: seq<Item>, b: Bytes, j: nat, e: nat)
    requires Holds(f, items) && Recover(f) == LayoutFor(items)
    requires j <= |items| && IsBase(b, items[..j]) && MembersEnd(items) <= e
    requires Torn(f, b, MembersEnd(items[..j]), DirectoryEnd(items[..j]), e)
    ensures Archive(f, items)
  {
    hide LayoutFor, Recover, Members, WellFormed, FromDirectory;
    hide Finished, Directory, MembersEnd, DirectoryEnd, LayoutOf;
    BaseIsFinished(b, items[..j]);
    TornHasNoIndex(f, b, MembersEnd(items[..j]), DirectoryEnd(items[..j]), e);
    EndRecordsFirst(f);
    assert f != b by {
      hide Torn;
      if f == b { BaseHasIndex(b, items[..j]); }
    }
    assert TornSince(f, items, b, j, e);
  }

  lemma BaseHasIndex(b: Bytes, items: seq<Item>)
    requires IsBase(b, items)
    ensures b == [] || FromDirectory(b).Some?
  {
    hide FromDirectory, LayoutFor, LayoutOf, Recover, WellFormed, Members, Directory, Trailer;
    if items != [] { IndexEqualsWalk(b, items); }
  }

  lemma StoppedSize(c: Codec, file: Bytes, items: seq<Item>, r: Request, i: nat, k: nat)
    requires Holds(file, items) && LayoutOf(file) == LayoutFor(items) && HEADER_WRITE < i < 6
    requires |Interrupted(c, file, r, i, k)| < 0x8000_0000_0000_0000
    ensures |Members(items)| + |Stored(c, r)| < 0x8000_0000_0000_0000
  {
    hide LocalHeader, CentralHeader, Trailer, LayoutOf, AppendWrites;
    hide After, Beyond, WellFormed, Members, Directory, Land;
    var p := PartsOf(c, file, items, r);
    AppendLanding(c, file, items, r, p);
    SnocMembers(items, NewItem(c, r, |p.members|));
    if i == 3 {
      WriteBehind(p.grown, p.left, First(p.directory, k));
    } else if i == 4 {
      WriteBehind(p.grown + p.directory, Beyond(p.left, |p.directory|), First(p.end, k));
    }
  }

  lemma KeptReads(c: Codec, file: Bytes, items: seq<Item>, r: Request, i: nat, k: nat)
    requires Holds(file, items) && LayoutOf(file) == LayoutFor(items) && Acceptable(r) && HEADER_WRITE < i < 6
    requires |Interrupted(c, file, r, i, k)| < 0x8000_0000_0000_0000
    requires i == 3 && k < 4 ==> !Spells(Interrupted(c, file, r, i, k), MembersEnd(Grown(c, items, r)), LOCAL_SIGNATURE)
    ensures var f, all := Interrupted(c, file, r, i, k), Grown(c, items, r);
            Holds(f, all) && Recover(f) == LayoutFor(all) && Encodable(r.name, NewMember(c, r, |Members(items)|))
  {
    hide LayoutOf, LayoutFor, Interrupted, Recover, Members, WellFormed, Directory, ReadLocal, Stored, Get32;
    var f, all := Interrupted(c, file, r, i, k), Grown(c, items, r);
    StoppedSize(c, file, items, r, i, k);
    CrashAfterHeader(c, file, items, r, i, k);
    if i == 3 && k < 4 {
      NoMemberAt(f, MembersEnd(all));
    }
  }

  lemma FinalKeepsArchive(c: Codec, file: Bytes, items: seq<Item>, r: Request, i: nat, k: nat)
    requires Archive(file, items) && Acceptable(r) && HEADER_WRITE < i < 6 && Telling(c, file, items, r, i, k)
    requires |Interrupted(c, file, r, i, k)| < 0x8000_0000_0000_0000
    ensures Archive(Interrupted(c, file, r, i, k), Grown(c, items, r))
  {
    hide LayoutOf, LayoutFor, Interrupted, Clear, Torn, Recover, Members, WellFormed, IsBase, Encodable, Spells, Holds;
    hide TornSince, DirectoryEnd, EndAt, Laid;
    var f, all := Interrupted(c, file, r, i, k), Grown(c, items, r);
    KeptReads(c, file, items, r, i, k);
    var b, j, e := TearOf(file, items);
    LaidCoversMember(c, items, r, i, k);
    var e' := InterruptionTears(c, file, items, r, i, k, b, j, e);
    assert all[..j] == items[..j];
    TornIsArchive(f, all, b, j, e');
  }

  lemma LaidCoversMember(c: Codec, items: seq<Item>, r: Request, i: nat, k: nat)
    requires HEADER_WRITE < i < 6 && Encodable(r.name, NewMember(c, r, |Members(items)|))
    ensures Laid(c, items, r, i, k) != []
    ensures MembersEnd(Grown(c, items, r)) <= MembersEnd(items) + |Laid(c, items, r, i, k)|
  {
    hide Members, Directory, ItemBytes, NewEnd, Encodable, Get32;
    var x := NewItem(c, r, |Members(items)|);
    ItemStarts(x);
    SnocMembers(items, x);
  }

  /**
   * An archive that an interruption hits at any byte of any write is one of the earlier members, and from the header
   * rewrite on of the new one too, as long as what was laid can be told from end records.
   */
  lemma CrashKeepsArchive(c: Codec, file: Bytes, items: seq<Item>, r: Request, i: nat, k: nat)
    requires Archive(file, items) && Acceptable(r) && i < 6 && Safe(c, file, items, r, i, k)
    requires |Interrupted(c, file, r, i, k)| < 0x8000_0000_0000_0000
    ensures Archive(Interrupted(c, file, r, i, k), ItemsAfter(c, items, r, i))
  {
    hide Interrupted, Appended, Telling, LayoutOf, LayoutFor, Complete, Holds, TornSince;
    if i > 3 && Interrupted(c, file, r, i, k) == Appended(c, file, r) {
      AppendCompletes(c, file, items, r);
      CompleteIsArchive(Appended(c, file, r), Grown(c, items, r));
    } else if i <= HEADER_WRITE {
      DraftKeepsArchive(c, file, items, r, i, k);
    } else {
      FinalKeepsArchive(c, file, items, r, i, k);
    }
  }

  lemma FinishedIsArchive(c: Codec, file: Bytes, items: seq<Item>, r: Request)
    requires Archive(file, items) && Acceptable(r) && |Appended(c, file, r)| < 0x8000_0000_0000_0000
    ensures Archive(Appended(c, file, r), Grown(c, items, r)) && Complete(Appended(c, file, r), Grown(c, items, r))
  {
    hide Appended, LayoutOf, LayoutFor, Complete, Holds, TornSince;
    AppendCompletes(c, file, items, r);
    CompleteIsArchive(Appended(c, file, r), Grown(c, items, r));
  }

  // ---------- the first interruption ----------

  /** No four bytes spell the signature of a locator or of a Zip64 end record, but where the append's own are. */
  predicate Unsigned(w: Bytes, own: int) {
    forall p :: 0 <= p && p + 4 <= |w| ==>
      && (Get32(w, p) == ZIP64_END_SIGNATURE ==> p == own)
      && (Get32(w, p) == ZIP64_LOCATOR_SIGNATURE ==> p == own + ZIP64_END_SIZE)
  }

  /** Bytes laid over a finished file tear it if they themselves spell no signature. */
  lemma FirstTear(b: Bytes, a: nat, z: nat, w: Bytes, own: nat, f: Bytes)
    requires Finished(b, a, z) && a <= |b| && w != [] && (w[0] == 0 || Spells(w, 0, LOCAL_SIGNATURE))
    requires f == b[..a] + w + Beyond(b, a + |w|) && Unsigned(w, own) && z < a + own && |f| != a + own + TRAILER_SIZE
    ensures Torn(f, b, a, z, a + |w|)
  {
    hide Get32;
    assert forall p :: a <= p < a + |w| ==> f[p] == w[p - a];
    forall p | a <= p && p + 4 <= a + |w| ensures Get32(f, p) == Get32(w, p - a) {
      SameWord(f, a, w, p - a);
    }
  }

  lemma SameWord(f: Bytes, a: nat, w: Bytes, p: nat)
    requires a + |w| <= |f| && p + 4 <= |w| && forall q :: a <= q < a + |w| ==> f[q] == w[q - a]
    ensures Get32(f, a + p) == Get32(w, p)
  {
    assert f[a + p] == w[p] && f[a + p + 1] == w[p + 1] && f[a + p + 2] == w[p + 2] && f[a + p + 3] == w[p + 3];
  }

  function MemberLength(c: Codec, items: seq<Item>, r: Request): nat {
    |ItemBytes(NewItem(c, r, |Members(items)|))| + |Directory(Grown(c, items, r))|
  }

  /**
   * What can be asked of a request before it is appended to a finished archive: neither placeholder and data nor the
   * final bytes spell a signature of end records, other than the append's own, and where the new member will end the
   * old bytes cannot be taken for the second half of a local signature.
   */
  predicate Plain(c: Codec, b: Bytes, items: seq<Item>, r: Request) {
    var own, m := MemberLength(c, items, r), MembersEnd(Grown(c, items, r));
    && Unsigned(Draft(c, items, r), own) && Unsigned(Final(c, items, r), own)
    && (m + 4 <= |b| ==> b[m + 2] != 3 || b[m + 3] != 4)
  }

  lemma UnsignedPrefix(w: Bytes, whole: Bytes, own: nat)
    requires w <= whole && Unsigned(whole, own)
    ensures Unsigned(w, own)
  {
    hide Get32;
    forall p | 0 <= p && p + 4 <= |w| ensures Get32(w, p) == Get32(whole, p) {
      SameBytes(w, whole, p, 4);
    }
  }

  lemma LaidLengths(c: Codec, items: seq<Item>, r: Request, i: nat, k: nat)
    requires i < 6
    ensures EndAt(c, items, r) == MembersEnd(items) + MemberLength(c, items, r)
    ensures |Final(c, items, r)| == MemberLength(c, items, r) + |NewEnd(c, items, r)|
    ensures i <= HEADER_WRITE ==> |Laid(c, items, r, i, k)| <= MemberLength(c, items, r)
  {
    hide Members, Directory, LocalHeader, CentralHeader, Trailer;
    var x := NewItem(c, r, |Members(items)|);
    SnocMembers(items, x);
    LocalHeaderLength(r.name, Blank(r, |Members(items)|), r.dos, false);
    LocalHeaderLength(x.name, x.member, x.dos, true);
  }

  lemma BaseHolds(b: Bytes, items: seq<Item>)
    requires IsBase(b, items)
    ensures Archive(b, items) && items[..|items|] == items
  {
    hide Archive, Complete;
    assert items[..|items|] == items;
    if items == [] { EmptyIsArchive(); } else { CompleteIsArchive(b, items); }
  }

  lemma NewEndLength(c: Codec, items: seq<Item>, r: Request)
    ensures |NewEnd(c, items, r)| == TRAILER_SIZE
  {
    hide Members, Directory, Put16, Put32, Put64;
  }

  /** The first interruption since the archive was finished leaves a torn file, if the request is plain. */
  lemma FirstInterruption(c: Codec, b: Bytes, items: seq<Item>, r: Request, i: nat, k: nat)
    requires IsBase(b, items) && i < 6 && Plain(c, b, items, r) && Laid(c, items, r, i, k) != []
    requires i > HEADER_WRITE ==> Encodable(r.name, NewMember(c, r, |Members(items)|))
    requires |Laid(c, items, r, i, k)| < |Final(c, items, r)|
    ensures Torn(Interrupted(c, b, r, i, k), b, MembersEnd(items), DirectoryEnd(items),
                 MembersEnd(items) + |Laid(c, items, r, i, k)|)
  {
    hide LayoutOf, LayoutFor, Interrupted, Laid, Members, Directory, Draft;
    hide Final, Unsigned, Finished, Torn, Spells, Encodable, EndAt;
    hide NewEnd, MemberLength, IsBase;
    var f, w, own := Interrupted(c, b, r, i, k), Laid(c, items, r, i, k), MemberLength(c, items, r);
    BaseHolds(b, items);
    BaseIsFinished(b, items);
    LaidBytes(c, b, items, r, i, k);
    LaidStarts(c, items, r, i, k);
    LaidLengths(c, items, r, i, k);
    NewEndLength(c, items, r);
    EndIsBehind(c, items, r, |items|);
    BaseLength(b, items);
    OverlayIs(b, Members(items), w);
    if i <= HEADER_WRITE {
      LaidIsDraft(c, items, r, i, k);
      UnsignedPrefix(w, Draft(c, items, r), own);
    } else {
      LaidIsFinal(c, items, r, i, k);
      UnsignedPrefix(w, Final(c, items, r), own);
    }
    FirstTear(b, MembersEnd(items), DirectoryEnd(items), w, own, f);
  }

  lemma BaseLength(b: Bytes, items: seq<Item>)
    requires IsBase(b, items)
    ensures MembersEnd(items) <= |b| && (b == [] || |b| == DirectoryEnd(items) + TRAILER_SIZE)
  {
    hide Members, Directory, WellFormed;
    BaseIsFinished(b, items);
  }

  lemma AppendedIs(c: Codec, file: Bytes, items: seq<Item>, r: Request)
    requires Holds(file, items) && LayoutOf(file) == LayoutFor(items)
    ensures Appended(c, file, r) == Members(items) + Final(c, items, r)
  {
    hide LocalHeader, CentralHeader, Trailer, LayoutOf, AppendWrites, After, Beyond, WellFormed, Members, Directory;
    var p := PartsOf(c, file, items, r);
    AppendLanding(c, file, items, r, p);
    SnocMembers(items, NewItem(c, r, |p.members|));
    assert p.members + ItemBytes(NewItem(c, r, |p.members|)) + p.directory + p.end == p.members + Final(c, items, r);
  }

  /** Behind the new member, before four bytes of its directory have landed, the old bytes spell no local signature. */
  lemma NothingBehind(c: Codec, b: Bytes, items: seq<Item>, r: Request, k: nat)
    requires IsBase(b, items) && Plain(c, b, items, r) && k < 4
    requires Encodable(r.name, NewMember(c, r, |Members(items)|)) && WellFormed(items)
    ensures !Spells(Interrupted(c, b, r, 3, k), MembersEnd(Grown(c, items, r)), LOCAL_SIGNATURE)
  {
    hide LayoutOf, LayoutFor, Interrupted, Members, Directory, Draft;
    hide Final, Unsigned, IsBase, WellFormed, Encodable, ItemBytes;
    hide Spells, Interrupted, Beyond;
    var all, x := Grown(c, items, r), NewItem(c, r, |Members(items)|);
    var a := Members(items);
    BaseHolds(b, items);
    LaidBytes(c, b, items, r, 3, k);
    SnocMembers(items, x);
    SnocWellFormed(items, x);
    DirectoryBytes(all);
    OverlayIs(b, a, ItemBytes(x) + First(Directory(all), k));
    HalfSpelled(b, a + ItemBytes(x), Directory(all), k, Interrupted(c, b, r, 3, k));
  }

  lemma HalfSpelled(b: Bytes, m: Bytes, d: Bytes, k: nat, f: Bytes)
    requires 4 <= |d| && d[2] == 1 && k < 4 && (|m| + 4 <= |b| ==> b[|m| + 2] != 3 || b[|m| + 3] != 4)
    requires f == m + d[..k] + Beyond(b, |m| + k)
    ensures !Spells(f, |m|, LOCAL_SIGNATURE)
  {
    hide Get32;
    if Spells(f, |m|, LOCAL_SIGNATURE) {
      LocalSpelled(f, |m|);
    }
  }

  lemma LocalSpelled(f: Bytes, p: nat)
    requires Spells(f, p, LOCAL_SIGNATURE)
    ensures f[p + 2] == 3 && f[p + 3] == 4
  {
    var low, high := Get16(f, p), Get16(f, p + 2);
    assert high == 0x0403;
    assert f[p + 2] as int + f[p + 3] as int * 0x100 == 0x0403;
  }

  lemma DirectoryBytes(items: seq<Item>)
    requires WellFormed(items) && items != []
    ensures |Directory(items)| >= 4 && Directory(items)[2] == 1
  {
    hide Directory, WellFormed;
    DirectorySignature(items);
    var d := Directory(items);
    assert Get16(d, 2) == 0x0201;
    assert d[2] as int + d[3] as int * 0x100 == 0x0201;
  }

  /**
   * Over all interruptions: appending a plain request to a finished archive, stopped at any byte of any write, leaves
   * an archive that the next append reads as the earlier members, with the new one from its header on.
   */
  lemma EveryInterruption(c: Codec, b: Bytes, items: seq<Item>, r: Request, i: nat, k: nat)
    requires IsBase(b, items) && Acceptable(r) && Plain(c, b, items, r) && i < 6
    requires |Appended(c, b, r)| < 0x8000_0000_0000_0000
    ensures Archive(Interrupted(c, b, r, i, k), ItemsAfter(c, items, r, i))
    ensures LayoutOf(Interrupted(c, b, r, i, k)) == LayoutFor(ItemsAfter(c, items, r, i))
  {
    hide LayoutOf, LayoutFor, Interrupted, Laid, Members, Directory;
    hide Draft, Final, Plain, Appended, IsBase, Torn, WellFormed;
    hide Recover, Encodable, Complete, DirectoryEnd, Stored;
    var f, w := Interrupted(c, b, r, i, k), Laid(c, items, r, i, k);
    BaseHolds(b, items);
    LaidBytes(c, b, items, r, i, k);
    AppendedIs(c, b, items, r);
    LaidWithin(c, b, items, r, i, k);
    if w == [] {
      NothingLanded(Members(items), b);
      NothingKept(c, items, r, i, k);
    } else if |w| == |Final(c, items, r)| {
      AppendCompletes(c, b, items, r);
      CompleteIsArchive(Appended(c, b, r), Grown(c, items, r));
    } else {
      if i > HEADER_WRITE { KeptIsEncodable(c, b, items, r); }
      FirstInterruption(c, b, items, r, i, k);
      if i <= HEADER_WRITE {
        CrashBeforeHeader(c, b, items, r, i, k);
        TornIsArchive(f, items, b, |items|, MembersEnd(items) + |w|);
      } else {
        if i == 3 && k < 4 { NothingBehind(c, b, items, r, k); }
        KeptReads(c, b, items, r, i, k);
        LaidCoversMember(c, items, r, i, k);
        assert Grown(c, items, r)[..|items|] == items;
        TornIsArchive(f, Grown(c, items, r), b, |items|, MembersEnd(items) + |w|);
      }
    }
  }

  lemma NothingKept(c: Codec, items: seq<Item>, r: Request, i: nat, k: nat)
    requires i < 6 && Laid(c, items, r, i, k) == []
    ensures i <= HEADER_WRITE
  {
    hide Members, Directory, NewEnd, LocalHeader;
    if i > HEADER_WRITE {
      var x := NewItem(c, r, |Members(items)|);
      LocalHeaderLength(x.name, x.member, x.dos, true);
    }
  }

  /** The file is never longer than the finished one, and as long only once all has landed. */
  lemma LaidWithin(c: Codec, b: Bytes, items: seq<Item>, r: Request, i: nat, k: nat)
    requires IsBase(b, items) && i < 6
    ensures var a, w, all := Members(items), Laid(c, items, r, i, k), Final(c, items, r);
            var f := a + w + Beyond(Beyond(b, |a|), |w|);
            |f| <= |a| + |all| && (|w| == |all| ==> i > HEADER_WRITE && f == a + all)
  {
    hide Members, Directory, Final, IsBase, Draft, NewEnd, Laid, MemberLength;
    BaseLength(b, items);
    EndIsBehind(c, items, r, |items|);
    LaidLengths(c, items, r, i, k);
    NewEndLength(c, items, r);
    assert items[..|items|] == items;
    if i > HEADER_WRITE { LaidIsFinal(c, items, r, i, k); }
  }

  lemma KeptIsEncodable(c: Codec, b: Bytes, items: seq<Item>, r: Request)
    requires IsBase(b, items) && Acceptable(r) && |Appended(c, b, r)| < 0x8000_0000_0000_0000
    ensures Encodable(r.name, NewMember(c, r, |Members(items)|)) && WellFormed(items)
  {
    hide LayoutOf, LayoutFor, Appended, Members, Directory, IsBase, Trailer, WellFormed;
    BaseHolds(b, items);
    AppendCompletes(c, b, items, r);
    LastEncodable(Grown(c, items, r));
  }

  lemma LastEncodable(items: seq<Item>)
    requires WellFormed(items) && items != []
    ensures Encodable(items[|items| - 1].name, items[|items| - 1].member)
  {
  }

  /**
   * Nothing needs to be asked while what was laid has not covered the signature of the old Zip64 end record: the old
   * end records are whole or spelled out by accident, and are refused because the directory they lead to is gone.
   */
  lemma StaleEndRecords(c: Codec, file: Bytes, items: seq<Item>, r: Request, i: nat, k: nat)
    requires Complete(file, items) && i < 6 && 1 <= |Laid(c, items, r, i, k)| < |Directory(items)| + 4
    requires i > HEADER_WRITE ==> Encodable(r.name, NewMember(c, r, |Members(items)|))
    ensures !EndsInRecords(Interrupted(c, file, r, i, k)) && FromDirectory(Interrupted(c, file, r, i, k)).None?
  {
    hide LayoutOf, LayoutFor, Interrupted, Laid, Members;
    hide Directory, WellFormed, Encodable, Complete, FromDirectory, EndsInRecords;
    hide Finished, Torn, Spells, IsBase;
    var a, w, f := Members(items), Laid(c, items, r, i, k), Interrupted(c, file, r, i, k);
    CompleteIsBase(file, items);
    BaseHolds(file, items);
    BaseIsFinished(file, items);
    LaidBytes(c, file, items, r, i, k);
    LaidStarts(c, items, r, i, k);
    OverlayIs(file, a, w);
    ShortTear(file, |a|, |a| + |Directory(items)|, w, f);
    TornHasNoIndex(f, file, |a|, |a| + |Directory(items)|, |a| + |w|);
  }

  lemma CompleteIsBase(file: Bytes, items: seq<Item>)
    requires Complete(file, items)
    ensures IsBase(file, items) && file != []
  {
    hide Members, Directory, Put16, Put32, Put64;
  }

  lemma ShortTear(b: Bytes, a: nat, z: nat, w: Bytes, f: Bytes)
    requires Finished(b, a, z) && b != [] && w != [] && a + |w| < z + 4 && (w[0] == 0 || Spells(w, 0, LOCAL_SIGNATURE))
    requires f == b[..a] + w + Beyond(b, a + |w|)
    ensures Torn(f, b, a, z, a + |w|)
  {
    hide Get32;
    assert forall p :: a <= p < a + |w| ==> f[p] == w[p - a];
    if |w| >= 4 { SameWord(f, a, w, 0); }
  }
}
