/** What every sequence of appends, finished or interrupted, leaves in an archive. */
module ZipRuns {
  import opened LittleEndian
  import opened Outcome
  import opened ZipFormat
  import opened ZipRoundTrip
  import opened ZipArchive
  import opened ZipAppend
  import opened ZipTorn
  import opened ZipCrash

  /** What a member's bytes extract to, before they are checked. */
  function Unpack(c: Codec, compression: Half, data: Bytes): Option<Bytes> {
    if compression == 0 || data == [] then Some(data) else c.inflate(data)
  }

  function Extract(c: Codec, file: Bytes, m: ZipMember): Result<Bytes> {
    match ReadLocal(file, m.offset)
    case None => Error("no such member")
    case Some(local) =>
      if local.member.compressedSize != m.compressedSize || local.member.compression != m.compression
      then Error("no such member")
      else
        match Unpack(c, m.compression, file[local.dataAt..local.dataAt + m.compressedSize])
        case None => Error("does not inflate")
        case Some(out) =>
          if |out| != m.size || c.crc(0, out) != m.crc then Error("does not match its size or CRC") else Ok(out)
  }

  /** A member stays readable, as the file it was made of, whatever is appended behind it. */
  lemma ExtractReturnsSource(c: Codec, file: Bytes, items: seq<Item>, i: nat, r: Request)
    requires Laws(c) && Holds(file, items) && i < |items|
    requires items[i] == NewItem(c, r, items[i].member.offset)
    ensures Extract(c, file, items[i].member) == Ok(r.source)
  {
    hide Members, LocalHeader, ReadLocal;
    ReadMember(file, items, i);
  }

  /** One thing that happens to an archive. */
  datatype Event = Finished(r: Request) | Stopped(r: Request, i: nat, k: nat)

  function Effect(c: Codec, file: Bytes, e: Event): Bytes {
    match e
    case Finished(r) => Appended(c, file, r)
    case Stopped(r, i, k) => if i < 6 then Interrupted(c, file, r, i, k) else Appended(c, file, r)
  }

  /** Whether the append of an event got as far as its header. */
  predicate Kept(e: Event) {
    e.Finished? || e.i > HEADER_WRITE
  }

  function Run(c: Codec, events: seq<Event>): Bytes {
    if events == [] then [] else Effect(c, Run(c, events[..|events| - 1]), events[|events| - 1])
  }

  function KeptRequests(events: seq<Event>): seq<Request> {
    if events == [] then []
    else
      var e := events[|events| - 1];
      KeptRequests(events[..|events| - 1]) + if Kept(e) then [e.r] else []
  }

  /** The members that hold a list of requests, each behind the one before. */
  function ItemsFor(c: Codec, rs: seq<Request>): seq<Item> {
    if rs == [] then []
    else
      var before := ItemsFor(c, rs[..|rs| - 1]);
      before + [NewItem(c, rs[|rs| - 1], |Members(before)|)]
  }

  /**
   * What a run is asked to meet: acceptable requests, files below 2^63 bytes, and after an interruption no bytes just
   * written that spell a signature of end records, or old ones behind them that spell a member's.
   */
  ghost predicate Plausible(c: Codec, file: Bytes, items: seq<Item>, e: Event) {
    && Acceptable(e.r)
    && |Effect(c, file, e)| < 0x8000_0000_0000_0000
    && (e.Stopped? ==> e.i < 6 && Safe(c, file, items, e.r, e.i, e.k))
  }

  ghost predicate PlausibleRun(c: Codec, events: seq<Event>) {
    forall n :: 0 <= n < |events| ==>
      Plausible(c, Run(c, events[..n]), ItemsFor(c, KeptRequests(events[..n])), events[n])
  }

  /** The archive is what a list of requests says, by whichever way it is read. */
  ghost predicate Sound(c: Codec, file: Bytes, rs: seq<Request>) {
    Archive(file, ItemsFor(c, rs))
  }

  lemma SnocItems(c: Codec, rs: seq<Request>, r: Request)
    ensures ItemsFor(c, rs + [r]) == ItemsFor(c, rs) + [NewItem(c, r, |Members(ItemsFor(c, rs))|)]
  {
    hide NewItem, Members;
    assert (rs + [r])[..|rs|] == rs;
  }

  lemma FinishedStep(c: Codec, file: Bytes, rs: seq<Request>, r: Request)
    requires Sound(c, file, rs) && Acceptable(r) && |Appended(c, file, r)| < 0x8000_0000_0000_0000
    ensures Sound(c, Appended(c, file, r), rs + [r])
    ensures Complete(Appended(c, file, r), ItemsFor(c, rs + [r]))
  {
    hide Appended, Archive, Complete, NewItem, ItemsFor;
    FinishedIsArchive(c, file, ItemsFor(c, rs), r);
    SnocItems(c, rs, r);
  }

  lemma StoppedStep(c: Codec, file: Bytes, rs: seq<Request>, e: Event)
    requires Sound(c, file, rs) && e.Stopped? && Plausible(c, file, ItemsFor(c, rs), e)
    ensures Sound(c, Effect(c, file, e), rs + if Kept(e) then [e.r] else [])
  {
    hide Interrupted, Archive, Safe, NewItem, ItemsFor;
    CrashKeepsArchive(c, file, ItemsFor(c, rs), e.r, e.i, e.k);
    SnocItems(c, rs, e.r);
    assert rs + [] == rs;
  }

  /** Every run of appends and interruptions leaves an archive of exactly the requests that were kept. */
  lemma {:induction false} RunSound(c: Codec, events: seq<Event>)
    requires PlausibleRun(c, events)
    ensures Sound(c, Run(c, events), KeptRequests(events))
  {
    hide Effect, Sound, ItemsFor, Plausible;
    if events == [] {
      EmptySound(c);
    } else {
      var n := |events| - 1;
      var before, e := events[..n], events[n];
      forall m | 0 <= m < |before|
        ensures Plausible(c, Run(c, before[..m]), ItemsFor(c, KeptRequests(before[..m])), before[m])
      {
        assert before[..m] == events[..m];
      }
      RunSound(c, before);
      EventSound(c, Run(c, before), KeptRequests(before), e);
    }
  }

  lemma EmptySound(c: Codec)
    ensures Sound(c, [], [])
  {
    EmptyIsArchive();
  }

  lemma EventSound(c: Codec, file: Bytes, rs: seq<Request>, e: Event)
    requires Sound(c, file, rs) && Plausible(c, file, ItemsFor(c, rs), e)
    ensures Sound(c, Effect(c, file, e), rs + if Kept(e) then [e.r] else [])
  {
    hide Appended, Interrupted, Sound, ItemsFor, LayoutOf, FromDirectory, Recover, ReadLocal;
    if e.Finished? {
      FinishedStep(c, file, rs, e.r);
    } else {
      StoppedStep(c, file, rs, e);
    }
  }

  lemma {:induction false} ItemsAt(c: Codec, rs: seq<Request>, i: nat)
    requires i < |rs|
    ensures |ItemsFor(c, rs)| == |rs|
    ensures ItemsFor(c, rs)[i] == NewItem(c, rs[i], ItemsFor(c, rs)[i].member.offset)
  {
    hide Stored, Members;
    var n := |rs| - 1;
    if n > 0 {
      ItemsAt(c, rs[..n], if i < n then i else 0);
    }
  }

  /**
   * The archive of any run lists the kept requests in order, name by name, and gives every one of their
   * files back.
   */
  lemma RunReadsBack(c: Codec, events: seq<Event>)
    requires Laws(c) && PlausibleRun(c, events)
    ensures var file, rs := Run(c, events), KeptRequests(events); var items := ItemsFor(c, rs);
      && ListFrom(LayoutOf(file).directory, 0) == Ok(Entries(items))
      && |items| == |rs| == LayoutOf(file).entries
      && forall i :: 0 <= i < |rs| ==>
           && items[i].name == rs[i].name && items[i].member == NewMember(c, rs[i], items[i].member.offset)
           && items[i].member.offset == |Members(items[..i])|
           && Extract(c, file, items[i].member) == Ok(rs[i].source)
  {
    hide Members, Extract, Run, KeptRequests, LayoutOf, PlausibleRun;
    hide ListFrom, Directory, Laws, Stored, Entries, ItemsFor;
    var file, rs := Run(c, events), KeptRequests(events);
    var items := ItemsFor(c, rs);
    RunSound(c, events);
    ListExact(items);
    if rs != [] {
      ItemsAt(c, rs, 0);
    } else {
      NoItems(c);
    }
    forall i | 0 <= i < |rs|
      ensures items[i].name == rs[i].name && items[i].member == NewMember(c, rs[i], items[i].member.offset)
              && items[i].member.offset == |Members(items[..i])|
              && Extract(c, file, items[i].member) == Ok(rs[i].source)
    {
      ItemsAt(c, rs, i);
      ExtractReturnsSource(c, file, items, i, rs[i]);
    }
  }

  lemma NoItems(c: Codec)
    ensures ItemsFor(c, []) == []
  {
  }

  /** Only finished appends, of acceptable requests, to a file that stays below 2^63 bytes. */
  ghost predicate Uninterrupted(c: Codec, events: seq<Event>) {
    forall n :: 0 <= n < |events| ==>
      && events[n].Finished? && Acceptable(events[n].r)
      && |Effect(c, Run(c, events[..n]), events[n])| < 0x8000_0000_0000_0000
  }

  lemma UninterruptedPlausible(c: Codec, events: seq<Event>)
    requires Uninterrupted(c, events)
    ensures PlausibleRun(c, events)
  {
    hide Effect, Run, ItemsFor, KeptRequests;
  }

  lemma {:induction false} UninterruptedKeeps(c: Codec, events: seq<Event>)
    requires forall n :: 0 <= n < |events| ==> events[n].Finished?
    ensures |KeptRequests(events)| == |events|
    ensures forall n :: 0 <= n < |events| ==> KeptRequests(events)[n] == events[n].r
  {
    if events != [] {
      UninterruptedKeeps(c, events[..|events| - 1]);
    }
  }

  lemma UninterruptedPrefix(c: Codec, events: seq<Event>, n: nat)
    requires Uninterrupted(c, events) && n <= |events|
    ensures Uninterrupted(c, events[..n])
  {
    hide Effect, Run, Acceptable;
    var before := events[..n];
    forall m | 0 <= m < |before|
      ensures before[m].Finished? && Acceptable(before[m].r)
              && |Effect(c, Run(c, before[..m]), before[m])| < 0x8000_0000_0000_0000
    {
      assert before[..m] == events[..m] && before[m] == events[m];
    }
  }

  /** Without interruptions nothing is assumed of the bytes, nothing is dropped, and the archive is complete. */
  lemma UninterruptedRun(c: Codec, events: seq<Event>)
    requires Uninterrupted(c, events) && events != []
    ensures PlausibleRun(c, events)
    ensures |KeptRequests(events)| == |events|
    ensures forall n :: 0 <= n < |events| ==> KeptRequests(events)[n] == events[n].r
    ensures Complete(Run(c, events), ItemsFor(c, KeptRequests(events)))
  {
    hide Sound, ItemsFor, Complete, PlausibleRun, Appended;
    UninterruptedPlausible(c, events);
    UninterruptedKeeps(c, events);
    var n := |events| - 1;
    UninterruptedPrefix(c, events, n);
    UninterruptedPlausible(c, events[..n]);
    RunSound(c, events[..n]);
    FinishedStep(c, Run(c, events[..n]), KeptRequests(events[..n]), events[n].r);
  }
}
