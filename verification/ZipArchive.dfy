/**
 * What an archive holds, as a list of members, and that the two ways of reading it - the end records
 * and the walk over the local headers - agree with that list.
 */
module ZipArchive {
  import opened LittleEndian
  import opened Outcome
  import opened ZipFormat
  import opened ZipRoundTrip

  /** A member as it lies in the file: its header's values and the bytes behind the header. */
  datatype Item = Item(name: Bytes, dos: DosTime, member: ZipMember, data: Bytes)

  function ItemBytes(i: Item): Bytes {
    LocalHeader(i.name, i.member, i.dos, true) + i.data
  }

  function Central(i: Item): Bytes {
    CentralHeader(i.name, i.member, i.dos)
  }

  function Members(items: seq<Item>): Bytes {
    if items == [] then [] else Members(items[..|items| - 1]) + ItemBytes(items[|items| - 1])
  }

  function Directory(items: seq<Item>): Bytes {
    if items == [] then [] else Directory(items[..|items| - 1]) + Central(items[|items| - 1])
  }

  function LayoutFor(items: seq<Item>): Layout {
    Layout(|Members(items)|, Directory(items), |items|)
  }

  function Entries(items: seq<Item>): seq<Entry> {
    seq(|items|, i requires 0 <= i < |items| => Entry(items[i].name, items[i].member))
  }

  /** The members tile the file from 0: each starts where the bytes of those before it end. */
  ghost predicate WellFormed(items: seq<Item>) {
    forall i :: 0 <= i < |items| ==>
      && Encodable(items[i].name, items[i].member)
      && items[i].member.compressedSize == |items[i].data|
      && items[i].member.offset == |Members(items[..i])|
  }

  /** A file that begins with these members, whatever follows them. */
  ghost predicate Holds(file: Bytes, items: seq<Item>) {
    WellFormed(items) && Members(items) <= file
  }

  /** A file whose last append ran to its end. */
  ghost predicate Complete(file: Bytes, items: seq<Item>) {
    && WellFormed(items) && items != []
    && file == Members(items) + Directory(items) + Trailer(|Members(items)|, |Directory(items)|, |items|)
    && |file| < 0x8000_0000_0000_0000
  }

  lemma Behind(a: Bytes, b: Bytes)
    ensures (a + b)[|a|..|a| + |b|] == b
  {
  }

  lemma Ahead(a: Bytes, b: Bytes, i: nat, j: nat)
    requires i <= j <= |a|
    ensures (a + b)[i..j] == a[i..j]
  {
  }

  lemma SnocMembers(items: seq<Item>, x: Item)
    ensures Members(items + [x]) == Members(items) + ItemBytes(x)
    ensures Directory(items + [x]) == Directory(items) + Central(x)
  {
    hide ItemBytes, Central;
    assert (items + [x])[..|items|] == items;
  }

  lemma SnocWellFormed(items: seq<Item>, x: Item)
    requires WellFormed(items) && Encodable(x.name, x.member)
    requires x.member.compressedSize == |x.data| && x.member.offset == |Members(items)|
    ensures WellFormed(items + [x])
  {
    hide Members;
    var all := items + [x];
    forall i | 0 <= i < |all|
      ensures Encodable(all[i].name, all[i].member) && all[i].member.compressedSize == |all[i].data|
              && all[i].member.offset == |Members(all[..i])|
    {
      assert all[..i] == items[..i];
      assert items[..|items|] == items;
    }
  }

  /** The first i members end where member i begins, and both are where the whole list says. */
  lemma {:induction false} MemberAt(items: seq<Item>, i: nat)
    requires i < |items|
    ensures |Members(items[..i])| + |ItemBytes(items[i])| <= |Members(items)|
    ensures Members(items)[|Members(items[..i])|..|Members(items[..i])| + |ItemBytes(items[i])|] == ItemBytes(items[i])
    ensures |Members(items[..i + 1])| == |Members(items[..i])| + |ItemBytes(items[i])|
  {
    hide Members, Directory, ItemBytes, Central;
    var n, x := |items| - 1, items[i];
    assert items[..i + 1] == items[..i] + [x];
    SnocMembers(items[..i], x);
    if i == n {
      assert items[..i + 1] == items;
      Behind(Members(items[..i]), ItemBytes(x));
    } else {
      MemberAt(items[..n], i);
      assert items[..n][..i] == items[..i] && items == items[..n] + [items[n]];
      SnocMembers(items[..n], items[n]);
      Ahead(Members(items[..n]), ItemBytes(items[n]), |Members(items[..i])|, |Members(items[..i])| + |ItemBytes(x)|);
    }
  }

  lemma {:induction false} EntryAt(items: seq<Item>, i: nat)
    requires i < |items|
    ensures |Directory(items[..i])| + |Central(items[i])| <= |Directory(items)|
    ensures Directory(items)[|Directory(items[..i])|..|Directory(items[..i])| + |Central(items[i])|]
        == Central(items[i])
    ensures |Directory(items[..i + 1])| == |Directory(items[..i])| + |Central(items[i])|
  {
    hide Members, Directory, ItemBytes, Central;
    var n, x := |items| - 1, items[i];
    assert items[..i + 1] == items[..i] + [x];
    SnocMembers(items[..i], x);
    if i == n {
      assert items[..i + 1] == items;
      Behind(Directory(items[..i]), Central(x));
    } else {
      EntryAt(items[..n], i);
      assert items[..n][..i] == items[..i] && items == items[..n] + [items[n]];
      SnocMembers(items[..n], items[n]);
      Ahead(Directory(items[..n]), Central(items[n]), |Directory(items[..i])|, |Directory(items[..i])| + |Central(x)|);
    }
  }

  /** Every member can be read at its offset of any file that begins with the members. */
  lemma ReadMember(file: Bytes, items: seq<Item>, i: nat)
    requires Holds(file, items) && i < |items|
    ensures var it := items[i];
      var dataAt := it.member.offset + |LocalHeader(it.name, it.member, it.dos, true)|;
      && ReadLocal(file, it.member.offset) == Some(Local(it.name, it.member, it.dos, dataAt))
      && dataAt + |it.data| <= |file| && file[dataAt..dataAt + |it.data|] == it.data
      && dataAt + |it.data| == |Members(items[..i + 1])|
  {
    hide Members, LocalHeader, ReadLocal;
    MemberAt(items, i);
    var it := items[i];
    var h, o, all := LocalHeader(it.name, it.member, it.dos, true), it.member.offset, Members(items);
    Slice(file, 0, all, o, o + |ItemBytes(it)|);
    Split(file, o, h, it.data, []);
    ReadLocalHeader(file, it.name, it.member, it.dos);
  }

  /** The walk, started behind the first i members, passes over the rest of the list. */
  lemma {:induction false} Walk(file: Bytes, items: seq<Item>, i: nat)
    requires Holds(file, items) && i <= |items|
    ensures RecoverFrom(file, LayoutFor(items[..i])) == RecoverFrom(file, LayoutFor(items))
    decreases |items| - i
  {
    hide ReadLocal, CentralHeader, Members, Directory;
    if i == |items| {
      assert items[..i] == items;
    } else {
      ReadMember(file, items, i);
      MemberAt(items, i);
      assert items[..i + 1] == items[..i] + [items[i]];
      SnocMembers(items[..i], items[i]);
      Walk(file, items, i + 1);
    }
  }

  /**
   * The walk over any file that begins with these members lists them first; it lists exactly them
   * if and only if nothing behind them reads as a member.
   */
  lemma RecoverLists(file: Bytes, items: seq<Item>)
    requires Holds(file, items)
    ensures Recover(file) == RecoverFrom(file, LayoutFor(items))
    ensures LayoutFor(items).directory <= Recover(file).directory && |items| <= Recover(file).entries
    ensures Recover(file) == LayoutFor(items) <==> ReadLocal(file, |Members(items)|).None?
  {
    Walk(file, items, 0);
    assert LayoutFor(items[..0]) == Layout(0, [], 0);
    RecoverExtends(file, LayoutFor(items));
  }

  lemma {:induction false} RecoverExtends(file: Bytes, sofar: Layout)
    ensures sofar.directory <= RecoverFrom(file, sofar).directory
    ensures sofar.entries <= RecoverFrom(file, sofar).entries
    ensures RecoverFrom(file, sofar) == sofar <==> ReadLocal(file, sofar.appendAt).None?
    decreases |file| + LOCAL_HEADER_SIZE - sofar.appendAt
  {
    hide ReadLocal, CentralHeader;
    match ReadLocal(file, sofar.appendAt)
    case None =>
    case Some(l) =>
      RecoverExtends(file, Layout(l.dataAt + l.member.compressedSize,
                                  sofar.directory + CentralHeader(l.name, l.member, l.dos), sofar.entries + 1));
  }

  /** The directory of a non-empty list begins with the central signature. */
  lemma DirectorySignature(items: seq<Item>)
    requires WellFormed(items) && items != []
    ensures CENTRAL_HEADER_SIZE <= |Directory(items)| && Get32(Directory(items), 0) == CENTRAL_SIGNATURE
  {
    hide CentralHeader, Get32, Members;
    EntryAt(items, 0);
    assert items[..0] == [];
    ReadCentralHeader(Directory(items), 0, items[0].name, items[0].member, items[0].dos);
  }

  lemma {:induction false} ManyMembers(items: seq<Item>)
    ensures |items| <= |Members(items)|
  {
    hide LocalHeader;
    if items != [] {
      ManyMembers(items[..|items| - 1]);
      var i := items[|items| - 1];
      LocalHeaderLength(i.name, i.member, i.dos, true);
    }
  }

  /** Where the bytes do not spell the local signature, no member is read. */
  lemma NoMemberAt(file: Bytes, at: nat)
    requires at + 4 <= |file| ==> Get32(file, at) != LOCAL_SIGNATURE
    ensures ReadLocal(file, at).None?
  {
    hide Get32, Get16, ParseLocal;
    if at + LOCAL_HEADER_SIZE <= |file| {
      Shifted(file, at, file[at..at + LOCAL_HEADER_SIZE], 0);
    }
  }

  /** In a complete file the end records and the walk give the same layout, that of its members. */
  lemma IndexEqualsWalk(file: Bytes, items: seq<Item>)
    requires Complete(file, items)
    ensures FromDirectory(file) == Some(LayoutFor(items))
    ensures Recover(file) == LayoutFor(items) == LayoutOf(file)
  {
    hide Members, Directory, Trailer, ReadLocal, FromDirectory, Recover, Get32;
    var body, directory := Members(items), Directory(items);
    DirectorySignature(items);
    ManyMembers(items);
    FromDirectoryTrailer(body, directory, |items|);
    assert file[|body|..|body| + |directory|] == directory;
    Shifted(file, |body|, directory, 0);
    NoMemberAt(file, |body|);
    RecoverLists(file, items);
  }

  lemma {:induction false} ListTail(items: seq<Item>, i: nat)
    requires WellFormed(items) && i <= |items|
    ensures ListFrom(Directory(items), |Directory(items[..i])|) == Ok(Entries(items)[i..])
    decreases |items| - i
  {
    hide ReadCentral, CentralHeader, Members, Directory, Get32, Encodable;
    if i == |items| {
      assert items[..i] == items;
    } else {
      EntryAt(items, i);
      var it, d := items[i], |Directory(items[..i])|;
      ReadCentralHeader(Directory(items), d, it.name, it.member, it.dos);
      ListTail(items, i + 1);
      assert Entries(items)[i..] == [Entry(it.name, it.member)] + Entries(items)[i + 1..];
    }
  }

  /** Listing the directory gives every name and member, in the order they were added. */
  lemma ListExact(items: seq<Item>)
    requires WellFormed(items)
    ensures ListFrom(Directory(items), 0) == Ok(Entries(items))
  {
    ListTail(items, 0);
    assert Directory(items[..0]) == [];
    assert Entries(items)[0..] == Entries(items);
  }
}
