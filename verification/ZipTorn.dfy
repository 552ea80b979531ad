/**
 * Files that were written over from some place on and not finished, byte by byte: when their last bytes still pass,
 * or pass again, for the end records of an archive. Positions are offsets into the file.
 */
module ZipTorn {
  import opened LittleEndian
  import opened Outcome
  import opened ZipFormat
  import opened ZipRoundTrip
  import opened ZipAppend

  const LOCATOR_AT := LOCATOR_SIZE + END_SIZE

  predicate Spells(f: Bytes, p: int, signature: Word) {
    0 <= p && p + 4 <= |f| && Get32(f, p) == signature
  }

  /** The file ends in a classic end record and a locator of a Zip64 end record at z, for a directory from d to z. */
  predicate RecordsSay(f: Bytes, z: nat, d: nat) {
    && TRAILER_SIZE <= |f| && d <= z && z + ZIP64_END_SIZE <= |f|
    && Spells(f, |f| - END_SIZE, END_SIGNATURE) && Spells(f, |f| - LOCATOR_AT, ZIP64_LOCATOR_SIGNATURE)
    && Get64(f, |f| - LOCATOR_AT + 8) == z && Spells(f, z, ZIP64_END_SIGNATURE)
    && Get64(f, z + 40) == z - d && Get64(f, z + 48) == d
    && (d == z || (d + 4 <= z && Spells(f, d, CENTRAL_SIGNATURE)))
  }

  ghost predicate EndsInRecords(f: Bytes) {
    exists z: nat, d: nat :: RecordsSay(f, z, d)
  }

  lemma RecordsRead(f: Bytes, z: nat, d: nat)
    requires RecordsSay(f, z, d) && d <= z && z + ZIP64_END_SIZE <= |f|
    ensures FromDirectory(f) == Some(Layout(d, f[d..z], Get64(f, z + 32)))
  {
    hide Get16, Get32, Get64;
    var n := |f|;
    var end, locator, record := f[n - END_SIZE..], f[n - LOCATOR_AT..n - END_SIZE], f[z..z + ZIP64_END_SIZE];
    Shifted(f, n - END_SIZE, end, 0);
    Shifted(f, n - LOCATOR_AT, locator, 0);
    Shifted(f, n - LOCATOR_AT, locator, 8);
    Shifted(f, z, record, 0);
    Shifted(f, z, record, 32);
    Shifted(f, z, record, 40);
    Shifted(f, z, record, 48);
    Shifted(f, d, f[d..z], 0);
  }

  lemma ReadRecords(f: Bytes) returns (z: nat, d: nat)
    requires FromDirectory(f).Some?
    ensures RecordsSay(f, z, d)
  {
    hide Get16, Get32, Get64;
    var n := |f|;
    var end, locator := f[n - END_SIZE..], f[n - LOCATOR_AT..n - END_SIZE];
    Shifted(f, n - END_SIZE, end, 0);
    Shifted(f, n - LOCATOR_AT, locator, 0);
    Shifted(f, n - LOCATOR_AT, locator, 8);
    z := Get64(f, n - LOCATOR_AT + 8);
    var record := f[z..z + ZIP64_END_SIZE];
    Shifted(f, z, record, 0);
    Shifted(f, z, record, 40);
    Shifted(f, z, record, 48);
    d := Get64(f, z + 48);
    Shifted(f, d, f[d..z], 0);
  }

  /** That is exactly when the index is believed. */
  lemma IndexReads(f: Bytes)
    ensures FromDirectory(f).Some? <==> EndsInRecords(f)
  {
    hide FromDirectory;
    if FromDirectory(f).Some? {
      var z, d := ReadRecords(f);
    }
    if EndsInRecords(f) {
      var z: nat, d: nat :| RecordsSay(f, z, d);
      RecordsRead(f, z, d);
    }
  }

  // ---------- torn files ----------

  /** A file as a finished append leaves it, as far as its end records go: members up to a, then a directory up to z. */
  predicate Finished(b: Bytes, a: nat, z: nat) {
    if b == [] then a == z == 0
    else
      && a + 4 <= z && |b| == z + TRAILER_SIZE
      && Get64(b, |b| - LOCATOR_AT + 8) == z && Get64(b, z + 40) == z - a && Get64(b, z + 48) == a
  }

  /**
   * A file that was finished as b and has been written over from a up to e. Where the old directory began there is a
   * placeholder or a member; the Zip64 end record is overwritten by something else, if its signature is at all; and
   * so is the locator, or the one at the new end.
   */
  ghost predicate Torn(f: Bytes, b: Bytes, a: nat, z: nat, e: nat) {
    && a < e <= |f| && |f| == (if |b| <= e then e else |b|)
    && (forall p :: e <= p < |b| ==> f[p] == b[p])
    && (f[a] == 0 || Spells(f, a, LOCAL_SIGNATURE))
    && (z + 4 <= e ==> !Spells(f, z, ZIP64_END_SIGNATURE))
    && (|f| - LOCATOR_AT + 4 <= e ==> !Spells(f, |f| - LOCATOR_AT, ZIP64_LOCATOR_SIGNATURE))
  }

  lemma SameBytes(f: Bytes, b: Bytes, p: nat, n: nat)
    requires p + n <= |f| && p + n <= |b| && forall i :: p <= i < p + n ==> f[i] == b[i]
    ensures n >= 4 ==> Get32(f, p) == Get32(b, p)
    ensures n >= 8 ==> Get64(f, p) == Get64(b, p)
  {
  }

  lemma ZeroSpellsNothing(f: Bytes, p: nat)
    requires p < |f| && f[p] == 0
    ensures !Spells(f, p, CENTRAL_SIGNATURE) && !Spells(f, p, ZIP64_END_SIGNATURE)
  {
    if p + 4 <= |f| {
      assert Get32(f, p) % 0x100 == 0;
    }
  }

  /** A torn file has no index: its old end records are refused or gone, and there are no others. */
  lemma TornHasNoIndex(f: Bytes, b: Bytes, a: nat, z: nat, e: nat)
    requires Finished(b, a, z) && Torn(f, b, a, z, e)
    ensures !EndsInRecords(f) && FromDirectory(f).None?
  {
    hide Get32, Get64, FromDirectory;
    IndexReads(f);
    if EndsInRecords(f) {
      var n := |f|;
      var y: nat, d: nat :| RecordsSay(f, y, d);
      assert e < n - LOCATOR_AT + 4;
      SameBytes(f, b, n - LOCATOR_AT + 8, 8);
      assert e < z + 4;
      SameBytes(f, b, z + 40, 8);
      SameBytes(f, b, z + 48, 8);
      if f[a] == 0 {
        ZeroSpellsNothing(f, a);
      }
      assert false;
    }
  }

  // ---------- writing over a torn file ----------

  /**
   * What was written from q up to n spells no signature of end records, nor do the bytes just before it. The records
   * an append itself puts at t are excepted, unless the file happens to end where they would.
   */
  ghost predicate Clear(f: Bytes, q: int, n: int, t: int) {
    forall p :: q - LOCATOR_AT <= p < n ==>
      && (Spells(f, p, ZIP64_END_SIGNATURE) ==> p == t)
      && (Spells(f, p, ZIP64_LOCATOR_SIGNATURE) ==> p == t + ZIP64_END_SIZE && |f| != t + TRAILER_SIZE)
  }

  /** Up to e the file may be torn; beyond it is as it was finished. */
  ghost predicate Alike(f: Bytes, b: Bytes, e: nat) {
    e <= |f| && |f| == (if |b| <= e then e else |b|) && forall p :: e <= p < |b| ==> f[p] == b[p]
  }

  function Later(e: nat, n: nat): nat { if e <= n then n else e }

  lemma StillAlike(f: Bytes, b: Bytes, e: nat, q: nat, w: Bytes)
    requires Alike(f, b, e) && q <= e
    ensures Alike(f[..q] + w + Beyond(f, q + |w|), b, Later(e, q + |w|))
  {
  }

  /** Neither of the two signatures that matter is spelled within what is torn. */
  lemma StillUnspelled(f: Bytes, e: nat, q: nat, w: Bytes, z: nat, t: nat, f': Bytes)
    requires q <= e <= |f| && w != [] && z < t && f' == f[..q] + w + Beyond(f, q + |w|) && Clear(f', q, q + |w|, t)
    requires z + 4 <= e ==> !Spells(f, z, ZIP64_END_SIGNATURE)
    requires |f| - LOCATOR_AT + 4 <= e ==> !Spells(f, |f| - LOCATOR_AT, ZIP64_LOCATOR_SIGNATURE)
    ensures z + 4 <= Later(e, q + |w|) ==> !Spells(f', z, ZIP64_END_SIGNATURE)
    ensures |f'| - LOCATOR_AT + 4 <= Later(e, q + |w|) ==> !Spells(f', |f'| - LOCATOR_AT, ZIP64_LOCATOR_SIGNATURE)
  {
    hide Clear, Spells;
    var n, p := q + |w|, |f'| - LOCATOR_AT;
    assert forall i :: 0 <= i < q ==> f'[i] == f[i];
    assert forall i :: n <= i < |f| ==> f'[i] == f[i];
    if q < z + 4 <= Later(e, n) && z < n {
      ClearAt(f', q, n, t, z);
    } else if z + 4 <= Later(e, n) {
      SpelledAlike(f', f, z, ZIP64_END_SIGNATURE);
    }
    if p < 0 {
      SpelledNowhere(f', p);
    } else if q - LOCATOR_AT <= p < n {
      ClearAt(f', q, n, t, p);
    } else if p + 4 <= Later(e, n) {
      SpelledAlike(f', f, p, ZIP64_LOCATOR_SIGNATURE);
    }
  }

  lemma StillStarts(f: Bytes, a: nat, q: nat, w: Bytes)
    requires w != [] && a <= q <= |f|
    requires if q == a then w[0] == 0 || Spells(w, 0, LOCAL_SIGNATURE) else a + 4 <= q && Spells(f, a, LOCAL_SIGNATURE)
    ensures var f' := f[..q] + w + Beyond(f, q + |w|); f'[a] == 0 || Spells(f', a, LOCAL_SIGNATURE)
  {
    hide Spells;
    var f' := f[..q] + w + Beyond(f, q + |w|);
    if q == a {
      SpelledThere(f', q, w);
    } else {
      SpelledAlike(f', f, a, LOCAL_SIGNATURE);
    }
  }

  /** A finished or torn file, written over from its append offset on, is torn. */
  lemma Tears(f: Bytes, b: Bytes, a: nat, z: nat, e: nat, q: nat, w: Bytes, t: nat)
    requires (f == b && q == e == a && a <= z && a <= |b| && (b == [] || |b| == z + TRAILER_SIZE))
             || Torn(f, b, a, z, e)
    requires w != [] && a <= q <= e && z < t
    requires if q == a then w[0] == 0 || Spells(w, 0, LOCAL_SIGNATURE) else a + 4 <= q && Spells(f, a, LOCAL_SIGNATURE)
    requires Clear(f[..q] + w + Beyond(f, q + |w|), q, q + |w|, t)
    ensures Torn(f[..q] + w + Beyond(f, q + |w|), b, a, z, Later(e, q + |w|))
  {
    hide Spells, Clear;
    var f' := f[..q] + w + Beyond(f, q + |w|);
    assert Alike(f, b, e);
    StillAlike(f, b, e, q, w);
    StillStarts(f, a, q, w);
    if |f| - LOCATOR_AT < 0 { SpelledNowhere(f, |f| - LOCATOR_AT); }
    StillUnspelled(f, e, q, w, z, t, f');
  }

  lemma ClearAt(f: Bytes, q: int, n: int, t: int, p: int)
    requires Clear(f, q, n, t) && q - LOCATOR_AT <= p < n
    ensures p != t ==> !Spells(f, p, ZIP64_END_SIGNATURE)
    ensures p == |f| - LOCATOR_AT ==> !Spells(f, p, ZIP64_LOCATOR_SIGNATURE)
  {
    hide Get32;
  }

  lemma SpelledNowhere(f: Bytes, p: int)
    requires p < 0
    ensures !Spells(f, p, ZIP64_LOCATOR_SIGNATURE)
  {
  }

  lemma SpelledAlike(f: Bytes, b: Bytes, p: nat, signature: Word)
    requires p + 4 <= |f| && p + 4 <= |b| && forall i :: p <= i < p + 4 ==> f[i] == b[i]
    ensures Spells(f, p, signature) == Spells(b, p, signature)
  {
    hide Get32;
    SameBytes(f, b, p, 4);
  }

  lemma SpelledThere(f: Bytes, q: nat, w: Bytes)
    requires q + |w| <= |f| && f[q..q + |w|] == w
    ensures Spells(w, 0, LOCAL_SIGNATURE) ==> Spells(f, q, LOCAL_SIGNATURE)
  {
    hide Get32;
    Shifted(f, q, w, 0);
  }
}
