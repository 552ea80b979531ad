/**
 * Which node a shrinking application gives an instance back from, and which of its slots stops
 * (main/include/Placement.h). Loads that differ by no more than the tolerance count as the same, and that is not
 * transitive: what the choice promises is therefore proved both with and without it.
 */
module Withdrawal {
  import opened LittleEndian
  import opened Lexicographic
  import opened Outcome
  import opened Placement
  import opened Choice
  import Rebalancing

  predicate Close(a: Candidate, b: Candidate) {
    var difference := NormalisedLoad(a) - NormalisedLoad(b);
    difference <= SAME_LOAD && -difference <= SAME_LOAD
  }

  /** Whether a holder takes the place of the one found so far: not accepting work, more loaded, denser, by name. */
  predicate GivesBefore(c: Candidate, best: Candidate) {
    if c.acceptsWork != best.acceptsWork then !c.acceptsWork
    else if !Close(c, best) then NormalisedLoad(c) > NormalisedLoad(best)
    else
      var density := CompareDensity(c, 0, best, 0);
      if density != 0 then density > 0 else Less(c.name, best.name)
  }

  function Giver(cs: seq<Candidate>): Option<Candidate> {
    if cs == [] then None
    else
      var best, c := Giver(cs[..|cs| - 1]), cs[|cs| - 1];
      if c.instances > 0 && (best.None? || GivesBefore(c, best.value)) then Some(c) else best
  }

  method ChooseToWithdraw(holders: seq<Candidate>) returns (r: Option<Bytes>)
    ensures r == Named(Giver(holders))
    ensures r == if Giver(holders).Some? then Some(Giver(holders).value.name) else None
  {
    var best := None;
    for i := 0 to |holders|
      invariant best == Giver(holders[..i])
    {
      assert holders[..i + 1][..i] == holders[..i];
      var c := holders[i];
      if c.instances <= 0 {
        continue;
      }
      if best.None? {
        best := Some(c);
        continue;
      }
      if c.acceptsWork != best.value.acceptsWork {
        if !c.acceptsWork {
          best := Some(c);
        }
        continue;
      }
      var difference := NormalisedLoad(c) - NormalisedLoad(best.value);
      if difference > SAME_LOAD || -difference > SAME_LOAD {
        if difference > 0.0 {
          best := Some(c);
        }
        continue;
      }
      var density := CompareDensity(c, 0, best.value, 0);
      if density != 0 {
        if density > 0 {
          best := Some(c);
        }
        continue;
      }
      if Less(c.name, best.value.name) {
        best := Some(c);
      }
    }
    assert holders[..|holders|] == holders;
    return if best.None? then None else Some(best.value.name);
  }

  // ---------- what holds whatever the loads ----------

  /**
   * The giver holds an instance, and is one that accepts no work if there is any such. It is the most loaded up to
   * one tolerance for every holder looked at after the one it is compared with.
   */
  lemma {:induction false} GiverIsLoaded(cs: seq<Candidate>)
    ensures Giver(cs).None? <==> forall i :: 0 <= i < |cs| ==> cs[i].instances <= 0
    ensures Giver(cs).Some? ==>
      var best := Giver(cs).value;
      && best in cs && best.instances > 0
      && (forall i :: 0 <= i < |cs| && cs[i].instances > 0 && !cs[i].acceptsWork ==> !best.acceptsWork)
      && (forall i :: 0 <= i < |cs| && cs[i].instances > 0 && cs[i].acceptsWork == best.acceptsWork ==>
            PerCore(cs[i].loadAverage, cs[i].cpuCount) - PerCore(best.loadAverage, best.cpuCount)
            <= 0.01 * (|cs| - i) as real)
  {
    hide NormalisedLoad, CompareDensity, PerCore;
    if cs != [] {
      GiverIsLoaded(cs[..|cs| - 1]);
      LoadsAre(cs[|cs| - 1]);
      if Giver(cs[..|cs| - 1]).Some? { LoadsAre(Giver(cs[..|cs| - 1]).value); }
      assert forall i :: 0 <= i < |cs| - 1 ==> cs[i] == cs[..|cs| - 1][i];
    }
  }

  // ---------- exactly when it is first ----------

  lemma DensityChain(a: Candidate, b: Candidate, c: Candidate)
    ensures CompareDensity(a, 0, b, 0) >= 0 && CompareDensity(b, 0, c, 0) >= 0 ==> CompareDensity(a, 0, c, 0) >= 0
    ensures CompareDensity(a, 0, b, 0) > 0 && CompareDensity(b, 0, c, 0) >= 0 ==> CompareDensity(a, 0, c, 0) > 0
    ensures CompareDensity(a, 0, b, 0) >= 0 && CompareDensity(b, 0, c, 0) > 0 ==> CompareDensity(a, 0, c, 0) > 0
    ensures CompareDensity(a, 0, b, 0) == -CompareDensity(b, 0, a, 0)
  {
    if CompareDensity(a, 0, b, 0) >= 0 && CompareDensity(b, 0, c, 0) >= 0 {
      DensityTransitive(c.instances, Cores(c), b.instances, Cores(b), a.instances, Cores(a));
    }
  }

  /** Of two nodes with different names exactly one goes before the other; none goes before itself. */
  lemma OneGoesBefore(a: Candidate, b: Candidate)
    ensures !(GivesBefore(a, b) && GivesBefore(b, a)) && !GivesBefore(a, a)
    ensures a.name != b.name ==> GivesBefore(a, b) || GivesBefore(b, a)
  {
    hide NormalisedLoad, CompareDensity, Less;
    DensityChain(a, b, a);
    DensityChain(a, a, a);
    LessTrichotomy(a.name, b.name);
    LessTrichotomy(a.name, a.name);
  }

  /** A holder that goes before every other one. */
  ghost predicate BeatsAll(cs: seq<Candidate>, g: nat) {
    && g < |cs| && cs[g].instances > 0
    && (forall i :: 0 <= i < |cs| && i != g && cs[i].instances > 0 ==> GivesBefore(cs[g], cs[i]))
  }

  /** No holder goes before the giver. */
  ghost predicate GiverUnbeaten(cs: seq<Candidate>) {
    Giver(cs).Some? ==> forall i :: 0 <= i < |cs| && cs[i].instances > 0 ==> !GivesBefore(cs[i], Giver(cs).value)
  }

  /** Whoever beats all others is found, wherever in the list. */
  lemma {:induction false} BeaterIsGiver(cs: seq<Candidate>, g: nat)
    requires BeatsAll(cs, g)
    ensures Giver(cs) == Some(cs[g])
    decreases |cs|
  {
    hide GivesBefore;
    var n := |cs| - 1;
    var before, c := cs[..n], cs[n];
    assert forall i :: 0 <= i < n ==> before[i] == cs[i];
    if g < n {
      BeaterIsGiver(before, g);
      OneGoesBefore(cs[g], c);
    } else {
      GiverIsLoaded(before);
      if Giver(before).Some? {
        var i :| 0 <= i < |before| && before[i] == Giver(before).value;
        assert GivesBefore(c, cs[i]);
      }
    }
  }

  /** No holder goes before the giver if and only if some holder goes before every other one, or there is none. */
  lemma UnbeatenExactly(cs: seq<Candidate>)
    requires Rebalancing.UniqueNames(cs)
    ensures GiverUnbeaten(cs) <==> Giver(cs).None? || exists g: nat :: BeatsAll(cs, g)
  {
    hide GivesBefore;
    GiverIsLoaded(cs);
    if Giver(cs).Some? {
      if g: nat :| BeatsAll(cs, g) {
        BeaterIsGiver(cs, g);
        OnlyItself(cs, g);
      }
      if GiverUnbeaten(cs) {
        var g :| 0 <= g < |cs| && cs[g] == Giver(cs).value;
        forall i | 0 <= i < |cs| && i != g && cs[i].instances > 0 ensures GivesBefore(cs[g], cs[i]) {
          assert cs[i].name != cs[g].name;
          OneGoesBefore(cs[g], cs[i]);
        }
        assert BeatsAll(cs, g);
      }
    }
  }

  lemma OnlyItself(cs: seq<Candidate>, g: nat)
    requires BeatsAll(cs, g)
    ensures forall i :: 0 <= i < |cs| && cs[i].instances > 0 ==> !GivesBefore(cs[i], cs[g])
  {
    hide GivesBefore;
    forall i | 0 <= i < |cs| && cs[i].instances > 0 ensures !GivesBefore(cs[i], cs[g]) {
      OneGoesBefore(cs[g], cs[i]);
      OneGoesBefore(cs[g], cs[g]);
    }
  }

  /**
   * When a holder does not give before another: the other one accepts no work and this one does; or they are alike in
   * that, and this one is less loaded, or as loaded and sparser, or neither and named later.
   */
  ghost predicate Keeps(c: Candidate, best: Candidate) {
    var here := best.instances * if c.cpuCount > 1 then c.cpuCount else 1;
    var there := c.instances * if best.cpuCount > 1 then best.cpuCount else 1;
    || (c.acceptsWork && !best.acceptsWork)
    || (c.acceptsWork == best.acceptsWork && !Near(c, best)
        && PerCore(c.loadAverage, c.cpuCount) < PerCore(best.loadAverage, best.cpuCount))
    || (c.acceptsWork == best.acceptsWork && Near(c, best) && there < here)
    || (c.acceptsWork == best.acceptsWork && Near(c, best) && there == here && AtMost(best.name, c.name))
  }

  lemma KeepsMeans(c: Candidate, best: Candidate)
    ensures Keeps(c, best) <==> !GivesBefore(c, best)
  {
    hide CompareDensity, Less, AtMost, PerCore, NormalisedLoad;
    DensityMeans(c, 0, best, 0);
    LessMeans(c.name, best.name);
    LoadsAre(c);
    LoadsAre(best);
  }

  /** Every holder keeps its instance before the giver does. */
  ghost predicate GiverIsAhead(cs: seq<Candidate>) {
    Giver(cs).Some? ==> forall i :: 0 <= i < |cs| && cs[i].instances > 0 ==> Keeps(cs[i], Giver(cs).value)
  }

  /** A holder before which every other one keeps its instance. */
  ghost predicate Ahead(cs: seq<Candidate>, g: nat) {
    && g < |cs| && cs[g].instances > 0
    && (forall i :: 0 <= i < |cs| && i != g && cs[i].instances > 0 ==> Keeps(cs[i], cs[g]))
  }

  lemma AheadMeans(cs: seq<Candidate>, g: nat)
    requires Rebalancing.UniqueNames(cs)
    ensures Ahead(cs, g) <==> BeatsAll(cs, g)
  {
    hide Keeps, GivesBefore;
    forall i | 0 <= i < |cs| && g < |cs| && i != g ensures Keeps(cs[i], cs[g]) <==> GivesBefore(cs[g], cs[i]) {
      assert cs[i].name != cs[g].name;
      KeepsMeans(cs[i], cs[g]);
      OneGoesBefore(cs[g], cs[i]);
    }
  }

  lemma GiverAheadMeans(cs: seq<Candidate>)
    ensures GiverIsAhead(cs) <==> GiverUnbeaten(cs)
  {
    hide Keeps, GivesBefore;
    if Giver(cs).Some? {
      forall i | 0 <= i < |cs| ensures Keeps(cs[i], Giver(cs).value) <==> !GivesBefore(cs[i], Giver(cs).value) {
        KeepsMeans(cs[i], Giver(cs).value);
      }
    }
  }

  /**
   * Exactly when the tolerance does not mislead: by work, load, density and name every holder keeps its instance before
   * the giver does if and only if there is a holder before which every other one does, or no holder at all.
   */
  lemma GiverIsFirstExactly(cs: seq<Candidate>)
    requires Rebalancing.UniqueNames(cs)
    ensures GiverIsAhead(cs) <==> Giver(cs).None? || exists g: nat :: Ahead(cs, g)
    ensures forall g: nat :: Ahead(cs, g) ==> Giver(cs) == Some(cs[g])
  {
    hide GiverIsAhead, GiverUnbeaten, Keeps, GivesBefore, BeatsAll;
    UnbeatenExactly(cs);
    GiverAheadMeans(cs);
    forall g: nat ensures Ahead(cs, g) <==> BeatsAll(cs, g) { AheadMeans(cs, g); }
    forall g: nat | Ahead(cs, g) ensures Giver(cs) == Some(cs[g]) { BeaterIsGiver(cs, g); }
  }

  // ---------- which is so when closeness is transitive ----------

  predicate Peers(a: Candidate, b: Candidate) {
    a.instances > 0 && b.instances > 0 && a.acceptsWork == b.acceptsWork
  }

  /** Among holders that both accept work, and among those that both do not. */
  ghost predicate ClosenessIsTransitive(cs: seq<Candidate>) {
    forall i, j, k :: 0 <= i < |cs| && 0 <= j < |cs| && 0 <= k < |cs| ==>
      (Peers(cs[i], cs[j]) && Peers(cs[j], cs[k]) && Close(cs[i], cs[j]) && Close(cs[j], cs[k]) ==> Close(cs[i], cs[k]))
  }

  /** What does not go before b does not go before anything that goes before b. */
  lemma NotBeforeChain(a: Candidate, b: Candidate, c: Candidate)
    requires !GivesBefore(a, b) && GivesBefore(c, b)
    requires a.acceptsWork == b.acceptsWork == c.acceptsWork ==>
               && (Close(a, b) && Close(b, c) ==> Close(a, c))
               && (Close(a, c) && Close(c, b) ==> Close(a, b))
               && (Close(b, a) && Close(a, c) ==> Close(b, c))
    ensures !GivesBefore(a, c)
  {
    hide NormalisedLoad, CompareDensity, Less;
    DensityChain(c, b, a);
    DensityChain(b, c, a);
    DensityChain(a, c, b);
    DensityChain(a, b, c);
    LessTrichotomy(a.name, b.name);
    LessTrichotomy(c.name, a.name);
    if Less(c.name, b.name) && Less(b.name, a.name) { LessTransitive(c.name, b.name, a.name); }
    if Less(a.name, c.name) && Less(c.name, b.name) { LessTransitive(a.name, c.name, b.name); }
  }

  /** Then the giver is first by work, load, density and name, in that order. */
  lemma GiverIsFirst(cs: seq<Candidate>)
    requires ClosenessIsTransitive(cs)
    ensures GiverIsAhead(cs)
  {
    hide GiverIsAhead, ClosenessIsTransitive;
    GiverIsUnbeaten(cs);
    GiverAheadMeans(cs);
  }

  lemma {:induction false} GiverIsUnbeaten(cs: seq<Candidate>)
    requires ClosenessIsTransitive(cs)
    ensures GiverUnbeaten(cs)
  {
    hide GivesBefore, Close, ClosenessIsTransitive;
    if cs != [] {
      var before, c := cs[..|cs| - 1], cs[|cs| - 1];
      TransitiveBefore(cs);
      GiverIsUnbeaten(before);
      GiverHolds(before);
      OneGoesBefore(c, c);
      if Giver(before).Some? && c.instances > 0 && GivesBefore(c, Giver(before).value) {
        forall i | 0 <= i < |before| && before[i].instances > 0 ensures !GivesBefore(before[i], c) {
          StillNotBefore(cs, i);
        }
      }
      assert forall i :: 0 <= i < |before| ==> cs[i] == before[i];
    }
  }

  lemma GiverHolds(cs: seq<Candidate>)
    ensures Giver(cs).None? ==> forall i :: 0 <= i < |cs| ==> cs[i].instances <= 0
    ensures Giver(cs).Some? ==> Giver(cs).value in cs && Giver(cs).value.instances > 0
  {
    GiverIsLoaded(cs);
  }

  lemma TransitiveBefore(cs: seq<Candidate>)
    requires ClosenessIsTransitive(cs) && cs != []
    ensures ClosenessIsTransitive(cs[..|cs| - 1])
  {
    hide Close, Peers;
    var before := cs[..|cs| - 1];
    forall i, j, k | 0 <= i < |before| && 0 <= j < |before| && 0 <= k < |before| && Peers(before[i], before[j])
                     && Peers(before[j], before[k]) && Close(before[i], before[j]) && Close(before[j], before[k])
      ensures Close(before[i], before[k])
    {
      assert Close(cs[i], cs[j]) && Close(cs[j], cs[k]) && Peers(cs[i], cs[j]) && Peers(cs[j], cs[k]);
    }
  }

  lemma StillNotBefore(cs: seq<Candidate>, i: nat)
    requires ClosenessIsTransitive(cs) && 0 <= i < |cs| - 1 && cs[i].instances > 0 && cs[|cs| - 1].instances > 0
    requires var before, c := cs[..|cs| - 1], cs[|cs| - 1];
             && Giver(before).Some? && Giver(before).value in before && Giver(before).value.instances > 0
             && GivesBefore(c, Giver(before).value) && !GivesBefore(before[i], Giver(before).value)
    ensures !GivesBefore(cs[i], cs[|cs| - 1])
  {
    hide GivesBefore, Close, Giver;
    var before, c := cs[..|cs| - 1], cs[|cs| - 1];
    var b := Giver(before).value;
    var j :| 0 <= j < |before| && before[j] == b;
    assert cs[i] == before[i] && cs[j] == b && cs[|before|] == c;
    NotBeforeChain(cs[i], cs[j], c);
  }

  // ---------- and what does not ----------

  function Node(name: Byte, load: real, instances: int): Candidate {
    Candidate([name], map[], 1, load, instances, true, 0, 0)
  }

  /** Three nodes, each a tolerance less loaded and denser than the one before: the least loaded gives. */
  lemma LoadCanDrift()
    ensures var a, b, c := Node(1, 1.0, 1), Node(2, 0.99, 2), Node(3, 0.98, 3);
            Giver([a, b, c]) == Some(c) && GivesBefore(a, c) && NormalisedLoad(a) - NormalisedLoad(c) > SAME_LOAD
  {
    var a, b, c := Node(1, 1.0, 1), Node(2, 0.99, 2), Node(3, 0.98, 3);
    assert [a, b, c][..2] == [a, b];
    assert [a, b][..1] == [a];
    assert [a][..0] == [];
    assert Giver([a]) == Some(a);
    assert Giver([a, b]) == Some(b);
  }

  // ---------- which slot stops ----------

  datatype Slot = Slot(instanceId: Bytes, node: Bytes, inHand: int)

  /** Placed, with nothing in hand, and on the node asked for if one is. */
  predicate Free(s: Slot, node: Option<Bytes>) {
    s.node != [] && s.inHand <= 0 && (node.None? || s.node == node.value)
  }

  method LastFree(slots: seq<Slot>, node: Option<Bytes>) returns (r: Option<Slot>)
    ensures r.None? <==> forall i :: 0 <= i < |slots| ==> !Free(slots[i], node)
    ensures r.Some? ==> exists i :: 0 <= i < |slots| && slots[i] == r.value && Free(slots[i], node)
                                    && forall j :: i < j < |slots| ==> !Free(slots[j], node)
  {
    var i := |slots|;
    while i > 0
      invariant 0 <= i <= |slots| && forall j :: i <= j < |slots| ==> !Free(slots[j], node)
    {
      i := i - 1;
      if slots[i].node == [] || slots[i].inHand > 0 {
        continue;
      }
      if node.Some? && slots[i].node != node.value {
        continue;
      }
      return Some(slots[i]);
    }
    return None;
  }

  /** Nothing with work in hand is stopped; the preferred node comes first, and the slot placed last. */
  method ChooseSlotToStop(slots: seq<Slot>, preferred: Option<Bytes>) returns (r: Option<Slot>)
    ensures r.None? <==> forall i :: 0 <= i < |slots| ==> !Free(slots[i], None)
    ensures r.Some? ==> r.value in slots && r.value.node != [] && r.value.inHand <= 0
    ensures r.None? ==> forall i :: 0 <= i < |slots| ==> slots[i].node == [] || slots[i].inHand > 0
    ensures r.Some? && preferred.Some?
            && (exists i :: 0 <= i < |slots| && slots[i].node == preferred.value != [] && slots[i].inHand <= 0) ==>
              r.value.node == preferred.value
    ensures r.Some? ==>
              var node := if exists i :: 0 <= i < |slots| && Free(slots[i], preferred) then preferred else None;
              exists i :: 0 <= i < |slots| && slots[i] == r.value
                          && forall j :: i < j < |slots| ==> !Free(slots[j], node)
  {
    r := LastFree(slots, preferred);
    if r.Some? {
      return r;
    }
    r := LastFree(slots, None);
  }
}
