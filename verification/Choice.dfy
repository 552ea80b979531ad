/**
 * What Choose() answers, in numbers: who is eligible, and who of the eligible it is. Loads that differ by no more than
 * 0.01 count as the same, and that is not transitive, so the answer is pinned down with and without it.
 */
module Choice {
  import opened LittleEndian
  import opened Lexicographic
  import opened Outcome
  import opened Placement
  import Rebalancing

  /** One-minute load per core. */
  function PerCore(load: real, cpus: int): real {
    load / (if cpus > 1 then cpus else 1) as real
  }

  predicate Near(a: Candidate, b: Candidate) {
    var difference := PerCore(a.loadAverage, a.cpuCount) - PerCore(b.loadAverage, b.cpuCount);
    -0.01 <= difference <= 0.01
  }

  /** Who may be chosen: it accepts work, it is named if any are, it has every label, and the memory fits. */
  lemma EligibleMeans(c: Candidate, k: Constraints)
    ensures Eligible(c, k) <==>
              && c.acceptsWork
              && (k.nodes == [] || exists i :: 0 <= i < |k.nodes| && k.nodes[i] == c.name)
              && (forall l :: l in k.labels ==> l in c.labels && c.labels[l] == k.labels[l])
              && (k.memoryMb > 0 && c.memoryMb > 0 ==>
                    (c.committedMemoryMb + k.memoryMb) as real
                    <= (if k.overcommitRatio > 0.0 then k.overcommitRatio else 1.0) * c.memoryMb as real)
  {
  }

  lemma SatisfiesMeans(c: Candidate, k: Constraints)
    ensures Satisfies(c, k) <==>
              && c.acceptsWork
              && (k.nodes == [] || exists i :: 0 <= i < |k.nodes| && k.nodes[i] == c.name)
              && (forall l :: l in k.labels ==> l in c.labels && c.labels[l] == k.labels[l])
  {
  }

  /** Instances per core with one instance more, or with as many as there are, cross-multiplied. */
  lemma DensityMeans(a: Candidate, more: int, b: Candidate, moreThere: int)
    ensures CompareDensity(a, more, b, moreThere)
         == (a.instances + more) * (if b.cpuCount > 1 then b.cpuCount else 1)
            - (b.instances + moreThere) * (if a.cpuCount > 1 then a.cpuCount else 1)
  {
  }

  /** A node does not take another's place: it is denser, or as dense and more loaded, or neither and named later. */
  ghost predicate Behind(c: Candidate, best: Candidate) {
    var there := (c.instances + 1) * if best.cpuCount > 1 then best.cpuCount else 1;
    var here := (best.instances + 1) * if c.cpuCount > 1 then c.cpuCount else 1;
    || here < there
    || (&& here == there && !Near(c, best)
        && PerCore(best.loadAverage, best.cpuCount) < PerCore(c.loadAverage, c.cpuCount))
    || (here == there && Near(c, best) && AtMost(best.name, c.name))
  }

  lemma BehindMeans(c: Candidate, best: Candidate)
    ensures Behind(c, best) <==> !Preferred(c, best)
  {
    hide CompareDensity, Less, AtMost;
    DensityMeans(c, 1, best, 1);
    LessMeans(c.name, best.name);
  }

  // ---------- whatever the loads ----------

  /** Exactly as dense, with one instance more on either. */
  predicate AsDense(c: Candidate, d: Candidate) {
    (c.instances + 1) * (if d.cpuCount > 1 then d.cpuCount else 1)
    == (d.instances + 1) * (if c.cpuCount > 1 then c.cpuCount else 1)
  }

  /**
   * Of the eligible nodes as dense as the answer none is less loaded per core by more than one tolerance for every
   * node looked at since.
   */
  lemma {:induction false} PickIsLeastLoaded(cs: seq<Candidate>, k: Constraints)
    ensures Pick(cs, k).Some? ==>
              var best := Pick(cs, k).value;
              forall i :: 0 <= i < |cs| && Eligible(cs[i], k) && AsDense(cs[i], best) ==>
                PerCore(best.loadAverage, best.cpuCount) - PerCore(cs[i].loadAverage, cs[i].cpuCount)
                <= 0.01 * (|cs| - i) as real
  {
    hide Eligible, PerCore, AsDense, CompareDensity, Preferred;
    if cs != [] {
      var before, c := cs[..|cs| - 1], cs[|cs| - 1];
      PickIsLeastLoaded(before, k);
      PickIsSparsest(before, k);
      assert forall i :: 0 <= i < |before| ==> before[i] == cs[i];
      if Pick(before, k).Some? && Eligible(c, k) {
        LoadStep(before, k, c);
      }
    }
  }

  /** One node more: it takes over only if it is at most a tolerance more loaded, or sparser than all before. */
  lemma LoadStep(before: seq<Candidate>, k: Constraints, c: Candidate)
    requires Pick(before, k).Some? && Sparsest(before, k, Pick(before, k).value)
    ensures var best := Pick(before, k).value;
            if Preferred(c, best) then
              forall i :: 0 <= i < |before| && Eligible(before[i], k) && AsDense(before[i], c) ==>
                AsDense(before[i], best)
                && PerCore(c.loadAverage, c.cpuCount) - PerCore(best.loadAverage, best.cpuCount) <= 0.01
            else
              AsDense(c, best) ==> PerCore(best.loadAverage, best.cpuCount) - PerCore(c.loadAverage, c.cpuCount) <= 0.01
  {
    hide Eligible, Pick, PerCore, Less;
    var best := Pick(before, k).value;
    LoadsAre(c);
    LoadsAre(best);
    forall i | 0 <= i < |before| && Eligible(before[i], k) && AsDense(before[i], c) && Preferred(c, best)
      ensures AsDense(before[i], best)
      ensures PerCore(c.loadAverage, c.cpuCount) - PerCore(best.loadAverage, best.cpuCount) <= 0.01
    {
      hide Preferred, Sparsest;
      DenseChain(before[i], c, best, k, before, i);
    }
  }

  lemma LoadsAre(c: Candidate)
    ensures NormalisedLoad(c) == PerCore(c.loadAverage, c.cpuCount)
  {
  }

  lemma DenseChain(x: Candidate, c: Candidate, best: Candidate, k: Constraints, before: seq<Candidate>, i: nat)
    requires i < |before| && before[i] == x && Eligible(x, k) && AsDense(x, c) && Preferred(c, best)
    requires Sparsest(before, k, best)
    ensures AsDense(x, best)
    ensures PerCore(c.loadAverage, c.cpuCount) - PerCore(best.loadAverage, best.cpuCount) <= 0.01
  {
    hide Eligible, PerCore, Less;
    assert CompareDensity(best, 1, x, 1) <= 0;
    LoadsAre(c);
    LoadsAre(best);
    hide CompareDensity, AsDense;
    AsDenseMeans(x, c);
    AsDenseMeans(x, best);
    CompareFlip(x, c);
    CompareFlip(best, x);
    CompareFlip(c, best);
    CompareChain(best, x, c);
  }

  lemma AsDenseMeans(c: Candidate, d: Candidate)
    ensures AsDense(c, d) <==> CompareDensity(c, 1, d, 1) == 0
  {
  }

  // ---------- exactly when it is first ----------

  /** Of two nodes with different names exactly one is behind the other; a node is behind itself. */
  lemma OneIsBehind(a: Candidate, b: Candidate)
    ensures Behind(a, b) || Behind(b, a)
    ensures a.name != b.name ==> !(Behind(a, b) && Behind(b, a))
  {
    hide AtMost, Less, PerCore;
    LessMeans(a.name, b.name);
    LessMeans(b.name, a.name);
  }

  /** An eligible node that every other eligible node is behind. */
  ghost predicate First(cs: seq<Candidate>, k: Constraints, g: nat) {
    && g < |cs| && Eligible(cs[g], k)
    && (forall i :: 0 <= i < |cs| && i != g && Eligible(cs[i], k) ==> Behind(cs[i], cs[g]))
  }

  lemma {:induction false} FirstIsPicked(cs: seq<Candidate>, k: Constraints, g: nat)
    requires Rebalancing.UniqueNames(cs) && First(cs, k, g)
    ensures Pick(cs, k) == Some(cs[g])
    decreases |cs|
  {
    hide Behind, Eligible, Preferred;
    var n := |cs| - 1;
    var before, c := cs[..n], cs[n];
    assert forall i :: 0 <= i < n ==> before[i] == cs[i];
    if g < n {
      FirstIsPicked(before, k, g);
      if Eligible(c, k) { BehindMeans(c, cs[g]); }
    } else {
      PickIsSparsest(before, k);
      if Pick(before, k).Some? {
        var i :| 0 <= i < |before| && before[i] == Pick(before, k).value;
        assert cs[i].name != c.name;
        OneIsBehind(cs[i], c);
        BehindMeans(c, cs[i]);
      }
    }
  }

  /** Every eligible node is behind the answer. */
  ghost predicate PickIsAhead(cs: seq<Candidate>, k: Constraints) {
    Pick(cs, k).Some? ==> forall i :: 0 <= i < |cs| && Eligible(cs[i], k) ==> Behind(cs[i], Pick(cs, k).value)
  }

  /**
   * Exactly when the tolerance does not mislead: every eligible node is behind the answer by density, load and name if
   * and only if some eligible node is ahead of all others, or there is none; and then it is that one.
   */
  lemma PickIsFirstExactly(cs: seq<Candidate>, k: Constraints)
    requires Rebalancing.UniqueNames(cs)
    ensures PickIsAhead(cs, k) <==> Pick(cs, k).None? || exists g: nat :: First(cs, k, g)
    ensures forall g: nat :: First(cs, k, g) ==> Pick(cs, k) == Some(cs[g])
  {
    hide Behind, Eligible;
    PickIsSparsest(cs, k);
    forall g: nat | First(cs, k, g) ensures Pick(cs, k) == Some(cs[g]) {
      FirstIsPicked(cs, k, g);
    }
    if Pick(cs, k).Some? {
      var best := Pick(cs, k).value;
      OneIsBehind(best, best);
      if PickIsAhead(cs, k) {
        var g :| 0 <= g < |cs| && cs[g] == best;
        assert First(cs, k, g);
      }
    }
  }

  // ---------- which is so when closeness is transitive ----------

  /** Among eligible nodes of one density. */
  ghost predicate NearIsTransitive(cs: seq<Candidate>, k: Constraints) {
    forall i, j, l :: 0 <= i < |cs| && 0 <= j < |cs| && 0 <= l < |cs| ==>
      (Tied(cs[i], cs[j], k) && Tied(cs[j], cs[l], k) && Near(cs[i], cs[j]) && Near(cs[j], cs[l]) ==>
         Near(cs[i], cs[l]))
  }

  predicate Tied(a: Candidate, b: Candidate, k: Constraints) {
    Eligible(a, k) && Eligible(b, k) && AsDense(a, b)
  }

  lemma LoadOrder(a: Candidate, b: Candidate, c: Candidate)
    requires Near(a, b) && Near(b, c) ==> Near(a, c)
    requires Near(a, c) && Near(c, b) ==> Near(a, b)
    requires Near(b, a) && Near(a, c) ==> Near(b, c)
    ensures Near(a, b) == Near(b, a) && Near(a, c) == Near(c, a) && Near(b, c) == Near(c, b)
    ensures !Near(a, b) && PerCore(b.loadAverage, b.cpuCount) < PerCore(a.loadAverage, a.cpuCount) && Near(b, c) ==>
              !Near(a, c) && PerCore(c.loadAverage, c.cpuCount) < PerCore(a.loadAverage, a.cpuCount)
    ensures !Near(c, b) && PerCore(c.loadAverage, c.cpuCount) < PerCore(b.loadAverage, b.cpuCount) && Near(a, b) ==>
              !Near(a, c) && PerCore(c.loadAverage, c.cpuCount) < PerCore(a.loadAverage, a.cpuCount)
    ensures !Near(a, b) && PerCore(b.loadAverage, b.cpuCount) < PerCore(a.loadAverage, a.cpuCount)
            && !Near(b, c) && PerCore(c.loadAverage, c.cpuCount) < PerCore(b.loadAverage, b.cpuCount) ==>
              !Near(a, c) && PerCore(c.loadAverage, c.cpuCount) < PerCore(a.loadAverage, a.cpuCount)
  {
    hide PerCore;
  }

  /** What is behind b is behind anything that b is behind. */
  lemma BehindChain(a: Candidate, b: Candidate, c: Candidate)
    requires Behind(a, b) && !Behind(c, b)
    requires AsDense(a, b) && AsDense(b, c) ==>
               && (Near(a, b) && Near(b, c) ==> Near(a, c))
               && (Near(a, c) && Near(c, b) ==> Near(a, b))
               && (Near(b, a) && Near(a, c) ==> Near(b, c))
    ensures Behind(a, c)
  {
    hide AtMost, PerCore, Near;
    OneIsBehind(c, b);
    AsDenseMeans(a, b);
    AsDenseMeans(b, c);
    AsDenseMeans(a, c);
    DensityMeans(a, 1, b, 1);
    DensityMeans(b, 1, c, 1);
    DensityMeans(a, 1, c, 1);
    CompareChain(c, b, a);
    CompareFlip(c, b);
    CompareFlip(b, a);
    CompareFlip(c, a);
    AtMostTransitive(c.name, b.name, a.name);
    if AsDense(a, b) && AsDense(b, c) {
      LoadOrder(a, b, c);
    }
  }

  /** Then the answer is the sparsest, of those the least loaded, and of those the first by name. */
  lemma {:induction false} PickIsFirst(cs: seq<Candidate>, k: Constraints)
    requires NearIsTransitive(cs, k)
    ensures PickIsAhead(cs, k)
  {
    hide Behind, Eligible, Near, AsDense, Preferred, NearIsTransitive;
    if cs != [] {
      var before, c := cs[..|cs| - 1], cs[|cs| - 1];
      assert forall i :: 0 <= i < |before| ==> before[i] == cs[i];
      TransitiveFront(cs, k);
      PickIsFirst(before, k);
      PickIsSparsest(before, k);
      OneIsBehind(c, c);
      if Pick(before, k).Some? && Eligible(c, k) {
        var j :| 0 <= j < |before| && before[j] == Pick(before, k).value;
        BehindMeans(c, before[j]);
        if Preferred(c, before[j]) {
          forall i | 0 <= i < |before| && Eligible(before[i], k) ensures Behind(before[i], c) {
            StillBehind(cs, k, i, j);
          }
        }
      }
    }
  }

  lemma TransitiveFront(cs: seq<Candidate>, k: Constraints)
    requires NearIsTransitive(cs, k) && cs != []
    ensures NearIsTransitive(cs[..|cs| - 1], k)
  {
    hide Near, Tied;
    var before := cs[..|cs| - 1];
    forall i, j, l | 0 <= i < |before| && 0 <= j < |before| && 0 <= l < |before|
      ensures (Tied(before[i], before[j], k) && Tied(before[j], before[l], k)
               && Near(before[i], before[j]) && Near(before[j], before[l]))
              ==> Near(before[i], before[l])
    {
      assert before[i] == cs[i] && before[j] == cs[j] && before[l] == cs[l];
    }
  }

  lemma StillBehind(cs: seq<Candidate>, k: Constraints, i: nat, j: nat)
    requires NearIsTransitive(cs, k) && i < |cs| - 1 && j < |cs| - 1
    requires Eligible(cs[i], k) && Eligible(cs[j], k) && Eligible(cs[|cs| - 1], k)
    requires Behind(cs[i], cs[j]) && !Behind(cs[|cs| - 1], cs[j])
    ensures Behind(cs[i], cs[|cs| - 1])
  {
    hide Behind, Eligible, Near, AsDense;
    var l := |cs| - 1;
    TiedAll(cs[i], cs[j], cs[l]);
    BehindChain(cs[i], cs[j], cs[l]);
  }

  /** Equal density is an equivalence. */
  lemma TiedAll(a: Candidate, b: Candidate, c: Candidate)
    ensures AsDense(a, b) == AsDense(b, a) && AsDense(b, c) == AsDense(c, b) && AsDense(a, c) == AsDense(c, a)
    ensures AsDense(a, b) && AsDense(b, c) ==> AsDense(a, c)
  {
    hide AsDense, CompareDensity;
    AsDenseMeans(a, b);
    AsDenseMeans(b, a);
    AsDenseMeans(b, c);
    AsDenseMeans(c, b);
    AsDenseMeans(a, c);
    AsDenseMeans(c, a);
    CompareFlip(a, b);
    CompareFlip(b, c);
    CompareFlip(a, c);
    CompareChain(a, b, c);
    CompareChain(c, b, a);
  }
}
