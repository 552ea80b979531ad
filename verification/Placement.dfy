/**
 * Placing and moving the instances of an application over its nodes (main/include/Placement.h). Loads and ratios
 * are reals.
 */
module Placement {
  import opened LittleEndian
  import opened Lexicographic
  import opened Outcome

  datatype Candidate = Candidate(
    name: Bytes,
    labels: map<Bytes, Bytes>,
    cpuCount: int,
    loadAverage: real,
    instances: int,
    acceptsWork: bool,
    memoryMb: int,
    committedMemoryMb: int)

  datatype Constraints = Constraints(nodes: seq<Bytes>, labels: map<Bytes, Bytes>, memoryMb: int, overcommitRatio: real)

  const SAME_LOAD := 0.01

  predicate Fits(c: Candidate, k: Constraints) {
    k.memoryMb <= 0 || c.memoryMb <= 0
    || (c.committedMemoryMb + k.memoryMb) as real
       <= c.memoryMb as real * (if k.overcommitRatio > 0.0 then k.overcommitRatio else 1.0)
  }

  predicate Satisfies(c: Candidate, k: Constraints) {
    && c.acceptsWork
    && (k.nodes == [] || c.name in k.nodes)
    && forall l :: l in k.labels ==> l in c.labels && c.labels[l] == k.labels[l]
  }

  function Cores(c: Candidate): (n: nat)
    ensures n >= 1
  {
    if c.cpuCount > 1 then c.cpuCount else 1
  }

  function NormalisedLoad(c: Candidate): real {
    c.loadAverage / Cores(c) as real
  }

  /** How densely two nodes would carry the application: negative when the first would be the sparser. */
  function CompareDensity(a: Candidate, addA: int, b: Candidate, addB: int): int {
    (a.instances + addA) * Cores(b) - (b.instances + addB) * Cores(a)
  }

  predicate Eligible(c: Candidate, k: Constraints) {
    Satisfies(c, k) && Fits(c, k)
  }

  /** Whether a candidate takes the place of the best so far. */
  predicate Preferred(c: Candidate, best: Candidate) {
    var density := CompareDensity(c, 1, best, 1);
    if density != 0 then density < 0
    else
      var difference := NormalisedLoad(c) - NormalisedLoad(best);
      if difference > SAME_LOAD || -difference > SAME_LOAD then difference < 0.0 else Less(c.name, best.name)
  }

  /** The node Choose() settles on. */
  function Pick(cs: seq<Candidate>, k: Constraints): Option<Candidate> {
    if cs == [] then None
    else
      var best, c := Pick(cs[..|cs| - 1], k), cs[|cs| - 1];
      if Eligible(c, k) && (best.None? || Preferred(c, best.value)) then Some(c) else best
  }

  function Named(best: Option<Candidate>): Option<Bytes> {
    if best.None? then None else Some(best.value.name)
  }

  method Choose(cs: seq<Candidate>, k: Constraints) returns (r: Option<Bytes>)
    ensures r == Named(Pick(cs, k))
    ensures r == if Pick(cs, k).Some? then Some(Pick(cs, k).value.name) else None
  {
    var best := None;
    for i := 0 to |cs|
      invariant best == Pick(cs[..i], k)
    {
      assert cs[..i + 1][..i] == cs[..i];
      var c := cs[i];
      if !Eligible(c, k) {
        continue;
      }
      if best.None? {
        best := Some(c);
        continue;
      }
      var density := CompareDensity(c, 1, best.value, 1);
      if density != 0 {
        if density < 0 {
          best := Some(c);
        }
        continue;
      }
      var difference := NormalisedLoad(c) - NormalisedLoad(best.value);
      if difference > SAME_LOAD || -difference > SAME_LOAD {
        if difference < 0.0 {
          best := Some(c);
        }
        continue;
      }
      if Less(c.name, best.value.name) {
        best := Some(c);
      }
    }
    assert cs[..|cs|] == cs;
    return if best.None? then None else Some(best.value.name);
  }

  datatype Move = Move(from: Bytes, to: Bytes)

  /** Whether a holder gives up its instance before the one found so far. */
  predicate LeavesBefore(c: Candidate, from: Candidate, k: Constraints) {
    if Satisfies(c, k) != Satisfies(from, k) then !Satisfies(c, k)
    else
      var density := CompareDensity(c, 0, from, 0);
      if density != 0 then density > 0 else Less(c.name, from.name)
  }

  /** The holder an instance is taken from. */
  function Donor(cs: seq<Candidate>, k: Constraints): Option<Candidate> {
    if cs == [] then None
    else
      var from, c := Donor(cs[..|cs| - 1], k), cs[|cs| - 1];
      if c.instances > 0 && (from.None? || LeavesBefore(c, from.value, k)) then Some(c) else from
  }

  function FindNamed(cs: seq<Candidate>, name: Bytes): Option<Candidate> {
    if cs == [] then None else if cs[0].name == name then Some(cs[0]) else FindNamed(cs[1..], name)
  }

  function Rebalance(cs: seq<Candidate>, k: Constraints): Option<Move> {
    var from, to := Donor(cs, k), Named(Pick(cs, k));
    if from.None? || to.None? || to.value == from.value.name then None
    else if !Satisfies(from.value, k) then Some(Move(from.value.name, to.value))
    else
      var target := FindNamed(cs, to.value);
      if target.None? || CompareDensity(from.value, 0, target.value, 1) <= 0 then None
      else Some(Move(from.value.name, to.value))
  }

  method ChooseRebalance(cs: seq<Candidate>, k: Constraints) returns (r: Option<Move>)
    ensures r == Rebalance(cs, k)
  {
    var from, mustLeave := None, false;
    for i := 0 to |cs|
      invariant from == Donor(cs[..i], k)
      invariant from.Some? ==> mustLeave == !Satisfies(from.value, k)
    {
      assert cs[..i + 1][..i] == cs[..i];
      var c := cs[i];
      if c.instances <= 0 {
        continue;
      }
      var leaves := !Satisfies(c, k);
      if from.None? {
        from, mustLeave := Some(c), leaves;
        continue;
      }
      if leaves != mustLeave {
        if leaves {
          from, mustLeave := Some(c), true;
        }
        continue;
      }
      var density := CompareDensity(c, 0, from.value, 0);
      if density != 0 {
        if density > 0 {
          from := Some(c);
        }
        continue;
      }
      if Less(c.name, from.value.name) {
        from := Some(c);
      }
    }
    assert cs[..|cs|] == cs;
    if from.None? {
      return None;
    }
    var chosen := Choose(cs, k);
    if chosen.None? || chosen.value == from.value.name {
      return None;
    }
    if !mustLeave {
      var to := FindNamed(cs, chosen.value);
      if to.None? || CompareDensity(from.value, 0, to.value, 1) <= 0 {
        return None;
      }
    }
    return Some(Move(from.value.name, chosen.value));
  }

  // ---------- densities ----------

  /** n1/c1 <= n2/c2 <= n3/c3, cross-multiplied, and strictly so if either step is. */
  lemma DensityTransitive(n1: int, c1: int, n2: int, c2: int, n3: int, c3: int)
    requires c1 > 0 && c2 > 0 && c3 > 0
    requires n1 * c2 <= n2 * c1 && n2 * c3 <= n3 * c2
    ensures n1 * c3 <= n3 * c1
    ensures n1 * c2 < n2 * c1 || n2 * c3 < n3 * c2 ==> n1 * c3 < n3 * c1
  {
    var a, b := n1 * c2, n2 * c1;
    var x, y := n2 * c3, n3 * c2;
    assert a * c3 <= b * c3 && (a < b ==> a * c3 < b * c3);
    assert x * c1 <= y * c1 && (x < y ==> x * c1 < y * c1);
    assert b * c3 == x * c1;
    assert a * c3 == (n1 * c3) * c2 && y * c1 == (n3 * c1) * c2;
    Cancel(n1 * c3, n3 * c1, c2);
  }

  lemma Cancel(a: int, b: int, c: int)
    requires c > 0
    ensures a * c <= b * c ==> a <= b
    ensures a * c < b * c ==> a < b
  {
  }

  // ---------- Choose() and its class of sparsest nodes ----------

  /** No eligible node would be sparser than this one. */
  ghost predicate Sparsest(cs: seq<Candidate>, k: Constraints, m: Candidate) {
    forall i :: 0 <= i < |cs| && Eligible(cs[i], k) ==> CompareDensity(m, 1, cs[i], 1) <= 0
  }

  /** The eligible nodes exactly as dense as m, in list order. */
  function ClassOf(cs: seq<Candidate>, k: Constraints, m: Candidate): seq<Candidate> {
    if cs == [] then []
    else
      var c := cs[|cs| - 1];
      ClassOf(cs[..|cs| - 1], k, m) + if Eligible(c, k) && CompareDensity(c, 1, m, 1) == 0 then [c] else []
  }

  /** Choose() finds a node exactly when one is eligible, and then a sparsest one. */
  lemma {:induction false} PickIsSparsest(cs: seq<Candidate>, k: Constraints)
    ensures Pick(cs, k).None? <==> forall i :: 0 <= i < |cs| ==> !Eligible(cs[i], k)
    ensures Pick(cs, k).Some? ==>
      && Pick(cs, k).value in cs && Eligible(Pick(cs, k).value, k) && Sparsest(cs, k, Pick(cs, k).value)
  {
    hide Eligible, CompareDensity;
    if cs != [] {
      var before, c := cs[..|cs| - 1], cs[|cs| - 1];
      PickIsSparsest(before, k);
      CompareSelf(c);
      if Eligible(c, k) && Pick(before, k).Some? {
        var best := Pick(before, k).value;
        CompareFlip(c, best);
        if Preferred(c, best) {
          forall i | 0 <= i < |cs| && Eligible(cs[i], k) ensures CompareDensity(c, 1, cs[i], 1) <= 0 {
            if i < |before| {
              assert cs[i] == before[i];
              CompareChain(c, best, cs[i]);
            }
          }
        }
      }
    }
  }

  lemma CompareSelf(c: Candidate)
    ensures CompareDensity(c, 1, c, 1) == 0
  {
  }

  lemma CompareFlip(a: Candidate, b: Candidate)
    ensures CompareDensity(a, 1, b, 1) == -CompareDensity(b, 1, a, 1)
  {
  }

  lemma CompareChain(a: Candidate, b: Candidate, c: Candidate)
    ensures CompareDensity(a, 1, b, 1) <= 0 && CompareDensity(b, 1, c, 1) <= 0 ==> CompareDensity(a, 1, c, 1) <= 0
    ensures CompareDensity(a, 1, b, 1) <= 0 && CompareDensity(b, 1, c, 1) < 0 ==> CompareDensity(a, 1, c, 1) < 0
    ensures CompareDensity(a, 1, b, 1) < 0 && CompareDensity(b, 1, c, 1) <= 0 ==> CompareDensity(a, 1, c, 1) < 0
  {
    if CompareDensity(a, 1, b, 1) <= 0 && CompareDensity(b, 1, c, 1) <= 0 {
      DensityTransitive(a.instances + 1, Cores(a), b.instances + 1, Cores(b), c.instances + 1, Cores(c));
    }
  }

  /**
   * What Choose() answers is decided within the class of sparsest nodes, by the order of its members alone:
   * the tolerance of the load comparison is not transitive, but no denser node can bend it.
   */
  lemma {:induction false} PickWithinClass(cs: seq<Candidate>, k: Constraints, m: Candidate)
    requires Sparsest(cs, k, m)
    ensures var tied := ClassOf(cs, k, m);
      && (tied != [] ==> Pick(cs, k) == Pick(tied, k))
      && (tied == [] && Pick(cs, k).Some? ==> CompareDensity(m, 1, Pick(cs, k).value, 1) < 0)
      && (tied != [] ==> Pick(cs, k).Some? && CompareDensity(Pick(cs, k).value, 1, m, 1) == 0)
  {
    hide Eligible, CompareDensity;
    if cs != [] {
      var before, c := cs[..|cs| - 1], cs[|cs| - 1];
      assert Sparsest(before, k, m) by {
        forall i | 0 <= i < |before| && Eligible(before[i], k) ensures CompareDensity(m, 1, before[i], 1) <= 0 {
          assert before[i] == cs[i];
        }
      }
      PickWithinClass(before, k, m);
      var tied := ClassOf(before, k, m);
      assert tied + [] == tied;
      if Eligible(c, k) {
        assert CompareDensity(m, 1, c, 1) <= 0;
        CompareFlip(m, c);
        if Pick(before, k).Some? {
          var best := Pick(before, k).value;
          CompareFlip(c, best);
          CompareFlip(m, best);
          CompareChain(best, m, c);
          CompareChain(c, m, best);
        }
        assert (tied + [c])[..|tied|] == tied;
      }
    }
  }
}
