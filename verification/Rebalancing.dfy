/** Moving instances ends, lands where it says, and where it stops the pool is as even as it can be. */
module Rebalancing {
  import opened LittleEndian
  import opened Lexicographic
  import opened Outcome
  import opened Placement

  ghost predicate UniqueNames(cs: seq<Candidate>) {
    forall i, j :: 0 <= i < |cs| && 0 <= j < |cs| && cs[i].name == cs[j].name ==> i == j
  }

  ghost predicate Counted(cs: seq<Candidate>) {
    forall i :: 0 <= i < |cs| ==> cs[i].instances >= 0
  }

  lemma {:induction false} FindNamedFinds(cs: seq<Candidate>, i: nat)
    requires UniqueNames(cs) && i < |cs|
    ensures FindNamed(cs, cs[i].name) == Some(cs[i])
  {
    if i > 0 {
      assert cs[0].name != cs[i].name;
      forall a, b | 0 <= a < |cs[1..]| && 0 <= b < |cs[1..]| && cs[1..][a].name == cs[1..][b].name ensures a == b {
        assert cs[a + 1].name == cs[b + 1].name;
      }
      FindNamedFinds(cs[1..], i - 1);
    }
  }

  /** The donor is a holder that must leave, if there is one, and otherwise a densest one. */
  lemma {:induction false} DonorIsFirst(cs: seq<Candidate>, k: Constraints)
    ensures Donor(cs, k).None? <==> forall i :: 0 <= i < |cs| ==> cs[i].instances <= 0
    ensures Donor(cs, k).Some? ==>
      var from := Donor(cs, k).value;
      && from in cs && from.instances > 0
      && (Satisfies(from, k) ==>
            forall i :: 0 <= i < |cs| && cs[i].instances > 0 ==>
              Satisfies(cs[i], k) && cs[i].instances * Cores(from) <= from.instances * Cores(cs[i]))
  {
    hide Satisfies;
    if cs != [] {
      var before, c := cs[..|cs| - 1], cs[|cs| - 1];
      DonorIsFirst(before, k);
      if c.instances > 0 && Donor(before, k).Some? {
        var from := Donor(before, k).value;
        if LeavesBefore(c, from, k) && Satisfies(c, k) {
          forall i | 0 <= i < |cs| && cs[i].instances > 0
            ensures Satisfies(cs[i], k) && cs[i].instances * Cores(c) <= c.instances * Cores(cs[i])
          {
            if i < |before| {
              assert cs[i] == before[i];
              DensityTransitive(cs[i].instances, Cores(cs[i]), from.instances, Cores(from), c.instances, Cores(c));
            }
          }
        }
      }
    }
  }

  /** Of the holders that must leave, or of all if none must, the donor is a densest, and the first of those by name. */
  lemma {:induction false} DonorIsDensest(cs: seq<Candidate>, k: Constraints)
    ensures Donor(cs, k).Some? ==>
      var from := Donor(cs, k).value;
      forall i :: 0 <= i < |cs| && cs[i].instances > 0 ==>
        || (!Satisfies(from, k) && Satisfies(cs[i], k))
        || (Satisfies(from, k) == Satisfies(cs[i], k)
            && cs[i].instances * Cores(from) < from.instances * Cores(cs[i]))
        || (Satisfies(from, k) == Satisfies(cs[i], k)
            && cs[i].instances * Cores(from) == from.instances * Cores(cs[i]) && AtMost(from.name, cs[i].name))
  {
    hide Satisfies, AtMost, Less;
    if cs != [] {
      var before, c := cs[..|cs| - 1], cs[|cs| - 1];
      DonorIsDensest(before, k);
      DonorIsFirst(before, k);
      LessMeans(c.name, c.name);
      if c.instances > 0 && Donor(before, k).Some? {
        var from := Donor(before, k).value;
        LessMeans(c.name, from.name);
        forall i | 0 <= i < |before| && cs[i].instances > 0 && LeavesBefore(c, from, k)
          ensures || (!Satisfies(c, k) && Satisfies(cs[i], k))
                  || (Satisfies(c, k) == Satisfies(cs[i], k) && cs[i].instances * Cores(c) < c.instances * Cores(cs[i]))
                  || (Satisfies(c, k) == Satisfies(cs[i], k) && cs[i].instances * Cores(c) == c.instances * Cores(cs[i])
                      && AtMost(c.name, cs[i].name))
        {
          assert cs[i] == before[i];
          DonorStep(cs[i], from, c, k);
        }
      }
    }
  }

  lemma DonorStep(x: Candidate, from: Candidate, c: Candidate, k: Constraints)
    requires LeavesBefore(c, from, k)
    requires || (!Satisfies(from, k) && Satisfies(x, k))
             || (Satisfies(from, k) == Satisfies(x, k) && x.instances * Cores(from) < from.instances * Cores(x))
             || (Satisfies(from, k) == Satisfies(x, k) && x.instances * Cores(from) == from.instances * Cores(x)
                 && AtMost(from.name, x.name))
    ensures || (!Satisfies(c, k) && Satisfies(x, k))
            || (Satisfies(c, k) == Satisfies(x, k) && x.instances * Cores(c) < c.instances * Cores(x))
            || (Satisfies(c, k) == Satisfies(x, k) && x.instances * Cores(c) == c.instances * Cores(x)
                && AtMost(c.name, x.name))
  {
    hide Satisfies, AtMost, Less;
    LessMeans(c.name, from.name);
    AtMostTransitive(c.name, from.name, x.name);
    if && x.instances * Cores(from) <= from.instances * Cores(x)
       && from.instances * Cores(c) <= c.instances * Cores(from) {
      DensityTransitive(x.instances, Cores(x), from.instances, Cores(from), c.instances, Cores(c));
      if && x.instances * Cores(from) == from.instances * Cores(x)
         && from.instances * Cores(c) == c.instances * Cores(from) {
        DensityTransitive(c.instances, Cores(c), from.instances, Cores(from), x.instances, Cores(x));
      }
    }
  }

  /** A move is proposed exactly if donor and answer differ and the donor must leave or is denser than the answer. */
  lemma RebalanceMeans(cs: seq<Candidate>, k: Constraints)
    requires UniqueNames(cs)
    ensures Rebalance(cs, k).Some? <==>
              && Donor(cs, k).Some? && Pick(cs, k).Some? && Donor(cs, k).value.name != Pick(cs, k).value.name
              && var from, to := Donor(cs, k).value, Pick(cs, k).value;
                 Satisfies(from, k) ==> (to.instances + 1) * Cores(from) < from.instances * Cores(to)
    ensures Rebalance(cs, k).Some? ==>
              && Rebalance(cs, k).value.from == Donor(cs, k).value.name
              && Rebalance(cs, k).value.to == Pick(cs, k).value.name
  {
    hide Satisfies, Pick, Donor;
    PickIsSparsest(cs, k);
    if Pick(cs, k).Some? {
      var t :| 0 <= t < |cs| && cs[t] == Pick(cs, k).value;
      FindNamedFinds(cs, t);
    }
  }

  /** A proposed move, with the two nodes it is between. */
  lemma MoveEnds(cs: seq<Candidate>, k: Constraints) returns (f: nat, t: nat)
    requires UniqueNames(cs) && Rebalance(cs, k).Some?
    ensures f < |cs| && t < |cs| && f != t
    ensures Rebalance(cs, k) == Some(Move(cs[f].name, cs[t].name))
    ensures Donor(cs, k) == Some(cs[f]) && cs[f].instances > 0
    ensures Pick(cs, k) == Some(cs[t]) && Eligible(cs[t], k) && Sparsest(cs, k, cs[t])
    ensures Satisfies(cs[f], k) ==> cs[f].instances * Cores(cs[t]) > (cs[t].instances + 1) * Cores(cs[f])
  {
    hide Satisfies, Fits;
    DonorIsFirst(cs, k);
    PickIsSparsest(cs, k);
    f :| 0 <= f < |cs| && cs[f] == Donor(cs, k).value;
    t :| 0 <= t < |cs| && cs[t] == Pick(cs, k).value;
    FindNamedFinds(cs, t);
  }

  // ---------- the replacement lands where the move says ----------

  /** One instance taken off a node, which may free memory there and change its load. */
  ghost predicate Withdrawn(cs: seq<Candidate>, cs': seq<Candidate>, from: Bytes) {
    && |cs| == |cs'|
    && forall i :: 0 <= i < |cs| ==>
         if cs[i].name != from then cs'[i] == cs[i]
         else cs'[i] == cs[i].(instances := cs[i].instances - 1, committedMemoryMb := cs'[i].committedMemoryMb,
                               loadAverage := cs'[i].loadAverage)
  }

  /** A node that is not in the class of the sparsest either before or after leaves that class as it was. */
  lemma {:induction false} SameClass(cs: seq<Candidate>, cs': seq<Candidate>, k: Constraints, m: Candidate)
    requires |cs| == |cs'|
    requires forall i :: 0 <= i < |cs| && cs'[i] != cs[i] ==>
      && (Eligible(cs[i], k) ==> CompareDensity(cs[i], 1, m, 1) != 0)
      && (Eligible(cs'[i], k) ==> CompareDensity(cs'[i], 1, m, 1) != 0)
    ensures ClassOf(cs, k, m) == ClassOf(cs', k, m)
  {
    hide Eligible, CompareDensity;
    if cs != [] {
      SameClass(cs[..|cs| - 1], cs'[..|cs| - 1], k, m);
    }
  }

  /** After the withdrawal a move asks for, Choose() puts the replacement exactly where the move said. */
  lemma RebalanceLands(cs: seq<Candidate>, cs': seq<Candidate>, k: Constraints)
    requires UniqueNames(cs) && Rebalance(cs, k).Some?
    requires Withdrawn(cs, cs', Rebalance(cs, k).value.from)
    ensures Named(Pick(cs', k)) == Some(Rebalance(cs, k).value.to)
  {
    hide Fits, Satisfies, Rebalance, Pick, Donor;
    var f, t := MoveEnds(cs, k);
    var m := cs[t];
    forall i | 0 <= i < |cs| && i != f ensures cs'[i] == cs[i] {
      assert cs[i].name != cs[f].name;
    }
    assert cs'[f].name == cs[f].name && cs'[f].labels == cs[f].labels && cs'[f].acceptsWork == cs[f].acceptsWork;
    SatisfiesSame(cs[f], cs'[f], k);
    DonorIsDenser(cs[f], cs'[f], m, k);
    forall i | 0 <= i < |cs'| && Eligible(cs'[i], k) ensures CompareDensity(m, 1, cs'[i], 1) <= 0 {
      CompareFlip(m, cs'[i]);
    }
    SameClass(cs, cs', k, m);
    PickWithinClass(cs, k, m);
    PickWithinClass(cs', k, m);
    InClass(cs, k, t);
  }

  lemma SatisfiesSame(a: Candidate, b: Candidate, k: Constraints)
    requires a.name == b.name && a.labels == b.labels && a.acceptsWork == b.acceptsWork
    ensures Satisfies(a, k) == Satisfies(b, k)
  {
  }

  lemma DonorIsDenser(from: Candidate, from': Candidate, m: Candidate, k: Constraints)
    requires Satisfies(from, k) == Satisfies(from', k) && from'.instances == from.instances - 1
    requires from'.cpuCount == from.cpuCount
    requires Satisfies(from, k) ==> from.instances * Cores(m) > (m.instances + 1) * Cores(from)
    ensures Eligible(from, k) ==> CompareDensity(from, 1, m, 1) > 0
    ensures Eligible(from', k) ==> CompareDensity(from', 1, m, 1) > 0
  {
    hide Satisfies, Fits;
    assert (from.instances + 1) * Cores(m) == from.instances * Cores(m) + Cores(m);
  }

  lemma {:induction false} InClass(cs: seq<Candidate>, k: Constraints, t: nat)
    requires t < |cs| && Eligible(cs[t], k)
    ensures ClassOf(cs, k, cs[t]) != []
  {
    hide Eligible, CompareDensity;
    CompareSelf(cs[t]);
    if t < |cs| - 1 {
      InClass(cs[..|cs| - 1], k, t);
    }
  }

  // ---------- sums ----------

  function Sum(xs: seq<int>): int {
    if xs == [] then 0 else Sum(xs[..|xs| - 1]) + xs[|xs| - 1]
  }

  lemma {:induction false} SumUpdate(xs: seq<int>, i: nat, v: int)
    requires i < |xs|
    ensures Sum(xs[i := v]) == Sum(xs) - xs[i] + v
  {
    var n := |xs| - 1;
    if i == n {
      assert xs[i := v][..n] == xs[..n];
    } else {
      SumUpdate(xs[..n], i, v);
      assert xs[i := v][..n] == xs[..n][i := v];
    }
  }

  lemma {:induction false} SumBelow(xs: seq<int>, ys: seq<int>)
    requires |xs| == |ys| && forall i :: 0 <= i < |xs| ==> xs[i] <= ys[i]
    ensures Sum(xs) <= Sum(ys)
    ensures (exists i :: 0 <= i < |xs| && xs[i] < ys[i]) ==> Sum(xs) < Sum(ys)
  {
    if xs != [] {
      var n := |xs| - 1;
      SumBelow(xs[..n], ys[..n]);
      if i :| 0 <= i < |xs| && xs[i] < ys[i] && i < n {
        assert xs[..n][i] < ys[..n][i];
      }
    }
  }

  lemma {:induction false} SumAtLeast(xs: seq<int>, i: nat)
    requires i < |xs| && forall j :: 0 <= j < |xs| ==> xs[j] >= 0
    ensures 0 <= xs[i] <= Sum(xs)
  {
    var n := |xs| - 1;
    if n > 0 {
      SumAtLeast(xs[..n], if i < n then i else 0);
    }
  }

  function Counts(cs: seq<Candidate>): seq<int> {
    seq(|cs|, i requires 0 <= i < |cs| => cs[i].instances)
  }

  function Total(cs: seq<Candidate>): int {
    Sum(Counts(cs))
  }

  // ---------- moving ends ----------

  /** One move carried out; loads and memory may have changed meanwhile in any way. */
  ghost predicate Moved(cs: seq<Candidate>, cs': seq<Candidate>, move: Move) {
    && |cs| == |cs'|
    && forall i :: 0 <= i < |cs| ==>
         && cs'[i].name == cs[i].name && cs'[i].labels == cs[i].labels && cs'[i].acceptsWork == cs[i].acceptsWork
         && cs'[i].cpuCount == cs[i].cpuCount
         && cs'[i].instances
            == cs[i].instances + (if cs[i].name == move.to then 1 else 0) - (if cs[i].name == move.from then 1 else 0)
  }

  /** How many instances sit on nodes they must leave. */
  function Strays(cs: seq<Candidate>, k: Constraints): seq<int> {
    seq(|cs|, i requires 0 <= i < |cs| => if Satisfies(cs[i], k) then 0 else cs[i].instances)
  }

  function Triangle(n: int): int {
    if n <= 0 then 0 else Triangle(n - 1) + n
  }

  function Product(cs: seq<Candidate>): (p: nat)
    ensures p >= 1
  {
    if cs == [] then 1 else Product(cs[..|cs| - 1]) * Cores(cs[|cs| - 1])
  }

  /** The product of all core counts but one: what a density is scaled by to become an integer. */
  function Scale(cs: seq<Candidate>, i: nat): (s: nat)
    requires i < |cs|
    ensures s >= 1
  {
    Product(cs[..i]) * Product(cs[i + 1..])
  }

  /** The potential of a pool: over its nodes, (1 + ... + n) / c, scaled by the product of the core counts. */
  function Potentials(cs: seq<Candidate>): seq<int> {
    seq(|cs|, i requires 0 <= i < |cs| => Scale(cs, i) * Triangle(cs[i].instances))
  }

  function Potential(cs: seq<Candidate>): int {
    Sum(Potentials(cs))
  }

  lemma {:induction false} ProductSplit(a: seq<Candidate>, b: seq<Candidate>)
    ensures Product(a + b) == Product(a) * Product(b)
  {
    if b == [] {
      assert a + b == a;
    } else {
      var n := |b| - 1;
      ProductSplit(a, b[..n]);
      assert (a + b)[..|a| + n] == a + b[..n];
      MulAssociative(Product(a), Product(b[..n]), Cores(b[n]));
    }
  }

  lemma MulAssociative(x: int, y: int, z: int)
    ensures (x * y) * z == x * (y * z) && (x * z) * y == (x * y) * z
  {
  }

  lemma ScaleTimesCores(cs: seq<Candidate>, i: nat)
    requires i < |cs|
    ensures Scale(cs, i) * Cores(cs[i]) == Product(cs)
  {
    hide Product, Cores;
    var a, c, b := cs[..i], [cs[i]], cs[i + 1..];
    assert cs == (a + c) + b;
    ProductSplit(a + c, b);
    ProductSplit(a, c);
    ProductOne(cs[i]);
    MulAssociative(Product(a), Product(b), Cores(cs[i]));
  }

  lemma ProductOne(c: Candidate)
    ensures Product([c]) == Cores(c)
  {
    assert [c][..0] == [];
  }

  lemma {:induction false} SameProduct(cs: seq<Candidate>, cs': seq<Candidate>)
    requires |cs| == |cs'| && forall i :: 0 <= i < |cs| ==> cs[i].cpuCount == cs'[i].cpuCount
    ensures Product(cs) == Product(cs')
  {
    if cs != [] {
      SameProduct(cs[..|cs| - 1], cs'[..|cs| - 1]);
    }
  }

  lemma SameScale(cs: seq<Candidate>, cs': seq<Candidate>, i: nat)
    requires |cs| == |cs'| && i < |cs| && forall j :: 0 <= j < |cs| ==> cs[j].cpuCount == cs'[j].cpuCount
    ensures Scale(cs, i) == Scale(cs', i)
  {
    SameProduct(cs[..i], cs'[..i]);
    SameProduct(cs[i + 1..], cs'[i + 1..]);
  }

  /** A denser node weighs more at its last instance than a sparser one at its next. */
  lemma ScaledDensity(nf: int, cf: int, sf: int, nt: int, ct: int, st: int, p: int)
    requires sf * cf == p && st * ct == p && p > 0 && cf > 0 && ct > 0 && sf > 0 && st > 0
    requires nf * ct > (nt + 1) * cf
    ensures sf * nf > st * (nt + 1)
  {
    var w := sf * st;
    assert w > 0;
    assert (nf * ct) * w > ((nt + 1) * cf) * w;
    assert (nf * ct) * w == (sf * nf) * (st * ct);
    assert ((nt + 1) * cf) * w == (st * (nt + 1)) * (sf * cf);
    Cancel(st * (nt + 1), sf * nf, p);
  }

  /** A list that differs from another in exactly two places. */
  lemma SumTwoChanges(xs: seq<int>, ys: seq<int>, f: nat, t: nat)
    requires |xs| == |ys| && f < |xs| && t < |xs| && f != t
    requires forall i :: 0 <= i < |xs| && i != f && i != t ==> xs[i] == ys[i]
    ensures Sum(ys) == Sum(xs) - xs[f] + ys[f] - xs[t] + ys[t]
  {
    var zs := xs[f := ys[f]];
    SumUpdate(xs, f, ys[f]);
    SumUpdate(zs, t, ys[t]);
    assert zs[t := ys[t]] == ys;
  }

  /** What a move keeps: the nodes, the number of instances, and that no count is negative. */
  lemma MoveKeeps(cs: seq<Candidate>, cs': seq<Candidate>, k: Constraints)
    requires UniqueNames(cs) && Counted(cs) && Rebalance(cs, k).Some? && Moved(cs, cs', Rebalance(cs, k).value)
    ensures UniqueNames(cs') && Counted(cs') && Total(cs') == Total(cs) && Product(cs') == Product(cs)
    ensures forall i :: 0 <= i < |cs| ==> Satisfies(cs'[i], k) == Satisfies(cs[i], k)
  {
    hide Rebalance, Satisfies, Pick, Donor, Fits, Sum, Product, Eligible, Sparsest, Cores;
    var f, t := MoveEnds(cs, k);
    SameProduct(cs', cs);
    forall i | 0 <= i < |cs| ensures Satisfies(cs'[i], k) == Satisfies(cs[i], k) {
      SatisfiesSame(cs[i], cs'[i], k);
    }
    SumTwoChanges(Counts(cs), Counts(cs'), f, t);
  }

  /** Every move lowers the pair (instances that must leave, potential), lexicographically. */
  lemma MoveDescends(cs: seq<Candidate>, cs': seq<Candidate>, k: Constraints)
    requires UniqueNames(cs) && Counted(cs) && Rebalance(cs, k).Some? && Moved(cs, cs', Rebalance(cs, k).value)
    ensures Sum(Strays(cs', k)) < Sum(Strays(cs, k))
         || (Sum(Strays(cs', k)) == Sum(Strays(cs, k)) == 0 && Potential(cs') < Potential(cs))
    ensures Sum(Strays(cs', k)) >= 0 && Potential(cs') >= 0
  {
    hide Rebalance, Satisfies, Pick, Donor, Fits, Sum, Scale, Triangle;
    var f, t := MoveEnds(cs, k);
    MoveKeeps(cs, cs', k);
    StraysMove(cs, cs', k, f, t);
    if Satisfies(cs[f], k) {
      NoStraysLeft(cs, k);
      PotentialFalls(cs, cs', f, t);
    }
    NonNegative(cs', k);
  }

  lemma StraysMove(cs: seq<Candidate>, cs': seq<Candidate>, k: Constraints, f: nat, t: nat)
    requires |cs| == |cs'| && f < |cs| && t < |cs| && f != t && Satisfies(cs[t], k)
    requires forall i :: 0 <= i < |cs| ==> Satisfies(cs'[i], k) == Satisfies(cs[i], k)
    requires forall i :: 0 <= i < |cs| && i != f && i != t ==> cs'[i].instances == cs[i].instances
    requires cs'[f].instances == cs[f].instances - 1
    ensures Sum(Strays(cs', k)) == Sum(Strays(cs, k)) - if Satisfies(cs[f], k) then 0 else 1
  {
    hide Satisfies, Sum;
    SumTwoChanges(Strays(cs, k), Strays(cs', k), f, t);
  }

  lemma {:induction false} SumZero(xs: seq<int>)
    requires forall i :: 0 <= i < |xs| ==> xs[i] == 0
    ensures Sum(xs) == 0
  {
    if xs != [] {
      SumZero(xs[..|xs| - 1]);
    }
  }

  lemma NoStraysLeft(cs: seq<Candidate>, k: Constraints)
    requires Counted(cs) && Donor(cs, k).Some? && Satisfies(Donor(cs, k).value, k)
    ensures Sum(Strays(cs, k)) == 0
  {
    hide Satisfies, Sum;
    DonorIsFirst(cs, k);
    SumZero(Strays(cs, k));
  }

  lemma TriangleStep(n: int)
    requires n >= 0
    ensures Triangle(n + 1) == Triangle(n) + n + 1 && Triangle(n) >= 0
  {
    TriangleNonNegative(n);
  }

  lemma {:induction false} TriangleNonNegative(n: int)
    ensures Triangle(n) >= 0
    decreases if n <= 0 then 0 else n
  {
    if n > 0 {
      TriangleNonNegative(n - 1);
    }
  }

  lemma PotentialFalls(cs: seq<Candidate>, cs': seq<Candidate>, f: nat, t: nat)
    requires |cs| == |cs'| && f < |cs| && t < |cs| && f != t && cs[f].instances > 0 && cs[t].instances >= 0
    requires forall i :: 0 <= i < |cs| ==> cs'[i].cpuCount == cs[i].cpuCount
    requires forall i :: 0 <= i < |cs| && i != f && i != t ==> cs'[i].instances == cs[i].instances
    requires cs'[f].instances == cs[f].instances - 1 && cs'[t].instances == cs[t].instances + 1
    requires cs[f].instances * Cores(cs[t]) > (cs[t].instances + 1) * Cores(cs[f])
    ensures Potential(cs') < Potential(cs)
  {
    hide Scale, Triangle, Sum;
    forall i | 0 <= i < |cs| ensures Scale(cs', i) == Scale(cs, i) {
      SameScale(cs', cs, i);
    }
    var sf, st, nf, nt := Scale(cs, f), Scale(cs, t), cs[f].instances, cs[t].instances;
    TriangleStep(nf - 1);
    TriangleStep(nt);
    ScaleTimesCores(cs, f);
    ScaleTimesCores(cs, t);
    ScaledDensity(nf, Cores(cs[f]), sf, nt, Cores(cs[t]), st, Product(cs));
    assert sf * Triangle(nf) == sf * Triangle(nf - 1) + sf * nf;
    assert st * Triangle(nt + 1) == st * Triangle(nt) + st * (nt + 1);
    SumTwoChanges(Potentials(cs), Potentials(cs'), f, t);
  }

  lemma NonNegative(cs: seq<Candidate>, k: Constraints)
    requires Counted(cs)
    ensures Sum(Strays(cs, k)) >= 0 && Potential(cs) >= 0
  {
    hide Sum, Satisfies, Scale, Triangle;
    var zeros := seq(|cs|, _ => 0);
    SumZero(zeros);
    forall i | 0 <= i < |cs| ensures Potentials(cs)[i] >= 0 {
      TriangleNonNegative(cs[i].instances);
    }
    SumBelow(zeros, Strays(cs, k));
    SumBelow(zeros, Potentials(cs));
  }

  /** Pools that follow one another by the moves proposed for them. */
  ghost predicate MoveRun(run: seq<seq<Candidate>>, k: Constraints) {
    && run != [] && UniqueNames(run[0]) && Counted(run[0])
    && forall i :: 0 <= i < |run| - 1 ==>
         Rebalance(run[i], k).Some? && Moved(run[i], run[i + 1], Rebalance(run[i], k).value)
  }

  /** More than the potential of any distribution of a pool's instances. */
  function Ceiling(cs: seq<Candidate>): int {
    |cs| * (Product(cs) * Triangle(Total(cs)))
  }

  lemma {:induction false} TriangleMonotone(m: int, n: int)
    requires m <= n
    ensures Triangle(m) <= Triangle(n)
    decreases n - m
  {
    if m < n {
      TriangleMonotone(m, n - 1);
    }
  }

  lemma {:induction false} SumConstant(xs: seq<int>, x: int)
    requires forall i :: 0 <= i < |xs| ==> xs[i] == x
    ensures Sum(xs) == |xs| * x
  {
    if xs != [] {
      SumConstant(xs[..|xs| - 1], x);
      assert |xs| * x == (|xs| - 1) * x + x;
    }
  }

  lemma MulMonotone(a: int, b: int, x: int, y: int)
    requires 0 <= a <= b && 0 <= x <= y
    ensures a * x <= b * y
  {
    assert a * x <= b * x && b * x <= b * y;
  }

  lemma ScaleBelow(cs: seq<Candidate>, i: nat)
    requires i < |cs|
    ensures Scale(cs, i) <= Product(cs)
  {
    hide Scale, Product;
    ScaleTimesCores(cs, i);
    MulMonotone(Scale(cs, i), Scale(cs, i), 1, Cores(cs[i]));
  }

  lemma PotentialBelowCeiling(cs: seq<Candidate>)
    requires Counted(cs)
    ensures Potential(cs) <= Ceiling(cs)
  {
    hide Scale, Product, Triangle, Sum;
    var x := Product(cs) * Triangle(Total(cs));
    var tops := seq(|cs|, _ => x);
    forall i | 0 <= i < |cs| ensures Potentials(cs)[i] <= x {
      SumAtLeast(Counts(cs), i);
      TriangleMonotone(cs[i].instances, Total(cs));
      TriangleNonNegative(cs[i].instances);
      ScaleBelow(cs, i);
      MulMonotone(Scale(cs, i), Product(cs), Triangle(cs[i].instances), Triangle(Total(cs)));
    }
    SumBelow(Potentials(cs), tops);
    SumConstant(tops, x);
  }

  /** Once nothing must leave, a run is no longer than the potential it starts from. */
  lemma {:induction false} SettledRunBound(run: seq<seq<Candidate>>, k: Constraints)
    requires MoveRun(run, k) && Sum(Strays(run[0], k)) == 0
    ensures |run| - 1 <= Potential(run[0])
  {
    hide Rebalance, Moved, Sum, Strays, Potential, UniqueNames, Counted;
    NonNegative(run[0], k);
    if |run| > 1 {
      MoveDescends(run[0], run[1], k);
      MoveKeeps(run[0], run[1], k);
      NonNegative(run[0], k);
      var rest := run[1..];
      forall i | 0 <= i < |rest| - 1
        ensures Rebalance(rest[i], k).Some? && Moved(rest[i], rest[i + 1], Rebalance(rest[i], k).value)
      {
        assert rest[i] == run[i + 1] && rest[i + 1] == run[i + 2];
      }
      SettledRunBound(rest, k);
    }
  }

  /** Every sequence of moves ends: its length is bounded by what the first pool holds. */
  lemma {:induction false} RunBound(run: seq<seq<Candidate>>, k: Constraints)
    requires MoveRun(run, k)
    ensures |run| - 1 <= Sum(Strays(run[0], k)) + Ceiling(run[0])
  {
    hide Rebalance, Moved, Sum, Strays, Potential, UniqueNames, Counted, Product, Triangle;
    NonNegative(run[0], k);
    PotentialBelowCeiling(run[0]);
    if |run| > 1 {
      MoveDescends(run[0], run[1], k);
      if Sum(Strays(run[0], k)) == 0 {
        SettledRunBound(run, k);
      } else {
        MoveKeeps(run[0], run[1], k);
        var rest := run[1..];
        forall i | 0 <= i < |rest| - 1
          ensures Rebalance(rest[i], k).Some? && Moved(rest[i], rest[i + 1], Rebalance(rest[i], k).value)
        {
          assert rest[i] == run[i + 1] && rest[i + 1] == run[i + 2];
        }
        RunBound(rest, k);
        assert |run[0]| == |run[1]| by {
          SameLength(run[0], run[1], Rebalance(run[0], k).value);
        }
      }
    }
  }

  lemma SameLength(cs: seq<Candidate>, cs': seq<Candidate>, move: Move)
    requires Moved(cs, cs', move)
    ensures |cs| == |cs'|
  {
  }

  // ---------- even pools ----------

  /** No holder is denser than any suitable node would be with one instance more. */
  ghost predicate Even(cs: seq<Candidate>, k: Constraints) {
    forall h, e :: 0 <= h < |cs| && 0 <= e < |cs| && cs[h].instances > 0 && Satisfies(cs[e], k) ==>
      cs[h].instances * Cores(cs[e]) <= (cs[e].instances + 1) * Cores(cs[h])
  }

  ghost predicate AllSuitable(cs: seq<Candidate>, k: Constraints) {
    forall h :: 0 <= h < |cs| && cs[h].instances > 0 ==> Satisfies(cs[h], k)
  }

  /** One instance more on the node Choose() named. */
  ghost predicate Placed(cs: seq<Candidate>, cs': seq<Candidate>, k: Constraints) {
    && |cs| == |cs'| && Pick(cs, k).Some?
    && forall i :: 0 <= i < |cs| ==>
         && cs'[i].name == cs[i].name && cs'[i].labels == cs[i].labels && cs'[i].acceptsWork == cs[i].acceptsWork
         && cs'[i].cpuCount == cs[i].cpuCount
         && cs'[i].instances == cs[i].instances + if cs[i].name == Pick(cs, k).value.name then 1 else 0
  }

  /**
   * Placing keeps an even pool even, as long as memory is no constraint, wherever its holders are; and one with
   * holders on suitable nodes only such a one.
   */
  lemma PlacingKeepsEven(cs: seq<Candidate>, cs': seq<Candidate>, k: Constraints)
    requires UniqueNames(cs) && Counted(cs) && k.memoryMb <= 0 && Placed(cs, cs', k) && Even(cs, k)
    ensures UniqueNames(cs') && Counted(cs') && Even(cs', k)
    ensures AllSuitable(cs, k) ==> AllSuitable(cs', k)
  {
    hide Satisfies, Pick;
    PickIsSparsest(cs, k);
    var t :| 0 <= t < |cs| && cs[t] == Pick(cs, k).value;
    forall i | 0 <= i < |cs|
      ensures Satisfies(cs'[i], k) == Satisfies(cs[i], k)
      ensures cs'[i].instances == cs[i].instances + if i == t then 1 else 0
    {
      SatisfiesSame(cs[i], cs'[i], k);
    }
    forall h, e | 0 <= h < |cs'| && 0 <= e < |cs'| && cs'[h].instances > 0 && Satisfies(cs'[e], k)
      ensures cs'[h].instances * Cores(cs'[e]) <= (cs'[e].instances + 1) * Cores(cs'[h])
    {
      assert Eligible(cs[e], k);
      assert CompareDensity(cs[t], 1, cs[e], 1) <= 0;
      assert h != t ==> cs[h].instances * Cores(cs[e]) <= (cs[e].instances + 1) * Cores(cs[h]);
      MulMonotone(cs[e].instances + 1, cs'[e].instances + 1, Cores(cs[h]), Cores(cs[h]));
    }
  }

  /** Where no move is proposed, the pool is even and nothing is left on a node that may not have it. */
  lemma RestingIsEven(cs: seq<Candidate>, k: Constraints)
    requires UniqueNames(cs) && Counted(cs) && k.memoryMb <= 0
    requires Rebalance(cs, k).None? && exists i :: 0 <= i < |cs| && Satisfies(cs[i], k)
    ensures Even(cs, k) && AllSuitable(cs, k)
  {
    hide Satisfies, Pick, Donor;
    DonorIsFirst(cs, k);
    PickIsSparsest(cs, k);
    var i :| 0 <= i < |cs| && Satisfies(cs[i], k);
    assert Eligible(cs[i], k);
    if Donor(cs, k).Some? {
      var f :| 0 <= f < |cs| && cs[f] == Donor(cs, k).value;
      var t :| 0 <= t < |cs| && cs[t] == Pick(cs, k).value;
      FindNamedFinds(cs, t);
      assert Satisfies(cs[f], k);
      assert cs[f].instances * Cores(cs[t]) <= (cs[t].instances + 1) * Cores(cs[f]) by {
        if cs[f].name == cs[t].name {
          MulMonotone(cs[f].instances, cs[f].instances + 1, Cores(cs[f]), Cores(cs[f]));
        }
      }
      forall h, e | 0 <= h < |cs| && 0 <= e < |cs| && cs[h].instances > 0 && Satisfies(cs[e], k)
        ensures cs[h].instances * Cores(cs[e]) <= (cs[e].instances + 1) * Cores(cs[h])
      {
        assert Eligible(cs[e], k);
        DensityTransitive(cs[h].instances, Cores(cs[h]), cs[f].instances, Cores(cs[f]), cs[t].instances + 1,
                          Cores(cs[t]));
        DensityTransitive(cs[h].instances, Cores(cs[h]), cs[t].instances + 1, Cores(cs[t]), cs[e].instances + 1,
                          Cores(cs[e]));
      }
    }
  }

  /**
   * An even pool cannot be bettered: however else as many instances are spread over the suitable nodes, some
   * node carries at least as much per core as any holder of this pool does.
   */
  lemma EvenIsOptimal(cs: seq<Candidate>, k: Constraints, other: seq<int>, h: nat)
    requires Counted(cs) && Even(cs, k) && AllSuitable(cs, k)
    requires |other| == |cs| && Sum(other) == Total(cs)
    requires forall i :: 0 <= i < |cs| ==> other[i] >= 0 && (other[i] > 0 ==> Satisfies(cs[i], k))
    requires h < |cs|
    ensures exists e :: 0 <= e < |cs| && cs[h].instances * Cores(cs[e]) <= other[e] * Cores(cs[h])
  {
    hide Sum, Satisfies;
    if cs[h].instances > 0 && forall e :: 0 <= e < |cs| ==> cs[h].instances * Cores(cs[e]) > other[e] * Cores(cs[h]) {
      forall i | 0 <= i < |cs| ensures other[i] <= Counts(cs)[i] {
        if other[i] > 0 {
          assert other[i] * Cores(cs[h]) < (cs[i].instances + 1) * Cores(cs[h]);
          Cancel(other[i], cs[i].instances + 1, Cores(cs[h]));
        }
      }
      Cancel(other[h], cs[h].instances, Cores(cs[h]));
      assert other[h] < Counts(cs)[h];
      SumBelow(other, Counts(cs));
      assert false;
    }
    if cs[h].instances <= 0 {
      MulMonotone(0, 0, Cores(cs[h]), Cores(cs[h]));
      assert other[h] * Cores(cs[h]) >= 0 by { MulMonotone(0, other[h], 0, Cores(cs[h])); }
    }
  }

  // ---------- whole lives of a pool ----------

  /** Pools that follow one another by placements, from one without instances. */
  ghost predicate Filling(run: seq<seq<Candidate>>, k: Constraints) {
    && run != [] && UniqueNames(run[0]) && (forall i :: 0 <= i < |run[0]| ==> run[0][i].instances == 0)
    && forall i :: 0 <= i < |run| - 1 ==> Placed(run[i], run[i + 1], k)
  }

  /** A pool filled by Choose() alone is even at every size. */
  lemma {:induction false} FillingIsEven(run: seq<seq<Candidate>>, k: Constraints, i: nat)
    requires k.memoryMb <= 0 && Filling(run, k) && i < |run|
    ensures UniqueNames(run[i]) && Counted(run[i]) && Even(run[i], k) && AllSuitable(run[i], k)
  {
    hide Satisfies, Pick;
    if i > 0 {
      FillingIsEven(run, k, i - 1);
      assert Placed(run[i - 1], run[i], k);
      PlacingKeepsEven(run[i - 1], run[i], k);
    }
  }
}
