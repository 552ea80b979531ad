/** The order std::string's operator< gives: byte by byte, unsigned, a proper prefix first. */
module Lexicographic {
  import opened LittleEndian

  predicate Less(a: Bytes, b: Bytes) {
    if b == [] then false
    else if a == [] then true
    else if a[0] != b[0] then a[0] < b[0]
    else Less(a[1..], b[1..])
  }

  lemma {:induction false} LessTrichotomy(a: Bytes, b: Bytes)
    ensures a == b || Less(a, b) || Less(b, a)
    ensures !(Less(a, b) && Less(b, a)) && !Less(a, a)
  {
    if a != [] && b != [] {
      LessTrichotomy(a[1..], b[1..]);
      assert a == [a[0]] + a[1..] && b == [b[0]] + b[1..];
      LessTrichotomy(a[1..], a[1..]);
    } else if a != [] {
      LessTrichotomy(a[1..], a[1..]);
    }
  }

  lemma {:induction false} LessTransitive(a: Bytes, b: Bytes, c: Bytes)
    requires Less(a, b) && Less(b, c)
    ensures Less(a, c)
  {
    if a != [] && a[0] == b[0] == c[0] {
      LessTransitive(a[1..], b[1..], c[1..]);
    }
  }

  /** A prefix of the other, or smaller in the first byte in which they differ. */
  ghost predicate AtMost(a: Bytes, b: Bytes) {
    a <= b || exists p :: 0 <= p < |a| && p < |b| && a[..p] == b[..p] && a[p] < b[p]
  }

  /** That is the order, and nothing else is. */
  lemma {:induction false} LessMeans(a: Bytes, b: Bytes)
    ensures Less(a, b) <==> AtMost(a, b) && a != b
    ensures Less(a, b) <==> !AtMost(b, a)
  {
    if a != [] && b != [] && a[0] == b[0] {
      LessMeans(a[1..], b[1..]);
      AtMostBehind(a, b);
      AtMostBehind(b, a);
      assert a == [a[0]] + a[1..] && b == [b[0]] + b[1..];
    } else if a != [] && b != [] {
      FirstDecides(a, b);
      FirstDecides(b, a);
    }
  }

  lemma FirstDecides(a: Bytes, b: Bytes)
    requires a != [] && b != [] && a[0] != b[0]
    ensures AtMost(a, b) <==> a[0] < b[0]
  {
    if a[0] < b[0] {
      assert a[..0] == b[..0];
    }
    if p :| 0 <= p < |a| && p < |b| && a[..p] == b[..p] && a[p] < b[p] {
      if p > 0 { assert a[..p][0] == b[..p][0]; }
    }
  }

  /** A common first byte makes no difference. */
  lemma AtMostBehind(a: Bytes, b: Bytes)
    requires a != [] && b != [] && a[0] == b[0]
    ensures AtMost(a, b) <==> AtMost(a[1..], b[1..])
  {
    var x, y := a[1..], b[1..];
    if p :| 0 <= p < |a| && p < |b| && a[..p] == b[..p] && a[p] < b[p] {
      assert p > 0;
      assert x[..p - 1] == a[..p][1..] && y[..p - 1] == b[..p][1..];
      assert x[p - 1] < y[p - 1];
    }
    if q :| 0 <= q < |x| && q < |y| && x[..q] == y[..q] && x[q] < y[q] {
      assert a[..q + 1] == [a[0]] + x[..q] && b[..q + 1] == [b[0]] + y[..q];
      assert a[q + 1] < b[q + 1];
    }
  }

  lemma AtMostTransitive(a: Bytes, b: Bytes, c: Bytes)
    ensures AtMost(a, b) && AtMost(b, c) ==> AtMost(a, c)
  {
    hide AtMost, Less;
    LessMeans(b, a);
    LessMeans(c, b);
    LessMeans(c, a);
    if Less(c, a) {
      LessTrichotomy(b, a);
      LessTrichotomy(c, b);
      if Less(a, b) { LessTransitive(c, a, b); }
      if Less(b, c) { LessTransitive(b, c, a); }
    }
  }
}
