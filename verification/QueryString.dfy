/**
 * The canonical query string of a signed request (core/src/SigV4.cpp): percent-encoding as in sections 2.1 and
 * 2.3 of RFC 3986, parameters sorted.
 */
module QueryString {
  import opened LittleEndian
  import opened Lexicographic

  const PERCENT: Byte := 0x25
  const SLASH: Byte := 0x2f
  const AMPERSAND: Byte := 0x26
  const EQUALS: Byte := 0x3d

  predicate Unreserved(c: Byte) {
    0x30 <= c <= 0x39 || 0x41 <= c <= 0x5a || 0x61 <= c <= 0x7a || c == 0x2d || c == 0x5f || c == 0x2e || c == 0x7e
  }

  /** An upper-case hexadecimal digit. */
  function Hex(n: nat): Byte
    requires n < 16
  {
    if n < 10 then 0x30 + n else 0x41 + n - 10
  }

  predicate IsHex(c: Byte) {
    0x30 <= c <= 0x39 || 0x41 <= c <= 0x46 || 0x61 <= c <= 0x66
  }

  function HexValue(c: Byte): (n: nat)
    requires IsHex(c)
    ensures n < 16
  {
    if c <= 0x39 then c - 0x30 else if c <= 0x46 then c - 0x41 + 10 else c - 0x61 + 10
  }

  function EncodeByte(c: Byte, encodeSlash: bool): Bytes {
    if Unreserved(c) || (c == SLASH && !encodeSlash) then [c] else [PERCENT, Hex(c / 16), Hex(c % 16)]
  }

  function Encode(s: Bytes, encodeSlash: bool): Bytes {
    if s == [] then [] else Encode(s[..|s| - 1], encodeSlash) + EncodeByte(s[|s| - 1], encodeSlash)
  }

  method UriEncode(value: Bytes, encodeSlash: bool) returns (out: Bytes)
    ensures out == Encode(value, encodeSlash)
  {
    out := [];
    for i := 0 to |value|
      invariant out == Encode(value[..i], encodeSlash)
    {
      assert value[..i + 1][..i] == value[..i];
      var c := value[i];
      if Unreserved(c) || (c == SLASH && !encodeSlash) {
        out := out + [c];
      } else {
        out := out + [PERCENT, Hex(c / 16), Hex(c % 16)];
      }
    }
    assert value[..|value|] == value;
  }

  /** Whether an escape begins here: a percent sign and two hexadecimal digits. */
  predicate Escape(s: Bytes) {
    |s| >= 3 && s[0] == PERCENT && IsHex(s[1]) && IsHex(s[2])
  }

  function Decode(s: Bytes): Bytes {
    if s == [] then []
    else if Escape(s) then [HexValue(s[1]) * 16 + HexValue(s[2])] + Decode(s[3..])
    else [s[0]] + Decode(s[1..])
  }

  method PercentDecode(value: Bytes) returns (out: Bytes)
    ensures out == Decode(value)
  {
    out := [];
    var i := 0;
    assert value[0..] == value;
    while i < |value|
      invariant i <= |value| && out + Decode(value[i..]) == Decode(value)
      decreases |value| - i
    {
      ghost var rest := value[i..];
      if value[i] == PERCENT && i + 2 < |value| && IsHex(value[i + 1]) && IsHex(value[i + 2]) {
        var c := HexValue(value[i + 1]) * 16 + HexValue(value[i + 2]);
        assert rest[3..] == value[i + 3..] && Decode(rest) == [c] + Decode(rest[3..]);
        assert out + ([c] + Decode(rest[3..])) == out + [c] + Decode(rest[3..]);
        out := out + [c];
        i := i + 3;
      } else {
        assert rest[1..] == value[i + 1..] && Decode(rest) == [rest[0]] + Decode(rest[1..]);
        assert out + ([rest[0]] + Decode(rest[1..])) == out + [rest[0]] + Decode(rest[1..]);
        out := out + [value[i]];
        i := i + 1;
      }
    }
    assert out + [] == out;
  }

  /** Decoding undoes encoding, for every byte string. */
  lemma {:induction false} DecodeEncode(s: Bytes, encodeSlash: bool)
    ensures Decode(Encode(s, encodeSlash)) == s
  {
    DecodeEncodeThen(s, [], encodeSlash);
    assert Encode(s, encodeSlash) + [] == Encode(s, encodeSlash) && s + [] == s;
  }

  lemma {:induction false} DecodeEncodeThen(s: Bytes, t: Bytes, encodeSlash: bool)
    ensures Decode(Encode(s, encodeSlash) + t) == s + Decode(t)
    decreases |s|
  {
    hide EncodeByte, Decode;
    if s == [] {
      assert [] + t == t && [] + Decode(t) == Decode(t);
    } else {
      var n := |s| - 1;
      var e := EncodeByte(s[n], encodeSlash);
      DecodeByte(s[n], t, encodeSlash);
      assert Encode(s, encodeSlash) + t == Encode(s[..n], encodeSlash) + (e + t);
      DecodeEncodeThen(s[..n], e + t, encodeSlash);
      assert s[..n] + ([s[n]] + Decode(t)) == s + Decode(t);
    }
  }

  lemma DecodeByte(c: Byte, t: Bytes, encodeSlash: bool)
    ensures Decode(EncodeByte(c, encodeSlash) + t) == [c] + Decode(t)
  {
    var e := EncodeByte(c, encodeSlash);
    if |e| == 1 {
      assert (e + t)[1..] == t;
    } else {
      assert (e + t)[3..] == t;
      HexReadsBack(c / 16);
      HexReadsBack(c % 16);
    }
  }

  lemma HexReadsBack(n: nat)
    requires n < 16
    ensures IsHex(Hex(n)) && HexValue(Hex(n)) == n
  {
  }

  // ---------- splitting ----------

  ghost predicate Free(s: Bytes, c: Byte) {
    forall i :: 0 <= i < |s| ==> s[i] != c
  }

  /** Where a byte first occurs, or the length where it does not. */
  function Find(s: Bytes, c: Byte): (n: nat)
    ensures n <= |s| && forall i :: 0 <= i < n ==> s[i] != c
    ensures n < |s| ==> s[n] == c
  {
    if s == [] || s[0] == c then 0 else 1 + Find(s[1..], c)
  }

  lemma FindIs(s: Bytes, c: Byte, n: nat)
    requires n <= |s| && (forall i :: 0 <= i < n ==> s[i] != c) && (n < |s| ==> s[n] == c)
    ensures Find(s, c) == n
  {
    hide Find;
    var m := Find(s, c);
    assert m < |s| ==> s[m] == c;
  }

  function Split(s: Bytes, c: Byte): (parts: seq<Bytes>)
    ensures parts != []
  {
    var n := Find(s, c);
    if n == |s| then [s] else [s[..n]] + Split(s[n + 1..], c)
  }

  method SplitAt(s: Bytes, c: Byte) returns (parts: seq<Bytes>)
    ensures parts == Split(s, c)
  {
    hide Split;
    parts := [];
    var start := 0;
    assert s[0..] == s && [] + Split(s, c) == Split(s, c);
    while start <= |s|
      invariant start <= |s| && parts + Split(s[start..], c) == Split(s, c)
      decreases |s| - start
    {
      var n := Find(s[start..], c);
      SplitNext(s, c, start, n, parts);
      if start + n == |s| {
        parts := parts + [s[start..]];
        break;
      }
      parts := parts + [s[start..start + n]];
      start := start + n + 1;
    }
  }

  /** The part up to the next separator, and the rest of the split. */
  lemma SplitNext(s: Bytes, c: Byte, start: nat, n: nat, before: seq<Bytes>)
    requires start <= |s| && n == Find(s[start..], c)
    ensures start + n <= |s|
    ensures start + n == |s| ==> before + Split(s[start..], c) == before + [s[start..]]
    ensures start + n < |s| ==>
              before + Split(s[start..], c) == before + [s[start..start + n]] + Split(s[start + n + 1..], c)
  {
    hide Find;
    var rest := s[start..];
    if start + n < |s| {
      SplitSlices(s, start, n);
      assert Split(rest, c) == [rest[..n]] + Split(rest[n + 1..], c);
      Regrouped(before, rest[..n], Split(rest[n + 1..], c));
    }
  }

  lemma SplitSlices(s: Bytes, start: nat, n: nat)
    requires start + n < |s|
    ensures s[start..][..n] == s[start..start + n] && s[start..][n + 1..] == s[start + n + 1..]
  {
  }

  lemma Regrouped(before: seq<Bytes>, part: Bytes, rest: seq<Bytes>)
    ensures before + ([part] + rest) == before + [part] + rest
  {
  }

  function JoinWith(parts: seq<Bytes>, c: Byte): Bytes {
    if parts == [] then [] else if |parts| == 1 then parts[0] else parts[0] + [c] + JoinWith(parts[1..], c)
  }

  /** Splitting undoes joining, when no part holds the separator. */
  lemma {:induction false} SplitJoin(parts: seq<Bytes>, c: Byte)
    requires parts != [] && forall i :: 0 <= i < |parts| ==> Free(parts[i], c)
    ensures Split(JoinWith(parts, c), c) == parts
  {
    hide Find;
    var s, p := JoinWith(parts, c), parts[0];
    if |parts| == 1 {
      assert s[..|s|] == p;
      FindIs(s, c, |s|);
    } else {
      assert s[..|p|] == p && s[|p| + 1..] == JoinWith(parts[1..], c);
      FindIs(s, c, |p|);
      SplitJoin(parts[1..], c);
      assert parts == [p] + parts[1..];
    }
  }

  // ---------- parameters ----------

  type Param = (Bytes, Bytes)

  /** A name and a value: what is before the first equals sign and behind it, each decoded and encoded again. */
  function ParseParam(pair: Bytes): Param {
    var n := Find(pair, EQUALS);
    (Encode(Decode(pair[..n]), true), Encode(Decode(if n < |pair| then pair[n + 1..] else []), true))
  }

  /** An empty part is no parameter. */
  function ParamOf(part: Bytes): seq<Param> {
    if part == [] then [] else [ParseParam(part)]
  }

  function Params(parts: seq<Bytes>): seq<Param> {
    if parts == [] then [] else Params(parts[..|parts| - 1]) + ParamOf(parts[|parts| - 1])
  }

  predicate ParamLess(p: Param, q: Param) {
    Less(p.0, q.0) || (p.0 == q.0 && Less(p.1, q.1))
  }

  function Insert(p: Param, ps: seq<Param>): seq<Param> {
    if ps == [] || !ParamLess(ps[0], p) then [p] + ps else [ps[0]] + Insert(p, ps[1..])
  }

  /** The parameters in order; any sort gives the same, see SortedOnce. */
  function Sort(ps: seq<Param>): seq<Param> {
    if ps == [] then [] else Insert(ps[0], Sort(ps[1..]))
  }

  function Written(p: Param): Bytes {
    p.0 + [EQUALS] + p.1
  }

  function WrittenAll(ps: seq<Param>): seq<Bytes> {
    seq(|ps|, i requires 0 <= i < |ps| => Written(ps[i]))
  }

  function Canonical(rawQuery: Bytes): Bytes {
    JoinWith(WrittenAll(Sort(Params(Split(rawQuery, AMPERSAND)))), AMPERSAND)
  }

  method ParseParams(parts: seq<Bytes>) returns (params: seq<Param>)
    ensures params == Params(parts)
  {
    hide Find, Encode, Decode;
    params := [];
    for i := 0 to |parts|
      invariant params == Params(parts[..i])
    {
      assert parts[..i + 1][..i] == parts[..i];
      var pair := parts[i];
      if pair == [] {
        assert params + [] == params;
        continue;
      }
      var eq := Find(pair, EQUALS);
      var rawName := PercentDecode(pair[..eq]);
      var rawValue := PercentDecode(if eq < |pair| then pair[eq + 1..] else []);
      var name := UriEncode(rawName, true);
      var value := UriEncode(rawValue, true);
      params := params + [(name, value)];
    }
    assert parts[..|parts|] == parts;
  }

  method WriteParams(params: seq<Param>) returns (out: Bytes)
    ensures out == JoinWith(WrittenAll(params), AMPERSAND)
  {
    hide JoinWith, WrittenAll;
    out := [];
    var i := 0;
    NothingWritten();
    assert params[..0] == [];
    while i < |params|
      invariant i <= |params| && out == JoinWith(WrittenAll(params[..i]), AMPERSAND)
    {
      JoinSnoc(params[..i], params[i]);
      assert params[..i + 1] == params[..i] + [params[i]];
      if i > 0 {
        out := out + [AMPERSAND];
      }
      out := out + (params[i].0 + [EQUALS] + params[i].1);
      i := i + 1;
    }
    assert params[..|params|] == params;
  }

  method CanonicalizeQueryString(rawQuery: Bytes) returns (out: Bytes)
    ensures out == Canonical(rawQuery)
  {
    hide Split, Params, Sort, JoinWith, WrittenAll;
    if rawQuery == [] {
      NothingIsCanonical();
      return [];
    }
    var parts := SplitAt(rawQuery, AMPERSAND);
    var params := ParseParams(parts);
    out := WriteParams(Sort(params));
  }

  lemma NothingIsCanonical()
    ensures Canonical([]) == []
  {
    var none: seq<Bytes> := [[]];
    assert Split([], AMPERSAND) == none && none[..0] == [];
    assert Params(none) == [];
  }

  lemma {:induction false} JoinTail(parts: seq<Bytes>, p: Bytes, c: Byte)
    requires parts != []
    ensures JoinWith(parts + [p], c) == JoinWith(parts, c) + [c] + p
  {
    if |parts| == 1 {
      assert (parts + [p])[1..] == [p];
    } else {
      JoinTail(parts[1..], p, c);
      assert (parts + [p])[1..] == parts[1..] + [p];
      assert parts[0] + [c] + (JoinWith(parts[1..], c) + [c] + p) == parts[0] + [c] + JoinWith(parts[1..], c) + [c] + p;
    }
  }

  lemma JoinSnoc(ps: seq<Param>, p: Param)
    ensures JoinWith(WrittenAll(ps + [p]), AMPERSAND)
         == if ps == [] then Written(p) else JoinWith(WrittenAll(ps), AMPERSAND) + [AMPERSAND] + Written(p)
  {
    assert WrittenAll(ps + [p]) == WrittenAll(ps) + [Written(p)];
    if ps != [] {
      JoinTail(WrittenAll(ps), Written(p), AMPERSAND);
    }
  }

  // ---------- sorting ----------

  ghost predicate Sorted(ps: seq<Param>) {
    forall i, j :: 0 <= i < j < |ps| ==> !ParamLess(ps[j], ps[i])
  }

  lemma ParamOrder(p: Param, q: Param, r: Param)
    ensures p == q || ParamLess(p, q) || ParamLess(q, p)
    ensures !(ParamLess(p, q) && ParamLess(q, p)) && !ParamLess(p, p)
    ensures ParamLess(p, q) && ParamLess(q, r) ==> ParamLess(p, r)
  {
    hide Less;
    LessTrichotomy(p.0, q.0);
    LessTrichotomy(p.1, q.1);
    LessTrichotomy(p.0, p.0);
    LessTrichotomy(p.1, p.1);
    if Less(p.0, q.0) && Less(q.0, r.0) {
      LessTransitive(p.0, q.0, r.0);
    }
    if Less(p.1, q.1) && Less(q.1, r.1) {
      LessTransitive(p.1, q.1, r.1);
    }
  }

  /** A list is sorted when its first is below everything behind it and the rest is sorted. */
  lemma SortedCons(p: Param, ps: seq<Param>)
    requires Sorted(ps) && forall i :: 0 <= i < |ps| ==> !ParamLess(ps[i], p)
    ensures Sorted([p] + ps)
  {
    hide ParamLess;
  }

  lemma {:induction false} InsertSorts(p: Param, ps: seq<Param>)
    requires Sorted(ps)
    ensures Sorted(Insert(p, ps)) && multiset(Insert(p, ps)) == multiset{p} + multiset(ps)
  {
    hide ParamLess, Sorted;
    if ps == [] {
      SortedCons(p, ps);
    } else if !ParamLess(ps[0], p) {
      forall i | 0 <= i < |ps| ensures !ParamLess(ps[i], p) {
        assert ps[i] in multiset(ps);
        SortedFirst(ps, ps[i]);
        ParamOrder(ps[i], p, ps[0]);
        ParamOrder(ps[0], p, p);
      }
      SortedCons(p, ps);
    } else {
      var rest := Insert(p, ps[1..]);
      SortedTail(ps);
      InsertSorts(p, ps[1..]);
      forall i | 0 <= i < |rest| ensures !ParamLess(rest[i], ps[0]) {
        assert rest[i] in multiset(rest);
        ParamOrder(ps[0], p, p);
        if rest[i] != p {
          assert rest[i] in multiset(ps);
          SortedFirst(ps, rest[i]);
        }
      }
      SortedCons(ps[0], rest);
    }
  }

  lemma {:induction false} SortSorts(ps: seq<Param>)
    ensures Sorted(Sort(ps)) && multiset(Sort(ps)) == multiset(ps)
  {
    hide ParamLess, Sorted, Insert;
    if ps == [] {
      assert Sorted([]) by { EmptySorted(); }
    } else {
      SortSorts(ps[1..]);
      InsertSorts(ps[0], Sort(ps[1..]));
      assert ps == [ps[0]] + ps[1..];
      assert multiset(ps) == multiset{ps[0]} + multiset(ps[1..]);
    }
  }

  lemma EmptySorted()
    ensures Sorted([])
  {
  }

  lemma SortedTail(a: seq<Param>)
    requires Sorted(a) && a != []
    ensures Sorted(a[1..]) && multiset(a) == multiset{a[0]} + multiset(a[1..])
  {
    hide ParamLess;
    assert a == [a[0]] + a[1..];
    forall x, y | 0 <= x < y < |a[1..]| ensures !ParamLess(a[1..][y], a[1..][x]) {
      assert a[1..][y] == a[y + 1] && a[1..][x] == a[x + 1];
    }
  }

  /** The first of a sorted list is below everything in it. */
  lemma SortedFirst(a: seq<Param>, p: Param)
    requires Sorted(a) && a != [] && p in multiset(a)
    ensures !ParamLess(p, a[0])
  {
    hide ParamLess;
    var i :| 0 <= i < |a| && a[i] == p;
    ParamOrder(p, p, p);
  }

  /** There is only one way to sort: whatever algorithm does it, the result is the same. */
  lemma {:induction false} SortedOnce(a: seq<Param>, b: seq<Param>)
    requires Sorted(a) && Sorted(b) && multiset(a) == multiset(b)
    ensures a == b
  {
    hide ParamLess, Sorted;
    assert |a| == |multiset(a)| == |multiset(b)| == |b|;
    if a != [] {
      assert a[0] in multiset(a) && b[0] in multiset(b);
      SortedFirst(a, b[0]);
      SortedFirst(b, a[0]);
      ParamOrder(a[0], b[0], a[0]);
      SortedTail(a);
      SortedTail(b);
      assert multiset(a[1..]) == multiset(a) - multiset{a[0]};
      assert multiset(b[1..]) == multiset(b) - multiset{b[0]};
      SortedOnce(a[1..], b[1..]);
      assert a == [a[0]] + a[1..] && b == [b[0]] + b[1..];
    }
  }

  // ---------- the canonical form ----------

  lemma ParamsSnoc(a: seq<Bytes>, x: Bytes)
    ensures Params(a + [x]) == Params(a) + ParamOf(x)
  {
    hide ParamOf;
    assert (a + [x])[..|a|] == a;
  }

  lemma {:induction false} ParamsAppend(a: seq<Bytes>, b: seq<Bytes>)
    ensures Params(a + b) == Params(a) + Params(b)
  {
    hide ParamOf;
    if b == [] {
      assert a + b == a && Params(a) + [] == Params(a);
    } else {
      var n, x := |b| - 1, b[|b| - 1];
      ParamsAppend(a, b[..n]);
      assert a + b == (a + b[..n]) + [x] && b == b[..n] + [x];
      ParamsSnoc(a + b[..n], x);
      assert Params(a) + (Params(b[..n]) + ParamOf(x)) == Params(a) + Params(b[..n]) + ParamOf(x);
    }
  }

  function Without(b: seq<Bytes>, i: nat): seq<Bytes>
    requires i < |b|
  {
    b[..i] + b[i + 1..]
  }

  lemma RemoveAt(b: seq<Bytes>, i: nat)
    requires i < |b|
    ensures |Without(b, i)| == |b| - 1 && multiset(Without(b, i)) == multiset(b) - multiset{b[i]}
  {
    assert b == b[..i] + [b[i]] + b[i + 1..];
  }

  lemma ParamsRemoveAt(b: seq<Bytes>, i: nat)
    requires i < |b|
    ensures multiset(Params(b)) == multiset(ParamOf(b[i])) + multiset(Params(Without(b, i)))
  {
    hide ParamOf, Params;
    var b1, x, b2 := b[..i], b[i], b[i + 1..];
    assert b == (b1 + [x]) + b2;
    ParamsAppend(b1 + [x], b2);
    ParamsSnoc(b1, x);
    ParamsAppend(b1, b2);
  }

  lemma SameLength(a: seq<Bytes>, b: seq<Bytes>)
    requires multiset(a) == multiset(b)
    ensures |a| == |b|
  {
    assert |a| == |multiset(a)| == |multiset(b)| == |b|;
  }

  lemma IndexOf(b: seq<Bytes>, x: Bytes) returns (i: nat)
    requires x in multiset(b)
    ensures i < |b| && b[i] == x
  {
    i :| 0 <= i < |b| && b[i] == x;
  }

  /** Which parameters there are depends on which parts there are, not on their order. */
  lemma {:induction false} ParamsUnordered(a: seq<Bytes>, b: seq<Bytes>)
    requires multiset(a) == multiset(b)
    ensures multiset(Params(a)) == multiset(Params(b))
    decreases |a|
  {
    hide ParamOf, Params, Without;
    SameLength(a, b);
    if a == [] {
      assert b == [];
    } else {
      assert a[0] in multiset(a);
      var i := IndexOf(b, a[0]);
      RemoveAt(a, 0);
      RemoveAt(b, i);
      ParamsUnordered(Without(a, 0), Without(b, i));
      ParamsRemoveAt(a, 0);
      ParamsRemoveAt(b, i);
    }
  }

  /** The canonical form is the same for every order of the parameters. */
  lemma CanonicalUnordered(q1: Bytes, q2: Bytes)
    requires multiset(Split(q1, AMPERSAND)) == multiset(Split(q2, AMPERSAND))
    ensures Canonical(q1) == Canonical(q2)
  {
    hide Split, Params, Sort, JoinWith, WrittenAll, Sorted;
    var p1, p2 := Params(Split(q1, AMPERSAND)), Params(Split(q2, AMPERSAND));
    ParamsUnordered(Split(q1, AMPERSAND), Split(q2, AMPERSAND));
    SortSorts(p1);
    SortSorts(p2);
    SortedOnce(Sort(p1), Sort(p2));
  }

  /** A parameter as canonicalising leaves it: both halves the encoding of something. */
  ghost predicate Encoded(p: Param) {
    && p.0 == Encode(Decode(p.0), true) && p.1 == Encode(Decode(p.1), true)
    && Free(p.0, EQUALS) && Free(p.0, AMPERSAND) && Free(p.1, AMPERSAND)
  }

  lemma {:induction false} EncodeFree(s: Bytes, c: Byte)
    requires c == EQUALS || c == AMPERSAND
    ensures Free(Encode(s, true), c)
  {
    if s != [] {
      EncodeFree(s[..|s| - 1], c);
    }
  }

  lemma ParsedIsEncoded(pair: Bytes)
    ensures Encoded(ParseParam(pair))
  {
    hide Encode, Decode, Find;
    var n := Find(pair, EQUALS);
    var a, b := Decode(pair[..n]), Decode(if n < |pair| then pair[n + 1..] else []);
    DecodeEncode(a, true);
    DecodeEncode(b, true);
    EncodeFree(a, EQUALS);
    EncodeFree(a, AMPERSAND);
    EncodeFree(b, AMPERSAND);
  }

  lemma {:induction false} ParamsEncoded(parts: seq<Bytes>)
    ensures forall i :: 0 <= i < |Params(parts)| ==> Encoded(Params(parts)[i])
  {
    hide ParseParam, Encoded;
    if parts != [] {
      ParamsEncoded(parts[..|parts| - 1]);
      ParsedIsEncoded(parts[|parts| - 1]);
    }
  }

  /** A canonical parameter reads back as itself. */
  lemma WrittenReadsBack(p: Param)
    requires Encoded(p)
    ensures Written(p) != [] && ParseParam(Written(p)) == p && Free(Written(p), AMPERSAND)
  {
    hide Encode, Decode, Find;
    var w := Written(p);
    assert w[..|p.0|] == p.0 && w[|p.0| + 1..] == p.1;
    FindIs(w, EQUALS, |p.0|);
  }

  lemma {:induction false} ParamsOfWritten(ps: seq<Param>)
    requires forall i :: 0 <= i < |ps| ==> Encoded(ps[i])
    ensures Params(WrittenAll(ps)) == ps
    ensures forall i :: 0 <= i < |ps| ==> Free(WrittenAll(ps)[i], AMPERSAND)
  {
    hide ParseParam, Encoded, Written;
    if ps != [] {
      var n := |ps| - 1;
      ParamsOfWritten(ps[..n]);
      WrittenReadsBack(ps[n]);
      assert WrittenAll(ps)[..n] == WrittenAll(ps[..n]);
      assert ps == ps[..n] + [ps[n]];
      forall i | 0 <= i < |ps| ensures Free(WrittenAll(ps)[i], AMPERSAND) {
        if i < n {
          assert WrittenAll(ps)[i] == WrittenAll(ps[..n])[i];
        }
      }
    }
  }

  /** Canonicalising twice changes nothing more. */
  lemma CanonicalIdempotent(q: Bytes)
    ensures Canonical(Canonical(q)) == Canonical(q)
  {
    hide Split, Params, Sort, JoinWith, WrittenAll, Sorted, Encoded;
    var raw := Params(Split(q, AMPERSAND));
    var ps := Sort(raw);
    SortSorts(raw);
    ParamsEncoded(Split(q, AMPERSAND));
    forall i | 0 <= i < |ps| ensures Encoded(ps[i]) {
      assert ps[i] in multiset(ps);
      assert ps[i] in raw;
    }
    ParamsOfWritten(ps);
    if ps == [] {
      assert Canonical(q) == [] by { NothingWritten(); }
      NothingIsCanonical();
    } else {
      WrittenLength(ps);
      SplitJoin(WrittenAll(ps), AMPERSAND);
      SortSorts(ps);
      SortedOnce(Sort(ps), ps);
    }
  }

  lemma NothingWritten()
    ensures JoinWith(WrittenAll([]), AMPERSAND) == []
  {
  }

  lemma WrittenLength(ps: seq<Param>)
    ensures |WrittenAll(ps)| == |ps|
  {
  }
}
