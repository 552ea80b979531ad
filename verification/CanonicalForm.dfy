/**
 * The canonical query string byte by byte: which bytes are escaped and how, which parameters there are, and in which
 * order. Percent-encoding is that of sections 2.1 and 2.3 of RFC 3986.
 */
module CanonicalForm {
  import opened LittleEndian
  import opened Lexicographic
  import opened QueryString

  // ---------- escaping ----------

  /** 0 to 9 and A to F, or a to f. */
  const UPPER: seq<Byte> :=
    [0x30, 0x31, 0x32, 0x33, 0x34, 0x35, 0x36, 0x37, 0x38, 0x39, 0x41, 0x42, 0x43, 0x44, 0x45, 0x46]
  const LOWER: seq<Byte> :=
    [0x30, 0x31, 0x32, 0x33, 0x34, 0x35, 0x36, 0x37, 0x38, 0x39, 0x61, 0x62, 0x63, 0x64, 0x65, 0x66]

  /**
   * Encoding goes byte by byte. Letters, digits, hyphen, underscore, full stop and tilde stand for themselves, and a
   * slash does where asked; every other byte is a percent sign and two upper-case digits.
   */
  lemma EncodeMeans(s: Bytes, c: Byte, encodeSlash: bool)
    ensures Encode([], encodeSlash) == []
    ensures Encode(s + [c], encodeSlash)
         == Encode(s, encodeSlash)
            + if 0x41 <= c <= 0x5a || 0x61 <= c <= 0x7a || 0x30 <= c <= 0x39 || c in [0x2d, 0x5f, 0x2e, 0x7e]
                 || (c == 0x2f && !encodeSlash)
              then [c] else [0x25, UPPER[c / 16], UPPER[c % 16]]
  {
    assert (s + [c])[..|s|] == s;
    DigitsAre(c / 16);
    DigitsAre(c % 16);
  }

  lemma DigitsAre(n: nat)
    requires n < 16
    ensures Hex(n) == UPPER[n] && IsHex(UPPER[n]) && IsHex(LOWER[n])
    ensures HexValue(UPPER[n]) == n && HexValue(LOWER[n]) == n
  {
  }

  lemma HexMeans(c: Byte)
    ensures IsHex(c) <==> c in UPPER || c in LOWER
  {
    if IsHex(c) {
      var n := HexValue(c);
      assert UPPER[n] == c || LOWER[n] == c;
    }
  }

  /** A percent sign and two digits, in either case, stand for a byte. */
  lemma DecodeEscape(high: nat, low: nat, a: Byte, b: Byte, t: Bytes)
    requires high < 16 && low < 16 && a in [UPPER[high], LOWER[high]] && b in [UPPER[low], LOWER[low]]
    ensures Decode([0x25, a, b] + t) == [16 * high + low] + Decode(t)
  {
    var s := [0x25, a, b] + t;
    DigitsAre(high);
    DigitsAre(low);
    assert s[3..] == t;
  }

  /** Everything else stands for itself, a percent sign without two digits behind it too. */
  lemma DecodePlain(c: Byte, t: Bytes)
    requires c == 0x25 ==> |t| < 2 || !(t[0] in UPPER || t[0] in LOWER) || !(t[1] in UPPER || t[1] in LOWER)
    ensures Decode([]) == [] && Decode([c] + t) == [c] + Decode(t)
  {
    var s := [c] + t;
    if |t| >= 2 {
      HexMeans(t[0]);
      HexMeans(t[1]);
    }
    assert s[1..] == t;
  }

  // ---------- splitting ----------

  /** A text is its parts with the separator between them, and no part holds one. */
  lemma {:induction false} SplitMeans(s: Bytes, c: Byte)
    ensures Split(s, c) != [] && JoinWith(Split(s, c), c) == s
    ensures forall i :: 0 <= i < |Split(s, c)| ==> forall j :: 0 <= j < |Split(s, c)[i]| ==> Split(s, c)[i][j] != c
    decreases |s|
  {
    hide Find;
    var n := Find(s, c);
    if n < |s| {
      SplitMeans(s[n + 1..], c);
      var rest := Split(s[n + 1..], c);
      assert ([s[..n]] + rest)[1..] == rest;
      assert s == s[..n] + [c] + s[n + 1..];
    }
  }

  // ---------- parameters ----------

  /** A parameter is split at its first equals sign; without one its value is empty. Both halves are normalised. */
  lemma ParamMeans(name: Bytes, value: Bytes)
    requires forall j :: 0 <= j < |name| ==> name[j] != 0x3d
    ensures ParseParam(name + [0x3d] + value) == (Encode(Decode(name), true), Encode(Decode(value), true))
    ensures ParseParam(name) == (Encode(Decode(name), true), [])
  {
    hide Encode, Decode, Find;
    var pair := name + [0x3d] + value;
    FindIs(pair, EQUALS, |name|);
    assert pair[..|name|] == name && pair[|name| + 1..] == value;
    FindIs(name, EQUALS, |name|);
    assert name[..|name|] == name;
    NothingEncoded();
  }

  lemma NothingEncoded()
    ensures Encode(Decode([]), true) == []
  {
  }

  /** The parameters of the canonical form: those of the parts that are not empty, in order. */
  function CanonicalParams(q: Bytes): seq<Param> {
    Sort(Params(Split(q, AMPERSAND)))
  }

  lemma {:induction false} ParamsMean(parts: seq<Bytes>, x: Bytes)
    ensures Params([]) == []
    ensures Params(parts + [x]) == if x == [] then Params(parts) else Params(parts) + [ParseParam(x)]
  {
    ParamsSnoc(parts, x);
    assert Params(parts) + [] == Params(parts);
  }

  /** The canonical form is made of exactly the query's parameters, each as name=value, with ampersands between. */
  lemma CanonicalMeans(q: Bytes)
    ensures multiset(CanonicalParams(q)) == multiset(Params(Split(q, 0x26)))
    ensures CanonicalParams(q) == [] ==> Canonical(q) == []
    ensures CanonicalParams(q) != [] ==>
              var parts := Split(Canonical(q), 0x26);
              |parts| == |CanonicalParams(q)| && forall i :: 0 <= i < |parts| ==>
                var (name, value) := CanonicalParams(q)[i];
                && parts[i] == name + [0x3d] + value && forall j :: 0 <= j < |name| ==> name[j] != 0x3d
  {
    hide Split, Params, Sort, JoinWith, Sorted, Encoded, WrittenAll;
    var raw := Params(Split(q, AMPERSAND));
    var ps := Sort(raw);
    SortSorts(raw);
    ParamsEncoded(Split(q, AMPERSAND));
    forall i | 0 <= i < |ps| ensures Encoded(ps[i]) {
      assert ps[i] in multiset(ps);
      assert ps[i] in raw;
    }
    ParamsOfWritten(ps);
    WrittenLength(ps);
    if ps == [] {
      NothingWritten();
    } else {
      SplitJoin(WrittenAll(ps), AMPERSAND);
      forall i | 0 <= i < |ps|
        ensures WrittenAll(ps)[i] == ps[i].0 + [0x3d] + ps[i].1 && forall j :: 0 <= j < |ps[i].0| ==> ps[i].0[j] != 0x3d
      {
        WrittenIs(ps, i);
        EncodedHasNoEquals(ps[i]);
      }
    }
  }

  lemma WrittenIs(ps: seq<Param>, i: nat)
    requires i < |ps|
    ensures |WrittenAll(ps)| == |ps| && WrittenAll(ps)[i] == ps[i].0 + [0x3d] + ps[i].1
  {
  }

  lemma EncodedHasNoEquals(p: Param)
    requires Encoded(p)
    ensures forall j :: 0 <= j < |p.0| ==> p.0[j] != 0x3d
  {
  }

  /**
   * And they are in order: of two neighbours the first name is a prefix of the second or has the smaller byte where
   * they first differ, and for equal names the same holds of the values.
   */
  lemma CanonicalIsOrdered(q: Bytes, i: nat)
    requires i + 1 < |CanonicalParams(q)|
    ensures var (name, value) := CanonicalParams(q)[i];
            var (next, nextValue) := CanonicalParams(q)[i + 1];
            && (|| name <= next
                || exists p :: 0 <= p < |name| && p < |next| && name[..p] == next[..p] && name[p] < next[p])
            && (name == next ==>
                  value <= nextValue
                  || exists p :: 0 <= p < |value| && p < |nextValue| && value[..p] == nextValue[..p]
                                 && value[p] < nextValue[p])
  {
    hide Params, Split, Sort, Less;
    var ps := CanonicalParams(q);
    SortSorts(Params(Split(q, AMPERSAND)));
    assert !ParamLess(ps[i + 1], ps[i]);
    LessMeans(ps[i + 1].0, ps[i].0);
    LessMeans(ps[i + 1].1, ps[i].1);
  }
}
