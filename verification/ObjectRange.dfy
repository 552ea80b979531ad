/** Reading a byte range of an encrypted object: only the frames it falls in, and exactly that part of the text. */
module ObjectRange {
  import opened LittleEndian
  import opened Outcome
  import opened ObjectFormat

  /** The frame a byte of the plaintext is in. */
  function FrameOf(x: nat, c: nat): (i: nat)
    requires c > 0
    ensures i * c <= x < i * c + c
  {
    DivBounds(x, c);
    x / c
  }

  /** The frames from i to last, one behind the other. */
  function ReadFrames(a: Aead, key: Bytes, file: Bytes, h: Header, i: nat, last: nat): Result<Bytes>
    decreases last + 1 - i
  {
    if i > last then Ok([])
    else
      match ReadFrame(a, key, file, FrameOffsetAt(h, i), h, i)
      case Error(e) => Error(e)
      case Ok(text) =>
        match ReadFrames(a, key, file, h, i + 1, last)
        case Error(e) => Error(e)
        case Ok(rest) => Ok(text + rest)
  }

  function DecryptRange(a: Aead, key: Bytes, file: Bytes, offset: int, length: int): Result<Bytes> {
    if offset < 0 then Error("Negative offset into object")
    else if length <= 0 then Ok([])
    else
      match ParseHeader(file)
      case Error(e) => Error(e)
      case Ok(h) =>
        if offset >= h.plaintextSize then Ok([])
        else
          var wanted := Min(length, h.plaintextSize - offset);
          var first := FrameOf(offset, h.chunkSize);
          match ReadFrames(a, key, file, h, first, FrameOf(offset + wanted - 1, h.chunkSize))
          case Error(e) => Error(e)
          case Ok(decoded) =>
            var within := offset - first * h.chunkSize;
            if within < 0 || within > |decoded| then Error("out of range")
            else Ok(decoded[within..Min(within + wanted, |decoded|)])
  }

  lemma DivBounds(x: nat, c: nat)
    requires c > 0
    ensures 0 <= x / c && (x / c) * c <= x < (x / c) * c + c
  {
    assert x == (x / c) * c + x % c;
  }

  /** Frames up to the last touched one exist, and every one before it is full. */
  lemma TouchedFrames(size: nat, c: nat, last: nat)
    requires c > 0 && last * c < size
    ensures last < FrameCount(size, c)
    ensures forall i :: 0 <= i < last ==> ChunkLengthAt(Header(c, size), i) == c
  {
    var n := FrameCount(size, c);
    FrameCountBounds(size, c);
    if n <= last {
      MulUp(n, last, c);
    }
    forall i | 0 <= i < last ensures ChunkLengthAt(Header(c, size), i) == c {
      MulUp(i, last, c);
    }
  }

  lemma {:induction false} ReadFramesGives(a: Aead, key: Bytes, file: Bytes, h: Header, text: Bytes, i: nat, last: nat)
    requires Laws(a) && KeyOk(key) && h.chunkSize > 0 && |text| == h.plaintextSize
    requires i <= last < FrameCount(|text|, h.chunkSize)
    requires forall j :: i <= j <= last ==> Sealed(a, key, file, h, text, j)
    ensures i * h.chunkSize <= Min((last + 1) * h.chunkSize, |text|)
    ensures ReadFrames(a, key, file, h, i, last) == Ok(text[i * h.chunkSize..Min((last + 1) * h.chunkSize, |text|)])
    decreases last - i
  {
    hide Laws, FrameCount, Sealed, ReadFrame;
    var c := h.chunkSize;
    ChunkEnds(text, c, i);
    ReadsExactly(a, key, file, h, text, i);
    MulUp(i, last + 1, c);
    if i < last {
      ReadFramesGives(a, key, file, h, text, i + 1, last);
      assert Chunk(text, c, i) + text[(i + 1) * c..Min((last + 1) * c, |text|)]
          == text[i * c..Min((last + 1) * c, |text|)];
    } else {
      assert ReadFrames(a, key, file, h, i + 1, last) == Ok([]);
      assert Chunk(text, c, i) + [] == Chunk(text, c, i);
    }
  }

  /** The part of a text that a range asks for, clipped at its end. */
  function Part(text: Bytes, offset: nat, length: int): Bytes {
    if length <= 0 || offset >= |text| then [] else text[offset..Min(offset + length, |text|)]
  }

  /** The frames a range of a text falls in: what they hold begins before its end and ends behind its start. */
  predicate Touches(size: nat, c: nat, offset: nat, length: int, i: nat) {
    offset < size && 0 < length && i * c < Min(offset + length, size) && offset < i * c + c
  }

  lemma TouchesFrames(size: nat, c: nat, offset: nat, length: int, i: nat)
    requires c > 0 && offset < size && 0 < length
    ensures Touches(size, c, offset, length, i)
       <==> FrameOf(offset, c) <= i <= FrameOf(offset + Min(length, size - offset) - 1, c)
  {
    hide FrameOf;
    var first, last := FrameOf(offset, c), FrameOf(offset + Min(length, size - offset) - 1, c);
    if i < first {
      MulUp(i, first, c);
    } else {
      MulUp(first, i, c);
    }
    if last < i {
      MulUp(last, i, c);
    } else {
      MulUp(i, last, c);
    }
  }

  /**
   * A range read gives the matching part of the text of any file whose header and touched frames hold it;
   * nothing is asked of any other frame, nor of the key where the range is empty.
   */
  lemma RangeIsPart(a: Aead, key: Bytes, file: Bytes, c: nat, text: Bytes, offset: nat, length: int)
    requires Laws(a) && 0 < c && ParseHeader(file) == Ok(Header(c, |text|))
    requires KeyOk(key) || length <= 0 || offset >= |text|
    requires forall i :: 0 <= i && Touches(|text|, c, offset, length, i) ==>
        Sealed(a, key, file, Header(c, |text|), text, i)
    ensures DecryptRange(a, key, file, offset, length) == Ok(Part(text, offset, length))
  {
    hide Laws, FrameCount, Sealed, ReadFrame, ParseHeader, ReadFrames, FrameOf;
    if 0 < length && offset < |text| {
      var h, wanted := Header(c, |text|), Min(length, |text| - offset);
      var first, last := FrameOf(offset, c), FrameOf(offset + wanted - 1, c);
      assert first <= last by {
        if last < first {
          MulUp(last, first, c);
        }
      }
      TouchedFrames(|text|, c, last);
      forall i | first <= i <= last ensures Sealed(a, key, file, h, text, i) {
        TouchesFrames(|text|, c, offset, length, i);
      }
      ReadFramesGives(a, key, file, h, text, first, last);
      Next(last, c);
      Slice(text, first * c, text[first * c..Min((last + 1) * c, |text|)], offset - first * c,
            offset - first * c + wanted);
    }
  }

  /** On an encrypted object a range read agrees with the plaintext, for every range. */
  lemma RangeOfObject(a: Aead, key: Bytes, ivs: nat -> Iv, c: nat, text: Bytes, offset: nat, length: int)
    requires Laws(a) && 0 < c < 0x1_0000_0000 && |text| < 0x8000_0000_0000_0000
    requires KeyOk(key) || length <= 0 || offset >= |text|
    ensures DecryptRange(a, key, Object(a, key, ivs, c, text), offset, length) == Ok(Part(text, offset, length))
  {
    hide Laws, FrameCount, Frames, ParseHeader, DecryptRange, FrameOf;
    var file := Object(a, key, ivs, c, text);
    HeaderReadsBack(file, c, |text|);
    forall i | 0 <= i && Touches(|text|, c, offset, length, i)
      ensures Sealed(a, key, file, Header(c, |text|), text, i)
    {
      var last := FrameOf(offset + Min(length, |text| - offset) - 1, c);
      TouchesFrames(|text|, c, offset, length, i);
      TouchedFrames(|text|, c, last);
      FrameWithin(a, key, ivs, c, text, i);
      ObjectSealed(a, key, ivs, c, text, file, i);
    }
    RangeIsPart(a, key, file, c, text, offset, length);
  }

  // ---------- what a range read refuses ----------

  /** Frames that could be read are sealed chunks of a text, whatever the rest of that text may be. */
  lemma {:induction false} FramesAreHonest(a: Aead, key: Bytes, file: Bytes, h: Header, i: nat, last: nat, sofar: Bytes)
    returns (text: Bytes)
    requires Laws(a) && h.chunkSize > 0 && last * h.chunkSize < h.plaintextSize && i <= last + 1
    requires |sofar| == Min(i * h.chunkSize, h.plaintextSize) && ReadFrames(a, key, file, h, i, last).Ok?
    ensures |text| == h.plaintextSize && sofar <= text && (i <= last ==> KeyOk(key))
    ensures forall j :: i <= j <= last ==> Sealed(a, key, file, h, text, j)
    decreases last + 1 - i
  {
    hide Laws, FrameCount, Sealed, ReadFrame;
    var c := h.chunkSize;
    if i > last {
      text := sofar + seq(h.plaintextSize - |sofar|, _ => 0);
    } else {
      var chunk := ReadFrame(a, key, file, FrameOffsetAt(h, i), h, i).value;
      ReadLength(a, key, file, FrameOffsetAt(h, i), h, i);
      ReadNeedsKey(a, key, file, FrameOffsetAt(h, i), h, i);
      Next(i, c);
      MulUp(i, last, c);
      text := FramesAreHonest(a, key, file, h, i + 1, last, sofar + chunk);
      assert chunk == (sofar + chunk)[i * c..] == text[i * c..i * c + |chunk|];
      assert chunk == Chunk(text, c, i);
      TouchedFrames(|text|, c, last);
      ReadsExactly(a, key, file, h, text, i);
    }
  }

  lemma ReadNeedsKey(a: Aead, key: Bytes, file: Bytes, at: nat, h: Header, index: nat)
    requires ReadFrame(a, key, file, at, h, index).Ok?
    ensures KeyOk(key)
  {
  }

  /** A text whose chunks are sealed in the frames a range of it falls in. */
  ghost predicate HoldsRange(a: Aead, key: Bytes, file: Bytes, h: Header, text: Bytes, offset: nat, length: int) {
    && |text| == h.plaintextSize
    && forall i :: 0 <= i && Touches(|text|, h.chunkSize, offset, length, i) ==> Sealed(a, key, file, h, text, i)
  }

  lemma RangeReads(a: Aead, key: Bytes, file: Bytes, h: Header, offset: nat, length: int)
    requires ParseHeader(file) == Ok(h) && offset < h.plaintextSize && 0 < length
    requires DecryptRange(a, key, file, offset, length).Ok?
    ensures ReadFrames(a, key, file, h, FrameOf(offset, h.chunkSize),
                       FrameOf(offset + Min(length, h.plaintextSize - offset) - 1, h.chunkSize)).Ok?
  {
    hide ParseHeader, ReadFrames, FrameOf;
  }

  lemma RangeIsHonest(a: Aead, key: Bytes, file: Bytes, h: Header, offset: nat, length: int) returns (text: Bytes)
    requires Laws(a) && ParseHeader(file) == Ok(h) && offset < h.plaintextSize && 0 < length
    requires DecryptRange(a, key, file, offset, length).Ok?
    ensures KeyOk(key) && HoldsRange(a, key, file, h, text, offset, length)
  {
    hide Laws, Sealed, ParseHeader, ReadFrames, FrameOf, Touches, DecryptRange, KeyOk;
    var c, wanted := h.chunkSize, Min(length, h.plaintextSize - offset);
    var first, last := FrameOf(offset, c), FrameOf(offset + wanted - 1, c);
    RangeReads(a, key, file, h, offset, length);
    if last < first {
      MulUp(last, first, c);
    }
    text := FramesAreHonest(a, key, file, h, first, last, seq(first * c, _ => 0));
    forall i | 0 <= i && Touches(|text|, c, offset, length, i) ensures Sealed(a, key, file, h, text, i) {
      TouchesFrames(|text|, c, offset, length, i);
    }
  }

  /**
   * A range read answers bytes exactly if they are that part of a text all of whose chunks in the range are sealed in
   * the file, each at its own index: it refuses a frame that is altered, cut off or in another's place.
   */
  lemma RangeAcceptsExactly(a: Aead, key: Bytes, file: Bytes, h: Header, offset: nat, length: int, out: Bytes)
    requires Laws(a) && ParseHeader(file) == Ok(h) && offset < h.plaintextSize && 0 < length
    ensures DecryptRange(a, key, file, offset, length) == Ok(out) <==>
              && (|key| == 16 || |key| == 32)
              && exists text :: HoldsRange(a, key, file, h, text, offset, length) && out == Part(text, offset, length)
  {
    hide Laws, ParseHeader, DecryptRange, HoldsRange, Part;
    if DecryptRange(a, key, file, offset, length) == Ok(out) {
      var text := RangeIsHonest(a, key, file, h, offset, length);
      HeldRangeIsPart(a, key, file, h, text, offset, length);
    }
    if text :| KeyOk(key) && HoldsRange(a, key, file, h, text, offset, length) && out == Part(text, offset, length) {
      HeldRangeIsPart(a, key, file, h, text, offset, length);
    }
  }

  lemma HeldRangeIsPart(a: Aead, key: Bytes, file: Bytes, h: Header, text: Bytes, offset: nat, length: int)
    requires Laws(a) && ParseHeader(file) == Ok(h) && KeyOk(key)
    requires HoldsRange(a, key, file, h, text, offset, length)
    ensures DecryptRange(a, key, file, offset, length) == Ok(Part(text, offset, length))
  {
    hide Laws, Sealed, ParseHeader, DecryptRange, Part, Touches, KeyOk;
    RangeIsPart(a, key, file, h.chunkSize, text, offset, length);
  }

  /** The other ranges: a negative offset is refused, an empty range is nothing even of what is no object. */
  lemma RangeEdges(a: Aead, key: Bytes, file: Bytes, offset: int, length: int)
    ensures offset < 0 ==> DecryptRange(a, key, file, offset, length).Error?
    ensures offset >= 0 && length <= 0 ==> DecryptRange(a, key, file, offset, length) == Ok([])
    ensures offset >= 0 && length > 0 && ParseHeader(file).Error? ==>
              DecryptRange(a, key, file, offset, length).Error?
    ensures offset >= 0 && length > 0 && ParseHeader(file).Ok? && offset >= ParseHeader(file).value.plaintextSize ==>
              DecryptRange(a, key, file, offset, length) == Ok([])
  {
    hide ParseHeader, ReadFrames, FrameOf;
  }
}
