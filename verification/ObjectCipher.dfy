/** The operations of core/src/ObjectCipher.cpp, as the loops and the buffering writer they are. */
module ObjectCipher {
  import opened LittleEndian
  import opened Outcome
  import opened ObjectFormat
  import opened ObjectRange

  lemma CountIs(size: nat, c: nat, n: nat)
    requires c > 0 && size <= n * c && (n > 0 ==> (n - 1) * c < size)
    ensures FrameCount(size, c) == n
  {
    hide FrameCount;
    var m := FrameCount(size, c);
    FrameCountBounds(size, c);
    if m < n {
      MulUp(m, n - 1, c);
    } else if n < m {
      MulUp(n, m - 1, c);
    }
  }

  lemma ChunkIs(text: Bytes, chunk: nat, index: nat)
    requires index * chunk < |text|
    ensures text[index * chunk..index * chunk + Min(chunk, |text| - index * chunk)] == Chunk(text, chunk, index)
  {
  }

  /** Encrypts a whole buffer; an unsupported key is only found out when there is something to encrypt. */
  method Encrypt(a: Aead, key: Bytes, ivs: nat -> Iv, chunk: nat, text: Bytes) returns (r: Result<Bytes>)
    requires 0 < chunk
    ensures r.Error? <==> text != [] && |key| != 16 && |key| != 32
    ensures r.Ok? ==> r.value == Object(a, key, ivs, chunk, text)
  {
    hide Frame, Chunk, FrameCount, MakeHeader;
    var out, index, offset := MakeHeader(chunk, |text|), 0, 0;
    while offset < |text|
      invariant offset == index * chunk && (index > 0 ==> (index - 1) * chunk < |text| && KeyOk(key))
      invariant out == MakeHeader(chunk, |text|) + Frames(a, key, ivs, chunk, text, index)
      decreases |text| - offset
    {
      if !KeyOk(key) {
        return Error("Unsupported AES key size");
      }
      var length := Min(chunk, |text| - offset);
      ChunkIs(text, chunk, index);
      out := out + Frame(a, key, ivs(index), text[offset..offset + length], index);
      Next(index, chunk);
      offset, index := offset + chunk, index + 1;
    }
    CountIs(|text|, chunk, index);
    return Ok(out);
  }

  lemma NextOffset(h: Header, index: nat)
    requires h.chunkSize > 0 && ChunkLengthAt(h, index) == h.chunkSize
    ensures FrameOffsetAt(h, index) + ChunkLengthAt(h, index) + FRAME_OVERHEAD == FrameOffsetAt(h, index + 1)
  {
    Next(index, h.chunkSize + FRAME_OVERHEAD);
  }

  method Decrypt(a: Aead, key: Bytes, file: Bytes) returns (r: Result<Bytes>)
    requires Laws(a)
    ensures r == ObjectFormat.Decrypt(a, key, file)
  {
    hide Laws, ParseHeader, OpenFrame;
    var parsed := ParseHeader(file);
    if parsed.Error? {
      return Error(parsed.reason);
    }
    var h := parsed.value;
    if h.plaintextSize < 0 {
      return Error("length");
    }
    var text, position, index := [], HEADER_SIZE, 0;
    while |text| < h.plaintextSize
      invariant |text| >= h.plaintextSize || (|text| == index * h.chunkSize && position == FrameOffsetAt(h, index))
      invariant DecryptFrom(a, key, file, h, index, text) == ObjectFormat.Decrypt(a, key, file)
      decreases h.plaintextSize - |text|
    {
      var frameLength := ChunkLengthAt(h, index) + FRAME_OVERHEAD;
      if position + frameLength > |file| {
        return Error("Encrypted object is truncated");
      }
      var chunk := OpenFrame(a, key, file[position..position + frameLength], index);
      if chunk.Error? {
        return Error(chunk.reason);
      }
      assert chunk == ReadFrame(a, key, file, position, h, index);
      ReadLength(a, key, file, position, h, index);
      Next(index, h.chunkSize);
      if |text| + |chunk.value| < h.plaintextSize {
        NextOffset(h, index);
      }
      text := text + chunk.value;
      position, index := position + frameLength, index + 1;
    }
    return Ok(text);
  }

  method DecryptRange(a: Aead, key: Bytes, file: Bytes, offset: int, length: int) returns (r: Result<Bytes>)
    ensures r == ObjectRange.DecryptRange(a, key, file, offset, length)
  {
    hide ParseHeader, ReadFrame, FrameOf;
    if offset < 0 {
      return Error("Negative offset into object");
    }
    if length <= 0 {
      return Ok([]);
    }
    var parsed := ParseHeader(file);
    if parsed.Error? {
      return Error(parsed.reason);
    }
    var h := parsed.value;
    if offset >= h.plaintextSize {
      return Ok([]);
    }
    var wanted := Min(length, h.plaintextSize - offset);
    var first, last := FrameOf(offset, h.chunkSize), FrameOf(offset + wanted - 1, h.chunkSize);
    var position := FrameOffsetAt(h, first);
    var decoded, index := [], first;
    TouchedFrames(h.plaintextSize, h.chunkSize, last);
    assert ReadFrames(a, key, file, h, first, last) == Joined([], ReadFrames(a, key, file, h, first, last)) by {
      JoinedNothing(ReadFrames(a, key, file, h, first, last));
    }
    while index <= last
      invariant index <= last ==> position == FrameOffsetAt(h, index)
      invariant ReadFrames(a, key, file, h, first, last) == Joined(decoded, ReadFrames(a, key, file, h, index, last))
      decreases last + 1 - index
    {
      var chunk := ReadFrame(a, key, file, position, h, index);
      if chunk.Error? {
        return Error(chunk.reason);
      }
      JoinedTwice(decoded, chunk.value, ReadFrames(a, key, file, h, index + 1, last));
      if index < last {
        NextOffset(h, index);
      }
      decoded := decoded + chunk.value;
      position, index := position + (ChunkLengthAt(h, index) + FRAME_OVERHEAD), index + 1;
    }
    assert decoded + [] == decoded;
    var within := offset - first * h.chunkSize;
    if within < 0 || within > |decoded| {
      return Error("out of range");
    }
    return Ok(decoded[within..Min(within + wanted, |decoded|)]);
  }

  function Joined(front: Bytes, r: Result<Bytes>): Result<Bytes> {
    match r case Error(e) => Error(e) case Ok(rest) => Ok(front + rest)
  }

  lemma JoinedNothing(r: Result<Bytes>)
    ensures Joined([], r) == r
  {
    match r
    case Error(_) =>
    case Ok(rest) => assert [] + rest == rest;
  }

  lemma JoinedTwice(x: Bytes, y: Bytes, r: Result<Bytes>)
    ensures Joined(x, Joined(y, r)) == Joined(x + y, r)
  {
    match r
    case Error(_) =>
    case Ok(rest) => assert x + (y + rest) == x + y + rest;
  }

  lemma LastChunk(text: Bytes, chunk: nat, index: nat, rest: Bytes)
    requires |text| == index * chunk + |rest| && rest == text[index * chunk..] && |rest| <= chunk
    ensures rest == Chunk(text, chunk, index)
  {
    var at := index * chunk;
    assert text[at..Min(at + chunk, |text|)] == text[at..];
  }

  lemma FramesGrow(a: Aead, key: Bytes, ivs: nat -> Iv, chunk: nat, text: Bytes, n: nat, header: Bytes)
    ensures header + Frames(a, key, ivs, chunk, text, n) + Frame(a, key, ivs(n), Chunk(text, chunk, n), n)
         == header + Frames(a, key, ivs, chunk, text, n + 1)
  {
    hide Frame, Chunk;
    assert Frames(a, key, ivs, chunk, text, n + 1)
        == Frames(a, key, ivs, chunk, text, n) + Frame(a, key, ivs(n), Chunk(text, chunk, n), n);
  }

  /** Writes an encrypted object from plaintext handed over in pieces of any size. */
  class ObjectEncryptor {
    const aead: Aead
    const key: Bytes
    const ivs: nat -> Iv
    const chunk: nat
    var out: Bytes
    var buffer: Bytes
    var frameIndex: nat
    var plaintextSize: nat
    ghost var written: Bytes // everything handed over so far

    /** Whole chunks are in the output, in frames; the rest, less than a chunk, is in the buffer. */
    ghost predicate Valid()
      reads this
    {
      0 < chunk && |buffer| < chunk && Buffered()
    }

    /** The same, with the buffer possibly full. */
    ghost predicate Buffered()
      reads this
    {
      && plaintextSize == frameIndex * chunk && (frameIndex > 0 ==> KeyOk(key))
      && |written| == plaintextSize + |buffer| && buffer == written[plaintextSize..]
      && out == MakeHeader(chunk, 0) + Frames(aead, key, ivs, chunk, written, frameIndex)
    }

    constructor (aead: Aead, key: Bytes, ivs: nat -> Iv, chunk: nat)
      requires 0 < chunk
      ensures Valid() && written == [] && frameIndex == 0
      ensures this.aead == aead && this.key == key && this.ivs == ivs && this.chunk == chunk
    {
      this.aead, this.key, this.ivs, this.chunk := aead, key, ivs, chunk;
      out := MakeHeader(chunk, 0);
      buffer, frameIndex, plaintextSize := [], 0, 0;
      written := [];
    }

    /** Fails on an unsupported key, before anything is written. */
    method FlushChunk() returns (ok: bool)
      requires 0 < chunk && Buffered() && 0 < |buffer| <= chunk
      modifies this
      ensures ok <==> KeyOk(key)
      ensures written == old(written)
      ensures ok ==> buffer == [] && frameIndex == old(frameIndex) + 1 && plaintextSize == |written|
                     && out == MakeHeader(chunk, 0) + Frames(aead, key, ivs, chunk, written, frameIndex)
    {
      hide Frame, Chunk, MakeHeader, KeyOk;
      if !KeyOk(key) {
        return false;
      }
      LastChunk(written, chunk, frameIndex, buffer);
      FramesGrow(aead, key, ivs, chunk, written, frameIndex, MakeHeader(chunk, 0));
      hide Frames;
      out := out + Frame(aead, key, ivs(frameIndex), buffer, frameIndex);
      plaintextSize := plaintextSize + |buffer|;
      buffer := [];
      frameIndex := frameIndex + 1;
      return true;
    }

    /** Fails if it fills a chunk under an unsupported key. */
    method WriteData(data: Bytes) returns (ok: bool)
      requires Valid()
      modifies this
      ensures ok <==> KeyOk(key) || |old(buffer)| + |data| < chunk
      ensures ok ==> Valid() && written == old(written) + data
    {
      hide Frame, Frames, MakeHeader, KeyOk;
      var done := 0;
      assert data[..0] == [];
      assert written + [] == written;
      while done < |data|
        invariant done <= |data| && Valid() && written == old(written) + data[..done]
        invariant KeyOk(key) || |buffer| == |old(buffer)| + done
      {
        var take := Min(|data| - done, chunk - |buffer|);
        var piece := data[done..done + take];
        assert data[..done + take] == data[..done] + piece;
        GrowWritten(piece);
        buffer := buffer + piece;
        done := done + take;
        if |buffer| == chunk {
          Next(frameIndex, chunk);
          var flushed := FlushChunk();
          if !flushed {
            return false;
          }
          assert written[plaintextSize..] == [];
        }
      }
      assert data[..done] == data;
      return true;
    }

    /** More plaintext handed over changes nothing about the frames already out. */
    ghost method GrowWritten(piece: Bytes)
      requires Valid()
      modifies this`written
      ensures written == old(written) + piece
      ensures written[plaintextSize..] == buffer + piece
      ensures out == MakeHeader(chunk, 0) + Frames(aead, key, ivs, chunk, written, frameIndex)
    {
      var more := written + piece;
      assert more[..plaintextSize] == written[..plaintextSize];
      FramesOfPrefix(aead, key, ivs, chunk, written, more, frameIndex);
      assert more[plaintextSize..] == written[plaintextSize..] + piece;
      written := more;
    }

    /** Flushes what is left and completes the header: the object Encrypt() would have made of all of it. */
    method Finish() returns (r: Result<nat>)
      requires Valid()
      modifies this
      ensures written == old(written)
      ensures r.Error? <==> written != [] && !KeyOk(key)
      ensures r.Ok? ==> r.value == |written| && out == Object(aead, key, ivs, chunk, written)
    {
      hide Frame, Frames, MakeHeader, KeyOk;
      Next(frameIndex, chunk);
      if buffer != [] {
        var flushed := FlushChunk();
        if !flushed {
          return Error("Unsupported AES key size");
        }
      }
      CountIs(|written|, chunk, frameIndex);
      var header := MakeHeader(chunk, plaintextSize);
      assert out[HEADER_SIZE..] == Frames(aead, key, ivs, chunk, written, frameIndex);
      out := header + out[|header|..];
      return Ok(plaintextSize);
    }
  }

  function Concat(pieces: seq<Bytes>): Bytes {
    if pieces == [] then [] else Concat(pieces[..|pieces| - 1]) + pieces[|pieces| - 1]
  }

  /**
   * However the plaintext is cut into writes, the file is the one-shot encryption of the whole, and like it fails
   * exactly on an unsupported key with something to encrypt.
   */
  method EncryptPieces(a: Aead, key: Bytes, ivs: nat -> Iv, chunk: nat, pieces: seq<Bytes>)
    returns (r: Result<(Bytes, nat)>)
    requires 0 < chunk
    ensures r.Error? <==> Concat(pieces) != [] && !KeyOk(key)
    ensures r.Ok? ==> r.value == (Object(a, key, ivs, chunk, Concat(pieces)), |Concat(pieces)|)
  {
    hide Object, KeyOk;
    var encryptor := new ObjectEncryptor(a, key, ivs, chunk);
    for i := 0 to |pieces|
      invariant encryptor.Valid() && encryptor.written == Concat(pieces[..i])
    {
      assert pieces[..i + 1][..i] == pieces[..i];
      var ok := encryptor.WriteData(pieces[i]);
      if !ok {
        ConcatGrows(pieces, i + 1);
        return Error("Unsupported AES key size");
      }
    }
    assert pieces[..|pieces|] == pieces;
    var size := encryptor.Finish();
    if size.Error? {
      return Error(size.reason);
    }
    return Ok((encryptor.out, size.value));
  }

  lemma {:induction false} ConcatGrows(pieces: seq<Bytes>, n: nat)
    requires n <= |pieces|
    ensures |Concat(pieces[..n])| <= |Concat(pieces)|
  {
    if n == |pieces| {
      assert pieces[..n] == pieces;
    } else {
      ConcatGrows(pieces[..|pieces| - 1], n);
      assert pieces[..|pieces| - 1][..n] == pieces[..n];
    }
  }

  /** The text of a stored object: itself when it is kept in the clear. */
  function StoredText(a: Aead, key: Bytes, file: Bytes): Result<Bytes>
    requires Laws(a)
  {
    if key == [] then Ok(file) else StreamedText(a, key, file)
  }

  lemma ConcatOneMore(pieces: seq<Bytes>, piece: Bytes)
    ensures Concat(pieces + [piece]) == Concat(pieces) + piece
  {
    assert (pieces + [piece])[..|pieces|] == pieces;
  }

  /** The pieces handed on while a stored object is read: they make up its text. */
  method StreamPlaintext(a: Aead, key: Bytes, file: Bytes, chunk: nat) returns (r: Result<seq<Bytes>>)
    requires Laws(a) && 0 < chunk
    ensures r.Error? <==> StoredText(a, key, file).Error?
    ensures r.Ok? ==> Concat(r.value) == StoredText(a, key, file).value
  {
    hide Laws, Concat;
    if key == [] {
      var pieces := StreamClear(file, chunk);
      return Ok(pieces);
    }
    r := StreamFrames(a, key, file);
  }

  method StreamClear(file: Bytes, chunk: nat) returns (pieces: seq<Bytes>)
    requires 0 < chunk
    ensures Concat(pieces) == file
  {
    pieces := [];
    var done := 0;
    while done < |file|
      invariant done <= |file| && Concat(pieces) == file[..done]
    {
      hide Concat;
      var next := Min(done + chunk, |file|);
      ConcatOneMore(pieces, file[done..next]);
      assert file[..next] == file[..done] + file[done..next];
      pieces := pieces + [file[done..next]];
      done := next;
    }
    assert file[..done] == file;
  }

  method StreamFrames(a: Aead, key: Bytes, file: Bytes) returns (r: Result<seq<Bytes>>)
    requires Laws(a)
    ensures r.Error? <==> StreamedText(a, key, file).Error?
    ensures r.Ok? ==> Concat(r.value) == StreamedText(a, key, file).value
  {
    hide Laws, ParseHeader, ReadFrame;
    var parsed := ParseHeader(file);
    if parsed.Error? {
      return Error(parsed.reason);
    }
    var h := parsed.value;
    var pieces, delivered, position, index := [], 0, HEADER_SIZE, 0;
    while delivered < h.plaintextSize
      invariant delivered == |Concat(pieces)|
      invariant delivered >= h.plaintextSize
                || (delivered == index * h.chunkSize && position == FrameOffsetAt(h, index))
      invariant DecryptFrom(a, key, file, h, index, Concat(pieces)) == StreamedText(a, key, file)
      decreases h.plaintextSize - delivered
    {
      hide Concat;
      var piece := ReadFrame(a, key, file, position, h, index);
      if piece.Error? {
        return Error(piece.reason);
      }
      ReadLength(a, key, file, position, h, index);
      Next(index, h.chunkSize);
      ConcatOneMore(pieces, piece.value);
      if delivered + |piece.value| < h.plaintextSize {
        NextOffset(h, index);
      }
      pieces := pieces + [piece.value];
      delivered := delivered + |piece.value|;
      position, index := position + (ChunkLengthAt(h, index) + FRAME_OVERHEAD), index + 1;
    }
    return Ok(pieces);
  }

  /** Moves an object from under one key to under another, or into or out of the clear. */
  method Transcode(a: Aead, sourceKey: Bytes, source: Bytes, targetKey: Bytes, ivs: nat -> Iv, chunk: nat)
    returns (r: Result<Bytes>)
    requires Laws(a) && 0 < chunk < 0x1_0000_0000 && |source| < 0x8000_0000_0000_0000
    ensures r.Error? <==> var text := StoredText(a, sourceKey, source);
                          text.Error? || (text.value != [] && targetKey != [] && !KeyOk(targetKey))
    ensures r.Ok? ==> StoredText(a, targetKey, r.value) == StoredText(a, sourceKey, source)
    ensures r.Ok? && targetKey != [] ==>
      r.value == Object(a, targetKey, ivs, chunk, StoredText(a, sourceKey, source).value)
    ensures r.Ok? && sourceKey == [] ==>
      r.value == if targetKey == [] then source else Object(a, targetKey, ivs, chunk, source)
    ensures r.Ok? && sourceKey != [] && targetKey == [] ==> StreamedText(a, sourceKey, source) == Ok(r.value)
  {
    hide Laws, Object, StreamedText, Concat, KeyOk;
    var pieces := StreamPlaintext(a, sourceKey, source, chunk);
    if pieces.Error? {
      return Error(pieces.reason);
    }
    if targetKey == [] {
      var written := WritePieces(pieces.value);
      return Ok(written);
    }
    var target := EncryptPieces(a, targetKey, ivs, chunk, pieces.value);
    if target.Error? {
      return Error(target.reason);
    }
    if sourceKey != [] {
      StreamedLength(a, sourceKey, source);
    }
    DecryptUndoesEncrypt(a, targetKey, ivs, chunk, Concat(pieces.value));
    return Ok(target.value.0);
  }

  /** A target kept in the clear is written piece by piece. */
  method WritePieces(pieces: seq<Bytes>) returns (out: Bytes)
    ensures out == Concat(pieces)
  {
    out := [];
    for i := 0 to |pieces|
      invariant out == Concat(pieces[..i])
    {
      assert pieces[..i + 1][..i] == pieces[..i];
      out := out + pieces[i];
    }
    assert pieces[..|pieces|] == pieces;
  }

  /** A plaintext is no longer than the file it was read from. */
  lemma StreamedLength(a: Aead, key: Bytes, file: Bytes)
    requires Laws(a) && StreamedText(a, key, file).Ok?
    ensures |StreamedText(a, key, file).value| <= |file|
  {
    hide Laws, ParseHeader;
    DecryptedWithin(a, key, file, ParseHeader(file).value, 0, []);
  }

  lemma {:induction false} DecryptedWithin(a: Aead, key: Bytes, file: Bytes, h: Header, i: nat, sofar: Bytes)
    requires Laws(a) && h.chunkSize > 0 && |sofar| <= |file|
    requires |sofar| >= h.plaintextSize || |sofar| == i * h.chunkSize
    requires DecryptFrom(a, key, file, h, i, sofar).Ok?
    ensures |DecryptFrom(a, key, file, h, i, sofar).value| <= |file|
    decreases h.plaintextSize - |sofar|
  {
    hide Laws, OpenFrame;
    if |sofar| < h.plaintextSize {
      var at := FrameOffsetAt(h, i);
      var text := ReadFrame(a, key, file, at, h, i).value;
      ReadLength(a, key, file, at, h, i);
      Next(i, h.chunkSize);
      OffsetSplits(i, h.chunkSize);
      DecryptedWithin(a, key, file, h, i + 1, sofar + text);
    }
  }
}
