/**
 * The format of an object encrypted at rest (core/src/ObjectCipher.cpp): a header, and one AES-GCM frame per
 * chunk of plaintext, each authenticated with its own index.
 */
module ObjectFormat {
  import opened LittleEndian
  import opened Outcome

  const MAGIC: Bytes := [0x45, 0x55, 0x43, 0x4f, 0x42, 0x4a, 0x30, 0x31] // EUCOBJ01
  const HEADER_SIZE := 20
  const FRAME_OVERHEAD := 28
  const IV_SIZE := 12

  type Iv = v: Bytes | |v| == IV_SIZE witness [0, 0, 0, 0, 0, 0, 0, 0, 0, 0, 0, 0]

  /** AES-GCM (NIST SP 800-38D): key, IV, plaintext or sealed bytes, additional data. */
  datatype Aead = Aead(seal: (Bytes, Iv, Bytes, Bytes) -> Bytes, open: (Bytes, Iv, Bytes, Bytes) -> Option<Bytes>)

  /** A sealed text is the plaintext and a 16-byte tag, and opening recomputes the tag it compares with. */
  ghost predicate Laws(a: Aead) {
    && (forall key, iv: Iv, text, aad :: |a.seal(key, iv, text, aad)| == |text| + 16)
    && (forall key, iv: Iv, text, sealed, aad ::
          a.open(key, iv, sealed, aad) == Some(text) <==> sealed == a.seal(key, iv, text, aad))
  }

  predicate KeyOk(key: Bytes) {
    |key| == 16 || |key| == 32
  }

  /** What AesGcmEncrypt() gives for a frame: IV, ciphertext, tag. */
  function Frame(a: Aead, key: Bytes, iv: Iv, text: Bytes, index: nat): Bytes {
    iv + a.seal(key, iv, text, Put64(index))
  }

  function OpenFrame(a: Aead, key: Bytes, frame: Bytes, index: nat): Result<Bytes> {
    if !KeyOk(key) then Error("Unsupported AES key size")
    else if |frame| < FRAME_OVERHEAD then Error("Ciphertext too short")
    else
      match a.open(key, frame[..IV_SIZE], frame[IV_SIZE..], Put64(index))
      case None => Error("authentication failed")
      case Some(text) => Ok(text)
  }

  // ---------- header ----------

  datatype Header = Header(chunkSize: nat, plaintextSize: int)

  function MakeHeader(chunkSize: nat, plaintextSize: nat): (h: Bytes)
    ensures |h| == HEADER_SIZE
  {
    MAGIC + Put32(chunkSize) + Put64(plaintextSize)
  }

  /** The cast of an unsigned to a signed 64-bit integer. */
  function ToInt64(v: nat): int {
    if v < 0x8000_0000_0000_0000 then v else v - 0x1_0000_0000_0000_0000
  }

  function ParseHeader(bytes: Bytes): (r: Result<Header>)
    ensures r.Ok? ==> 0 < r.value.chunkSize < 0x1_0000_0000 && HEADER_SIZE <= |bytes|
  {
    if |bytes| < HEADER_SIZE || bytes[..8] != MAGIC then Error("Not an encrypted object")
    else if Get32(bytes, 8) == 0 then Error("Encrypted object has a zero chunk size")
    else Ok(Header(Get32(bytes, 8), ToInt64(Get64(bytes, 12))))
  }

  /** The header byte by byte: "EUCOBJ01", the chunk size in four bytes and the length in eight. */
  lemma HeaderBytes(chunk: nat, size: nat)
    ensures MakeHeader(chunk, size)
         == [0x45, 0x55, 0x43, 0x4f, 0x42, 0x4a, 0x30, 0x31,
             chunk % 0x100, chunk / 0x100 % 0x100, chunk / 0x1_0000 % 0x100, chunk / 0x100_0000 % 0x100]
            + IndexBytes(size)
  {
    hide Put32, Put64;
    PutBytes(chunk);
    PutBytes(size);
  }

  /** What is taken from a header, and when it is refused. A length with its top bit set is a negative one. */
  lemma HeaderMeans(bytes: Bytes)
    ensures ParseHeader(bytes).Ok? <==>
              && 20 <= |bytes| && bytes[..8] == [0x45, 0x55, 0x43, 0x4f, 0x42, 0x4a, 0x30, 0x31]
              && (bytes[8] != 0 || bytes[9] != 0 || bytes[10] != 0 || bytes[11] != 0)
    ensures ParseHeader(bytes).Ok? ==>
              var h := ParseHeader(bytes).value;
              var length := Place(bytes, 12, 1) + Place(bytes, 13, 0x100) + Place(bytes, 14, 0x1_0000)
                            + Place(bytes, 15, 0x100_0000) + Place(bytes, 16, 0x1_0000_0000)
                            + Place(bytes, 17, 0x100_0000_0000) + Place(bytes, 18, 0x1_0000_0000_0000)
                            + Place(bytes, 19, 0x100_0000_0000_0000);
              && h.chunkSize == Place(bytes, 8, 1) + Place(bytes, 9, 0x100) + Place(bytes, 10, 0x1_0000)
                                + Place(bytes, 11, 0x100_0000)
              && h.plaintextSize == if bytes[19] >= 0x80 then length - 0x1_0000_0000_0000_0000 else length
  {
    hide Get32, Get64;
    if 20 <= |bytes| {
      GetBytes(bytes, 8);
      GetBytes(bytes, 12);
    }
  }

  lemma HeaderReadsBack(file: Bytes, chunk: nat, size: nat)
    requires 0 < chunk < 0x1_0000_0000 && size < 0x8000_0000_0000_0000
    requires HEADER_SIZE <= |file| && file[..HEADER_SIZE] == MakeHeader(chunk, size)
    ensures ParseHeader(file) == Ok(Header(chunk, size))
  {
    hide Put32, Put64, Get32, Get64;
    var h := MakeHeader(chunk, size);
    assert file[..8] == h[..8] == MAGIC;
    assert file[8..12] == h[8..12] == Put32(chunk);
    assert file[12..20] == h[12..20] == Put64(size);
    Get32Put32(file, 8, chunk);
    Get64Put64(file, 12, size);
  }

  // ---------- chunks and frames ----------

  function Min(x: int, y: int): int {
    if x <= y then x else y
  }

  function ChunkLengthAt(h: Header, index: nat): int {
    Min(h.chunkSize, h.plaintextSize - index * h.chunkSize)
  }

  function FrameOffsetAt(h: Header, index: nat): nat {
    HEADER_SIZE + index * (h.chunkSize + FRAME_OVERHEAD)
  }

  function FrameCount(size: nat, chunk: nat): nat
    requires chunk > 0
  {
    (size + chunk - 1) / chunk
  }

  /** The chunk of a plaintext that a frame holds. */
  function Chunk(text: Bytes, chunk: nat, i: nat): Bytes {
    if i * chunk <= |text| then text[i * chunk..Min(i * chunk + chunk, |text|)] else []
  }

  /** The first n frames of an object, under a supply of IVs. */
  function Frames(a: Aead, key: Bytes, ivs: nat -> Iv, chunk: nat, text: Bytes, n: nat): Bytes {
    if n == 0 then []
    else Frames(a, key, ivs, chunk, text, n - 1) + Frame(a, key, ivs(n - 1), Chunk(text, chunk, n - 1), n - 1)
  }

  /** The whole object: what Encrypt() makes of a plaintext. */
  function Object(a: Aead, key: Bytes, ivs: nat -> Iv, chunk: nat, text: Bytes): Bytes
    requires chunk > 0
  {
    MakeHeader(chunk, |text|) + Frames(a, key, ivs, chunk, text, FrameCount(|text|, chunk))
  }

  /** The size a whole object file has, from its header. */
  function ExpectedSize(h: Header): int
    requires h.chunkSize > 0
  {
    // plaintextSize + chunk - 1 is divided as C++ divides; for a negative size that is towards zero.
    var top := h.plaintextSize + h.chunkSize - 1;
    var frames := if top >= 0 then top / h.chunkSize else -(-top / h.chunkSize);
    HEADER_SIZE + h.plaintextSize + frames * FRAME_OVERHEAD
  }

  // ---------- arithmetic of the frames ----------

  lemma Next(i: nat, c: nat)
    ensures (i + 1) * c == i * c + c
    ensures i * c >= 0
  {
  }

  lemma MulUp(i: nat, j: nat, c: nat)
    requires i <= j
    ensures i * c <= j * c
    ensures i < j ==> i * c + c <= j * c
  {
    var d := j - i;
    assert j * c == i * c + d * c;
    if d > 0 {
      Next(d - 1, c);
    }
  }

  /** There are as many frames as it takes chunks to hold the text. */
  lemma FrameCountBounds(size: nat, c: nat)
    requires c > 0
    ensures var n := FrameCount(size, c); n * c >= size && (n > 0 ==> (n - 1) * c < size)
    ensures size == 0 ==> FrameCount(size, c) == 0
  {
    var n, x := FrameCount(size, c), size + c - 1;
    assert x == n * c + x % c;
    if n > 0 {
      Next(n - 1, c);
    }
  }

  /** Every frame before the last is full, and the last one holds what is left. */
  lemma ChunkLength(text: Bytes, c: nat, i: nat)
    requires c > 0 && i < FrameCount(|text|, c)
    ensures i * c < |text|
    ensures |Chunk(text, c, i)| == ChunkLengthAt(Header(c, |text|), i) > 0
    ensures i + 1 < FrameCount(|text|, c) ==> |Chunk(text, c, i)| == c
    ensures i * c + |Chunk(text, c, i)| == Min(i * c + c, |text|)
  {
    hide FrameCount;
    var n := FrameCount(|text|, c);
    FrameCountBounds(|text|, c);
    MulUp(i, n - 1, c);
  }

  /** Where a frame of the object lies. */
  lemma {:induction false} FramesLength(a: Aead, key: Bytes, ivs: nat -> Iv, c: nat, text: Bytes, n: nat)
    requires Laws(a) && c > 0 && n <= FrameCount(|text|, c)
    ensures |Frames(a, key, ivs, c, text, n)| == Min(n * c, |text|) + n * FRAME_OVERHEAD
    ensures n < FrameCount(|text|, c) ==>
        HEADER_SIZE + |Frames(a, key, ivs, c, text, n)| == FrameOffsetAt(Header(c, |text|), n)
  {
    hide Chunk, FrameCount, Laws, Frame;
    if n > 0 {
      FramesLength(a, key, ivs, c, text, n - 1);
      FrameLength(a, key, ivs(n - 1), Chunk(text, c, n - 1), n - 1);
      ChunkEnds(text, c, n - 1);
    }
    if n < FrameCount(|text|, c) {
      ChunkEnds(text, c, n);
      OffsetSplits(n, c);
    }
  }

  lemma ChunkEnds(text: Bytes, c: nat, i: nat)
    requires c > 0 && i < FrameCount(|text|, c)
    ensures i * c < |text| && i * c + |Chunk(text, c, i)| == Min((i + 1) * c, |text|)
  {
    hide Chunk, FrameCount;
    ChunkLength(text, c, i);
    Next(i, c);
  }

  lemma OffsetSplits(n: nat, c: nat)
    ensures n * (c + FRAME_OVERHEAD) == n * c + n * FRAME_OVERHEAD
  {
  }

  lemma FrameLength(a: Aead, key: Bytes, iv: Iv, text: Bytes, index: nat)
    requires Laws(a)
    ensures |Frame(a, key, iv, text, index)| == |text| + FRAME_OVERHEAD
  {
  }

  /** A file is as long as its own header says it should be. */
  lemma ObjectSize(a: Aead, key: Bytes, ivs: nat -> Iv, c: nat, text: Bytes)
    requires Laws(a) && 0 < c
    ensures |Object(a, key, ivs, c, text)| == ExpectedSize(Header(c, |text|))
  {
    hide Frames, Laws;
    var n := FrameCount(|text|, c);
    FrameCountBounds(|text|, c);
    FramesLength(a, key, ivs, c, text, n);
  }

  /** Frame i of the whole, in place. */
  lemma {:induction false} FrameInFrames(a: Aead, key: Bytes, ivs: nat -> Iv, c: nat, text: Bytes, n: nat, i: nat)
    requires i < n
    ensures var p := |Frames(a, key, ivs, c, text, i)|; var f := Frame(a, key, ivs(i), Chunk(text, c, i), i);
      p + |f| <= |Frames(a, key, ivs, c, text, n)| && Frames(a, key, ivs, c, text, n)[p..p + |f|] == f
    decreases n
  {
    hide Frame, Chunk;
    if i < n - 1 {
      FrameInFrames(a, key, ivs, c, text, n - 1, i);
    }
  }

  /** The frames of a text depend on no more of it than they hold. */
  lemma {:induction false} FramesOfPrefix(a: Aead, key: Bytes, ivs: nat -> Iv, c: nat, text: Bytes, text': Bytes,
                                          n: nat)
    requires n * c <= |text| && n * c <= |text'| && text[..n * c] == text'[..n * c]
    ensures Frames(a, key, ivs, c, text, n) == Frames(a, key, ivs, c, text', n)
  {
    hide Frame;
    if n > 0 {
      Next(n - 1, c);
      var m := (n - 1) * c;
      assert text[..m] == text[..n * c][..m] && text'[..m] == text'[..n * c][..m];
      FramesOfPrefix(a, key, ivs, c, text, text', n - 1);
      assert text[m..m + c] == text[..n * c][m..] && text'[m..m + c] == text'[..n * c][m..];
    }
  }

  // ---------- reading ----------

  /** Reading the frame that starts at a position. */
  function ReadFrame(a: Aead, key: Bytes, file: Bytes, at: nat, h: Header, index: nat): Result<Bytes> {
    var length := ChunkLengthAt(h, index) + FRAME_OVERHEAD;
    if length < 0 || at + length > |file| then Error("Encrypted object is truncated")
    else OpenFrame(a, key, file[at..at + length], index)
  }

  /** What a frame is authenticated with besides its text: its index in eight bytes, the least significant first. */
  function IndexBytes(i: nat): Bytes {
    [i % 0x100, i / 0x100 % 0x100, i / 0x1_0000 % 0x100, i / 0x100_0000 % 0x100, i / 0x1_0000_0000 % 0x100,
     i / 0x100_0000_0000 % 0x100, i / 0x1_0000_0000_0000 % 0x100, i / 0x100_0000_0000_0000 % 0x100]
  }

  /** Frame i of a file, byte by byte: an IV, and the i-th chunk of a text sealed under it with the index i. */
  ghost predicate Sealed(a: Aead, key: Bytes, file: Bytes, h: Header, text: Bytes, i: nat) {
    var at := 20 + i * (h.chunkSize + 28);
    var from := i * h.chunkSize;
    from <= |text|
    && var chunk := text[from..if from + h.chunkSize <= |text| then from + h.chunkSize else |text|];
       && at + 28 + |chunk| <= |file|
       && file[at + 12..at + 28 + |chunk|] == a.seal(key, file[at..at + 12], chunk, IndexBytes(i))
  }

  /** A frame, as it is made, is its IV and what is sealed with its index. */
  lemma FrameBytes(a: Aead, key: Bytes, iv: Iv, text: Bytes, index: nat)
    ensures Frame(a, key, iv, text, index) == iv + a.seal(key, iv, text, IndexBytes(index))
  {
    hide Put64;
    PutBytes(index);
  }

  /** Sealed, as the frame of its chunk. */
  lemma SealedFrame(a: Aead, key: Bytes, file: Bytes, h: Header, text: Bytes, i: nat)
    requires Laws(a) && i * h.chunkSize <= |text|
    ensures var at, chunk := FrameOffsetAt(h, i), Chunk(text, h.chunkSize, i);
            Sealed(a, key, file, h, text, i)
            <==> at + |chunk| + FRAME_OVERHEAD <= |file|
                 && file[at..at + |chunk| + FRAME_OVERHEAD] == Frame(a, key, file[at..at + IV_SIZE], chunk, i)
  {
    hide Laws, Frame, IndexBytes, Sealed;
    var at, chunk := FrameOffsetAt(h, i), Chunk(text, h.chunkSize, i);
    SealedChunk(a, key, file, h, text, i);
    if at + |chunk| + FRAME_OVERHEAD <= |file| {
      var iv: Iv := file[at..at + IV_SIZE];
      var sealed := a.seal(key, iv, chunk, IndexBytes(i));
      FrameBytes(a, key, iv, chunk, i);
      FrameLength(a, key, iv, chunk, i);
      BehindIv(file, at, iv, sealed);
    }
  }

  lemma SealedChunk(a: Aead, key: Bytes, file: Bytes, h: Header, text: Bytes, i: nat)
    requires i * h.chunkSize <= |text|
    ensures var at, chunk := FrameOffsetAt(h, i), Chunk(text, h.chunkSize, i);
            Sealed(a, key, file, h, text, i)
            <==> at + |chunk| + FRAME_OVERHEAD <= |file|
                 && file[at + 12..at + 28 + |chunk|] == a.seal(key, file[at..at + 12], chunk, IndexBytes(i))
  {
    hide IndexBytes;
  }

  lemma BehindIv(file: Bytes, at: nat, iv: Bytes, s: Bytes)
    requires at + |iv| + |s| <= |file| && file[at..at + |iv|] == iv
    ensures file[at..at + |iv| + |s|] == iv + s <==> file[at + |iv|..at + |iv| + |s|] == s
  {
    var whole, rest := file[at..at + |iv| + |s|], file[at + |iv|..at + |iv| + |s|];
    assert whole == iv + rest;
    assert whole[|iv|..] == rest && (iv + s)[|iv|..] == s;
  }

  /** Opening a frame gives a text exactly when the frame is that text, sealed at that index. */
  lemma OpensExactly(a: Aead, key: Bytes, frame: Bytes, index: nat, text: Bytes)
    requires Laws(a) && KeyOk(key)
    ensures OpenFrame(a, key, frame, index) == Ok(text)
       <==> |frame| >= IV_SIZE && frame == Frame(a, key, frame[..IV_SIZE], text, index)
  {
    hide Laws, Put64;
    if |frame| >= IV_SIZE {
      var iv: Iv, sealed := frame[..IV_SIZE], frame[IV_SIZE..];
      FrameLength(a, key, iv, text, index);
      OpenLaw(a, key, iv, text, sealed, Put64(index));
      assert frame == iv + sealed;
      assert Frame(a, key, iv, text, index)[IV_SIZE..] == a.seal(key, iv, text, Put64(index));
    }
  }

  lemma OpenLaw(a: Aead, key: Bytes, iv: Iv, text: Bytes, sealed: Bytes, aad: Bytes)
    requires Laws(a)
    ensures a.open(key, iv, sealed, aad) == Some(text) <==> sealed == a.seal(key, iv, text, aad)
  {
  }

  lemma OpenedLength(a: Aead, key: Bytes, frame: Bytes, index: nat)
    requires Laws(a) && OpenFrame(a, key, frame, index).Ok?
    ensures |OpenFrame(a, key, frame, index).value| + FRAME_OVERHEAD == |frame|
  {
    var text := OpenFrame(a, key, frame, index).value;
    OpensExactly(a, key, frame, index, text);
    FrameLength(a, key, frame[..IV_SIZE], text, index);
  }

  /** The plaintext of the frames from an index on, read one behind the other. */
  function DecryptFrom(a: Aead, key: Bytes, file: Bytes, h: Header, index: nat, sofar: Bytes): Result<Bytes>
    requires Laws(a) && h.chunkSize > 0
    requires |sofar| >= h.plaintextSize || |sofar| == index * h.chunkSize
    decreases h.plaintextSize - |sofar|
  {
    if |sofar| >= h.plaintextSize then Ok(sofar)
    else
      match ReadFrame(a, key, file, FrameOffsetAt(h, index), h, index)
      case Error(e) => Error(e)
      case Ok(text) =>
        ReadLength(a, key, file, FrameOffsetAt(h, index), h, index);
        Next(index, h.chunkSize);
        DecryptFrom(a, key, file, h, index + 1, sofar + text)
  }

  lemma ReadLength(a: Aead, key: Bytes, file: Bytes, at: nat, h: Header, index: nat)
    requires Laws(a) && ReadFrame(a, key, file, at, h, index).Ok?
    ensures |ReadFrame(a, key, file, at, h, index).value| == ChunkLengthAt(h, index)
  {
    hide Laws, OpenFrame;
    OpenedLength(a, key, file[at..at + ChunkLengthAt(h, index) + FRAME_OVERHEAD], index);
  }

  /** What reading a file frame by frame delivers; a negative length delivers nothing. */
  function StreamedText(a: Aead, key: Bytes, file: Bytes): Result<Bytes>
    requires Laws(a)
  {
    match ParseHeader(file)
    case Error(e) => Error(e)
    case Ok(h) => DecryptFrom(a, key, file, h, 0, [])
  }

  /** The same from memory, where room for the whole length is reserved first and a negative one refused. */
  function Decrypt(a: Aead, key: Bytes, file: Bytes): Result<Bytes>
    requires Laws(a)
  {
    match ParseHeader(file)
    case Error(e) => Error(e)
    case Ok(h) => if h.plaintextSize < 0 then Error("length") else DecryptFrom(a, key, file, h, 0, [])
  }

  /** A file holds a text: its header gives the length, and its frames are the sealed chunks in order. */
  ghost predicate Contains(a: Aead, key: Bytes, file: Bytes, h: Header, text: Bytes)
    requires h.chunkSize > 0
  {
    && |text| == h.plaintextSize
    && forall i :: 0 <= i < FrameCount(|text|, h.chunkSize) ==> Sealed(a, key, file, h, text, i)
  }

  lemma ReadsExactly(a: Aead, key: Bytes, file: Bytes, h: Header, text: Bytes, i: nat)
    requires Laws(a) && KeyOk(key) && h.chunkSize > 0 && |text| == h.plaintextSize
    requires i < FrameCount(|text|, h.chunkSize)
    ensures ReadFrame(a, key, file, FrameOffsetAt(h, i), h, i) == Ok(Chunk(text, h.chunkSize, i))
       <==> Sealed(a, key, file, h, text, i)
  {
    hide Laws, Frame, OpenFrame, FrameCount, Chunk;
    var at, chunk := FrameOffsetAt(h, i), Chunk(text, h.chunkSize, i);
    ChunkLength(text, h.chunkSize, i);
    SealedFrame(a, key, file, h, text, i);
    hide Sealed;
    if at + |chunk| + FRAME_OVERHEAD <= |file| {
      var frame := file[at..at + |chunk| + FRAME_OVERHEAD];
      assert frame[..IV_SIZE] == file[at..at + IV_SIZE];
      OpensExactly(a, key, frame, i, chunk);
    }
  }

  /** The walk over the frames of a file that holds a text rebuilds it. */
  lemma {:induction false} WalkRebuilds(a: Aead, key: Bytes, file: Bytes, h: Header, text: Bytes, i: nat)
    requires Laws(a) && KeyOk(key) && h.chunkSize > 0 && Contains(a, key, file, h, text)
    requires i <= FrameCount(|text|, h.chunkSize)
    ensures var done := text[..Min(i * h.chunkSize, |text|)];
      (|done| >= h.plaintextSize || |done| == i * h.chunkSize) && DecryptFrom(a, key, file, h, i, done) == Ok(text)
    decreases FrameCount(|text|, h.chunkSize) - i
  {
    hide Laws, FrameCount, Sealed, ReadFrame;
    var c := h.chunkSize;
    FrameCountBounds(|text|, c);
    var done := text[..Min(i * c, |text|)];
    if i == FrameCount(|text|, c) {
      assert done == text;
    } else {
      ChunkEnds(text, c, i);
      ReadsExactly(a, key, file, h, text, i);
      assert done + Chunk(text, c, i) == text[..Min((i + 1) * c, |text|)];
      WalkRebuilds(a, key, file, h, text, i + 1);
    }
  }

  /** What a successful walk has read is what the file holds. */
  lemma {:induction false} WalkIsHonest(a: Aead, key: Bytes, file: Bytes, h: Header, i: nat, sofar: Bytes, text: Bytes)
    requires Laws(a) && KeyOk(key) && h.chunkSize > 0 && h.plaintextSize >= 0
    requires |sofar| == Min(i * h.chunkSize, h.plaintextSize)
    requires DecryptFrom(a, key, file, h, i, sofar) == Ok(text)
    ensures |text| == h.plaintextSize && sofar <= text
    ensures forall j :: i <= j < FrameCount(|text|, h.chunkSize) ==> Sealed(a, key, file, h, text, j)
    decreases h.plaintextSize - |sofar|
  {
    hide Laws, FrameCount, Sealed, ReadFrame;
    var c, n := h.chunkSize, FrameCount(|text|, h.chunkSize);
    FrameCountBounds(|text|, c);
    if |sofar| >= h.plaintextSize {
      if i < n {
        MulUp(i, n - 1, c);
      }
    } else {
      var chunk := ReadFrame(a, key, file, FrameOffsetAt(h, i), h, i).value;
      ReadLength(a, key, file, FrameOffsetAt(h, i), h, i);
      Next(i, c);
      WalkIsHonest(a, key, file, h, i + 1, sofar + chunk, text);
      assert chunk == (sofar + chunk)[i * c..] == text[i * c..i * c + |chunk|];
      assert chunk == Chunk(text, c, i);
      if i < n {
        ReadsExactly(a, key, file, h, text, i);
      }
    }
  }

  /**
   * Decrypt() accepts exactly the files whose frames are the sealed chunks of a text, each at its own index,
   * for the whole length the header records: nothing cut off, reordered or exchanged.
   */
  lemma DecryptAcceptsExactly(a: Aead, key: Bytes, file: Bytes, text: Bytes)
    requires Laws(a) && KeyOk(key) && ParseHeader(file).Ok?
    ensures Decrypt(a, key, file) == Ok(text) <==> Contains(a, key, file, ParseHeader(file).value, text)
  {
    hide Laws, FrameCount, Sealed, ReadFrame, ParseHeader, DecryptFrom;
    var h := ParseHeader(file).value;
    if Contains(a, key, file, h, text) {
      WalkRebuilds(a, key, file, h, text, 0);
      assert text[..0] == [];
    }
    if Decrypt(a, key, file) == Ok(text) {
      WalkIsHonest(a, key, file, h, 0, [], text);
    }
  }

  /** What else Decrypt() refuses, and that reading in pieces differs from it only where the length is negative. */
  lemma DecryptRefuses(a: Aead, key: Bytes, file: Bytes)
    requires Laws(a)
    ensures ParseHeader(file).Error? ==> Decrypt(a, key, file).Error? && StreamedText(a, key, file).Error?
    ensures ParseHeader(file).Ok? ==>
              var size := ParseHeader(file).value.plaintextSize;
              && (size < 0 ==> Decrypt(a, key, file).Error? && StreamedText(a, key, file) == Ok([]))
              && (size == 0 ==> Decrypt(a, key, file) == StreamedText(a, key, file) == Ok([]))
              && (size > 0 && |key| != 16 && |key| != 32 ==> Decrypt(a, key, file).Error?)
              && (size > 0 ==> StreamedText(a, key, file) == Decrypt(a, key, file))
  {
    hide Laws, ParseHeader;
  }

  /** The frames of an object are the sealed chunks of its text, also in any file that agrees there. */
  lemma ObjectSealed(a: Aead, key: Bytes, ivs: nat -> Iv, c: nat, text: Bytes, file: Bytes, i: nat)
    requires Laws(a) && 0 < c && i < FrameCount(|text|, c)
    requires var h := Header(c, |text|); var whole := Object(a, key, ivs, c, text);
      var at, end := FrameOffsetAt(h, i), FrameOffsetAt(h, i) + ChunkLengthAt(h, i) + FRAME_OVERHEAD;
      at <= end <= |file| && end <= |whole| ==> file[at..end] == whole[at..end]
    requires FrameOffsetAt(Header(c, |text|), i) + ChunkLengthAt(Header(c, |text|), i) + FRAME_OVERHEAD <= |file|
    ensures Sealed(a, key, file, Header(c, |text|), text, i)
    ensures file[20 + i * (c + 28)..20 + i * (c + 28) + 12] == ivs(i)
  {
    hide Laws, FrameCount, Frame, Frames, Chunk, Sealed;
    var n, h, whole := FrameCount(|text|, c), Header(c, |text|), Object(a, key, ivs, c, text);
    var frames, at := Frames(a, key, ivs, c, text, n), FrameOffsetAt(h, i);
    var frame, chunk := Frame(a, key, ivs(i), Chunk(text, c, i), i), Chunk(text, c, i);
    ChunkLength(text, c, i);
    FramesLength(a, key, ivs, c, text, i);
    FrameInFrames(a, key, ivs, c, text, n, i);
    FrameLength(a, key, ivs(i), chunk, i);
    var p := |Frames(a, key, ivs, c, text, i)|;
    assert whole[at..at + |frame|] == frames[p..p + |frame|] == frame;
    FrameIv(a, key, ivs(i), chunk, i);
    assert file[at..at + IV_SIZE] == file[at..at + |frame|][..IV_SIZE] == ivs(i);
    SealedFrame(a, key, file, h, text, i);
  }

  /** An encrypted object byte by byte: its header, then every chunk sealed at its own index under its own IV. */
  lemma ObjectBytes(a: Aead, key: Bytes, ivs: nat -> Iv, c: nat, text: Bytes, i: nat)
    requires Laws(a) && 0 < c && i * c < |text|
    ensures var file, at := Object(a, key, ivs, c, text), 20 + i * (c + 28);
            && 20 <= |file| && file[..20] == MakeHeader(c, |text|)
            && Sealed(a, key, file, Header(c, |text|), text, i) && file[at..at + 12] == ivs(i)
  {
    hide Laws, Frames, MakeHeader, Sealed, FrameCount;
    var file := Object(a, key, ivs, c, text);
    FrameCountBounds(|text|, c);
    if FrameCount(|text|, c) <= i {
      MulUp(FrameCount(|text|, c), i, c);
    }
    FrameWithin(a, key, ivs, c, text, i);
    ObjectSealed(a, key, ivs, c, text, file, i);
  }

  lemma FrameIv(a: Aead, key: Bytes, iv: Iv, text: Bytes, index: nat)
    ensures |Frame(a, key, iv, text, index)| >= IV_SIZE && Frame(a, key, iv, text, index)[..IV_SIZE] == iv
  {
  }

  /** Decrypting undoes encrypting. For the empty object no key is used. */
  lemma DecryptUndoesEncrypt(a: Aead, key: Bytes, ivs: nat -> Iv, c: nat, text: Bytes)
    requires Laws(a) && (KeyOk(key) || text == []) && 0 < c < 0x1_0000_0000 && |text| < 0x8000_0000_0000_0000
    ensures var file := Object(a, key, ivs, c, text);
            Decrypt(a, key, file) == StreamedText(a, key, file) == Ok(text)
  {
    hide Laws, FrameCount, Frames, ParseHeader, Sealed;
    var whole, h := Object(a, key, ivs, c, text), Header(c, |text|);
    HeaderReadsBack(whole, c, |text|);
    if text == [] {
      return;
    }
    hide DecryptFrom;
    forall i | 0 <= i < FrameCount(|text|, c) ensures Sealed(a, key, whole, h, text, i) {
      FrameWithin(a, key, ivs, c, text, i);
      ObjectSealed(a, key, ivs, c, text, whole, i);
    }
    DecryptAcceptsExactly(a, key, whole, text);
  }

  lemma FrameWithin(a: Aead, key: Bytes, ivs: nat -> Iv, c: nat, text: Bytes, i: nat)
    requires Laws(a) && 0 < c && i < FrameCount(|text|, c)
    ensures var h := Header(c, |text|);
      FrameOffsetAt(h, i) + ChunkLengthAt(h, i) + FRAME_OVERHEAD <= |Object(a, key, ivs, c, text)|
  {
    hide Laws, FrameCount, Frame, Frames, Chunk;
    ChunkLength(text, c, i);
    FramesLength(a, key, ivs, c, text, i);
    FrameInFrames(a, key, ivs, c, text, FrameCount(|text|, c), i);
    FrameLength(a, key, ivs(i), Chunk(text, c, i), i);
  }
}
