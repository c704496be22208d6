/**
  Decompression of "oZlB" archives (ObjectFileDB.cpp, get_objs_from_dgo, lines
  79-128). After the four magic bytes comes the size of the decompressed
  archive, then a run of chunks. Each chunk is a 32-bit size word, possibly
  preceded by zero words that are skipped, followed by its body:
    - a size below MAX_CHUNK_SIZE: that many bytes of LZO1X-compressed data;
    - any larger size: exactly MAX_CHUNK_SIZE bytes stored as they are.
  Output is appended until it reaches the declared size. Between chunks the
  input cursor is moved up to a multiple of four.
  The LZO1X decoder itself is not part of this model: it is a parameter.
 */
module Decompress {
  import opened Bytes
  import opened Reader

  const MAX_CHUNK_SIZE: nat := 0x8000

  /** "oZlB" */
  const JAK2_HEADER: seq<byte> := [0x6f, 0x5a, 0x6c, 0x42]

  /** An archive is compressed when it starts with the magic bytes. */
  predicate IsJak2(data: seq<byte>)
  {
    |data| >= 4 && data[..4] == JAK2_HEADER
  }

  /** What lzo1x_decompress reports: whether it succeeded, and the bytes it wrote. */
  datatype LzoResult = LzoResult(ok: bool, output: seq<byte>)

  type LzoDecoder = seq<byte> -> LzoResult

  /** A chunk's size word and the position of the body that follows it. */
  datatype ChunkStart = ChunkStart(size: u32, body: nat)

  /** Where one step of the loop leaves the input cursor and the output. */
  datatype Progress = Progress(pos: nat, out: seq<byte>)

  /**
    The inner `while (!chunk_size)` loop: read words from `pos` until one is
    non-zero. Running out of input is an error.
   */
  function NextChunk(input: seq<byte>, pos: nat): (r: Result<ChunkStart>)
    ensures r.Ok? ==> pos + 4 <= r.value.body <= |input|
    decreases |input| - pos
  {
    if pos + 4 > |input| then Err(OutOfBounds)
    else if U32At(input, pos) != 0 then Ok(ChunkStart(U32At(input, pos), pos + 4))
    else NextChunk(input, pos + 4)
  }

  /** One chunk's body (lines 105-119): LZO-decode it, or copy MAX_CHUNK_SIZE bytes as they are. */
  function ChunkBody(input: seq<byte>, c: ChunkStart, out: seq<byte>, size: nat, lzo: LzoDecoder): (r: Result<Progress>)
    requires |out| <= size
    ensures r.Ok? ==> c.body <= r.value.pos <= |input|
    ensures r.Ok? ==> |out| <= |r.value.out| <= size
  {
    if c.size < MAX_CHUNK_SIZE then
      if c.body + c.size > |input| then Err(OutOfBounds)
      else
        var res := lzo(input[c.body..c.body + c.size]);
        if !res.ok then Err(DecompressionError)
        else if |out| + |res.output| > size then Err(OutputOverflow)
        else Ok(Progress(c.body + c.size, out + res.output))
    else if c.body + MAX_CHUNK_SIZE > |input| then Err(OutOfBounds)
    else if |out| + MAX_CHUNK_SIZE > size then Err(OutputOverflow)
    else Ok(Progress(c.body + MAX_CHUNK_SIZE, out + input[c.body..c.body + MAX_CHUNK_SIZE]))
  }

  /** One chunk (lines 100-119): find its size word, then decode or copy its body. */
  function ChunkStep(input: seq<byte>, pos: nat, out: seq<byte>, size: nat, lzo: LzoDecoder): (r: Result<Progress>)
    requires |out| <= size
    ensures r.Ok? ==> pos + 4 <= r.value.pos <= |input|
    ensures r.Ok? ==> |out| <= |r.value.out| <= size
  {
    var c :- NextChunk(input, pos);
    ChunkBody(input, c, out, size, lzo)
  }

  /** A multiple of four. */
  predicate Aligned(n: int)
  {
    n % 4 == 0
  }

  /** The smallest multiple of four at or above `p`. */
  function AlignUp4(p: nat): (r: nat)
    ensures Aligned(r) && p <= r < p + 4
  {
    (p + 3) / 4 * 4
  }

  /**
    The outer `while (true)` loop from input position `pos`, with `out`
    decompressed so far: at least one chunk, stopping once the output reaches
    `size` bytes, aligning the cursor before every further chunk.
   */
  function Inflate(input: seq<byte>, pos: nat, out: seq<byte>, size: nat, lzo: LzoDecoder): (r: Result<seq<byte>>)
    requires |out| <= size
    ensures r.Ok? ==> |r.value| == size
    decreases |input| - pos
  {
    var p :- ChunkStep(input, pos, out, size, lzo);
    if |p.out| >= size then Ok(p.out)
    else if AlignUp4(p.pos) > |input| then Err(OutOfBounds)
    else Inflate(input, AlignUp4(p.pos), p.out, size, lzo)
  }

  /** The decompressed archive: the declared size at offset 4, the chunks from offset 8. */
  function Decompressed(data: seq<byte>, lzo: LzoDecoder): (r: Result<seq<byte>>)
    requires IsJak2(data)
    ensures r.Ok? ==> |data| >= 8 && |r.value| == U32At(data, 4)
  {
    if |data| < 8 then Err(OutOfBounds) else Inflate(data, 8, [], U32At(data, 4), lzo)
  }

  /** The archive bytes the container parser sees: decompressed when compressed, else as read. */
  function ArchiveBytes(data: seq<byte>, lzo: LzoDecoder): (r: Result<seq<byte>>)
    ensures !IsJak2(data) ==> r == Ok(data)
    ensures IsJak2(data) ==> r == Decompressed(data, lzo)
  {
    if IsJak2(data) then Decompressed(data, lzo) else Ok(data)
  }

  /** How many body bytes follow a size word: the size itself, or MAX_CHUNK_SIZE for a stored chunk. */
  function BodyLength(size: u32): nat
  {
    if size < MAX_CHUNK_SIZE then size else MAX_CHUNK_SIZE
  }

  /**
    How a compressor lays out one chunk: `padding` zero words, the size word,
    the body, then zero bytes up to a multiple of four. A size word below
    MAX_CHUNK_SIZE announces that many bytes of LZO1X code; any larger one
    announces MAX_CHUNK_SIZE bytes stored as they are.
   */
  datatype Chunk = Chunk(padding: nat, size: u32, body: seq<byte>)

  /** A chunk whose size word is read back as announcing its body. */
  predicate Encodable(c: Chunk)
  {
    c.size != 0 && |c.body| == BodyLength(c.size)
  }

  /** A chunk the decoder accepts and that adds at least one byte of output. */
  predicate WellFormedChunk(c: Chunk, lzo: LzoDecoder)
  {
    Encodable(c) && (c.size < MAX_CHUNK_SIZE ==> lzo(c.body).ok && |lzo(c.body).output| > 0)
  }

  predicate WellFormedChunks(cs: seq<Chunk>, lzo: LzoDecoder)
  {
    forall i :: 0 <= i < |cs| ==> WellFormedChunk(cs[i], lzo)
  }

  /** The output a chunk stands for. */
  function Piece(c: Chunk, lzo: LzoDecoder): seq<byte>
  {
    if c.size < MAX_CHUNK_SIZE then lzo(c.body).output else c.body
  }

  /** Bytes an encoded chunk occupies: padding, size word, body rounded up to four. */
  function EncodedLength(c: Chunk): (n: nat)
    ensures Aligned(n)
  {
    4 * c.padding + 4 + AlignUp4(|c.body|)
  }

  function EncodeChunk(c: Chunk): (r: seq<byte>)
    ensures |r| == EncodedLength(c)
  {
    Zeros(4 * c.padding) + U32Bytes(c.size) + c.body + Zeros(AlignUp4(|c.body|) - |c.body|)
  }

  function EncodeChunks(cs: seq<Chunk>): seq<byte>
  {
    if |cs| == 0 then [] else EncodeChunk(cs[0]) + EncodeChunks(cs[1..])
  }

  function Pieces(cs: seq<Chunk>, lzo: LzoDecoder): seq<byte>
  {
    if |cs| == 0 then [] else Piece(cs[0], lzo) + Pieces(cs[1..], lzo)
  }

  /** A compressed archive holding the chunks `cs`. */
  function Compress(cs: seq<Chunk>, lzo: LzoDecoder): (r: seq<byte>)
    requires WellFormedChunks(cs, lzo) && |Pieces(cs, lzo)| < 0x1_0000_0000
    ensures IsJak2(r) && |r| >= 8 && U32At(r, 4) == |Pieces(cs, lzo)|
  {
    var r := JAK2_HEADER + U32Bytes(|Pieces(cs, lzo)|) + EncodeChunks(cs);
    U32RoundTrip(JAK2_HEADER, |Pieces(cs, lzo)|, EncodeChunks(cs));
    r
  }

  /** Decompressing a well-formed archive gives back the concatenated output of its chunks. */
  lemma CompressRoundTrip(cs: seq<Chunk>, lzo: LzoDecoder)
    requires |cs| > 0 && WellFormedChunks(cs, lzo) && |Pieces(cs, lzo)| < 0x1_0000_0000
    ensures Decompressed(Compress(cs, lzo), lzo) == Ok(Pieces(cs, lzo))
  {
    var archive := Compress(cs, lzo);
    ArchiveLayout(cs, lzo);
    InflateChunks(archive, 8, cs, [], |Pieces(cs, lzo)|, lzo);
    assert [] + Pieces(cs, lzo) == Pieces(cs, lzo);
  }

  /** The chunks of a compressed archive are laid out from offset 8. */
  lemma SuffixOfAppend(a: seq<byte>, b: seq<byte>)
    ensures (a + b)[|a|..|a| + |b|] == b
  {
  }

  lemma ArchiveLayout(cs: seq<Chunk>, lzo: LzoDecoder)
    requires WellFormedChunks(cs, lzo) && |Pieces(cs, lzo)| < 0x1_0000_0000
    ensures ChunksAt(Compress(cs, lzo), 8, cs)
  {
    var archive := Compress(cs, lzo);
    var e := EncodeChunks(cs);
    var h := JAK2_HEADER + U32Bytes(|Pieces(cs, lzo)|);
    assert archive == h + e && |h| == 8;
    SuffixOfAppend(h, e);
    SliceBytesAt(archive, 8, e);
    EncodedChunksLaidOut(archive, 8, cs);
  }

  /** `words` zero words from `pos`. */
  predicate ZeroWordsAt(input: seq<byte>, pos: nat, words: nat)
    decreases words
  {
    pos + 4 * words <= |input| && (words == 0 || (U32At(input, pos) == 0 && ZeroWordsAt(input, pos + 4, words - 1)))
  }

  /** Zero bytes filling whole words are zero words. */
  lemma {:induction false} ZeroBytesAreZeroWords(input: seq<byte>, pos: nat, words: nat)
    requires BytesAt(input, pos, Zeros(4 * words))
    ensures ZeroWordsAt(input, pos, words)
    decreases words
  {
    if words > 0 {
      assert Zeros(4 * words) == [0, 0, 0, 0] + Zeros(4 * (words - 1)) by {
        ZerosSplit(4, 4 * (words - 1));
      }
      BytesAtSplit(input, pos, [0, 0, 0, 0], Zeros(4 * (words - 1)));
      BytesAtSlice(input, pos, [0, 0, 0, 0]);
      U32ZeroIffZeroBytes(input, pos);
      ZeroBytesAreZeroWords(input, pos + 4, words - 1);
    }
  }

  lemma {:induction false} ZerosSplit(m: nat, n: nat)
    ensures Zeros(m + n) == Zeros(m) + Zeros(n)
    decreases m
  {
    if m > 0 {
      ZerosSplit(m - 1, n);
      assert Zeros(m + n) == [0] + Zeros(m - 1 + n);
    }
  }

  /**
    The chunk `c` is laid out in `input` from `pos`: its padding words, its
    size word, its body, all within the input.
   */
  predicate ChunkAt(input: seq<byte>, pos: nat, c: Chunk)
  {
    && Encodable(c)
    && pos + EncodedLength(c) <= |input|
    && ZeroWordsAt(input, pos, c.padding)
    && U32At(input, pos + 4 * c.padding) == c.size
    && BytesAt(input, pos + 4 * c.padding + 4, c.body)
  }

  /** An encoded chunk is laid out where it is stored. */
  lemma LaidOut(input: seq<byte>, pos: nat, c: Chunk)
    requires Encodable(c) && BytesAt(input, pos, EncodeChunk(c))
    ensures ChunkAt(input, pos, c)
  {
    var z, body := Zeros(4 * c.padding), c.body;
    var w := U32Bytes(c.size);
    assert EncodeChunk(c) == ((z + w) + body) + Zeros(AlignUp4(|body|) - |body|);
    BytesAtSplit(input, pos, (z + w) + body, Zeros(AlignUp4(|body|) - |body|));
    BytesAtSplit(input, pos, z + w, body);
    BytesAtSplit(input, pos, z, w);
    ZeroBytesAreZeroWords(input, pos, c.padding);
    BytesAtSlice(input, pos + |z|, w);
    U32FromBytes(input, pos + |z|, c.size);
  }

  /** The chunks `cs` are laid out in `input` one after another from `pos`. */
  predicate ChunksAt(input: seq<byte>, pos: nat, cs: seq<Chunk>)
    decreases |cs|
  {
    |cs| == 0 || (ChunkAt(input, pos, cs[0]) && ChunksAt(input, pos + EncodedLength(cs[0]), cs[1..]))
  }

  /** Encoded chunks stored one after another are laid out one after another. */
  lemma {:induction false} EncodedChunksLaidOut(input: seq<byte>, pos: nat, cs: seq<Chunk>)
    requires forall i :: 0 <= i < |cs| ==> Encodable(cs[i])
    requires BytesAt(input, pos, EncodeChunks(cs))
    ensures ChunksAt(input, pos, cs)
    decreases |cs|
  {
    if |cs| > 0 {
      assert EncodeChunks(cs) == EncodeChunk(cs[0]) + EncodeChunks(cs[1..]);
      BytesAtSplit(input, pos, EncodeChunk(cs[0]), EncodeChunks(cs[1..]));
      LaidOut(input, pos, cs[0]);
      EncodedChunksLaidOut(input, pos + EncodedLength(cs[0]), cs[1..]);
    }
  }

  /** Inflating laid-out, well-formed chunks yields their pieces, one after another. */
  lemma {:induction false} InflateChunks(input: seq<byte>, pos: nat, cs: seq<Chunk>, out: seq<byte>, size: nat, lzo: LzoDecoder)
    requires Aligned(pos) && |cs| > 0 && WellFormedChunks(cs, lzo) && ChunksAt(input, pos, cs)
    requires |out| + |Pieces(cs, lzo)| == size
    ensures Inflate(input, pos, out, size, lzo) == Ok(out + Pieces(cs, lzo))
    decreases |cs|
  {
    if |cs| == 1 {
      InflateOneChunk(input, pos, cs, out, size, lzo);
    } else {
      RestOfChunks(input, pos, cs, out, size, lzo);
      InflateChunks(input, pos + EncodedLength(cs[0]), cs[1..], out + Piece(cs[0], lzo), size, lzo);
      FirstChunkFits(input, pos, cs, out, size, lzo);
      InflateFirstChunk(input, pos, cs[0], out, size, lzo, out + Pieces(cs, lzo));
    }
  }

  /** The chunks after the first satisfy what InflateChunks asks of them. */
  lemma RestOfChunks(input: seq<byte>, pos: nat, cs: seq<Chunk>, out: seq<byte>, size: nat, lzo: LzoDecoder)
    requires Aligned(pos) && |cs| > 1 && WellFormedChunks(cs, lzo) && ChunksAt(input, pos, cs)
    requires |out| + |Pieces(cs, lzo)| == size
    ensures Aligned(pos + EncodedLength(cs[0])) && |cs[1..]| > 0
    ensures WellFormedChunks(cs[1..], lzo) && ChunksAt(input, pos + EncodedLength(cs[0]), cs[1..])
    ensures |out + Piece(cs[0], lzo)| + |Pieces(cs[1..], lzo)| == size
  {
    ChunksTail(input, pos, cs, lzo);
    PiecesCons(cs, out, lzo);
  }

  /** The last chunk. */
  lemma InflateOneChunk(input: seq<byte>, pos: nat, cs: seq<Chunk>, out: seq<byte>, size: nat, lzo: LzoDecoder)
    requires Aligned(pos) && |cs| == 1 && WellFormedChunks(cs, lzo) && ChunksAt(input, pos, cs)
    requires |out| + |Pieces(cs, lzo)| == size
    ensures Inflate(input, pos, out, size, lzo) == Ok(out + Pieces(cs, lzo))
  {
    LastChunkFits(input, pos, cs, out, size, lzo);
    InflateOverLastChunk(input, pos, cs[0], out, size, lzo);
  }

  lemma LastChunkFits(input: seq<byte>, pos: nat, cs: seq<Chunk>, out: seq<byte>, size: nat, lzo: LzoDecoder)
    requires Aligned(pos) && |cs| == 1 && WellFormedChunks(cs, lzo) && ChunksAt(input, pos, cs)
    requires |out| + |Pieces(cs, lzo)| == size
    ensures WellFormedChunk(cs[0], lzo) && ChunkAt(input, pos, cs[0])
    ensures |out| + |Piece(cs[0], lzo)| == size
    ensures out + Pieces(cs, lzo) == out + Piece(cs[0], lzo)
  {
    ChunksTail(input, pos, cs, lzo);
    PiecesCons(cs, out, lzo);
  }

  /** The first of several chunks, given what the others inflate to. */
  lemma InflateFirstChunk(input: seq<byte>, pos: nat, c: Chunk, out: seq<byte>, size: nat, lzo: LzoDecoder, whole: seq<byte>)
    requires Aligned(pos) && WellFormedChunk(c, lzo) && ChunkAt(input, pos, c)
    requires |out| + |Piece(c, lzo)| < size && pos + EncodedLength(c) <= |input|
    requires Inflate(input, pos + EncodedLength(c), out + Piece(c, lzo), size, lzo) == Ok(whole)
    ensures Inflate(input, pos, out, size, lzo) == Ok(whole)
  {
    InflateOverChunk(input, pos, c, out, size, lzo);
  }

  lemma FirstChunkFits(input: seq<byte>, pos: nat, cs: seq<Chunk>, out: seq<byte>, size: nat, lzo: LzoDecoder)
    requires Aligned(pos) && |cs| > 1 && WellFormedChunks(cs, lzo) && ChunksAt(input, pos, cs)
    requires |out| + |Pieces(cs, lzo)| == size
    ensures WellFormedChunk(cs[0], lzo) && ChunkAt(input, pos, cs[0])
    ensures |out| + |Piece(cs[0], lzo)| < size && pos + EncodedLength(cs[0]) <= |input|
    ensures out + Pieces(cs, lzo) == (out + Piece(cs[0], lzo)) + Pieces(cs[1..], lzo)
  {
    ChunksTail(input, pos, cs, lzo);
    ChunksTail(input, pos + EncodedLength(cs[0]), cs[1..], lzo);
    PiecesCons(cs, out, lzo);
    assert cs[1..][0] == cs[1];
  }

  /** Appending the pieces of `cs` is appending the first piece, then the others. */
  lemma PiecesCons(cs: seq<Chunk>, out: seq<byte>, lzo: LzoDecoder)
    requires |cs| > 0
    ensures out + Pieces(cs, lzo) == (out + Piece(cs[0], lzo)) + Pieces(cs[1..], lzo)
    ensures |cs| == 1 ==> out + Pieces(cs, lzo) == out + Piece(cs[0], lzo)
    ensures |cs| > 1 ==> |Pieces(cs[1..], lzo)| >= |Piece(cs[1], lzo)|
  {
    ConcatAssoc(out, Piece(cs[0], lzo), Pieces(cs[1..], lzo));
    if |cs| == 1 {
      assert Pieces(cs[1..], lzo) == [];
    } else {
      assert cs[1..][0] == cs[1];
    }
  }

  /** The first of several laid-out chunks, and the rest after it. */
  lemma ChunksTail(input: seq<byte>, pos: nat, cs: seq<Chunk>, lzo: LzoDecoder)
    requires Aligned(pos) && |cs| > 0 && WellFormedChunks(cs, lzo) && ChunksAt(input, pos, cs)
    ensures WellFormedChunk(cs[0], lzo) && ChunkAt(input, pos, cs[0])
    ensures Aligned(pos + EncodedLength(cs[0]))
    ensures WellFormedChunks(cs[1..], lzo) && ChunksAt(input, pos + EncodedLength(cs[0]), cs[1..])
  {
    AlignedAdd(pos, EncodedLength(cs[0]));
    forall i | 0 <= i < |cs| - 1 ensures WellFormedChunk(cs[1..][i], lzo) {
      assert cs[1..][i] == cs[i + 1];
    }
  }

  /** Inflate reads a laid-out chunk that does not fill the output, then carries on after it. */
  lemma InflateOverChunk(input: seq<byte>, pos: nat, c: Chunk, out: seq<byte>, size: nat, lzo: LzoDecoder)
    requires Aligned(pos) && WellFormedChunk(c, lzo) && ChunkAt(input, pos, c)
    requires |out| + |Piece(c, lzo)| < size && pos + EncodedLength(c) <= |input|
    ensures Inflate(input, pos, out, size, lzo) == Inflate(input, pos + EncodedLength(c), out + Piece(c, lzo), size, lzo)
  {
    var end := StepFromLayout(input, pos, c, out, size, lzo);
    ChunkEndAligns(pos, c);
    InflateContinues(input, pos, out, size, lzo, end, out + Piece(c, lzo), pos + EncodedLength(c));
  }

  /** Inflate stops after a laid-out chunk that fills the output. */
  lemma InflateOverLastChunk(input: seq<byte>, pos: nat, c: Chunk, out: seq<byte>, size: nat, lzo: LzoDecoder)
    requires WellFormedChunk(c, lzo) && ChunkAt(input, pos, c)
    requires |out| + |Piece(c, lzo)| == size
    ensures Inflate(input, pos, out, size, lzo) == Ok(out + Piece(c, lzo))
  {
    var end := StepFromLayout(input, pos, c, out, size, lzo);
  }

  /** After a step that leaves the output short, Inflate carries on from the aligned cursor. */
  lemma InflateContinues(input: seq<byte>, pos: nat, out: seq<byte>, size: nat, lzo: LzoDecoder, end: nat, out': seq<byte>, next: nat)
    requires |out| <= size && ChunkStep(input, pos, out, size, lzo) == Ok(Progress(end, out'))
    requires |out'| < size && next == AlignUp4(end) <= |input|
    ensures Inflate(input, pos, out, size, lzo) == Inflate(input, next, out', size, lzo)
  {
  }

  lemma ConcatAssoc(a: seq<byte>, b: seq<byte>, c: seq<byte>)
    ensures a + (b + c) == (a + b) + c
  {
  }

  /** A well-formed chunk laid out at `pos` is read in full. */
  lemma StepFromLayout(input: seq<byte>, pos: nat, c: Chunk, out: seq<byte>, size: nat, lzo: LzoDecoder)
    returns (end: nat)
    requires WellFormedChunk(c, lzo) && ChunkAt(input, pos, c) && |out| + |Piece(c, lzo)| <= size
    ensures end == pos + 4 * c.padding + 4 + |c.body|
    ensures ChunkStep(input, pos, out, size, lzo) == Ok(Progress(end, out + Piece(c, lzo)))
  {
    var b := pos + 4 * c.padding + 4;
    ZeroWords(input, pos, c.padding);
    ChunkStepOf(input, pos, out, size, lzo, ChunkStart(c.size, b));
    end := b + |c.body|;
    BytesAtSlice(input, b, c.body);
    ReadBody(input, b, c, out, size, lzo);
  }

  /**
    What NextChunk passes over: the word it returns sits after zero words only,
    and is not zero.
   */
  lemma {:induction false} SkippedWordsAreZero(input: seq<byte>, pos: nat) returns (words: nat)
    requires NextChunk(input, pos).Ok?
    ensures NextChunk(input, pos).value.body == pos + 4 * words + 4
    ensures ZeroWordsAt(input, pos, words)
    ensures U32At(input, pos + 4 * words) == NextChunk(input, pos).value.size != 0
    decreases |input| - pos
  {
    if U32At(input, pos) == 0 {
      var more := SkippedWordsAreZero(input, pos + 4);
      words := more + 1;
    } else {
      words := 0;
    }
  }

  /** Zero words before a non-zero word are skipped. */
  lemma {:induction false} ZeroWords(input: seq<byte>, pos: nat, words: nat)
    requires ZeroWordsAt(input, pos, words) && pos + 4 * words + 4 <= |input|
    requires U32At(input, pos + 4 * words) != 0
    ensures NextChunk(input, pos) == Ok(ChunkStart(U32At(input, pos + 4 * words), pos + 4 * words + 4))
    decreases words
  {
    if words > 0 {
      ZeroWords(input, pos + 4, words - 1);
    }
  }

  lemma ChunkStepOf(input: seq<byte>, pos: nat, out: seq<byte>, size: nat, lzo: LzoDecoder, start: ChunkStart)
    requires |out| <= size && NextChunk(input, pos) == Ok(start)
    ensures ChunkStep(input, pos, out, size, lzo) == ChunkBody(input, start, out, size, lzo)
  {
  }

  lemma ReadBody(input: seq<byte>, b: nat, c: Chunk, out: seq<byte>, size: nat, lzo: LzoDecoder)
    requires WellFormedChunk(c, lzo) && |out| + |Piece(c, lzo)| <= size
    requires b + |c.body| <= |input| && input[b..b + |c.body|] == c.body
    ensures ChunkBody(input, ChunkStart(c.size, b), out, size, lzo)
      == Ok(Progress(b + |c.body|, out + Piece(c, lzo)))
  {
  }

  /** After a chunk's body the cursor aligns to the end of its encoding. */
  lemma ChunkEndAligns(p: nat, c: Chunk)
    requires Aligned(p)
    ensures AlignUp4(p + 4 * c.padding + 4 + |c.body|) == p + EncodedLength(c)
  {
    AddWords(p, c.padding + 1);
    AlignUp4Shift(p + 4 * c.padding + 4, |c.body|);
  }

  lemma AlignedAdd(a: nat, b: nat)
    requires Aligned(a) && Aligned(b)
    ensures Aligned(a + b)
  {
    var p, q := a / 4, b / 4;
    assert a + b == 4 * (p + q);
  }

  lemma AddWords(a: nat, k: nat)
    requires Aligned(a)
    ensures Aligned(a + 4 * k)
  {
    var q := a / 4;
    assert a + 4 * k == 4 * (q + k);
  }

  lemma AlignUp4Shift(b: nat, n: nat)
    requires Aligned(b)
    ensures AlignUp4(b + n) == b + AlignUp4(n)
  {
    var q := b / 4;
    assert b == 4 * q;
    assert (b + n + 3) / 4 == q + (n + 3) / 4;
  }

  /** The magic-byte comparison loop (lines 79-85). */
  method DetectJak2(data: seq<byte>) returns (isJak2: bool)
    ensures isJak2 == IsJak2(data)
  {
    if |data| < 4 {
      return false;
    }
    isJak2 := true;
    for i := 0 to 4
      invariant isJak2 == (data[..i] == JAK2_HEADER[..i])
    {
      if JAK2_HEADER[i] != data[i] {
        isJak2 := false;
      }
      assert data[..i + 1] == data[..i] + [data[i]];
      assert JAK2_HEADER[..i + 1] == JAK2_HEADER[..i] + [JAK2_HEADER[i]];
    }
    assert data[..4] == data[..4] && JAK2_HEADER[..4] == JAK2_HEADER;
  }

  /** memcpy of `src` into `dst` at offset `at`. */
  method CopyInto(dst: array<byte>, at: nat, src: seq<byte>)
    requires at + |src| <= dst.Length
    modifies dst
    ensures dst[..at + |src|] == old(dst[..at]) + src
    ensures dst[at + |src|..] == old(dst[at + |src|..])
  {
    forall k | 0 <= k < |src| {
      dst[at + k] := src[k];
    }
  }

  /** The `while (!chunk_size)` loop (lines 100-103). */
  method ReadChunkSize(reader: BinaryReader) returns (r: Result<u32>)
    requires reader.Valid()
    modifies reader
    ensures reader.Valid()
    ensures r.Ok? ==> NextChunk(reader.buffer, old(reader.seek)) == Ok(ChunkStart(r.value, reader.seek))
    ensures r.Err? ==> NextChunk(reader.buffer, old(reader.seek)) == Err(r.error)
  {
    ghost var start := reader.seek;
    var chunkSize: u32 := 0;
    while chunkSize == 0
      invariant reader.Valid() && start <= reader.seek
      invariant chunkSize == 0 ==> NextChunk(reader.buffer, start) == NextChunk(reader.buffer, reader.seek)
      invariant chunkSize != 0 ==> NextChunk(reader.buffer, start) == Ok(ChunkStart(chunkSize, reader.seek))
      decreases |reader.buffer| - reader.seek
    {
      var word := reader.ReadU32();
      if word.Err? {
        return Err(OutOfBounds);
      }
      chunkSize := word.value;
    }
    return Ok(chunkSize);
  }

  /**
    Lines 105-119: decode or copy the body of a chunk of `chunkSize` bytes into
    `buffer` at `offset`; on success, the new output offset.
   */
  method ReadChunkBody(reader: BinaryReader, buffer: array<byte>, offset: nat, chunkSize: u32, lzo: LzoDecoder)
    returns (r: Result<nat>)
    requires reader.Valid() && offset <= buffer.Length
    modifies reader, buffer
    ensures reader.Valid()
    ensures var s := ChunkBody(reader.buffer, ChunkStart(chunkSize, old(reader.seek)), old(buffer[..offset]), buffer.Length, lzo);
      && (s.Err? ==> r == Err(s.error))
      && (s.Ok? ==> r == Ok(|s.value.out|) && reader.seek == s.value.pos && buffer[..r.value] == s.value.out)
  {
    if chunkSize < MAX_CHUNK_SIZE {
      if reader.BytesLeft() < chunkSize {
        return Err(OutOfBounds);
      }
      var res := lzo(reader.Here(chunkSize));
      if !res.ok {
        return Err(DecompressionError);
      }
      if offset + |res.output| > buffer.Length {
        return Err(OutputOverflow);
      }
      CopyInto(buffer, offset, res.output);
      var _ := reader.Ffwd(chunkSize);
      r := Ok(offset + |res.output|);
    } else {
      if reader.BytesLeft() < MAX_CHUNK_SIZE {
        return Err(OutOfBounds);
      }
      if offset + MAX_CHUNK_SIZE > buffer.Length {
        return Err(OutputOverflow);
      }
      CopyInto(buffer, offset, reader.Here(MAX_CHUNK_SIZE));
      var _ := reader.Ffwd(MAX_CHUNK_SIZE);
      r := Ok(offset + MAX_CHUNK_SIZE);
    }
  }

  /** The alignment loop (lines 123-125): skip bytes until the cursor is a multiple of four. */
  method AlignReader(reader: BinaryReader) returns (ok: bool)
    requires reader.Valid()
    modifies reader
    ensures reader.Valid()
    ensures ok == (AlignUp4(old(reader.seek)) <= |reader.buffer|)
    ensures ok ==> reader.seek == AlignUp4(old(reader.seek))
  {
    ghost var start := reader.seek;
    while reader.seek % 4 != 0
      invariant reader.Valid()
      invariant start <= reader.seek <= AlignUp4(start)
      invariant AlignUp4(reader.seek) == AlignUp4(start)
      decreases |reader.buffer| - reader.seek
    {
      ok := reader.Ffwd(1);
      if !ok {
        return false;
      }
    }
    return true;
  }

  /** Lines 91-127: decompress a compressed archive into a buffer of the declared size. */
  method Decompress(data: seq<byte>, lzo: LzoDecoder) returns (r: Result<seq<byte>>)
    requires IsJak2(data)
    ensures r == Decompressed(data, lzo)
  {
    var reader := new BinaryReader(data);
    var _ := reader.Ffwd(4);
    var sizeWord := reader.ReadU32();
    if sizeWord.Err? {
      return Err(OutOfBounds);
    }
    var decompressedSize := sizeWord.value;
    var decompressed := new byte[decompressedSize];
    var outputOffset: nat := 0;
    while true
      invariant reader.Valid() && reader.buffer == data
      invariant outputOffset <= decompressedSize == decompressed.Length
      invariant Decompressed(data, lzo) == Inflate(data, reader.seek, decompressed[..outputOffset], decompressedSize, lzo)
      decreases |data| - reader.seek
    {
      ghost var chunkPos := reader.seek;
      var chunkSize :- ReadChunkSize(reader);
      var step := ReadChunkBody(reader, decompressed, outputOffset, chunkSize, lzo);
      if step.Err? {
        return Err(step.error);
      }
      outputOffset := step.value;
      if outputOffset >= decompressedSize {
        assert decompressed[..outputOffset] == decompressed[..];
        break;
      }
      var aligned := AlignReader(reader);
      if !aligned {
        return Err(OutOfBounds);
      }
    }
    return Ok(decompressed[..]);
  }
}
