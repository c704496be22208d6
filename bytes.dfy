/**
  Byte-level vocabulary shared by the decompressor, the container parser and the
  object-file store: bytes, 32-bit unsigned words read little-endian (as
  BinaryReader::read<uint32_t> does on the little-endian hosts the tool runs on),
  the error kinds that the source's assertions stand for, and a Result type.
 */
module Bytes {

  type byte = x: int | 0 <= x < 0x100
  type u32 = x: int | 0 <= x < 0x1_0000_0000

  /** The reasons ingestion can stop. The source asserts; the model returns one of these. */
  datatype Error =
    | OutOfBounds          // a read or fast-forward past the end of the buffer
    | DecompressionError   // the LZO decoder reported a failure
    | OutputOverflow       // a chunk would be written past the decompressed buffer
    | MalformedHeader      // name field not NUL-terminated, or non-zero bytes after the NUL
    | ArchiveNameMismatch  // the archive header names another archive
    | TruncatedObject      // an object claims more bytes than are left
    | TrailingData         // bytes left after the last object

  datatype Result<T> = Ok(value: T) | Err(error: Error) {
    predicate IsFailure() { Err? }
    function PropagateFailure<U>(): Result<U>
      requires Err?
    {
      Err(error)
    }
    function Extract(): T
      requires Ok?
    {
      value
    }
  }

  datatype Option<T> = None | Some(value: T)

  /** The little-endian 32-bit word stored at `pos`. */
  function U32At(s: seq<byte>, pos: nat): u32
    requires pos + 4 <= |s|
  {
    (s[pos] as int) + 0x100 * (s[pos + 1] as int) + 0x1_0000 * (s[pos + 2] as int)
      + 0x100_0000 * (s[pos + 3] as int)
  }

  /** The four bytes that store `x` little-endian. */
  function U32Bytes(x: u32): (r: seq<byte>)
    ensures |r| == 4
  {
    var x1 := x / 0x100;
    var x2 := x1 / 0x100;
    [x % 0x100, x1 % 0x100, x2 % 0x100, x2 / 0x100]
  }

  /** Reading back a word that was written little-endian gives the word. */
  lemma U32FromBytes(s: seq<byte>, pos: nat, x: u32)
    requires pos + 4 <= |s| && s[pos..pos + 4] == U32Bytes(x)
    ensures U32At(s, pos) == x
  {
    var x1 := x / 0x100;
    var x2 := x1 / 0x100;
    assert x == x1 * 0x100 + x % 0x100;
    assert x1 == x2 * 0x100 + x1 % 0x100;
    assert x2 == x2 / 0x100 * 0x100 + x2 % 0x100;
    assert s[pos] == s[pos..pos + 4][0] == x % 0x100;
    assert s[pos + 1] == s[pos..pos + 4][1] == x1 % 0x100;
    assert s[pos + 2] == s[pos..pos + 4][2] == x2 % 0x100;
    assert s[pos + 3] == s[pos..pos + 4][3] == x2 / 0x100;
  }

  /** Writing back a word that was read gives the bytes it was read from. */
  lemma U32BytesOfAt(s: seq<byte>, pos: nat)
    requires pos + 4 <= |s|
    ensures U32Bytes(U32At(s, pos)) == s[pos..pos + 4]
  {
    var x := U32At(s, pos);
    var x1 := x / 0x100;
    var x2 := x1 / 0x100;
    var hi := (s[pos + 1] as int) + 0x100 * (s[pos + 2] as int) + 0x1_0000 * (s[pos + 3] as int);
    assert x == s[pos] + 0x100 * hi;
    assert x % 0x100 == s[pos] && x1 == hi;
    var hi2 := (s[pos + 2] as int) + 0x100 * (s[pos + 3] as int);
    assert hi == s[pos + 1] + 0x100 * hi2;
    assert x1 % 0x100 == s[pos + 1] && x2 == hi2;
    assert x2 % 0x100 == s[pos + 2] && x2 / 0x100 == s[pos + 3];
  }

  /** The same, wherever the word sits. */
  lemma U32RoundTrip(prefix: seq<byte>, x: u32, suffix: seq<byte>)
    ensures |prefix| + 4 <= |prefix + U32Bytes(x) + suffix|
    ensures U32At(prefix + U32Bytes(x) + suffix, |prefix|) == x
  {
    var s := prefix + U32Bytes(x) + suffix;
    assert s[|prefix|..|prefix| + 4] == U32Bytes(x);
    U32FromBytes(s, |prefix|, x);
  }

  /** Only the all-zero word reads as zero. */
  lemma U32ZeroIffZeroBytes(s: seq<byte>, pos: nat)
    requires pos + 4 <= |s|
    ensures U32At(s, pos) == 0 <==> s[pos..pos + 4] == [0, 0, 0, 0]
  {
    if U32At(s, pos) == 0 {
      assert s[pos] == 0 && s[pos + 1] == 0 && s[pos + 2] == 0 && s[pos + 3] == 0;
    }
  }

  /** `n` zero bytes. */
  function Zeros(n: nat): (r: seq<byte>)
    ensures |r| == n && forall i :: 0 <= i < n ==> r[i] == 0
  {
    if n == 0 then [] else [0] + Zeros(n - 1)
  }

  /**
    The bytes `e` occur in `input` from `pos`, stated one byte at a time so
    that a proof only looks as far into `e` as it needs to.
   */
  predicate BytesAt(input: seq<byte>, pos: nat, e: seq<byte>)
    decreases |e|
  {
    pos + |e| <= |input| && (|e| == 0 || (input[pos] == e[0] && BytesAt(input, pos + 1, e[1..])))
  }

  lemma {:induction false} BytesAtSlice(input: seq<byte>, pos: nat, e: seq<byte>)
    requires BytesAt(input, pos, e)
    ensures pos + |e| <= |input| && input[pos..pos + |e|] == e
    decreases |e|
  {
    if |e| > 0 {
      BytesAtSlice(input, pos + 1, e[1..]);
      assert input[pos..pos + |e|] == [input[pos]] + input[pos + 1..pos + |e|];
      assert e == [e[0]] + e[1..];
    }
  }

  lemma {:induction false} SliceBytesAt(input: seq<byte>, pos: nat, e: seq<byte>)
    requires pos + |e| <= |input| && input[pos..pos + |e|] == e
    ensures BytesAt(input, pos, e)
    decreases |e|
  {
    if |e| > 0 {
      assert input[pos] == input[pos..pos + |e|][0];
      assert input[pos + 1..pos + |e|] == input[pos..pos + |e|][1..];
      SliceBytesAt(input, pos + 1, e[1..]);
    }
  }

  /** Bytes `a + b` at `pos` are `a` at `pos` followed by `b`. */
  lemma {:induction false} BytesAtSplit(input: seq<byte>, pos: nat, a: seq<byte>, b: seq<byte>)
    requires BytesAt(input, pos, a + b)
    ensures BytesAt(input, pos, a) && BytesAt(input, pos + |a|, b)
    decreases |a|
  {
    if |a| > 0 {
      assert (a + b)[0] == a[0];
      assert (a + b)[1..] == a[1..] + b;
      BytesAtSplit(input, pos + 1, a[1..], b);
    } else {
      assert a + b == b;
    }
  }
}
