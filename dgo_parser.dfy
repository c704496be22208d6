/**
  The DGO container (ObjectFileDB.cpp, get_objs_from_dgo, lines 130-148). A
  container is a 64-byte archive header, then one 64-byte header and the bytes
  of each object, and nothing after the last object. A header is a 32-bit count
  or size followed by a 60-byte name field: the name, a NUL, then zero bytes.
 */
module DgoParser {
  import opened Bytes
  import opened Reader

  const HEADER_SIZE: nat := 64
  const NAME_SIZE: nat := 60

  /** One object as the container stores it: its name and its bytes. */
  datatype DgoObject = DgoObject(name: string, data: seq<byte>)

  /** The position of the first NUL byte, if there is one. */
  function FirstNul(s: seq<byte>): (r: Option<nat>)
    ensures r.Some? ==> r.value < |s| && s[r.value] == 0 && forall j :: 0 <= j < r.value ==> s[j] != 0
    ensures r.None? ==> forall j :: 0 <= j < |s| ==> s[j] != 0
    decreases |s|
  {
    if |s| == 0 then None
    else if s[0] == 0 then Some(0)
    else match FirstNul(s[1..])
      case None => None
      case Some(k) => Some(k + 1)
  }

  /** Bytes read as characters, one for one. */
  function ToChars(s: seq<byte>): (r: string)
    ensures |r| == |s| && forall j :: 0 <= j < |s| ==> r[j] as int == s[j]
  {
    seq(|s|, j requires 0 <= j < |s| => s[j] as char)
  }

  /** The string a NUL-terminated name field holds (the characters before the first NUL). */
  function CString(s: seq<byte>): string
    requires FirstNul(s).Some?
  {
    ToChars(s[..FirstNul(s).value])
  }

  /**
    What assert_string_empty_after (lines 60-68) accepts: there is a NUL, and
    every byte from it up to `size` is zero. Without a NUL the source reads past
    the field; the model rejects that field.
   */
  predicate StringEmptyAfter(str: seq<byte>, size: nat)
  {
    match FirstNul(str)
    case None => false
    case Some(k) => forall j :: k <= j < size && j < |str| ==> str[j] == 0
  }

  /** The two loops of assert_string_empty_after; `ok` is false where the source's assertion fails. */
  method AssertStringEmptyAfter(str: seq<byte>, size: nat) returns (ok: bool)
    requires size <= |str|
    ensures ok == StringEmptyAfter(str, size)
  {
    var ptr := 0;
    while ptr < |str| && str[ptr] != 0
      invariant ptr <= |str|
      invariant forall j :: 0 <= j < ptr ==> str[j] != 0
    {
      ptr := ptr + 1;
    }
    if ptr == |str| {
      return false;
    }
    assert FirstNul(str) == Some(ptr);
    while ptr < size
      invariant FirstNul(str).value <= ptr <= |str|
      invariant forall j :: FirstNul(str).value <= j < ptr && j < size ==> str[j] == 0
    {
      if str[ptr] != 0 {
        return false;
      }
      ptr := ptr + 1;
    }
    return true;
  }

  /** The name field of the header at `pos`. */
  function NameAt(data: seq<byte>, pos: nat): (r: seq<byte>)
    requires pos + HEADER_SIZE <= |data|
    ensures |r| == NAME_SIZE
  {
    data[pos + 4..pos + HEADER_SIZE]
  }

  /**
    One object of the loop (lines 139-144): its header must be readable, the
    bytes it claims must be left, and its name field well formed. The result is
    the object and the position after its bytes.
   */
  function ObjectAt(data: seq<byte>, pos: nat): (r: Result<(DgoObject, nat)>)
    ensures r.Ok? ==> pos + HEADER_SIZE + |r.value.0.data| == r.value.1 <= |data|
  {
    if pos + HEADER_SIZE > |data| then Err(OutOfBounds)
    else
      var size := U32At(data, pos);
      var body := pos + HEADER_SIZE;
      if |data| - body < size then Err(TruncatedObject)
      else if !StringEmptyAfter(NameAt(data, pos), NAME_SIZE) then Err(MalformedHeader)
      else Ok((DgoObject(CString(NameAt(data, pos)), data[body..body + size]), body + size))
  }

  /**
    The object loop (lines 138-145) for the `n` objects still to read from
    `pos`, after `acc`; then the check that nothing is left (line 148).
   */
  function ParseObjects(data: seq<byte>, pos: nat, n: nat, acc: seq<DgoObject>): (r: Result<seq<DgoObject>>)
    ensures r.Ok? ==> |r.value| == |acc| + n && r.value[..|acc|] == acc
    decreases n, 1
  {
    if n == 0 then
      if pos == |data| then Ok(acc) else Err(TrailingData)
    else
      ParseNext(data, pos, n, acc)
  }

  /** The next object parsed, then the `n - 1` after it. */
  function ParseNext(data: seq<byte>, pos: nat, n: nat, acc: seq<DgoObject>): (r: Result<seq<DgoObject>>)
    requires n > 0
    ensures r.Ok? ==> |r.value| == |acc| + n && r.value[..|acc|] == acc
    decreases n, 0
  {
    var (o, next) :- ObjectAt(data, pos);
    var r := ParseObjects(data, next, n - 1, acc + [o]);
    assert r.Ok? ==> r.value[..|acc|] == (acc + [o])[..|acc|];
    r
  }

  /** One object consumed: what is left to parse after it. */
  lemma ParseObjectsStep(data: seq<byte>, pos: nat, n: nat, acc: seq<DgoObject>, o: DgoObject, next: nat)
    requires n > 0 && ObjectAt(data, pos) == Ok((o, next))
    ensures ParseObjects(data, pos, n, acc) == ParseObjects(data, next, n - 1, acc + [o])
  {
  }

  /** A bad object stops the parse with its own error. */
  lemma ParseObjectsFails(data: seq<byte>, pos: nat, n: nat, acc: seq<DgoObject>)
    requires n > 0 && ObjectAt(data, pos).Err?
    ensures ParseObjects(data, pos, n, acc) == Err(ObjectAt(data, pos).error)
  {
  }

  /**
    The whole container: the archive header must name the archive (line 134)
    and be well formed (line 135); then the objects.
   */
  function ParseDgo(data: seq<byte>, baseName: string): (r: Result<seq<DgoObject>>)
    ensures r.Ok? ==> |data| >= HEADER_SIZE && |r.value| == U32At(data, 0)
  {
    var count :- ArchiveHeader(data, baseName);
    ParseObjects(data, HEADER_SIZE, count, [])
  }

  /** The archive header's checks (lines 130-135); the result is the object count. */
  function ArchiveHeader(data: seq<byte>, baseName: string): (r: Result<u32>)
    ensures r.Ok? ==> |data| >= HEADER_SIZE && r.value == U32At(data, 0)
  {
    if |data| < HEADER_SIZE then Err(OutOfBounds)
    else if FirstNul(NameAt(data, 0)).None? then Err(MalformedHeader)
    else if CString(NameAt(data, 0)) != baseName then Err(ArchiveNameMismatch)
    else if !StringEmptyAfter(NameAt(data, 0), NAME_SIZE) then Err(MalformedHeader)
    else Ok(U32At(data, 0))
  }

  /** A name a header can hold: shorter than the field, no NUL, every character a byte. */
  predicate ValidName(name: string)
  {
    |name| < NAME_SIZE && forall j :: 0 <= j < |name| ==> 0 < name[j] as int < 0x100
  }

  /** An object a header can describe. */
  /** Every object can be written out. */
  predicate AllValid(objs: seq<DgoObject>)
  {
    forall i :: 0 <= i < |objs| ==> ValidObject(objs[i])
  }

  predicate ValidObject(o: DgoObject)
  {
    ValidName(o.name) && |o.data| < 0x1_0000_0000
  }

  /** A name's characters as bytes. */
  function NameBytes(name: string): (r: seq<byte>)
    requires ValidName(name)
    ensures |r| == |name| && forall j :: 0 <= j < |name| ==> r[j] == name[j] as int
  {
    seq(|name|, j requires 0 <= j < |name| => name[j] as int as byte)
  }

  /** A 60-byte name field holding `name`. */
  function NameField(name: string): (r: seq<byte>)
    requires ValidName(name)
    ensures |r| == NAME_SIZE
  {
    NameBytes(name) + Zeros(NAME_SIZE - |name|)
  }

  function Header(n: u32, name: string): (r: seq<byte>)
    requires ValidName(name)
    ensures |r| == HEADER_SIZE
  {
    U32Bytes(n) + NameField(name)
  }

  function EncodeObjects(objs: seq<DgoObject>): seq<byte>
    requires AllValid(objs)
  {
    if |objs| == 0 then []
    else
      assert ValidObject(objs[0]);
      Header(|objs[0].data|, objs[0].name) + objs[0].data + EncodeObjects(objs[1..])
  }

  /** A container named `baseName` holding `objs`. */
  function EncodeDgo(baseName: string, objs: seq<DgoObject>): seq<byte>
    requires ValidName(baseName) && |objs| < 0x1_0000_0000
    requires AllValid(objs)
  {
    Header(|objs|, baseName) + EncodeObjects(objs)
  }

  /** A name field written by NameField reads back as the name and passes the check. */
  lemma NameFieldRoundTrip(name: string)
    requires ValidName(name)
    ensures FirstNul(NameField(name)) == Some(|name|)
    ensures CString(NameField(name)) == name
    ensures StringEmptyAfter(NameField(name), NAME_SIZE)
  {
    var f := NameField(name);
    FirstNulAt(f, |name|);
    assert f[..|name|] == NameBytes(name);
  }

  /** The first NUL is at `k` when `s[k]` is NUL and nothing before it is. */
  lemma {:induction false} FirstNulAt(s: seq<byte>, k: nat)
    requires k < |s| && s[k] == 0 && forall j :: 0 <= j < k ==> s[j] != 0
    ensures FirstNul(s) == Some(k)
    decreases k
  {
    if k > 0 {
      FirstNulAt(s[1..], k - 1);
    }
  }

  /** The header written at `pos` reads back as its count or size and its name field. */
  lemma HeaderAt(data: seq<byte>, pos: nat, n: u32, name: string)
    requires ValidName(name)
    requires pos + HEADER_SIZE <= |data| && data[pos..pos + HEADER_SIZE] == Header(n, name)
    ensures U32At(data, pos) == n && NameAt(data, pos) == NameField(name)
  {
    var h := Header(n, name);
    assert data[pos..pos + 4] == h[..4] == U32Bytes(n);
    U32FromBytes(data, pos, n);
    assert NameAt(data, pos) == h[4..];
  }

  /** One object whose header and bytes sit at `pos` is read and the loop goes on after it. */
  lemma ParseOneObject(data: seq<byte>, pos: nat, o: DgoObject)
    requires ValidObject(o)
    requires pos + HEADER_SIZE + |o.data| <= |data|
    requires U32At(data, pos) == |o.data| && NameAt(data, pos) == NameField(o.name)
    requires data[pos + HEADER_SIZE..pos + HEADER_SIZE + |o.data|] == o.data
    ensures ObjectAt(data, pos) == Ok((o, pos + HEADER_SIZE + |o.data|))
  {
    NameFieldRoundTrip(o.name);
  }

  /** The first of the objects encoded at `pos` reads back as itself; the rest follow it. */
  lemma FirstObjectAt(data: seq<byte>, pos: nat, objs: seq<DgoObject>)
    requires |objs| > 0 && AllValid(objs)
    requires BytesAt(data, pos, EncodeObjects(objs))
    ensures ValidObject(objs[0])
    ensures var next: nat := pos + HEADER_SIZE + |objs[0].data|;
      && ObjectAt(data, pos) == Ok((objs[0], next))
      && BytesAt(data, next, EncodeObjects(objs[1..]))
      && |EncodeObjects(objs)| == HEADER_SIZE + |objs[0].data| + |EncodeObjects(objs[1..])|
  {
    var o := objs[0];
    assert ValidObject(o);
    var h := Header(|o.data|, o.name);
    BytesAtSplit(data, pos, h + o.data, EncodeObjects(objs[1..]));
    BytesAtSplit(data, pos, h, o.data);
    BytesAtSlice(data, pos, h);
    BytesAtSlice(data, pos + HEADER_SIZE, o.data);
    HeaderAt(data, pos, |o.data|, o.name);
    ParseOneObject(data, pos, o);
  }

  lemma AllValidTail(objs: seq<DgoObject>)
    requires |objs| > 0 && AllValid(objs)
    ensures AllValid(objs[1..])
  {
    forall i | 0 <= i < |objs| - 1 ensures ValidObject(objs[1..][i]) {
      assert objs[1..][i] == objs[i + 1];
    }
  }

  /** Objects encoded at `pos`, up to the end of the data, parse back to themselves. */
  lemma {:induction false} ParseEncoded(data: seq<byte>, pos: nat, objs: seq<DgoObject>, acc: seq<DgoObject>)
    requires AllValid(objs)
    requires BytesAt(data, pos, EncodeObjects(objs)) && pos + |EncodeObjects(objs)| == |data|
    ensures ParseObjects(data, pos, |objs|, acc) == Ok(acc + objs)
    decreases |objs|
  {
    if |objs| == 0 {
      assert acc + objs == acc;
    } else {
      var o := objs[0];
      var next := pos + HEADER_SIZE + |o.data|;
      FirstObjectAt(data, pos, objs);
      AllValidTail(objs);
      ParseObjectsStep(data, pos, |objs|, acc, o, next);
      ParseEncoded(data, next, objs[1..], acc + [o]);
      assert acc + [o] + objs[1..] == acc + objs;
    }
  }

  /** A container built from a name and objects parses back to those objects. */
  lemma DgoRoundTrip(baseName: string, objs: seq<DgoObject>)
    requires ValidName(baseName) && |objs| < 0x1_0000_0000
    requires AllValid(objs)
    ensures ParseDgo(EncodeDgo(baseName, objs), baseName) == Ok(objs)
  {
    var h := Header(|objs|, baseName);
    var data := EncodeDgo(baseName, objs);
    assert data[0..HEADER_SIZE] == h;
    HeaderAt(data, 0, |objs|, baseName);
    NameFieldRoundTrip(baseName);
    assert data[HEADER_SIZE..] == EncodeObjects(objs);
    SliceBytesAt(data, HEADER_SIZE, EncodeObjects(objs));
    ParseEncoded(data, HEADER_SIZE, objs, []);
  }

  /** Lines 130-135 through the reader: read the archive header and check it. */
  method ReadArchiveHeader(reader: BinaryReader, baseName: string) returns (r: Result<u32>)
    requires reader.Valid() && reader.seek == 0
    modifies reader
    ensures reader.Valid()
    ensures r == ArchiveHeader(reader.buffer, baseName)
    ensures r.Ok? ==> reader.seek == HEADER_SIZE
  {
    var header := reader.ReadBytes(HEADER_SIZE);
    if header.Err? {
      return Err(header.error);
    }
    var name := header.value[4..HEADER_SIZE];
    assert name == NameAt(reader.buffer, 0);
    if FirstNul(name).None? {
      return Err(MalformedHeader);
    }
    if CString(name) != baseName {
      return Err(ArchiveNameMismatch);
    }
    var ok := AssertStringEmptyAfter(name, NAME_SIZE);
    if !ok {
      return Err(MalformedHeader);
    }
    return Ok(U32At(header.value, 0));
  }

  /**
    Lines 139-141 through the reader: read one object header and check it,
    leaving the reader at the object's bytes.
   */
  method ReadObjectHeader(reader: BinaryReader) returns (r: Result<DgoObject>)
    requires reader.Valid()
    modifies reader
    ensures reader.Valid()
    ensures r.Err? ==> ObjectAt(reader.buffer, old(reader.seek)) == Err(r.error)
    ensures r.Ok? ==>
      && reader.seek == old(reader.seek) + HEADER_SIZE
      && reader.seek + |r.value.data| <= |reader.buffer|
      && r.value.data == reader.buffer[reader.seek..reader.seek + |r.value.data|]
      && ObjectAt(reader.buffer, old(reader.seek)) == Ok((r.value, reader.seek + |r.value.data|))
  {
    var pos := reader.seek;
    var header := reader.ReadBytes(HEADER_SIZE);
    if header.Err? {
      return Err(header.error);
    }
    var size := U32At(header.value, 0);
    if reader.BytesLeft() < size {
      return Err(TruncatedObject);
    }
    var name := header.value[4..HEADER_SIZE];
    assert name == NameAt(reader.buffer, pos);
    var ok := AssertStringEmptyAfter(name, NAME_SIZE);
    if !ok {
      return Err(MalformedHeader);
    }
    return Ok(DgoObject(CString(name), reader.Here(size)));
  }

  /** A field the check accepts is the name field of the name it holds. */
  lemma NameFieldOf(field: seq<byte>)
    requires |field| == NAME_SIZE && StringEmptyAfter(field, NAME_SIZE)
    ensures ValidName(CString(field)) && NameField(CString(field)) == field
  {
    var k := FirstNul(field).value;
    var name := CString(field);
    assert |name| == k;
    forall j | 0 <= j < k ensures 0 < name[j] as int < 0x100 {
      assert name[j] as int == field[..k][j] == field[j];
    }
    assert NameField(name) == field;
  }

  /** A header the loop reads is the header of the object it yields. */
  lemma ObjectAtEncoded(data: seq<byte>, pos: nat)
    requires ObjectAt(data, pos).Ok?
    ensures var (o, next) := ObjectAt(data, pos).value;
      ValidObject(o) && data[pos..next] == Header(|o.data|, o.name) + o.data
  {
    var (o, next) := ObjectAt(data, pos).value;
    NameFieldOf(NameAt(data, pos));
    U32BytesOfAt(data, pos);
    assert data[pos..pos + HEADER_SIZE] == data[pos..pos + 4] + NameAt(data, pos);
    assert data[pos..next] == data[pos..pos + HEADER_SIZE] + o.data;
  }

  /** What the loop accepts is exactly the encoding of the objects it yields. */
  lemma {:induction false} ParsedObjectsEncoded(data: seq<byte>, pos: nat, n: nat, acc: seq<DgoObject>)
    requires ParseObjects(data, pos, n, acc).Ok?
    ensures var objs := ParseObjects(data, pos, n, acc).value[|acc|..];
      && pos <= |data|
      && AllValid(objs)
      && data[pos..] == EncodeObjects(objs)
    decreases n
  {
    var r := ParseObjects(data, pos, n, acc).value;
    if n == 0 {
      assert r[|acc|..] == [];
    } else {
      var (o, next) := ObjectAt(data, pos).value;
      ParseObjectsStep(data, pos, n, acc, o, next);
      var r' := ParseObjects(data, next, n - 1, acc + [o]);
      assert r' == Ok(r);
      ObjectAtEncoded(data, pos);
      ParsedObjectsEncoded(data, next, n - 1, acc + [o]);
      assert r[..|acc| + 1] == acc + [o];
      assert r[|acc|] == o by {
        assert r[..|acc| + 1][|acc|] == (acc + [o])[|acc|];
      }
      EncodedCons(r, |acc|, data, pos, next);
    }
  }

  /** The objects of `r` from `k`: the encoding of the first, then the rest's. */
  lemma EncodedCons(r: seq<DgoObject>, k: nat, data: seq<byte>, pos: nat, next: nat)
    requires k < |r| && ValidObject(r[k]) && pos <= next <= |data|
    requires data[pos..next] == Header(|r[k].data|, r[k].name) + r[k].data
    requires AllValid(r[k + 1..]) && data[next..] == EncodeObjects(r[k + 1..])
    ensures AllValid(r[k..]) && data[pos..] == EncodeObjects(r[k..])
  {
    assert data[pos..] == data[pos..next] + data[next..];
    var objs := r[k..];
    assert objs[1..] == r[k + 1..];
    forall i | 0 <= i < |objs| ensures ValidObject(objs[i]) {
      if i > 0 {
        assert objs[i] == r[k + 1..][i - 1];
      }
    }
  }

  /** What ParseDgo accepts is exactly the container of the objects it yields. */
  lemma ParsedIsEncoded(data: seq<byte>, baseName: string)
    requires ParseDgo(data, baseName).Ok?
    ensures var objs := ParseDgo(data, baseName).value;
      && ValidName(baseName) && |objs| < 0x1_0000_0000
      && AllValid(objs)
      && data == EncodeDgo(baseName, objs)
  {
    var count := ArchiveHeader(data, baseName).value;
    var objs := ParseDgo(data, baseName).value;
    assert objs == ParseObjects(data, HEADER_SIZE, count, []).value;
    assert ValidName(baseName) && data[..HEADER_SIZE] == Header(count, baseName) by {
      ParsedHeader(data, baseName);
    }
    assert AllValid(objs) && data[HEADER_SIZE..] == EncodeObjects(objs) by {
      ParsedObjectsEncoded(data, HEADER_SIZE, count, []);
      assert objs[0..] == objs;
    }
    assert data == data[..HEADER_SIZE] + data[HEADER_SIZE..];
  }

  /** An accepted archive header is the header of its object count and base name. */
  lemma ParsedHeader(data: seq<byte>, baseName: string)
    requires ArchiveHeader(data, baseName).Ok?
    ensures ValidName(baseName) && data[..HEADER_SIZE] == Header(U32At(data, 0), baseName)
  {
    var field := NameAt(data, 0);
    assert CString(field) == baseName && StringEmptyAfter(field, NAME_SIZE);
    assert ValidName(baseName) && NameField(baseName) == field by {
      NameFieldOf(field);
    }
    assert U32Bytes(U32At(data, 0)) == data[0..4] by {
      U32BytesOfAt(data, 0);
    }
    assert data[..HEADER_SIZE] == data[0..4] + field;
  }
}
