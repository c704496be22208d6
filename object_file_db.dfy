/**
  The object-file store (ObjectFileDB.cpp): every object of every DGO archive
  is filed under its name; an object whose size and CRC-32 match a variant
  already filed under that name is counted as a further reference to it, any
  other object becomes the next version of the name. The store also keeps,
  per archive, the records of the objects it held, the order in which names
  were first seen, and counters.

  The state is first given as a value (`Db`) with the operations as functions
  on it and the invariant they keep; the class `ObjectFileDB` then holds the
  same state in fields and its methods are proved to compute those functions.
 */
module ObjectFileDb {
  import opened Bytes
  import opened Decompress
  import opened DgoParser
  import opened Reader
  import Names
  import Decimal

  /** ObjectFileRecord: which variant of which name, and its CRC-32. */
  datatype ObjectFileRecord = ObjectFileRecord(name: string, version: nat, hash: u32)

  /**
    ObjectFileData: the bytes of one variant, its record, and how many archive
    objects it stands for, the first sighting included (1 when it is created).
   */
  datatype ObjectFileData = ObjectFileData(data: seq<byte>, record: ObjectFileRecord, referenceCount: nat)

  datatype Stats = Stats(totalDgoBytes: nat, totalObjFiles: nat, uniqueObjFiles: nat, uniqueObjBytes: nat)

  /** The store: variants by name, records by archive, first-seen order of names, counters. */
  datatype Db = Db(
    byName: map<string, seq<ObjectFileData>>,
    byDgo: map<string, seq<ObjectFileRecord>>,
    order: seq<string>,
    stats: Stats)

  /** One archive to load: its base name (the file name without directory or extension) and its bytes. */
  datatype DgoFile = DgoFile(baseName: string, data: seq<byte>)

  /** The CRC-32 of a byte string. */
  type Crc32 = seq<byte> -> u32

  function EmptyDb(): Db
  {
    Db(map[], map[], [], Stats(0, 0, 0, 0))
  }

  /** to_unique_name (lines 22-24): the name, "-v", and the version in decimal. */
  function ToUniqueName(rec: ObjectFileRecord): (r: string)
    ensures |r| > |rec.name| + 2 && r[..|rec.name|] == rec.name
  {
    rec.name + "-v" + Decimal.NatToString(rec.version)
  }

  /** Different records (by name or version) get different unique names. */
  lemma UniqueNameInjective(a: ObjectFileRecord, b: ObjectFileRecord)
    requires ToUniqueName(a) == ToUniqueName(b)
    ensures a.name == b.name && a.version == b.version
  {
    var da := Decimal.NatToString(a.version);
    var db := Decimal.NatToString(b.version);
    var s := ToUniqueName(a);
    assert s == a.name + "-v" + da == b.name + "-v" + db;
    if |da| < |db| {
      DigitChar(b.name, db, |db| - |da| - 1);
      MarkerChar(a.name, da);
      assert false;
    } else if |db| < |da| {
      DigitChar(a.name, da, |da| - |db| - 1);
      MarkerChar(b.name, db);
      assert false;
    }
    assert da == s[|s| - |da|..] == db;
    assert a.name == s[..|s| - |da| - 2] == b.name;
    Decimal.DecimalInjective(a.version, b.version);
  }

  /** The 'v' of the marker sits just before the digits. */
  lemma MarkerChar(name: string, digits: string)
    ensures var s := name + "-v" + digits; s[|s| - |digits| - 1] == 'v'
  {
  }

  /** Every character after the marker is a digit. */
  lemma DigitChar(name: string, digits: string, k: nat)
    requires Decimal.AllDigits(digits) && k < |digits|
    ensures Decimal.IsDigit((name + "-v" + digits)[|name| + 2 + k])
  {
    assert (name + "-v" + digits)[|name| + 2 + k] == digits[k];
  }

  /** The variants filed under `name` (none when the name was never seen). */
  function Variants(db: Db, name: string): seq<ObjectFileData>
  {
    if name in db.byName then db.byName[name] else []
  }

  /** The records filed under archive `dgo`. */
  function DgoRecords(byDgo: map<string, seq<ObjectFileRecord>>, dgo: string): seq<ObjectFileRecord>
  {
    if dgo in byDgo then byDgo[dgo] else []
  }

  /** The test of line 166: same size and same hash. */
  predicate Matches(e: ObjectFileData, size: nat, hash: u32)
  {
    |e.data| == size && e.record.hash == hash
  }

  /** The first variant that matches, as the loop of lines 165-172 finds it. */
  function FindVariant(vs: seq<ObjectFileData>, size: nat, hash: u32): (r: Option<nat>)
    ensures r.Some? ==> r.value < |vs| && Matches(vs[r.value], size, hash)
    decreases |vs|
  {
    if |vs| == 0 then None
    else if Matches(vs[0], size, hash) then Some(0)
    else match FindVariant(vs[1..], size, hash)
      case None => None
      case Some(k) => Some(k + 1)
  }

  /** The variant found is the first that matches; none found means none matches. */
  lemma {:induction false} FindVariantFirst(vs: seq<ObjectFileData>, size: nat, hash: u32)
    ensures FindVariant(vs, size, hash).Some? ==>
      forall j :: 0 <= j < FindVariant(vs, size, hash).value ==> !Matches(vs[j], size, hash)
    ensures FindVariant(vs, size, hash).None? <==> forall j :: 0 <= j < |vs| ==> !Matches(vs[j], size, hash)
    decreases |vs|
  {
    if |vs| > 0 && !Matches(vs[0], size, hash) {
      FindVariantFirst(vs[1..], size, hash);
      forall j | 1 <= j < |vs| ensures vs[j] == vs[1..][j - 1] {}
    }
  }

  /** add_obj_from_dgo (lines 154-188) on the store as a value. */
  function AddObj(db: Db, name: string, data: seq<byte>, dgo: string, hash: u32): Db
  {
    var stats := db.stats.(totalObjFiles := db.stats.totalObjFiles + 1);
    var vs := Variants(db, name);
    match FindVariant(vs, |data|, hash)
    case Some(i) =>
      db.(byName := db.byName[name := vs[i := vs[i].(referenceCount := vs[i].referenceCount + 1)]],
          byDgo := db.byDgo[dgo := DgoRecords(db.byDgo, dgo) + [vs[i].record]],
          stats := stats)
    case None =>
      var rec := ObjectFileRecord(name, |vs|, hash);
      Db(db.byName[name := vs + [ObjectFileData(data, rec, 1)]],
         db.byDgo[dgo := DgoRecords(db.byDgo, dgo) + [rec]],
         if |vs| == 0 then db.order + [name] else db.order,
         stats.(uniqueObjFiles := stats.uniqueObjFiles + 1, uniqueObjBytes := stats.uniqueObjBytes + |data|))
  }

  /** The objects of one archive added in order. */
  function AddAll(db: Db, objs: seq<DgoObject>, dgo: string, crc32: Crc32): Db
    decreases |objs|, 1
  {
    if |objs| == 0 then db else AddLast(db, objs, dgo, crc32)
  }

  /** The last object added after all those before it. */
  function AddLast(db: Db, objs: seq<DgoObject>, dgo: string, crc32: Crc32): Db
    requires |objs| > 0
    decreases |objs|, 0
  {
    var last := objs[|objs| - 1];
    AddObj(AddAll(db, objs[..|objs| - 1], dgo, crc32), last.name, last.data, dgo, crc32(last.data))
  }

  /** LoadDgo stage by stage: an archive that cannot be decompressed. */
  lemma LoadDgoArchiveFails(db: Db, file: DgoFile, lzo: LzoDecoder, crc32: Crc32)
    requires ArchiveBytes(file.data, lzo).Err?
    ensures LoadDgo(db, file, lzo, crc32) == Err(ArchiveBytes(file.data, lzo).error)
  {
  }

  /** LoadDgo stage by stage: a bad archive header. */
  lemma LoadDgoHeaderFails(db: Db, file: DgoFile, lzo: LzoDecoder, crc32: Crc32, archive: seq<byte>)
    requires ArchiveBytes(file.data, lzo) == Ok(archive) && ArchiveHeader(archive, file.baseName).Err?
    ensures LoadDgo(db, file, lzo, crc32) == Err(ArchiveHeader(archive, file.baseName).error)
  {
  }

  /** LoadDgo stage by stage: the objects after a good header. */
  lemma LoadDgoObjects(db: Db, file: DgoFile, lzo: LzoDecoder, crc32: Crc32, archive: seq<byte>, count: u32)
    requires ArchiveBytes(file.data, lzo) == Ok(archive) && ArchiveHeader(archive, file.baseName) == Ok(count)
    ensures LoadDgo(db, file, lzo, crc32) == LoadObjects(Counted(db, file), archive, HEADER_SIZE, count, file.baseName, crc32)
  {
    assert ParseDgo(archive, file.baseName) == ParseObjects(archive, HEADER_SIZE, count, []);
    LoadObjectsIsAddParsed(Counted(db, file), archive, HEADER_SIZE, count, [], file.baseName, crc32);
  }

  /**
    The object loop as the source runs it (lines 137-148): read one object,
    add it, go on; after the last, nothing may be left.
   */
  function LoadObjects(db: Db, data: seq<byte>, pos: nat, n: nat, dgo: string, crc32: Crc32): Result<Db>
    decreases n, 1
  {
    if n == 0 then
      if pos == |data| then Ok(db) else Err(TrailingData)
    else
      LoadNext(db, data, pos, n, dgo, crc32)
  }

  /** One pass of that loop: the next object read and added, then the `n - 1` after it. */
  function LoadNext(db: Db, data: seq<byte>, pos: nat, n: nat, dgo: string, crc32: Crc32): Result<Db>
    requires n > 0
    decreases n, 0
  {
    var (o, next) :- ObjectAt(data, pos);
    LoadObjects(AddObj(db, o.name, o.data, dgo, crc32(o.data)), data, next, n - 1, dgo, crc32)
  }

  lemma LoadObjectsStep(db: Db, data: seq<byte>, pos: nat, n: nat, dgo: string, crc32: Crc32, o: DgoObject, next: nat)
    requires n > 0 && ObjectAt(data, pos) == Ok((o, next))
    ensures LoadObjects(db, data, pos, n, dgo, crc32)
      == LoadObjects(AddObj(db, o.name, o.data, dgo, crc32(o.data)), data, next, n - 1, dgo, crc32)
  {
  }

  lemma LoadObjectsEnd(db: Db, data: seq<byte>, pos: nat, dgo: string, crc32: Crc32)
    ensures LoadObjects(db, data, pos, 0, dgo, crc32) == if pos == |data| then Ok(db) else Err(TrailingData)
  {
  }

  lemma LoadObjectsFails(db: Db, data: seq<byte>, pos: nat, n: nat, dgo: string, crc32: Crc32)
    requires n > 0 && ObjectAt(data, pos).Err?
    ensures LoadObjects(db, data, pos, n, dgo, crc32) == Err(ObjectAt(data, pos).error)
  {
  }

  /** Adding each object as it is read is parsing them all and then adding them all. */
  lemma {:induction false} LoadObjectsIsAddParsed(db: Db, data: seq<byte>, pos: nat, n: nat, acc: seq<DgoObject>,
                                                  dgo: string, crc32: Crc32)
    ensures LoadObjects(AddAll(db, acc, dgo, crc32), data, pos, n, dgo, crc32)
      == AddParsed(db, ParseObjects(data, pos, n, acc), dgo, crc32)
    decreases n, 1
  {
    if n > 0 && ObjectAt(data, pos).Ok? {
      var (o, next) := ObjectAt(data, pos).value;
      LoadObjectsIsAddParsedStep(db, data, pos, n, acc, dgo, crc32, o, next);
    } else if n > 0 {
      ParseObjectsFails(data, pos, n, acc);
      LoadObjectsFails(AddAll(db, acc, dgo, crc32), data, pos, n, dgo, crc32);
    }
  }

  lemma LoadObjectsIsAddParsedStep(db: Db, data: seq<byte>, pos: nat, n: nat, acc: seq<DgoObject>,
                                   dgo: string, crc32: Crc32, o: DgoObject, next: nat)
    requires n > 0 && ObjectAt(data, pos) == Ok((o, next))
    ensures LoadObjects(AddAll(db, acc, dgo, crc32), data, pos, n, dgo, crc32)
      == AddParsed(db, ParseObjects(data, pos, n, acc), dgo, crc32)
    decreases n, 0
  {
    var before := AddAll(db, acc, dgo, crc32);
    var after := AddObj(before, o.name, o.data, dgo, crc32(o.data));
    assert LoadObjects(before, data, pos, n, dgo, crc32) == LoadObjects(after, data, next, n - 1, dgo, crc32) by {
      LoadObjectsStep(before, data, pos, n, dgo, crc32, o, next);
    }
    assert after == AddAll(db, acc + [o], dgo, crc32) by {
      AddAllStep(db, acc, o, dgo, crc32);
    }
    assert ParseObjects(data, pos, n, acc) == ParseObjects(data, next, n - 1, acc + [o]) by {
      ParseObjectsStep(data, pos, n, acc, o, next);
    }
    LoadObjectsIsAddParsed(db, data, next, n - 1, acc + [o], dgo, crc32);
  }

  /** One more object added at the end. */
  lemma AddAllStep(db: Db, done: seq<DgoObject>, o: DgoObject, dgo: string, crc32: Crc32)
    ensures AddAll(db, done + [o], dgo, crc32) == AddObj(AddAll(db, done, dgo, crc32), o.name, o.data, dgo, crc32(o.data))
  {
    assert (done + [o])[..|done|] == done;
  }

  /**
    get_objs_from_dgo (lines 75-149): count the file's bytes, decompress it
    when it is compressed, parse the container and add its objects under the
    archive's base name.
   */
  function LoadDgo(db: Db, file: DgoFile, lzo: LzoDecoder, crc32: Crc32): Result<Db>
  {
    var archive :- ArchiveBytes(file.data, lzo);
    AddParsed(Counted(db, file), ParseDgo(archive, file.baseName), file.baseName, crc32)
  }

  /** Line 77: the file's size is added to the total of archive bytes. */
  function Counted(db: Db, file: DgoFile): Db
  {
    db.(stats := db.stats.(totalDgoBytes := db.stats.totalDgoBytes + |file.data|))
  }

  /** The store after a parse: its objects added, or the parse's error. */
  function AddParsed(db: Db, parsed: Result<seq<DgoObject>>, dgo: string, crc32: Crc32): Result<Db>
  {
    var objs :- parsed;
    Ok(AddAll(db, objs, dgo, crc32))
  }

  /** Whether a load succeeded, and if not why, without the store it built. */
  function Outcome(loaded: Result<Db>): (r: Result<()>)
    ensures r.Ok? <==> loaded.Ok?
    ensures r.Err? ==> r.error == loaded.error
  {
    if loaded.Ok? then Ok(()) else Err(loaded.error)
  }

  /** The constructor's loop (lines 29-35): every archive in turn; the first failure stops it. */
  function LoadAll(db: Db, files: seq<DgoFile>, lzo: LzoDecoder, crc32: Crc32): Result<Db>
    decreases |files|
  {
    if |files| == 0 then Ok(db)
    else
      var db' :- LoadDgo(db, files[0], lzo, crc32);
      LoadAll(db', files[1..], lzo, crc32)
  }

  // ---------------------------------------------------------------------------
  // The invariant the store keeps

  /** The variants of one name: numbered 0, 1, ... in order, hashed, and pairwise distinguishable. */
  predicate VariantsOk(name: string, vs: seq<ObjectFileData>, crc32: Crc32)
  {
    && |vs| > 0
    && (forall v :: 0 <= v < |vs| ==>
          vs[v].record.name == name && vs[v].record.version == v && vs[v].record.hash == crc32(vs[v].data))
    && (forall i, j :: 0 <= i < j < |vs| ==> !Matches(vs[j], |vs[i].data|, vs[i].record.hash))
  }

  /** A record that names a variant the store holds. */
  predicate Known(byName: map<string, seq<ObjectFileData>>, r: ObjectFileRecord)
  {
    r.name in byName && r.version < |byName[r.name]| && byName[r.name][r.version].record == r
  }

  /** Variants counted over the names of `names`. */
  function VariantCount(names: seq<string>, byName: map<string, seq<ObjectFileData>>): nat
    decreases |names|
  {
    if |names| == 0 then 0
    else
      var n := names[|names| - 1];
      VariantCount(names[..|names| - 1], byName) + (if n in byName then |byName[n]| else 0)
  }

  /** The bytes of a sequence of variants. */
  function DataBytes(vs: seq<ObjectFileData>): nat
    decreases |vs|
  {
    if |vs| == 0 then 0 else DataBytes(vs[..|vs| - 1]) + |vs[|vs| - 1].data|
  }

  /** Variant bytes summed over the names of `names`. */
  function VariantBytes(names: seq<string>, byName: map<string, seq<ObjectFileData>>): nat
    decreases |names|
  {
    if |names| == 0 then 0
    else
      var n := names[|names| - 1];
      VariantBytes(names[..|names| - 1], byName) + (if n in byName then DataBytes(byName[n]) else 0)
  }

  /** Every name's variants are well numbered, hashed and distinguishable. */
  ghost predicate NamesOk(byName: map<string, seq<ObjectFileData>>, crc32: Crc32)
  {
    forall n :: n in byName ==> VariantsOk(n, byName[n], crc32)
  }

  /** Every name was seen once, and the order lists exactly the names held. */
  ghost predicate OrderOk(order: seq<string>, byName: map<string, seq<ObjectFileData>>)
  {
    Names.NoDuplicates(order) && forall n :: n in order <==> n in byName
  }

  /** Every archive record names a variant held. */
  ghost predicate RecordsOk(byName: map<string, seq<ObjectFileData>>, byDgo: map<string, seq<ObjectFileRecord>>)
  {
    forall d, k :: d in byDgo && 0 <= k < |byDgo[d]| ==> Known(byName, byDgo[d][k])
  }

  /** All records filed under the archives, whatever the archive; picked one archive at a time. */
  ghost function Filed(byDgo: map<string, seq<ObjectFileRecord>>): multiset<ObjectFileRecord>
    decreases |byDgo|
  {
    if byDgo.Keys == {} then multiset{}
    else
      var d :| d in byDgo.Keys;
      multiset(byDgo[d]) + Filed(byDgo - {d})
  }

  /**
    The statistics agree with the archive records: `totalObjFiles` counts them
    all, and each variant's reference count is how often its record occurs.
   */
  ghost predicate TalliesOk(db: Db)
  {
    && db.stats.totalObjFiles == |Filed(db.byDgo)|
    && forall n, v :: n in db.byName && 0 <= v < |db.byName[n]| ==>
         db.byName[n][v].referenceCount == Filed(db.byDgo)[db.byName[n][v].record]
  }

  /** Filed does not depend on which archive is picked first. */
  lemma {:induction false} FiledPick(byDgo: map<string, seq<ObjectFileRecord>>, k: string)
    requires k in byDgo
    ensures Filed(byDgo) == multiset(byDgo[k]) + Filed(byDgo - {k})
    decreases |byDgo|
  {
    var d :| d in byDgo.Keys && Filed(byDgo) == multiset(byDgo[d]) + Filed(byDgo - {d});
    if d != k {
      var both := byDgo - {d} - {k};
      assert both == byDgo - {k} - {d};
      assert Filed(byDgo - {d}) == multiset(byDgo[k]) + Filed(both) by {
        FiledPick(byDgo - {d}, k);
      }
      assert Filed(byDgo - {k}) == multiset(byDgo[d]) + Filed(both) by {
        FiledPick(byDgo - {k}, d);
      }
    }
  }

  /** Filing one more record under an archive adds just that record. */
  lemma FiledAppend(byDgo: map<string, seq<ObjectFileRecord>>, dgo: string, r: ObjectFileRecord)
    ensures Filed(byDgo[dgo := DgoRecords(byDgo, dgo) + [r]]) == Filed(byDgo) + multiset{r}
  {
    var rs := DgoRecords(byDgo, dgo);
    FiledUpdate(byDgo, dgo, rs + [r]);
    FiledRest(byDgo, dgo);
    assert multiset(rs + [r]) == multiset(rs) + multiset{r};
  }

  /** An archive's records replaced: the others' records and the new ones. */
  lemma FiledUpdate(byDgo: map<string, seq<ObjectFileRecord>>, dgo: string, rs: seq<ObjectFileRecord>)
    ensures Filed(byDgo[dgo := rs]) == multiset(rs) + Filed(byDgo - {dgo})
  {
    FiledPick(byDgo[dgo := rs], dgo);
    assert byDgo[dgo := rs] - {dgo} == byDgo - {dgo};
  }

  /** The records filed: one archive's, and the others'. */
  lemma FiledRest(byDgo: map<string, seq<ObjectFileRecord>>, dgo: string)
    ensures Filed(byDgo) == multiset(DgoRecords(byDgo, dgo)) + Filed(byDgo - {dgo})
  {
    if dgo in byDgo {
      FiledPick(byDgo, dgo);
    } else {
      assert byDgo - {dgo} == byDgo;
    }
  }

  /** A filed record is one of some archive's records. */
  lemma {:induction false} FiledMember(byDgo: map<string, seq<ObjectFileRecord>>, r: ObjectFileRecord)
    requires r in Filed(byDgo)
    ensures exists d, k :: d in byDgo && 0 <= k < |byDgo[d]| && byDgo[d][k] == r
    decreases |byDgo|
  {
    var d :| d in byDgo.Keys && Filed(byDgo) == multiset(byDgo[d]) + Filed(byDgo - {d});
    if r in multiset(byDgo[d]) {
      var k :| 0 <= k < |byDgo[d]| && byDgo[d][k] == r;
    } else {
      FiledMember(byDgo - {d}, r);
      var d', k :| d' in byDgo - {d} && 0 <= k < |(byDgo - {d})[d']| && (byDgo - {d})[d'][k] == r;
      assert byDgo[d'][k] == r;
    }
  }

  /** The unique counters count the variants held and their bytes, and never exceed the total. */
  predicate CountsOk(db: Db)
  {
    && db.stats.uniqueObjFiles == VariantCount(db.order, db.byName)
    && db.stats.uniqueObjBytes == VariantBytes(db.order, db.byName)
    && db.stats.uniqueObjFiles <= db.stats.totalObjFiles
  }

  /** The variants, the order, the records and the unique counters agree with each other. */
  ghost predicate Shaped(db: Db, crc32: Crc32)
  {
    NamesOk(db.byName, crc32) && OrderOk(db.order, db.byName) && RecordsOk(db.byName, db.byDgo) && CountsOk(db)
  }

  /** What the store always satisfies. */
  ghost predicate Inv(db: Db, crc32: Crc32)
  {
    Shaped(db, crc32) && TalliesOk(db)
  }

  lemma EmptyInv(crc32: Crc32)
    ensures Inv(EmptyDb(), crc32)
  {
  }

  /** How many variants `names` counts under `n`. */
  function Len(byName: map<string, seq<ObjectFileData>>, n: string): nat
  {
    if n in byName then |byName[n]| else 0
  }

  function ByteCount(byName: map<string, seq<ObjectFileData>>, n: string): nat
  {
    if n in byName then DataBytes(byName[n]) else 0
  }

  /** Replacing the variants of a name counted once changes the count by the difference. */
  lemma {:induction false} VariantCountUpdate(names: seq<string>, m: map<string, seq<ObjectFileData>>, n: string, vs: seq<ObjectFileData>)
    requires Names.NoDuplicates(names)
    ensures n in names ==> VariantCount(names, m[n := vs]) + Len(m, n) == VariantCount(names, m) + |vs|
    ensures n !in names ==> VariantCount(names, m[n := vs]) == VariantCount(names, m)
    decreases |names|
  {
    if |names| > 0 {
      var init := names[..|names| - 1];
      assert names == init + [names[|names| - 1]];
      VariantCountUpdate(init, m, n, vs);
    }
  }

  lemma {:induction false} VariantBytesUpdate(names: seq<string>, m: map<string, seq<ObjectFileData>>, n: string, vs: seq<ObjectFileData>)
    requires Names.NoDuplicates(names)
    ensures n in names ==> VariantBytes(names, m[n := vs]) + ByteCount(m, n) == VariantBytes(names, m) + DataBytes(vs)
    ensures n !in names ==> VariantBytes(names, m[n := vs]) == VariantBytes(names, m)
    decreases |names|
  {
    if |names| > 0 {
      var init := names[..|names| - 1];
      assert names == init + [names[|names| - 1]];
      VariantBytesUpdate(init, m, n, vs);
    }
  }

  /** Counting over one more name adds that name's variants. */
  lemma CountAppend(names: seq<string>, m: map<string, seq<ObjectFileData>>, n: string)
    ensures VariantCount(names + [n], m) == VariantCount(names, m) + Len(m, n)
    ensures VariantBytes(names + [n], m) == VariantBytes(names, m) + ByteCount(m, n)
  {
    assert (names + [n])[..|names|] == names;
  }

  /** Replacing a variant by one of the same size keeps the byte total. */
  lemma {:induction false} DataBytesSameSize(vs: seq<ObjectFileData>, i: nat, e: ObjectFileData)
    requires i < |vs| && |e.data| == |vs[i].data|
    ensures DataBytes(vs[i := e]) == DataBytes(vs)
    decreases |vs|
  {
    var last := |vs| - 1;
    if i < last {
      assert vs[i := e][..last] == vs[..last][i := e];
      DataBytesSameSize(vs[..last], i, e);
    } else {
      assert vs[i := e][..last] == vs[..last];
    }
  }

  lemma DataBytesAppend(vs: seq<ObjectFileData>, e: ObjectFileData)
    ensures DataBytes(vs + [e]) == DataBytes(vs) + |e.data|
  {
    assert (vs + [e])[..|vs|] == vs;
  }

  /** A name is appended to the order exactly when it is first filed. */
  lemma OrderOkAdd(order: seq<string>, byName: map<string, seq<ObjectFileData>>, name: string, vs: seq<ObjectFileData>)
    requires OrderOk(order, byName)
    ensures OrderOk(if name in byName then order else order + [name], byName[name := vs])
  {
  }

  /** What add_obj_from_dgo does when a variant matches. */
  lemma AddExistingShape(db: Db, name: string, data: seq<byte>, dgo: string, hash: u32)
    requires FindVariant(Variants(db, name), |data|, hash).Some?
    ensures var vs := Variants(db, name);
      var i := FindVariant(vs, |data|, hash).value;
      var db' := AddObj(db, name, data, dgo, hash);
      && db'.byName == db.byName[name := vs[i := vs[i].(referenceCount := vs[i].referenceCount + 1)]]
      && db'.byDgo == db.byDgo[dgo := DgoRecords(db.byDgo, dgo) + [vs[i].record]]
      && db'.order == db.order
      && db'.stats == db.stats.(totalObjFiles := db.stats.totalObjFiles + 1)
  {
  }

  /** What add_obj_from_dgo does when no variant matches. */
  lemma AddNewShape(db: Db, name: string, data: seq<byte>, dgo: string, hash: u32)
    requires FindVariant(Variants(db, name), |data|, hash).None?
    ensures var vs := Variants(db, name);
      var rec := ObjectFileRecord(name, |vs|, hash);
      var db' := AddObj(db, name, data, dgo, hash);
      && db'.byName == db.byName[name := vs + [ObjectFileData(data, rec, 1)]]
      && db'.byDgo == db.byDgo[dgo := DgoRecords(db.byDgo, dgo) + [rec]]
      && db'.order == (if |vs| == 0 then db.order + [name] else db.order)
      && db'.stats == db.stats.(totalObjFiles := db.stats.totalObjFiles + 1,
                                uniqueObjFiles := db.stats.uniqueObjFiles + 1,
                                uniqueObjBytes := db.stats.uniqueObjBytes + |data|)
  {
  }

  /** `after` holds every record `before` held, at the same place. */
  ghost predicate Extends(before: map<string, seq<ObjectFileData>>, after: map<string, seq<ObjectFileData>>)
  {
    forall n :: n in before ==>
      && n in after && |before[n]| <= |after[n]|
      && forall v :: 0 <= v < |before[n]| ==> after[n][v].record == before[n][v].record
  }

  /** Appending a variant leaves every record in place. */
  lemma ExtendsAppend(byName: map<string, seq<ObjectFileData>>, name: string, e: ObjectFileData)
    ensures var vs := if name in byName then byName[name] else [];
      Extends(byName, byName[name := vs + [e]])
  {
  }

  /** Bumping a reference count leaves every record in place. */
  lemma ExtendsBump(byName: map<string, seq<ObjectFileData>>, name: string, i: nat)
    requires name in byName && i < |byName[name]|
    ensures var vs := byName[name];
      Extends(byName, byName[name := vs[i := vs[i].(referenceCount := vs[i].referenceCount + 1)]])
  {
  }

  lemma NamesOkReplace(byName: map<string, seq<ObjectFileData>>, crc32: Crc32, name: string, vs: seq<ObjectFileData>)
    requires NamesOk(byName, crc32) && VariantsOk(name, vs, crc32)
    ensures NamesOk(byName[name := vs], crc32)
  {
  }

  lemma RecordsOkAppend(byName: map<string, seq<ObjectFileData>>, byName': map<string, seq<ObjectFileData>>,
                        byDgo: map<string, seq<ObjectFileRecord>>, dgo: string, rec: ObjectFileRecord)
    requires RecordsOk(byName, byDgo) && Extends(byName, byName') && Known(byName', rec)
    ensures RecordsOk(byName', byDgo[dgo := DgoRecords(byDgo, dgo) + [rec]])
  {
    var byDgo' := byDgo[dgo := DgoRecords(byDgo, dgo) + [rec]];
    forall d, k | d in byDgo' && 0 <= k < |byDgo'[d]| ensures Known(byName', byDgo'[d][k]) {
      if d == dgo && k == |DgoRecords(byDgo, dgo)| {
        assert byDgo'[d][k] == rec;
      } else {
        assert byDgo'[d][k] == byDgo[d][k];
        assert Known(byName, byDgo[d][k]);
      }
    }
  }

  /** A variant whose reference count changes keeps its name's variants well formed. */
  lemma VariantsOkBump(name: string, vs: seq<ObjectFileData>, crc32: Crc32, i: nat)
    requires VariantsOk(name, vs, crc32) && i < |vs|
    ensures VariantsOk(name, vs[i := vs[i].(referenceCount := vs[i].referenceCount + 1)], crc32)
  {
    var vs' := vs[i := vs[i].(referenceCount := vs[i].referenceCount + 1)];
    assert forall v :: 0 <= v < |vs| ==> vs'[v].data == vs[v].data && vs'[v].record == vs[v].record;
  }

  /** A variant that matches none before it may follow them as the next version. */
  lemma VariantsOkAppend(name: string, vs: seq<ObjectFileData>, crc32: Crc32, data: seq<byte>)
    requires |vs| == 0 || VariantsOk(name, vs, crc32)
    requires FindVariant(vs, |data|, crc32(data)).None?
    ensures VariantsOk(name, vs + [ObjectFileData(data, ObjectFileRecord(name, |vs|, crc32(data)), 1)], crc32)
  {
    FindVariantFirst(vs, |data|, crc32(data));
    var e := ObjectFileData(data, ObjectFileRecord(name, |vs|, crc32(data)), 1);
    var vs' := vs + [e];
    forall v | 0 <= v < |vs'|
      ensures vs'[v].record.name == name && vs'[v].record.version == v && vs'[v].record.hash == crc32(vs'[v].data)
    {
      if v < |vs| {
        assert vs'[v] == vs[v];
      }
    }
    forall i, j | 0 <= i < j < |vs'| ensures !Matches(vs'[j], |vs'[i].data|, vs'[i].record.hash) {
      assert vs'[i] == vs[i];
      if j < |vs| {
        assert vs'[j] == vs[j];
      } else {
        assert !Matches(vs[i], |data|, crc32(data));
      }
    }
  }

  lemma CountsAfterExisting(db: Db, db': Db, name: string, i: nat)
    requires CountsOk(db) && OrderOk(db.order, db.byName) && name in db.byName && i < |db.byName[name]|
    requires var vs := db.byName[name];
      db'.byName == db.byName[name := vs[i := vs[i].(referenceCount := vs[i].referenceCount + 1)]]
    requires db'.order == db.order && db'.stats == db.stats.(totalObjFiles := db.stats.totalObjFiles + 1)
    ensures CountsOk(db')
  {
    var vs := db.byName[name];
    var e := vs[i].(referenceCount := vs[i].referenceCount + 1);
    VariantCountUpdate(db.order, db.byName, name, vs[i := e]);
    VariantBytesUpdate(db.order, db.byName, name, vs[i := e]);
    DataBytesSameSize(vs, i, e);
  }

  lemma CountsAfterNew(db: Db, db': Db, name: string, e: ObjectFileData)
    requires CountsOk(db) && OrderOk(db.order, db.byName)
    requires var vs := if name in db.byName then db.byName[name] else [];
      && db'.byName == db.byName[name := vs + [e]]
      && db'.order == (if |vs| == 0 then db.order + [name] else db.order)
      && db'.stats == db.stats.(totalObjFiles := db.stats.totalObjFiles + 1,
                                uniqueObjFiles := db.stats.uniqueObjFiles + 1,
                                uniqueObjBytes := db.stats.uniqueObjBytes + |e.data|)
    requires name in db.byName ==> |db.byName[name]| > 0
    ensures CountsOk(db')
  {
    var vs := if name in db.byName then db.byName[name] else [];
    DataBytesAppend(vs, e);
    VariantCountUpdate(db.order, db.byName, name, vs + [e]);
    VariantBytesUpdate(db.order, db.byName, name, vs + [e]);
    if name !in db.byName {
      CountAppend(db.order, db.byName[name := vs + [e]], name);
    }
  }

  /** A duplicate files one more record of the variant it matched and bumps that variant's count. */
  lemma TalliesAfterExisting(db: Db, db': Db, name: string, i: nat, dgo: string, crc32: Crc32)
    requires TalliesOk(db) && NamesOk(db.byName, crc32) && name in db.byName && i < |db.byName[name]|
    requires var vs := db.byName[name];
      && db'.byName == db.byName[name := vs[i := vs[i].(referenceCount := vs[i].referenceCount + 1)]]
      && db'.byDgo == db.byDgo[dgo := DgoRecords(db.byDgo, dgo) + [vs[i].record]]
      && db'.stats.totalObjFiles == db.stats.totalObjFiles + 1
    ensures TalliesOk(db')
  {
    var r := db.byName[name][i].record;
    FiledAppend(db.byDgo, dgo, r);
    forall n, v | n in db'.byName && 0 <= v < |db'.byName[n]|
      ensures db'.byName[n][v].referenceCount == Filed(db'.byDgo)[db'.byName[n][v].record]
    {
      if n != name || v != i {
        assert db'.byName[n][v] == db.byName[n][v];
        assert VariantsOk(n, db.byName[n], crc32) && VariantsOk(name, db.byName[name], crc32);
        assert db.byName[n][v].record != r;
      }
    }
  }

  /** A new variant is created with count 1, and its record was filed nowhere before. */
  lemma TalliesAfterNew(db: Db, db': Db, name: string, vs: seq<ObjectFileData>, e: ObjectFileData, dgo: string, crc32: Crc32)
    requires TalliesOk(db) && NamesOk(db.byName, crc32) && RecordsOk(db.byName, db.byDgo)
    requires vs == (if name in db.byName then db.byName[name] else [])
    requires e.record.name == name && e.record.version == |vs| && e.referenceCount == 1
    requires && db'.byName == db.byName[name := vs + [e]]
      && db'.byDgo == db.byDgo[dgo := DgoRecords(db.byDgo, dgo) + [e.record]]
      && db'.stats.totalObjFiles == db.stats.totalObjFiles + 1
    ensures TalliesOk(db')
  {
    FiledAppend(db.byDgo, dgo, e.record);
    if e.record in Filed(db.byDgo) {
      FiledMember(db.byDgo, e.record);
      assert false;
    }
    forall n, v | n in db'.byName && 0 <= v < |db'.byName[n]|
      ensures db'.byName[n][v].referenceCount == Filed(db'.byDgo)[db'.byName[n][v].record]
    {
      if n != name || v != |vs| {
        assert db'.byName[n][v] == db.byName[n][v];
        assert VariantsOk(n, db.byName[n], crc32);
        assert db.byName[n][v].record != e.record;
      }
    }
  }

  /** Adding an object that matches a variant already held keeps the invariant. */
  lemma AddExistingKeepsInv(db: Db, db': Db, name: string, i: nat, dgo: string, crc32: Crc32)
    requires Shaped(db, crc32) && name in db.byName && i < |db.byName[name]|
    requires var vs := db.byName[name];
      && db'.byName == db.byName[name := vs[i := vs[i].(referenceCount := vs[i].referenceCount + 1)]]
      && db'.byDgo == db.byDgo[dgo := DgoRecords(db.byDgo, dgo) + [vs[i].record]]
      && db'.order == db.order
      && db'.stats == db.stats.(totalObjFiles := db.stats.totalObjFiles + 1)
    ensures Shaped(db', crc32)
  {
    var vs := db.byName[name];
    var vs' := vs[i := vs[i].(referenceCount := vs[i].referenceCount + 1)];
    VariantsOkBump(name, vs, crc32, i);
    assert NamesOk(db'.byName, crc32) by {
      NamesOkReplace(db.byName, crc32, name, vs');
    }
    assert OrderOk(db'.order, db'.byName) by {
      OrderOkAdd(db.order, db.byName, name, vs');
    }
    assert RecordsOk(db'.byName, db'.byDgo) by {
      ExtendsBump(db.byName, name, i);
      RecordsOkAppend(db.byName, db'.byName, db.byDgo, dgo, vs[i].record);
    }
    CountsAfterExisting(db, db', name, i);
  }

  /** Adding an object that matches no variant held keeps the store shaped. */
  lemma AddNewKeepsInv(db: Db, db': Db, name: string, vs: seq<ObjectFileData>, e: ObjectFileData, dgo: string, crc32: Crc32)
    requires Shaped(db, crc32)
    requires vs == (if name in db.byName then db.byName[name] else [])
    requires VariantsOk(name, vs + [e], crc32) && e.referenceCount == 1
    requires && db'.byName == db.byName[name := vs + [e]]
      && db'.byDgo == db.byDgo[dgo := DgoRecords(db.byDgo, dgo) + [e.record]]
      && db'.order == (if |vs| == 0 then db.order + [name] else db.order)
      && db'.stats == db.stats.(totalObjFiles := db.stats.totalObjFiles + 1,
                                uniqueObjFiles := db.stats.uniqueObjFiles + 1,
                                uniqueObjBytes := db.stats.uniqueObjBytes + |e.data|)
    ensures Shaped(db', crc32)
  {
    NamesOkReplace(db.byName, crc32, name, vs + [e]);
    assert name in db.byName <==> |vs| > 0;
    OrderOkAdd(db.order, db.byName, name, vs + [e]);
    ExtendsAppend(db.byName, name, e);
    assert (vs + [e])[|vs|] == e;
    RecordsOkAppend(db.byName, db'.byName, db.byDgo, dgo, e.record);
    CountsAfterNew(db, db', name, e);
  }

  /** add_obj_from_dgo keeps the invariant. */
  lemma AddKeepsInv(db: Db, name: string, data: seq<byte>, dgo: string, crc32: Crc32)
    requires Inv(db, crc32)
    ensures Inv(AddObj(db, name, data, dgo, crc32(data)), crc32)
  {
    AddKeepsShaped(db, name, data, dgo, crc32);
    AddKeepsTallies(db, name, data, dgo, crc32);
  }

  lemma AddKeepsShaped(db: Db, name: string, data: seq<byte>, dgo: string, crc32: Crc32)
    requires Shaped(db, crc32)
    ensures Shaped(AddObj(db, name, data, dgo, crc32(data)), crc32)
  {
    var db' := AddObj(db, name, data, dgo, crc32(data));
    if FindVariant(Variants(db, name), |data|, crc32(data)).Some? {
      AddExistingShape(db, name, data, dgo, crc32(data));
      AddExistingKeepsInv(db, db', name, FindVariant(Variants(db, name), |data|, crc32(data)).value, dgo, crc32);
    } else {
      var vs := Variants(db, name);
      var e := ObjectFileData(data, ObjectFileRecord(name, |vs|, crc32(data)), 1);
      AddNewShape(db, name, data, dgo, crc32(data));
      VariantsOkAppend(name, vs, crc32, data);
      AddNewKeepsInv(db, db', name, vs, e, dgo, crc32);
    }
  }

  lemma AddKeepsTallies(db: Db, name: string, data: seq<byte>, dgo: string, crc32: Crc32)
    requires TalliesOk(db) && NamesOk(db.byName, crc32) && RecordsOk(db.byName, db.byDgo)
    ensures TalliesOk(AddObj(db, name, data, dgo, crc32(data)))
  {
    var db' := AddObj(db, name, data, dgo, crc32(data));
    var vs := Variants(db, name);
    match FindVariant(vs, |data|, crc32(data))
    case Some(i) =>
      AddExistingShape(db, name, data, dgo, crc32(data));
      TalliesAfterExisting(db, db', name, i, dgo, crc32);
    case None =>
      var e := ObjectFileData(data, ObjectFileRecord(name, |vs|, crc32(data)), 1);
      AddNewShape(db, name, data, dgo, crc32(data));
      TalliesAfterNew(db, db', name, vs, e, dgo, crc32);
  }

  /**
    An object with the size and CRC of a variant already held is not stored
    again, whatever its bytes: the archive records that variant, whose reference
    count goes up by one, its stored bytes stay, and the unique counters and the
    order stay as they were.
   */
  lemma MatchReusesVariant(db: Db, name: string, data: seq<byte>, dgo: string, crc32: Crc32, i: nat)
    requires Inv(db, crc32) && name in db.byName && i < |db.byName[name]| && Matches(db.byName[name][i], |data|, crc32(data))
    ensures FindVariant(db.byName[name], |data|, crc32(data)) == Some(i)
    ensures var db' := AddObj(db, name, data, dgo, crc32(data));
      && DgoRecords(db'.byDgo, dgo) == DgoRecords(db.byDgo, dgo) + [ObjectFileRecord(name, i, crc32(data))]
      && |db'.byName[name]| == |db.byName[name]| && db'.order == db.order
      && db'.byName[name][i].referenceCount == db.byName[name][i].referenceCount + 1
      && db'.byName[name][i].data == db.byName[name][i].data
      && db'.stats.uniqueObjFiles == db.stats.uniqueObjFiles && db'.stats.uniqueObjBytes == db.stats.uniqueObjBytes
  {
    var vs := db.byName[name];
    assert VariantsOk(name, vs, crc32);
    assert Matches(vs[i], |data|, crc32(data));
    FindVariantFirst(vs, |data|, crc32(data));
    AddExistingShape(db, name, data, dgo, crc32(data));
  }

  /**
    An object that matches no variant held becomes the next version of its
    name; the name joins the order exactly when it had no variant.
   */
  lemma NewObjectIsNextVersion(db: Db, name: string, data: seq<byte>, dgo: string, crc32: Crc32)
    requires Inv(db, crc32)
    requires forall v :: 0 <= v < |Variants(db, name)| ==>
      |Variants(db, name)[v].data| != |data| || Variants(db, name)[v].record.hash != crc32(data)
    ensures var db' := AddObj(db, name, data, dgo, crc32(data));
      var n := |Variants(db, name)|;
      && DgoRecords(db'.byDgo, dgo) == DgoRecords(db.byDgo, dgo) + [ObjectFileRecord(name, n, crc32(data))]
      && |db'.byName[name]| == n + 1 && db'.byName[name][n].data == data
      && db'.order == (if name in db.byName then db.order else db.order + [name])
      && db'.stats.uniqueObjFiles == db.stats.uniqueObjFiles + 1
  {
    FindVariantFirst(Variants(db, name), |data|, crc32(data));
    AddNewShape(db, name, data, dgo, crc32(data));
    if name in db.byName {
      assert VariantsOk(name, db.byName[name], crc32);
    }
  }

  /** Stored variants of different names or versions have different unique names. */
  lemma UniqueNamesDistinct(db: Db, crc32: Crc32, n1: string, v1: nat, n2: string, v2: nat)
    requires Inv(db, crc32)
    requires n1 in db.byName && v1 < |db.byName[n1]| && n2 in db.byName && v2 < |db.byName[n2]|
    requires n1 != n2 || v1 != v2
    ensures ToUniqueName(db.byName[n1][v1].record) != ToUniqueName(db.byName[n2][v2].record)
  {
    assert VariantsOk(n1, db.byName[n1], crc32) && VariantsOk(n2, db.byName[n2], crc32);
    if ToUniqueName(db.byName[n1][v1].record) == ToUniqueName(db.byName[n2][v2].record) {
      UniqueNameInjective(db.byName[n1][v1].record, db.byName[n2][v2].record);
    }
  }

  /** add_obj_from_dgo keeps every name's variants well formed. */
  lemma AddKeepsNamesOk(db: Db, name: string, data: seq<byte>, dgo: string, crc32: Crc32)
    requires NamesOk(db.byName, crc32)
    ensures NamesOk(AddObj(db, name, data, dgo, crc32(data)).byName, crc32)
  {
    var vs := Variants(db, name);
    if name in db.byName {
      assert VariantsOk(name, vs, crc32);
    }
    match FindVariant(vs, |data|, crc32(data))
    case Some(i) =>
      AddExistingShape(db, name, data, dgo, crc32(data));
      VariantsOkBump(name, vs, crc32, i);
      NamesOkReplace(db.byName, crc32, name, vs[i := vs[i].(referenceCount := vs[i].referenceCount + 1)]);
    case None =>
      AddNewShape(db, name, data, dgo, crc32(data));
      VariantsOkAppend(name, vs, crc32, data);
      NamesOkReplace(db.byName, crc32, name, vs + [ObjectFileData(data, ObjectFileRecord(name, |vs|, crc32(data)), 1)]);
  }

  lemma {:induction false} AddAllKeepsNamesOk(db: Db, objs: seq<DgoObject>, dgo: string, crc32: Crc32)
    requires NamesOk(db.byName, crc32)
    ensures NamesOk(AddAll(db, objs, dgo, crc32).byName, crc32)
    decreases |objs|
  {
    if |objs| > 0 {
      var last := objs[|objs| - 1];
      AddAllKeepsNamesOk(db, objs[..|objs| - 1], dgo, crc32);
      AddKeepsNamesOk(AddAll(db, objs[..|objs| - 1], dgo, crc32), last.name, last.data, dgo, crc32);
    }
  }

  /** Adding an archive's objects keeps the invariant. */
  lemma {:induction false} AddAllKeepsInv(db: Db, objs: seq<DgoObject>, dgo: string, crc32: Crc32)
    requires Inv(db, crc32)
    ensures Inv(AddAll(db, objs, dgo, crc32), crc32)
    decreases |objs|
  {
    if |objs| > 0 {
      var last := objs[|objs| - 1];
      AddAllKeepsInv(db, objs[..|objs| - 1], dgo, crc32);
      AddKeepsInv(AddAll(db, objs[..|objs| - 1], dgo, crc32), last.name, last.data, dgo, crc32);
    }
  }

  /** `after` is `before` followed by one record per object, naming the objects in order. */
  predicate FiledAfter(before: seq<ObjectFileRecord>, after: seq<ObjectFileRecord>, objs: seq<DgoObject>)
  {
    && before <= after && |after| == |before| + |objs|
    && forall k :: 0 <= k < |objs| ==> after[|before| + k].name == objs[k].name
  }

  /**
    Adding an archive's objects keeps the records filed under the archive and
    files after them one record per object, naming the objects in order;
    other archives are untouched, and every object is counted.
   */
  lemma {:induction false} AddAllRecords(db: Db, objs: seq<DgoObject>, dgo: string, crc32: Crc32)
    requires NamesOk(db.byName, crc32)
    ensures var db' := AddAll(db, objs, dgo, crc32);
      && FiledAfter(DgoRecords(db.byDgo, dgo), DgoRecords(db'.byDgo, dgo), objs)
      && (forall d :: d != dgo ==> DgoRecords(db'.byDgo, d) == DgoRecords(db.byDgo, d))
      && db'.stats.totalObjFiles == db.stats.totalObjFiles + |objs|
    decreases |objs|
  {
    if |objs| > 0 {
      var init := objs[..|objs| - 1];
      var last := objs[|objs| - 1];
      var mid := AddAll(db, init, dgo, crc32);
      var fin := AddAll(db, objs, dgo, crc32);
      assert init + [last] == objs;
      AddAllStep(db, init, last, dgo, crc32);
      AddAllRecords(db, init, dgo, crc32);
      AddAllKeepsNamesOk(db, init, dgo, crc32);
      AddRecord(mid, last.name, last.data, dgo, crc32);
      RecordsStep(DgoRecords(db.byDgo, dgo), DgoRecords(mid.byDgo, dgo), DgoRecords(fin.byDgo, dgo), objs);
    }
  }

  /** One more record naming the next object extends the records of the objects before it. */
  lemma RecordsStep(before: seq<ObjectFileRecord>, middle: seq<ObjectFileRecord>, after: seq<ObjectFileRecord>,
                    objs: seq<DgoObject>)
    requires |objs| > 0 && FiledAfter(before, middle, objs[..|objs| - 1])
    requires |after| == |middle| + 1 && after == middle + [after[|middle|]]
    requires after[|middle|].name == objs[|objs| - 1].name
    ensures FiledAfter(before, after, objs)
  {
    assert after[..|before|] == middle[..|before|];
    forall k | 0 <= k < |objs| ensures after[|before| + k].name == objs[k].name {
      if k < |objs| - 1 {
        assert after[|before| + k] == middle[|before| + k];
        assert objs[..|objs| - 1][k] == objs[k];
      }
    }
  }

  /** One add files one record naming the object under the archive, after those it had, and counts it. */
  lemma AddRecord(db: Db, name: string, data: seq<byte>, dgo: string, crc32: Crc32)
    requires NamesOk(db.byName, crc32)
    ensures var db' := AddObj(db, name, data, dgo, crc32(data));
      var rs := DgoRecords(db.byDgo, dgo);
      && |DgoRecords(db'.byDgo, dgo)| == |rs| + 1
      && DgoRecords(db'.byDgo, dgo) == rs + [DgoRecords(db'.byDgo, dgo)[|rs|]]
      && DgoRecords(db'.byDgo, dgo)[|rs|].name == name
      && (forall d :: d != dgo ==> DgoRecords(db'.byDgo, d) == DgoRecords(db.byDgo, d))
      && db'.stats.totalObjFiles == db.stats.totalObjFiles + 1
  {
    var vs := Variants(db, name);
    match FindVariant(vs, |data|, crc32(data))
    case Some(i) =>
      AddExistingShape(db, name, data, dgo, crc32(data));
      assert VariantsOk(name, vs, crc32);
    case None =>
      AddNewShape(db, name, data, dgo, crc32(data));
  }

  /** Counting an archive's bytes touches nothing the invariant reads. */
  lemma InvIgnoresDgoBytes(db: Db, crc32: Crc32, n: nat)
    requires Inv(db, crc32)
    ensures Inv(db.(stats := db.stats.(totalDgoBytes := n)), crc32)
  {
    var db' := db.(stats := db.stats.(totalDgoBytes := n));
    assert db'.byName == db.byName && db'.byDgo == db.byDgo && db'.order == db.order;
    assert CountsOk(db');
  }

  /** A load that succeeds adds the objects the parsed archive holds. */
  lemma LoadedObjects(db: Db, file: DgoFile, lzo: LzoDecoder, crc32: Crc32) returns (objs: seq<DgoObject>)
    requires LoadDgo(db, file, lzo, crc32).Ok?
    ensures ArchiveBytes(file.data, lzo).Ok? && ParseDgo(ArchiveBytes(file.data, lzo).value, file.baseName) == Ok(objs)
    ensures LoadDgo(db, file, lzo, crc32).value
      == AddAll(Counted(db, file), objs, file.baseName, crc32)
  {
    objs := ParseDgo(ArchiveBytes(file.data, lzo).value, file.baseName).value;
  }

  /** Loading one archive keeps the invariant. */
  lemma LoadKeepsInv(db: Db, file: DgoFile, lzo: LzoDecoder, crc32: Crc32)
    requires Inv(db, crc32) && LoadDgo(db, file, lzo, crc32).Ok?
    ensures Inv(LoadDgo(db, file, lzo, crc32).value, crc32)
  {
    var db' := Counted(db, file);
    InvIgnoresDgoBytes(db, crc32, db.stats.totalDgoBytes + |file.data|);
    var objs := LoadedObjects(db, file, lzo, crc32);
    AddAllKeepsInv(db', objs, file.baseName, crc32);
  }

  /** The whole constructor keeps the invariant, starting from the empty store. */
  lemma {:induction false} LoadAllKeepsInv(db: Db, files: seq<DgoFile>, lzo: LzoDecoder, crc32: Crc32)
    requires Inv(db, crc32) && LoadAll(db, files, lzo, crc32).Ok?
    ensures Inv(LoadAll(db, files, lzo, crc32).value, crc32)
    decreases |files|
  {
    if |files| > 0 {
      LoadKeepsInv(db, files[0], lzo, crc32);
      LoadAllKeepsInv(LoadDgo(db, files[0], lzo, crc32).value, files[1..], lzo, crc32);
    }
  }

  // ---------------------------------------------------------------------------
  // The DGO listing (lines 193-211)

  const LISTING_HEADER: string := ";; DGO File Listing\n\n"

  /** One object's line: its name and its version. */
  function ObjectLine(r: ObjectFileRecord): string
  {
    "  " + r.name + " :version " + Decimal.NatToString(r.version) + "\n"
  }

  function ObjectLines(rs: seq<ObjectFileRecord>): string
    decreases |rs|
  {
    if |rs| == 0 then "" else ObjectLines(rs[..|rs| - 1]) + ObjectLine(rs[|rs| - 1])
  }

  /** One archive's section: its name in quotes, a line per object, a closing parenthesis. */
  function Section(name: string, rs: seq<ObjectFileRecord>): string
  {
    "(\"" + name + "\"\n" + ObjectLines(rs) + "  )\n\n"
  }

  function Sections(names: seq<string>, byDgo: map<string, seq<ObjectFileRecord>>): string
    decreases |names|
  {
    if |names| == 0 then ""
    else
      var n := names[|names| - 1];
      Sections(names[..|names| - 1], byDgo) + Section(n, DgoRecords(byDgo, n))
  }

  /** One more archive name adds its section at the end. */
  lemma SectionsStep(names: seq<string>, i: nat, byDgo: map<string, seq<ObjectFileRecord>>)
    requires i < |names|
    ensures Sections(names[..i + 1], byDgo) == Sections(names[..i], byDgo) + Section(names[i], DgoRecords(byDgo, names[i]))
  {
    assert names[..i + 1][..i] == names[..i];
  }

  /** The listing: the header, then a section per archive in increasing order of name. */
  ghost function Listing(byDgo: map<string, seq<ObjectFileRecord>>): string
  {
    LISTING_HEADER + Sections(Names.SortedKeys(byDgo.Keys), byDgo)
  }

  /** Lines 79-127: the archive itself, decompressed when it starts with the compressed magic. */
  method ReadArchive(data: seq<byte>, lzo: LzoDecoder) returns (r: Result<seq<byte>>)
    ensures r == ArchiveBytes(data, lzo)
  {
    var isJak2 := DetectJak2(data);
    if isJak2 {
      r := Decompress.Decompress(data, lzo);
    } else {
      r := Ok(data);
    }
  }

  /** The keys of the records by archive, in the order the map hands them out (lines 195-198). */
  method DgoNames(byDgo: map<string, seq<ObjectFileRecord>>) returns (names: seq<string>)
    ensures Names.NoDuplicates(names) && (set x | x in names) == byDgo.Keys
  {
    names := [];
    var rest := byDgo.Keys;
    while rest != {}
      invariant rest <= byDgo.Keys
      invariant Names.NoDuplicates(names)
      invariant forall x :: x in names <==> x in byDgo && x !in rest
      decreases |rest|
    {
      var k :| k in rest;
      names := names + [k];
      rest := rest - {k};
    }
  }

  /** One archive's section (lines 203-208). */
  method SectionText(name: string, rs: seq<ObjectFileRecord>) returns (section: string)
    ensures section == Section(name, rs)
  {
    section := "(\"" + name + "\"\n";
    for k := 0 to |rs|
      invariant section == "(\"" + name + "\"\n" + ObjectLines(rs[..k])
    {
      section := section + "  " + rs[k].name + " :version " + Decimal.NatToString(rs[k].version) + "\n";
      assert rs[..k + 1][..k] == rs[..k];
    }
    assert rs[..|rs|] == rs;
    section := section + "  )\n\n";
  }

  // ---------------------------------------------------------------------------
  // The store as an object

  class ObjectFileDB {
    var objFilesByName: map<string, seq<ObjectFileData>>
    var objFilesByDgo: map<string, seq<ObjectFileRecord>>
    var objFileOrder: seq<string>
    var stats: Stats
    /** The LZO decoder and the CRC-32 the store is built with. */
    const lzo: LzoDecoder
    const crc32: Crc32

    /** The fields as a value. */
    function State(): Db
      reads this
    {
      Db(objFilesByName, objFilesByDgo, objFileOrder, stats)
    }

    /** An empty store; the constructor's loop over the archives is LoadDgos. */
    constructor (lzo: LzoDecoder, crc32: Crc32)
      ensures State() == EmptyDb() && this.lzo == lzo && this.crc32 == crc32
    {
      objFilesByName := map[];
      objFilesByDgo := map[];
      objFileOrder := [];
      stats := Stats(0, 0, 0, 0);
      this.lzo := lzo;
      this.crc32 := crc32;
    }

    /** add_obj_from_dgo (lines 154-188). */
    method AddObjFromDgo(name: string, data: seq<byte>, dgo: string)
      modifies this
      ensures State() == AddObj(old(State()), name, data, dgo, crc32(data))
    {
      stats := stats.(totalObjFiles := stats.totalObjFiles + 1);
      var hash := crc32(data);
      var vs := if name in objFilesByName then objFilesByName[name] else [];
      for i := 0 to |vs|
        invariant forall j :: 0 <= j < i ==> !Matches(vs[j], |data|, hash)
        invariant State() == old(State()).(stats := old(stats).(totalObjFiles := old(stats).totalObjFiles + 1))
      {
        if |vs[i].data| == |data| && vs[i].record.hash == hash {
          FindVariantFirst(vs, |data|, hash);
          assert FindVariant(vs, |data|, hash) == Some(i);
          objFilesByName := objFilesByName[name := vs[i := vs[i].(referenceCount := vs[i].referenceCount + 1)]];
          var rec := vs[i].record;
          objFilesByDgo := objFilesByDgo[dgo := DgoRecords(objFilesByDgo, dgo) + [rec]];
          return;
        }
      }
      var rec := ObjectFileRecord(name, |vs|, hash);
      if |vs| == 0 {
        objFileOrder := objFileOrder + [name];
      }
      objFilesByDgo := objFilesByDgo[dgo := DgoRecords(objFilesByDgo, dgo) + [rec]];
      objFilesByName := objFilesByName[name := vs + [ObjectFileData(data, rec, 1)]];
      stats := stats.(uniqueObjFiles := stats.uniqueObjFiles + 1, uniqueObjBytes := stats.uniqueObjBytes + |data|);
    }

    /**
      One pass of the object loop (lines 139-147): read and check the next
      object's header, add the object under its own name, skip its bytes.
      Stated against the `left` objects still to load from the reader's position.
     */
    method AddNextObject(reader: BinaryReader, dgo: string, ghost left: nat) returns (r: Result<()>)
      requires reader.Valid() && left > 0
      modifies this, reader
      ensures reader.Valid()
      ensures r.Err? ==> LoadObjects(old(State()), reader.buffer, old(reader.seek), left, dgo, crc32) == Err(r.error)
      ensures r.Ok? ==> (LoadObjects(old(State()), reader.buffer, old(reader.seek), left, dgo, crc32)
                        == LoadObjects(State(), reader.buffer, reader.seek, left - 1, dgo, crc32))
    {
      ghost var before := State();
      ghost var pos := reader.seek;
      var obj := ReadObjectHeader(reader);
      if obj.Err? {
        LoadObjectsFails(before, reader.buffer, pos, left, dgo, crc32);
        return Err(obj.error);
      }
      AddObjFromDgo(obj.value.name, obj.value.data, dgo);
      var _ := reader.Ffwd(|obj.value.data|);
      LoadObjectsStep(before, reader.buffer, pos, left, dgo, crc32, obj.value, reader.seek);
      return Ok(());
    }

    /**
      The object loop and the trailing-data check (lines 137-148): `count`
      objects from the reader's position, each added to the store, and then
      nothing left.
     */
    method AddObjects(reader: BinaryReader, count: nat, dgo: string) returns (r: Result<()>)
      requires reader.Valid()
      modifies this, reader
      ensures var loaded := LoadObjects(old(State()), reader.buffer, old(reader.seek), count, dgo, crc32);
        r == Outcome(loaded) && (r.Ok? ==> State() == loaded.value)
    {
      ghost var loaded := LoadObjects(State(), reader.buffer, reader.seek, count, dgo, crc32);
      var left := count;
      while left > 0
        invariant reader.Valid()
        invariant loaded == LoadObjects(State(), reader.buffer, reader.seek, left, dgo, crc32)
      {
        var res := AddNextObject(reader, dgo, left);
        if res.Err? {
          return Err(res.error);
        }
        left := left - 1;
      }
      LoadObjectsEnd(State(), reader.buffer, reader.seek, dgo, crc32);
      if reader.BytesLeft() != 0 {
        return Err(TrailingData);
      }
      return Ok(());
    }

    /**
      get_objs_from_dgo (lines 75-149) on a file already read. On success the
      store is LoadDgo of the old one; on failure the error is LoadDgo's (the
      source stops the program there, so the state left behind is not stated).
     */
    method GetObjsFromDgo(file: DgoFile) returns (r: Result<()>)
      modifies this
      ensures r == Outcome(LoadDgo(old(State()), file, lzo, crc32))
      ensures r.Ok? ==> State() == LoadDgo(old(State()), file, lzo, crc32).value
    {
      ghost var db := State();
      stats := stats.(totalDgoBytes := stats.totalDgoBytes + |file.data|);
      var archive := ReadArchive(file.data, lzo);
      if archive.Err? {
        LoadDgoArchiveFails(db, file, lzo, crc32);
        return Err(archive.error);
      }
      var reader := new BinaryReader(archive.value);
      var count := ReadArchiveHeader(reader, file.baseName);
      if count.Err? {
        LoadDgoHeaderFails(db, file, lzo, crc32, archive.value);
        return Err(count.error);
      }
      LoadDgoObjects(db, file, lzo, crc32, archive.value, count.value);
      assert State() == Counted(db, file);
      r := AddObjects(reader, count.value, file.baseName);
    }

    /** The constructor's loop (lines 29-35): each archive in turn, stopping at the first failure. */
    method LoadDgos(dgos: seq<DgoFile>) returns (r: Result<()>)
      modifies this
      ensures r == Outcome(LoadAll(old(State()), dgos, lzo, crc32))
      ensures r.Ok? ==> State() == LoadAll(old(State()), dgos, lzo, crc32).value
    {
      for i := 0 to |dgos|
        invariant LoadAll(old(State()), dgos, lzo, crc32) == LoadAll(State(), dgos[i..], lzo, crc32)
      {
        assert dgos[i..][0] == dgos[i] && dgos[i..][1..] == dgos[i + 1..];
        var res := GetObjsFromDgo(dgos[i]);
        if res.Err? {
          return res;
        }
      }
      assert dgos[|dgos|..] == [];
      return Ok(());
    }

    /** generate_dgo_listing (lines 193-211). */
    method GenerateDgoListing() returns (listing: string)
      ensures listing == Listing(objFilesByDgo)
    {
      var names := DgoNames(objFilesByDgo);
      Names.SortIsSortedKeys(names);
      var sorted := Names.Sort(names);
      var body := "";
      for i := 0 to |sorted|
        invariant body == Sections(sorted[..i], objFilesByDgo)
      {
        var name := sorted[i];
        assert name in objFilesByDgo;
        var section := SectionText(name, objFilesByDgo[name]);
        SectionsStep(sorted, i, objFilesByDgo);
        body := body + section;
      }
      assert sorted[..|sorted|] == sorted;
      listing := LISTING_HEADER + body;
    }
  }
}
