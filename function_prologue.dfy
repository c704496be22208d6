/**
  The prologue analysis of a disassembled MIPS (R5900) function
  (Function/Function.cpp): how much stack the function allocates, which
  registers its prologue saves and where, how large the stack-variable area
  is, and whether those saves form the frame the compiler lays out. A
  function whose register saves come in an unexpected order is flagged as
  probable hand-written assembly and left undecoded.
 */
module FunctionPrologue {
  import opened Bytes

  /** A 16-bit signed immediate field of an instruction. */
  type i16 = x: int | -0x8000 <= x < 0x8000

  datatype Register = Gpr(number: nat) | Fpr(number: nat)

  const R0 := Gpr(0)
  const A0 := Gpr(4)
  const S0 := Gpr(16)
  const S1 := Gpr(17)
  const S2 := Gpr(18)
  const S3 := Gpr(19)
  const S4 := Gpr(20)
  const S5 := Gpr(21)
  const T9 := Gpr(25)
  const GP := Gpr(28)
  const SP := Gpr(29)
  const FP := Gpr(30)
  const RA := Gpr(31)

  /**
    The instruction shapes the prologue matchers tell apart. A store whose
    offset is a label rather than an immediate, and every other instruction,
    is `Other`.
   */
  datatype Instruction =
    | Daddiu(dst: Register, src: Register, imm: i16)
    | Or(dst: Register, lhs: Register, rhs: Register)
    | GprStore(width: nat, value: Register, offset: i16, base: Register)
    | FprStore(value: Register, offset: i16, base: Register)
    | Other

  /** daddiu sp, sp, imm: the stack allocation. */
  predicate IsStackAlloc(i: Instruction) {
    i.Daddiu? && i.dst == SP && i.src == SP
  }

  /** A store of `width` bytes of a GPR at an immediate offset from sp. */
  predicate IsSpStore(i: Instruction, width: nat) {
    i.GprStore? && i.width == width && i.base == SP
  }

  /** An 8-byte (sd) save of register `r` to the stack. */
  predicate Saves(i: Instruction, r: Register) {
    IsSpStore(i, 8) && i.value == r
  }

  /** or fp, t9, r0: the frame pointer is set from t9. */
  predicate IsFpSetup(i: Instruction) {
    i.Or? && i.dst == FP && i.lhs == T9 && i.rhs == R0
  }

  /** A 16-byte (sq) store that counts as a GPR save: not of r0 and not of a0. */
  predicate IsGprSave(i: Instruction) {
    IsSpStore(i, 16) && i.value != R0 && i.value != A0
  }

  /** A floating-point store (swc1) at an immediate offset from sp. */
  predicate IsFprSave(i: Instruction) {
    i.FprStore? && i.base == SP
  }

  /** Which of the two runs of saves a scan is over. */
  datatype SaveKind = GprSaves | FprSaves

  predicate IsSave(kind: SaveKind, i: Instruction) {
    match kind
    case GprSaves => IsGprSave(i)
    case FprSaves => IsFprSave(i)
  }

  /** The immediate offset of a store; the analysis reads it only from stores. */
  function StoreOffset(i: Instruction): int {
    if i.GprStore? || i.FprStore? then i.offset else 0
  }

  /** The register a store writes; the analysis reads it only from stores. */
  function StoreValue(i: Instruction): Register {
    if i.GprStore? || i.FprStore? then i.value else R0
  }

  /** The stack the function allocates: -imm of a leading daddiu sp, sp, imm, else 0. */
  function StackUsage(i: Instruction): int {
    if IsStackAlloc(i) then -(i.imm as int) else 0
  }

  // ---------------------------------------------------------------------------
  // Alignment on 32-bit unsigned words.

  /**
    (x + m - 1) & ~(m - 1) on a uint32_t for m = 16, 8 and 4: the addition
    wraps modulo 2^32, and clearing the low bits rounds down to a multiple of m.
   */
  function Align16(x: u32): u32 {
    Wrap32(x + 15) / 16 * 16
  }

  function Align8(x: u32): u32 {
    Wrap32(x + 7) / 8 * 8
  }

  function Align4(x: u32): u32 {
    Wrap32(x + 3) / 4 * 4
  }

  /** A sum of a uint32_t and a small constant, modulo 2^32. */
  function Wrap32(v: nat): u32
    requires v < 0x2_0000_0000
  {
    if v < 0x1_0000_0000 then v else v - 0x1_0000_0000
  }

  function AlignTo(x: u32, m: nat): u32
    requires m == 4 || m == 8 || m == 16
  {
    if m == 16 then Align16(x) else if m == 8 then Align8(x) else Align4(x)
  }

  /** Unless x + m - 1 overflows, the result is the least multiple of m that is at least x. */
  lemma AlignRoundsUp(x: u32, m: nat)
    requires m == 4 || m == 8 || m == 16
    requires x <= 0x1_0000_0000 - m
    ensures AlignTo(x, m) % m == 0 && x <= AlignTo(x, m) && AlignTo(x, m) - m < x
  {
    if m == 16 {
      Align16RoundsUp(x);
    } else if m == 8 {
      Align8RoundsUp(x);
    } else {
      Align4RoundsUp(x);
    }
  }

  lemma Align16RoundsUp(x: u32)
    requires x <= 0x1_0000_0000 - 16
    ensures Align16(x) % 16 == 0 && x <= Align16(x) < x + 16
  {
    var q := (x + 15) / 16;
    assert Align16(x) == q * 16 && x + 15 - 16 < q * 16 <= x + 15;
  }

  lemma Align8RoundsUp(x: u32)
    requires x <= 0x1_0000_0000 - 8
    ensures Align8(x) % 8 == 0 && x <= Align8(x) < x + 8
  {
    var q := (x + 7) / 8;
    assert Align8(x) == q * 8 && x + 7 - 8 < q * 8 <= x + 7;
  }

  lemma Align4RoundsUp(x: u32)
    requires x <= 0x1_0000_0000 - 4
    ensures Align4(x) % 4 == 0 && x <= Align4(x) < x + 4
  {
    var q := (x + 3) / 4;
    assert Align4(x) == q * 4 && x + 3 - 4 < q * 4 <= x + 3;
  }

  /** When x + m - 1 overflows, the sum wraps to below m and the result is 0. */
  lemma AlignWraps(x: u32, m: nat)
    requires m == 4 || m == 8 || m == 16
    requires x > 0x1_0000_0000 - m
    ensures AlignTo(x, m) == 0
  {
  }

  lemma AlignIdempotent(x: u32, m: nat)
    requires m == 4 || m == 8 || m == 16
    ensures AlignTo(AlignTo(x, m), m) == AlignTo(x, m)
  {
    var r := AlignTo(x, m);
    if x <= 0x1_0000_0000 - m {
      AlignRoundsUp(x, m);
      AlignOfMultiple(r, m);
    } else {
      AlignWraps(x, m);
      AlignOfMultiple(0, m);
    }
  }

  /** A multiple of m is its own alignment. */
  lemma AlignOfMultiple(x: u32, m: nat)
    requires m == 4 || m == 8 || m == 16
    requires x % m == 0
    ensures AlignTo(x, m) == x
  {
    if m == 16 {
      assert x <= 0x1_0000_0000 - 16 && (x + 15) % 0x1_0000_0000 == x + 15;
      assert (x + 15) / 16 == x / 16;
    } else if m == 8 {
      assert x <= 0x1_0000_0000 - 8 && (x + 7) % 0x1_0000_0000 == x + 7;
      assert (x + 7) / 8 == x / 8;
    } else {
      assert x <= 0x1_0000_0000 - 4 && (x + 3) % 0x1_0000_0000 == x + 3;
      assert (x + 3) / 4 == x / 4;
    }
  }

  /** Below the wrap, a larger value never aligns to less. */
  lemma AlignMonotone(x: u32, y: u32, m: nat)
    requires m == 4 || m == 8 || m == 16
    requires x <= y <= 0x1_0000_0000 - m
    ensures AlignTo(x, m) <= AlignTo(y, m)
  {
    if m == 16 {
      DivMonotone(x + 15, y + 15, 16);
    } else if m == 8 {
      DivMonotone(x + 7, y + 7, 8);
    } else {
      DivMonotone(x + 3, y + 3, 4);
    }
  }

  /** Rounding down to a multiple of m is monotone. */
  lemma DivMonotone(a: nat, b: nat, m: nat)
    requires m == 4 || m == 8 || m == 16
    requires a <= b
    ensures a / m * m <= b / m * m
  {
    if m == 16 {
      assert a / 16 <= b / 16;
    } else if m == 8 {
      assert a / 8 <= b / 8;
    } else {
      assert a / 4 <= b / 4;
    }
  }

  /** int to uint32_t, modulo 2^32. */
  function ToU32(x: int): u32 {
    if 0 <= x < 0x1_0000_0000 then x else x % 0x1_0000_0000
  }

  /** uint32_t back to a two's-complement int. */
  function ToI32(x: u32): int {
    if x < 0x8000_0000 then x else x - 0x1_0000_0000
  }

  /** An alignment applied to the int running total, through the conversions its call makes. */
  function AlignInt(x: int, m: nat): int
    requires m == 4 || m == 8 || m == 16
  {
    ToI32(AlignTo(ToU32(x), m))
  }

  /** On a non-negative total that does not overflow, the conversions change nothing. */
  lemma AlignIntRoundsUp(x: int, m: nat)
    requires m == 4 || m == 8 || m == 16
    requires 0 <= x <= 0x7FFF_FFF0
    ensures AlignInt(x, m) % m == 0 && x <= AlignInt(x, m) && AlignInt(x, m) - m < x
  {
    assert ToU32(x) == x;
    AlignRoundsUp(x, m);
    assert AlignTo(x, m) < 0x8000_0000;
  }

  // ---------------------------------------------------------------------------
  // The registers a compiled prologue saves, in the order of their save slots.

  const GPR_BACKUPS: seq<Register> := [GP, S5, S4, S3, S2, S1, S0]
  const FPR_BACKUPS: seq<Register> := [Fpr(30), Fpr(28), Fpr(26), Fpr(24), Fpr(22), Fpr(20)]

  function Table(kind: SaveKind): seq<Register> {
    match kind
    case GprSaves => GPR_BACKUPS
    case FprSaves => FPR_BACKUPS
  }

  /** The number of entries of each table. */
  function Slots(kind: SaveKind): nat {
    match kind
    case GprSaves => 7
    case FprSaves => 6
  }

  /**
    Entry k of a table, computed: gp and then s5 down to s0, or f30 down to
    f20 in steps of two. The analysis reads the tables through this.
   */
  function SlotRegister(kind: SaveKind, k: nat): Register
    requires k < Slots(kind)
  {
    match kind
    case GprSaves => if k == 0 then GP else Gpr(22 - k)
    case FprSaves => Fpr(30 - 2 * k)
  }

  lemma SlotRegistersAreTables(kind: SaveKind)
    ensures |Table(kind)| == Slots(kind)
    ensures forall k :: 0 <= k < Slots(kind) ==> SlotRegister(kind, k) == Table(kind)[k]
  {
  }

  /**
    The register expected in save slot `n` of `total` slots: the table read
    backwards from entry total - 1. The source asserts total <= |table| and
    n < total, and the table lookup is bounds-checked; any of these failing is None.
   */
  function ExpectedBackup(kind: SaveKind, n: int, total: int): Option<Register> {
    if total > Slots(kind) || n >= total || total - 1 - n >= Slots(kind) then None
    else Some(SlotRegister(kind, total - 1 - n))
  }

  /** It is the bounds-checked lookup of entry total - 1 - n of the table. */
  lemma ExpectedBackupIsLookup(kind: SaveKind, n: int, total: int)
    ensures ExpectedBackup(kind, n, total) ==
      if total <= |Table(kind)| && n < total && total - 1 - n < |Table(kind)|
      then Some(Table(kind)[total - 1 - n]) else None
  {
    SlotRegistersAreTables(kind);
  }

  /** For a slot number n >= 0: defined exactly when n < total <= |table|. */
  lemma ExpectedBackupDefined(kind: SaveKind, n: int, total: int)
    requires 0 <= n
    ensures ExpectedBackup(kind, n, total).Some? <==> n < total <= |Table(kind)|
  {
    SlotRegistersAreTables(kind);
  }

  /** One more save moves every register one slot later. */
  lemma ExpectedBackupShift(kind: SaveKind, n: int, total: int)
    requires 0 <= n < total < |Table(kind)|
    ensures ExpectedBackup(kind, n + 1, total + 1) == ExpectedBackup(kind, n, total)
  {
    SlotRegistersAreTables(kind);
  }

  /** The last slot always holds the table's first register (gp, or f30). */
  lemma ExpectedBackupLast(kind: SaveKind, total: int)
    requires 0 < total <= |Table(kind)|
    ensures ExpectedBackup(kind, total - 1, total) == Some(Table(kind)[0])
  {
    SlotRegistersAreTables(kind);
  }

  /** Different slots expect different registers. */
  lemma ExpectedBackupsDistinct(kind: SaveKind, n: int, k: int, total: int)
    requires 0 <= n < k < total
    ensures ExpectedBackup(kind, n, total).Some? ==> ExpectedBackup(kind, n, total) != ExpectedBackup(kind, k, total)
  {
  }

  // ---------------------------------------------------------------------------
  // Scanning and checking a run of register saves.

  /**
    The number of consecutive saves from `i` on, or None when the saves run to
    the end of the instructions (the bounds-checked read past the end fails).
   */
  function Run(ins: seq<Instruction>, i: nat, kind: SaveKind): (r: Option<nat>)
    ensures r.Some? ==> i + r.value < |ins|
    decreases |ins| - i
  {
    if i >= |ins| then None
    else if !IsSave(kind, ins[i]) then Some(0)
    else match Run(ins, i + 1, kind)
      case None => None
      case Some(n) => Some(n + 1)
  }

  function Shifted(r: Option<nat>, k: nat): Option<nat> {
    if r.None? then None else Some(r.value + k)
  }

  /** A run is exactly the saves before the first non-save; None only when all the rest are saves. */
  lemma {:induction false} RunCounts(ins: seq<Instruction>, i: nat, kind: SaveKind)
    ensures Run(ins, i, kind).Some? ==>
      var n := Run(ins, i, kind).value;
      (forall k :: i <= k < i + n ==> IsSave(kind, ins[k])) && !IsSave(kind, ins[i + n])
    ensures Run(ins, i, kind).None? <==> forall k :: i <= k < |ins| ==> IsSave(kind, ins[k])
    decreases |ins| - i
  {
    if i < |ins| && IsSave(kind, ins[i]) {
      RunCounts(ins, i + 1, kind);
    }
  }

  datatype Check = Pass | Suspect(at: nat) | Fail

  /**
    Checks saves i..n-1 of the run that starts at `idx`: save k must sit at
    `base + stride * k` (asserted by the source: Fail) and store the register
    slot k expects (a mismatch flags the function: Suspect(k)).
   */
  function BackupCheck(ins: seq<Instruction>, idx: nat, n: nat, base: int, stride: int,
                       kind: SaveKind, i: nat): (c: Check)
    requires idx + n <= |ins|
    ensures c.Suspect? ==> i <= c.at < n
    decreases n - i
  {
    if i >= n then Pass
    else if StoreOffset(ins[idx + i]) != base + stride * i then Fail
    else match ExpectedBackup(kind, i, n)
      case None => Fail
      case Some(e) =>
        if StoreValue(ins[idx + i]) != e then Suspect(i)
        else BackupCheck(ins, idx, n, base, stride, kind, i + 1)
  }

  /** Saves j in lo..hi of the run from `idx` sit at their offsets and hold their expected registers. */
  predicate InOrder(ins: seq<Instruction>, idx: nat, n: nat, base: int, stride: int,
                    kind: SaveKind, lo: int, hi: int)
    requires idx + n <= |ins|
  {
    forall j :: idx + lo <= j < idx + hi && idx <= j < idx + n ==>
      StoreOffset(ins[j]) == base + stride * (j - idx)
      && ExpectedBackup(kind, j - idx, n) == Some(StoreValue(ins[j]))
  }

  /** A check passes exactly when every remaining save is in order. */
  lemma {:induction false} BackupCheckPass(ins: seq<Instruction>, idx: nat, n: nat, base: int,
                                           stride: int, kind: SaveKind, i: nat)
    requires idx + n <= |ins|
    ensures BackupCheck(ins, idx, n, base, stride, kind, i) == Pass <==> InOrder(ins, idx, n, base, stride, kind, i, n)
    decreases n - i
  {
    if i < n {
      BackupCheckPass(ins, idx, n, base, stride, kind, i + 1);
    }
  }

  /**
    A check flags save k exactly as the source does: the saves before it are in
    order, it sits at its offset, and its register is not the one its slot expects.
   */
  lemma {:induction false} BackupCheckSuspect(ins: seq<Instruction>, idx: nat, n: nat, base: int,
                                              stride: int, kind: SaveKind, i: nat)
    requires idx + n <= |ins|
    ensures var c := BackupCheck(ins, idx, n, base, stride, kind, i);
      c.Suspect? ==>
        && InOrder(ins, idx, n, base, stride, kind, i, c.at)
        && StoreOffset(ins[idx + c.at]) == base + stride * c.at
        && ExpectedBackup(kind, c.at, n).Some?
        && ExpectedBackup(kind, c.at, n).value != StoreValue(ins[idx + c.at])
    decreases n - i
  {
    if i < n {
      BackupCheckSuspect(ins, idx, n, base, stride, kind, i + 1);
    }
  }

  // ---------------------------------------------------------------------------
  // The function's state and what the analysis records.

  datatype Prologue = Prologue(
    decoded: bool,
    totalStackUsage: int,
    raBackedUp: bool,
    raBackupOffset: int,
    fpBackedUp: bool,
    fpBackupOffset: int,
    fpSet: bool,
    nGprBackup: int,
    gprBackupOffset: int,
    nFprBackup: int,
    fprBackupOffset: int,
    nStackVarBytes: int,
    stackVarOffset: int)

  datatype BasicBlock = BasicBlock(startWord: int, endWord: int)

  /** A snapshot of the fields of a Function the analysis reads and writes. */
  datatype FunctionState = FunctionState(
    basicBlocks: seq<BasicBlock>,
    prologue: Prologue,
    prologueStart: int,
    prologueEnd: int,
    suspectedAsm: bool,
    warnings: seq<Warning>)

  /** How the analysis ends: normally, flagged as assembly, or at a failed assertion. */
  datatype Outcome = Decoded | SuspectedAsm | Aborted

  datatype Analysis = Analysis(outcome: Outcome, state: FunctionState)

  const ZERO_WARNING := "Stack Zeroing Detected, prologue may be wrong\n"
  const A0_WARNING := "a0 on stack detected, prologue may be wrong\n"
  const SUSPECT_WARNING := "Suspected asm function due to stack store: "

  /** A warning the analysis appends to the function's warning text. */
  datatype Warning = StackZeroing | A0OnStack | SuspectStore(store: Instruction)

  /** The text of a warning; `show` stands for the disassembler's rendering of an instruction. */
  function WarningText(w: Warning, show: Instruction -> string): string {
    match w
    case StackZeroing => ZERO_WARNING
    case A0OnStack => A0_WARNING
    case SuspectStore(i) => SUSPECT_WARNING + show(i) + "\n"
  }

  /** The function's warning text: the texts of its warnings, in order. */
  function WarningsText(ws: seq<Warning>, show: Instruction -> string): string {
    if |ws| == 0 then "" else WarningsText(ws[..|ws| - 1], show) + WarningText(ws[|ws| - 1], show)
  }

  /** Appending warnings appends their text, so the text only ever grows at its end. */
  lemma {:induction false} WarningsTextAppend(ws: seq<Warning>, more: seq<Warning>, show: Instruction -> string)
    ensures WarningsText(ws + more, show) == WarningsText(ws, show) + WarningsText(more, show)
    decreases |more|
  {
    if |more| > 0 {
      var init := more[..|more| - 1];
      assert (ws + more)[..|ws + more| - 1] == ws + init;
      WarningsTextAppend(ws, init, show);
    } else {
      assert ws + more == ws;
    }
  }

  /** The warning the GPR scan stops with when it meets a 16-byte store of r0 or a0; none otherwise. */
  function StopWarning(i: Instruction): seq<Warning> {
    if !IsSpStore(i, 16) then []
    else if i.value == R0 then [StackZeroing]
    else if i.value == A0 then [A0OnStack]
    else []
  }

  /** The first basic block now starts at `end`, which it reached; the other blocks are as they were. */
  predicate Trimmed(before: seq<BasicBlock>, after: seq<BasicBlock>, end: int) {
    |before| > 0 && before[0].endWord >= end && after == before[0 := before[0].(startWord := end)]
  }

  /**
    The early return for a probable assembly function: flagged, nothing
    decoded, and the warnings extended by `w` and then the warning that names
    the offending save `at`.
   */
  predicate Flagged(s: FunctionState, t: FunctionState, w: seq<Warning>, at: Instruction) {
    && t.suspectedAsm
    && t.basicBlocks == s.basicBlocks
    && t.prologue.decoded == s.prologue.decoded
    && t.warnings == s.warnings + w + [SuspectStore(at)]
  }

  /**
    Save `k` of the run of saves from `idx` is the first that stores another
    register than its slot expects: the saves before it are in order, and it
    sits at its offset (16 bytes apart for GPRs, 4 for FPRs, from the first).
   */
  predicate Unexpected(ins: seq<Instruction>, idx: nat, kind: SaveKind, k: nat) {
    match Run(ins, idx, kind)
    case None => false
    case Some(n) =>
      var stride := if kind == GprSaves then 16 else 4;
      && k < n
      && InOrder(ins, idx, n, StoreOffset(ins[idx]), stride, kind, 0, k)
      && StoreOffset(ins[idx + k]) == StoreOffset(ins[idx]) + stride * k
      && ExpectedBackup(kind, k, n).Some?
      && ExpectedBackup(kind, k, n).value != StoreValue(ins[idx + k])
  }

  /** The function is flagged for the first unexpected save of the run from `idx`, after the warnings `w`. */
  ghost predicate SuspectFlagged(ins: seq<Instruction>, s: FunctionState, t: FunctionState, w: seq<Warning>,
                                 idx: nat, kind: SaveKind) {
    exists k: nat :: Unexpected(ins, idx, kind, k) && Flagged(s, t, w, ins[idx + k])
  }

  lemma SuspectFlaggedAt(ins: seq<Instruction>, s: FunctionState, t: FunctionState, w: seq<Warning>,
                         idx: nat, kind: SaveKind, k: nat)
    requires Unexpected(ins, idx, kind, k) && Flagged(s, t, w, ins[idx + k])
    ensures SuspectFlagged(ins, s, t, w, idx, kind)
  {
  }

  /** Flagged after a stage that appended `w` is flagged with `w` from before that stage. */
  lemma SuspectFlaggedAfter(ins: seq<Instruction>, s: FunctionState, s': FunctionState, t: FunctionState,
                            w: seq<Warning>, idx: nat, kind: SaveKind)
    requires SuspectFlagged(ins, s', t, [], idx, kind)
    requires s'.warnings == s.warnings + w && s'.basicBlocks == s.basicBlocks
    requires s'.prologue.decoded == s.prologue.decoded
    ensures SuspectFlagged(ins, s, t, w, idx, kind)
  {
    var k: nat :| Unexpected(ins, idx, kind, k) && Flagged(s', t, [], ins[idx + k]);
    assert s'.warnings + [] == s.warnings + w;
    SuspectFlaggedAt(ins, s, t, w, idx, kind, k);
  }

  /**
    How an analysis whose GPR scan starts at `g` ends flagged: the scan's stop
    warning, then the warning for the first unexpected GPR save, or, with all
    GPR saves in order and no stop warning, for the first unexpected FPR save.
   */
  ghost predicate FlaggedFrom(ins: seq<Instruction>, s: FunctionState, t: FunctionState, g: nat) {
    match Run(ins, g, GprSaves)
    case None => false
    case Some(n) =>
      var w := StopWarning(ins[g + n]);
      || SuspectFlagged(ins, s, t, w, g, GprSaves)
      || (&& w == []
          && InOrder(ins, g, n, StoreOffset(ins[g]), 16, GprSaves, 0, n)
          && SuspectFlagged(ins, s, t, w, g + n, FprSaves))
  }

  /** Only the blocks, `decoded` and the warnings of the state before count for FlaggedFrom. */
  lemma FlaggedFromSame(ins: seq<Instruction>, s: FunctionState, s': FunctionState, t: FunctionState, g: nat)
    requires FlaggedFrom(ins, s', t, g)
    requires s'.warnings == s.warnings && s'.basicBlocks == s.basicBlocks && s'.prologue.decoded == s.prologue.decoded
    ensures FlaggedFrom(ins, s, t, g)
  {
    var n := Run(ins, g, GprSaves).value;
    var w := StopWarning(ins[g + n]);
    forall i: nat, kind | SuspectFlagged(ins, s', t, w, i, kind) ensures SuspectFlagged(ins, s, t, w, i, kind) {
      var k: nat :| Unexpected(ins, i, kind, k) && Flagged(s', t, w, ins[i + k]);
      SuspectFlaggedAt(ins, s, t, w, i, kind, k);
    }
  }

  /** Where the GPR scan starts: after the RA save and after the FP save and its or, when present. */
  function GprScanStart(ins: seq<Instruction>, idx: nat): nat {
    var i1 := if idx < |ins| && Saves(ins[idx], RA) then idx + 1 else idx;
    if i1 < |ins| && Saves(ins[i1], FP) then i1 + 2 else i1
  }

  /**
    What every stage of the analysis promises about the state it hands back:
    the stack usage as it was, and on a normal end `decoded` set and the
    first block trimmed.
   */
  predicate Keeps(s: FunctionState, r: Analysis) {
    && (r.outcome != Aborted ==> r.state.prologue.totalStackUsage == s.prologue.totalStackUsage)
    && (r.outcome == Decoded ==>
          r.state.prologue.decoded && Trimmed(s.basicBlocks, r.state.basicBlocks, r.state.prologueEnd))
  }

  /**
    The stack-variable area starts after the RA and FP saves (16 with an FP
    save, 8 with only an RA save, else 0) and runs up to the first register
    save, or to the end of the frame when there is none.
   */
  predicate StackVarsPlaced(p: Prologue) {
    && p.stackVarOffset == (if p.fpBackedUp then 16 else if p.raBackedUp then 8 else 0)
    && p.nStackVarBytes >= 0
    && p.stackVarOffset + p.nStackVarBytes ==
         (if p.nGprBackup != 0 then p.gprBackupOffset
          else if p.nFprBackup != 0 then p.fprBackupOffset
          else p.totalStackUsage)
    && (p.nGprBackup != 0 && p.nFprBackup != 0 ==> p.gprBackupOffset < p.fprBackupOffset)
  }

  /** The bytes the RA and FP saves take in the rebuilt frame: 8 each, and 16 for an FP save alone. */
  function SavedRegBytes(p: Prologue): int {
    if p.fpBackedUp then 16 else if p.raBackedUp then 8 else 0
  }

  function VarsEnd(p: Prologue): int {
    SavedRegBytes(p) + p.nStackVarBytes
  }

  /** Where a section of `count` items taking `bytes` bytes at `offset` ends; an empty one ends at `start`. */
  function SectionEnd(count: int, offset: int, bytes: int, start: int): int {
    if count != 0 then offset + bytes else start
  }

  function GprEnd(p: Prologue): int {
    SectionEnd(p.nGprBackup, p.gprBackupOffset, 16 * p.nGprBackup, VarsEnd(p))
  }

  function UsedBytes(p: Prologue): int {
    SectionEnd(p.nFprBackup, p.fprBackupOffset, 4 * p.nFprBackup, GprEnd(p))
  }

  /** RA saved at 0, FP saved at 8 and then set from t9. */
  predicate RegsLaidOut(p: Prologue) {
    && (p.raBackedUp ==> p.raBackupOffset == 0)
    && (p.fpBackedUp ==> p.fpBackupOffset == 8 && p.fpSet)
  }

  /** A non-empty section starts at the first multiple of m from `start`. */
  predicate SectionLaidOut(count: int, offset: int, m: int, start: int)
    requires m == 4 || m == 16
  {
    count != 0 ==> offset % m == 0 && start <= offset < start + m
  }

  /**
    The canonical frame: RA at 0, FP at 8 (after an 8-byte gap when RA is not
    saved), the stack variables right after, the GPR saves at the next multiple
    of 16, the FPR saves at the next multiple of 4, and the total the next
    multiple of 16 after the last section.
   */
  predicate LaidOut(p: Prologue) {
    && RegsLaidOut(p)
    && (p.nStackVarBytes != 0 ==> p.stackVarOffset == SavedRegBytes(p))
    && SectionLaidOut(p.nGprBackup, p.gprBackupOffset, 16, VarsEnd(p))
    && SectionLaidOut(p.nFprBackup, p.fprBackupOffset, 4, GprEnd(p))
    && p.totalStackUsage % 16 == 0
    && UsedBytes(p) <= p.totalStackUsage < UsedBytes(p) + 16
  }

  /** The running total after the RA and FP sections, or None where their offsets are off. */
  function RegsEnd(p: Prologue): Option<int> {
    var t1 := if p.raBackedUp then AlignInt(0, 8) else 0;
    if p.raBackedUp && p.raBackupOffset != t1 then None
    else
      var t2 := if p.raBackedUp then t1 + 8 else if p.fpBackedUp then t1 + 8 else t1;
      var t3 := if p.fpBackedUp then AlignInt(t2, 8) else t2;
      if p.fpBackedUp && (p.fpBackupOffset != t3 || !p.fpSet) then None
      else Some(if p.fpBackedUp then t3 + 8 else t3)
  }

  /**
    One register-save section: the total is aligned to m, the recorded offset
    must equal it, and the section's `bytes` are added; an empty section is skipped.
   */
  function SectionAt(count: int, offset: int, bytes: int, m: nat, total: int): Option<int>
    requires m == 4 || m == 8 || m == 16
  {
    if count == 0 then Some(total)
    else if offset != AlignInt(total, m) then None
    else Some(AlignInt(total, m) + bytes)
  }

  /**
    The frame rebuilt as a running total: RA, FP, stack variables (not
    aligned), GPRs, FPRs and a final alignment to 16; None where a recorded
    offset does not equal the running total or the FP setup is missing.
   */
  function FrameEnd(p: Prologue): Option<int> {
    match RegsEnd(p)
    case None => None
    case Some(t4) =>
      if p.nStackVarBytes != 0 && p.stackVarOffset != t4 then None
      else
        var t5 := if p.nStackVarBytes != 0 then t4 + p.nStackVarBytes else t4;
        match SectionAt(p.nGprBackup, p.gprBackupOffset, 16 * p.nGprBackup, 16, t5)
        case None => None
        case Some(t7) =>
          match SectionAt(p.nFprBackup, p.fprBackupOffset, 4 * p.nFprBackup, 4, t7)
          case None => None
          case Some(t9) => Some(AlignInt(t9, 16))
  }

  lemma RegsEndIff(p: Prologue)
    ensures RegsEnd(p) == if RegsLaidOut(p) then Some(SavedRegBytes(p)) else None
  {
    assert AlignInt(0, 8) == 0;
    assert AlignInt(8, 8) == 8;
  }

  /** Between 0 and 2^31 - 16 a section check accepts exactly the section at the next multiple of m. */
  lemma SectionAtIff(count: int, offset: int, bytes: int, m: nat, total: int)
    requires m == 4 || m == 16
    requires 0 <= total <= 0x7FFF_FFF0
    ensures SectionAt(count, offset, bytes, m, total) ==
      if SectionLaidOut(count, offset, m, total) then Some(SectionEnd(count, offset, bytes, total)) else None
  {
    if count != 0 {
      AlignIntRoundsUp(total, m);
      var r := AlignInt(total, m);
      if SectionLaidOut(count, offset, m, total) {
        SameMultiple(offset, r, m, total);
      }
    }
  }

  /** Two multiples of m less than m apart are equal. */
  lemma SameMultiple(a: int, b: int, m: int, lo: int)
    requires m == 4 || m == 16
    requires a % m == 0 && b % m == 0 && lo <= a < lo + m && lo <= b < lo + m
    ensures a == b
  {
    if m == 16 {
      assert a == 16 * (a / 16) && b == 16 * (b / 16);
    } else {
      assert a == 4 * (a / 4) && b == 4 * (b / 4);
    }
  }

  /** Sizes small enough that no step of the running total leaves 31 bits. */
  predicate FrameBounds(p: Prologue) {
    && 0 <= p.nStackVarBytes < 0x1000_0000
    && 0 <= p.nGprBackup < 0x100_0000
    && 0 <= p.nFprBackup < 0x100_0000
  }

  /** The rebuilt frame matches the declared stack usage exactly when the frame is the canonical one. */
  lemma FrameEndIffLaidOut(p: Prologue)
    ensures FrameBounds(p) ==> (FrameEnd(p) == Some(p.totalStackUsage) <==> LaidOut(p))
  {
    if FrameBounds(p) {
      RegsEndIff(p);
      SectionAtIff(p.nGprBackup, p.gprBackupOffset, 16 * p.nGprBackup, 16, VarsEnd(p));
      if SectionLaidOut(p.nGprBackup, p.gprBackupOffset, 16, VarsEnd(p)) {
        SectionAtIff(p.nFprBackup, p.fprBackupOffset, 4 * p.nFprBackup, 4, GprEnd(p));
        if SectionLaidOut(p.nFprBackup, p.fprBackupOffset, 4, GprEnd(p)) {
          var t9 := UsedBytes(p);
          AlignIntRoundsUp(t9, 16);
          if p.totalStackUsage % 16 == 0 && t9 <= p.totalStackUsage < t9 + 16 {
            SameMultiple(p.totalStackUsage, AlignInt(t9, 16), 16, t9);
          }
        }
      }
    }
  }

  /** Marking the prologue decoded changes nothing about its frame. */
  lemma DecodedChangesNoLayout(p: Prologue)
    ensures LaidOut(p.(decoded := true)) == LaidOut(p)
    ensures StackVarsPlaced(p.(decoded := true)) == StackVarsPlaced(p)
  {
    var q := p.(decoded := true);
    assert VarsEnd(q) == VarsEnd(p) && GprEnd(q) == GprEnd(p) && UsedBytes(q) == UsedBytes(p);
  }

  /** Offsets, counts and stack usage within what 16-bit immediates and the save tables allow. */
  predicate FitsEncoding(p: Prologue) {
    && -0x8000 <= p.totalStackUsage <= 0x8000
    && 0 <= p.nGprBackup <= Slots(GprSaves)
    && 0 <= p.nFprBackup <= Slots(FprSaves)
    && (p.nGprBackup != 0 ==> -0x8000 <= p.gprBackupOffset < 0x8000)
    && (p.nFprBackup != 0 ==> -0x8000 <= p.fprBackupOffset < 0x8000)
  }

  /**
    The `n` saves just before `end` are saves of the kind, sit `stride` bytes
    apart from `offset`, and hold the first `n` registers of its table in
    reverse order.
   */
  predicate SavesRecorded(ins: seq<Instruction>, end: int, n: int, offset: int, stride: int, kind: SaveKind) {
    && 0 <= n <= end <= |ins|
    && n <= Slots(kind)
    && forall j :: end - n <= j < end ==>
         && IsSave(kind, ins[j])
         && StoreOffset(ins[j]) == offset + stride * (j - (end - n))
         && StoreValue(ins[j]) == SlotRegister(kind, n - 1 - (j - (end - n)))
  }

  /** The prologue ends with the GPR saves followed by the FPR saves, both as recorded. */
  predicate FrameRecorded(ins: seq<Instruction>, p: Prologue, end: int) {
    && SavesRecorded(ins, end, p.nFprBackup, p.fprBackupOffset, 4, FprSaves)
    && SavesRecorded(ins, end - p.nFprBackup, p.nGprBackup, p.gprBackupOffset, 16, GprSaves)
  }

  /** A run that passed its check is recorded at the slots it was read from. */
  lemma PassedRunRecorded(ins: seq<Instruction>, idx: nat, n: nat, base: int, stride: int, kind: SaveKind)
    requires Run(ins, idx, kind) == Some(n)
    requires BackupCheck(ins, idx, n, base, stride, kind, 0) == Pass
    ensures SavesRecorded(ins, idx + n, n, base, stride, kind)
  {
    RunCounts(ins, idx, kind);
    BackupCheckPass(ins, idx, n, base, stride, kind, 0);
    if n > 0 {
      assert ExpectedBackup(kind, 0, n).Some?;
    }
  }

  /** The stack variables are placed and, within encodable sizes, the frame is the canonical one. */
  predicate Placed(q: Prologue) {
    StackVarsPlaced(q) && (FitsEncoding(q) ==> LaidOut(q))
  }

  /** Saves recorded where they were read fit the 16-bit offsets and the save tables. */
  lemma RecordedFits(ins: seq<Instruction>, q: Prologue, end: int)
    requires FrameRecorded(ins, q, end)
    requires -0x8000 <= q.totalStackUsage <= 0x8000
    ensures FitsEncoding(q)
  {
    if q.nFprBackup != 0 {
      assert StoreOffset(ins[end - q.nFprBackup]) == q.fprBackupOffset;
    }
    if q.nGprBackup != 0 {
      var e := end - q.nFprBackup;
      assert StoreOffset(ins[e - q.nGprBackup]) == q.gprBackupOffset;
    }
  }

  // ---------------------------------------------------------------------------
  // The analysis, stage by stage (Function::analyze_prologue). What each stage
  // promises is stated by the lemmas after it.

  /** The end: the first basic block must reach the prologue's end, and then starts there. */
  function Finish(s: FunctionState): Analysis {
    if |s.basicBlocks| == 0 || s.basicBlocks[0].endWord < s.prologueEnd then Analysis(Aborted, s)
    else
      Analysis(Decoded, s.(basicBlocks := s.basicBlocks[0 := s.basicBlocks[0].(startWord := s.prologueEnd)],
                           prologue := s.prologue.(decoded := true)))
  }

  /** The stack-variable size the source picks by which save groups exist; the caller has ruled out fpr <= gpr offsets. */
  function StackVarBytes(p: Prologue, svo: int): int {
    if p.nGprBackup == 0 && p.nFprBackup == 0 then p.totalStackUsage - svo
    else if p.nGprBackup == 0 then p.fprBackupOffset - svo
    else p.gprBackupOffset - svo
  }

  /**
    The stack-variable area, the frame rebuild and its comparison with the
    declared stack usage; then the end. `end` is where the saves stopped.
   */
  function Frame(ins: seq<Instruction>, s: FunctionState, end: int): Analysis
    decreases 1, 0
  {
    var p := s.prologue;
    var svo := if p.fpBackedUp then 16 else if p.raBackedUp then 8 else 0;
    if p.nGprBackup != 0 && p.nFprBackup != 0 && p.fprBackupOffset <= p.gprBackupOffset then
      Analysis(Aborted, s)
    else
      var p1 := p.(stackVarOffset := svo, nStackVarBytes := StackVarBytes(p, svo));
      if p1.nStackVarBytes < 0 || FrameEnd(p1) != Some(p1.totalStackUsage) then Analysis(Aborted, s)
      else Resume(ins, s.(prologue := p1, prologueStart := 1, prologueEnd := end), AtFinish)
  }

  /** Where the analysis goes on after a stage: the backups, the GPR saves, the FPR saves, the frame or the end. */
  datatype Stage = AtBackups(idx: nat) | AtGprs(idx: nat) | AtFprs(idx: nat, scan: bool) | AtFrame(end: int) | AtFinish

  function StageRank(st: Stage): nat {
    match st
    case AtBackups(_) => 4
    case AtGprs(_) => 3
    case AtFprs(_, _) => 2
    case AtFrame(_) => 1
    case AtFinish => 0
  }

  /**
    The analysis from stage `st` on. Each stage hands over to the next one
    through here, so that what a stage does is read one stage at a time.
   */
  function Resume(ins: seq<Instruction>, s: FunctionState, st: Stage): Analysis
    decreases StageRank(st), 1
  {
    match st
    case AtBackups(idx) => Backups(ins, s, idx)
    case AtGprs(idx) => Gprs(ins, s, idx)
    case AtFprs(idx, scan) => Fprs(ins, s, idx, scan)
    case AtFrame(end) => Frame(ins, s, end)
    case AtFinish => Finish(s)
  }

  /** Flags the function for the save `at`, whose register is not the one expected. */
  function Suspected(s: FunctionState, at: Instruction): FunctionState {
    s.(suspectedAsm := true, warnings := s.warnings + [SuspectStore(at)])
  }

  /**
    The FPR saves from `idx`, scanned only when the GPR saves did not stop at a
    store of r0 or a0 (`scan`); their offsets step by 4 from the first one's.
   */
  function Fprs(ins: seq<Instruction>, s: FunctionState, idx: nat, scan: bool): Analysis
    decreases 2, 0
  {
    var run := if scan then Run(ins, idx, FprSaves) else Some(0);
    if run.None? then Analysis(Aborted, s)
    else
      var n := run.value;
      var s1 := if n == 0 then s else s.(prologue := s.prologue.(fprBackupOffset := StoreOffset(ins[idx])));
      var c := if n == 0 then Pass else BackupCheck(ins, idx, n, s1.prologue.fprBackupOffset, 4, FprSaves, 0);
      match c
      case Fail => Analysis(Aborted, s1)
      case Suspect(k) => Analysis(SuspectedAsm, Suspected(s1, ins[idx + k]))
      case Pass => Resume(ins, s1.(prologue := s1.prologue.(nFprBackup := n)), AtFrame(idx + n))
  }

  /** The GPR saves from `idx`; their offsets step by 16 from the first one's. */
  function Gprs(ins: seq<Instruction>, s: FunctionState, idx: nat): Analysis
    decreases 3, 0
  {
    match Run(ins, idx, GprSaves)
    case None => Analysis(Aborted, s)
    case Some(n) =>
      var warning := StopWarning(ins[idx + n]);
      var s1 := s.(warnings := s.warnings + warning);
      var s2 := if n == 0 then s1 else s1.(prologue := s1.prologue.(gprBackupOffset := StoreOffset(ins[idx])));
      var c := if n == 0 then Pass else BackupCheck(ins, idx, n, s2.prologue.gprBackupOffset, 16, GprSaves, 0);
      match c
      case Fail => Analysis(Aborted, s2)
      case Suspect(k) => Analysis(SuspectedAsm, Suspected(s2, ins[idx + k]))
      case Pass => Resume(ins, s2.(prologue := s2.prologue.(nGprBackup := n)), AtFprs(idx + n, warning == []))
  }

  /** The RA save (offset 0), then the FP save (offset 8) and its or fp, t9, r0; then the GPR saves. */
  function Backups(ins: seq<Instruction>, s: FunctionState, idx: nat): Analysis
    decreases 4, 0
  {
    if idx >= |ins| then Analysis(Aborted, s)
    else
      var ra := Saves(ins[idx], RA);
      if ra && StoreOffset(ins[idx]) != 0 then Analysis(Aborted, s)
      else
        var p1 := if ra then s.prologue.(raBackedUp := true, raBackupOffset := 0) else s.prologue;
        var i1 := if ra then idx + 1 else idx;
        if i1 >= |ins| then Analysis(Aborted, s)
        else
          var fp := Saves(ins[i1], FP);
          if fp && (StoreOffset(ins[i1]) != 8 || i1 + 1 >= |ins| || !IsFpSetup(ins[i1 + 1])) then
            Analysis(Aborted, s)
          else
            var p2 := if fp then p1.(fpBackedUp := true, fpBackupOffset := 8, fpSet := true) else p1;
            Resume(ins, s.(prologue := p2), AtGprs(if fp then i1 + 2 else i1))
  }

  /**
    The whole analysis: the stack allocation at instruction 1, the register
    saves and the frame check when the function uses the stack, and the end.
   */
  function Analyze(ins: seq<Instruction>, s: FunctionState): Analysis {
    if |ins| < 2 then Analysis(Aborted, s)
    else
      var usage := StackUsage(ins[1]);
      var s1 := s.(prologue := s.prologue.(totalStackUsage := usage));
      // a non-zero usage comes from the daddiu at instruction 1, so the saves start at 2
      if usage == 0 then Finish(s1) else Backups(ins, s1, 2)
  }

  lemma FinishFacts(s: FunctionState)
    ensures var r := Finish(s);
      && r.outcome != SuspectedAsm
      && (r.outcome == Decoded ==>
            && Trimmed(s.basicBlocks, r.state.basicBlocks, s.prologueEnd)
            && r.state == s.(prologue := s.prologue.(decoded := true), basicBlocks := r.state.basicBlocks))
  {
  }

  /**
    A frame that passes its check is placed; only the stack-variable fields,
    the prologue bounds and `decoded` change.
   */
  lemma FrameFacts(ins: seq<Instruction>, s: FunctionState, end: int)
    ensures var r := Frame(ins, s, end);
      && Keeps(s, r) && r.outcome != SuspectedAsm
      && (r.outcome == Decoded ==>
            var q := r.state.prologue;
            && r.state.prologueStart == 1
            && r.state.prologueEnd == end
            && q.(decoded := s.prologue.decoded, stackVarOffset := s.prologue.stackVarOffset,
                  nStackVarBytes := s.prologue.nStackVarBytes) == s.prologue
            && Placed(q))
  {
    var p := s.prologue;
    var svo := if p.fpBackedUp then 16 else if p.raBackedUp then 8 else 0;
    var p1 := p.(stackVarOffset := svo, nStackVarBytes := StackVarBytes(p, svo));
    FrameEndIffLaidOut(p1);
    DecodedChangesNoLayout(p1);
    var t := s.(prologue := p1, prologueStart := 1, prologueEnd := end);
    assert Resume(ins, t, AtFinish) == Finish(t);
    FinishFacts(t);
  }

  /**
    After the FPR saves: the FPR saves are recorded before the end, so with
    the GPR saves recorded before `idx` the whole frame is.
   */
  lemma FprsFacts(ins: seq<Instruction>, s: FunctionState, idx: nat, scan: bool)
    requires idx <= |ins|
    ensures var r := Fprs(ins, s, idx, scan);
      && Keeps(s, r)
      && (r.outcome == Decoded ==>
            && r.state.prologueStart == 1
            && Placed(r.state.prologue)
            && (SavesRecorded(ins, idx, s.prologue.nGprBackup, s.prologue.gprBackupOffset, 16, GprSaves) ==>
                  FrameRecorded(ins, r.state.prologue, r.state.prologueEnd)))
  {
    var run := if scan then Run(ins, idx, FprSaves) else Some(0);
    if run.Some? {
      var n := run.value;
      var s1 := if n == 0 then s else s.(prologue := s.prologue.(fprBackupOffset := StoreOffset(ins[idx])));
      var c := if n == 0 then Pass else BackupCheck(ins, idx, n, s1.prologue.fprBackupOffset, 4, FprSaves, 0);
      if c == Pass {
        var t := s1.(prologue := s1.prologue.(nFprBackup := n));
        assert Fprs(ins, s, idx, scan) == Frame(ins, t, idx + n);
        if n != 0 {
          PassedRunRecorded(ins, idx, n, s1.prologue.fprBackupOffset, 4, FprSaves);
        }
        FrameAfterFprs(ins, t, idx, n, s.prologue.nGprBackup, s.prologue.gprBackupOffset);
      } else {
        assert Fprs(ins, s, idx, scan).outcome != Decoded;
      }
    } else {
      assert Fprs(ins, s, idx, scan) == Analysis(Aborted, s);
    }
  }

  /**
    The frame step keeps the register saves recorded before it: `n` FPR saves
    end at `idx + n`, after `gn` GPR saves from `goff` that end at `idx`.
   */
  lemma FrameAfterFprs(ins: seq<Instruction>, t: FunctionState, idx: nat, n: nat, gn: int, goff: int)
    requires t.prologue.nFprBackup == n && t.prologue.nGprBackup == gn && t.prologue.gprBackupOffset == goff
    requires SavesRecorded(ins, idx + n, n, t.prologue.fprBackupOffset, 4, FprSaves)
    ensures var r := Frame(ins, t, idx + n);
      && Keeps(t, r)
      && (r.outcome == Decoded ==>
            && r.state.prologueStart == 1
            && Placed(r.state.prologue)
            && (SavesRecorded(ins, idx, gn, goff, 16, GprSaves) ==>
                  FrameRecorded(ins, r.state.prologue, r.state.prologueEnd)))
  {
    FrameFacts(ins, t, idx + n);
    var r := Frame(ins, t, idx + n);
    if r.outcome == Decoded {
      var q := r.state.prologue;
      assert q.nFprBackup == n && q.fprBackupOffset == t.prologue.fprBackupOffset;
      assert q.nGprBackup == gn && q.gprBackupOffset == goff;
      assert r.state.prologueEnd - n == idx;
    }
  }

  /** After the GPR saves: both runs of saves are recorded as they were read. */
  lemma GprsFacts(ins: seq<Instruction>, s: FunctionState, idx: nat)
    ensures var r := Gprs(ins, s, idx);
      && Keeps(s, r)
      && (r.outcome == Decoded ==>
            && r.state.prologueStart == 1
            && Placed(r.state.prologue)
            && FrameRecorded(ins, r.state.prologue, r.state.prologueEnd))
  {
    var run := Run(ins, idx, GprSaves);
    if run.Some? {
      var n := run.value;
      var warning := StopWarning(ins[idx + n]);
      var s1 := s.(warnings := s.warnings + warning);
      var s2 := if n == 0 then s1 else s1.(prologue := s1.prologue.(gprBackupOffset := StoreOffset(ins[idx])));
      var c := if n == 0 then Pass else BackupCheck(ins, idx, n, s2.prologue.gprBackupOffset, 16, GprSaves, 0);
      if c == Pass {
        var s3 := s2.(prologue := s2.prologue.(nGprBackup := n));
        assert Gprs(ins, s, idx) == Fprs(ins, s3, idx + n, warning == []);
        PassedRunRecorded(ins, idx, n, s2.prologue.gprBackupOffset, 16, GprSaves);
        FprsFacts(ins, s3, idx + n, warning == []);
      }
    }
  }

  lemma BackupsFacts(ins: seq<Instruction>, s: FunctionState, idx: nat)
    ensures var r := Backups(ins, s, idx);
      && Keeps(s, r)
      && (r.outcome == Decoded ==>
            && r.state.prologueStart == 1
            && Placed(r.state.prologue)
            && FrameRecorded(ins, r.state.prologue, r.state.prologueEnd))
  {
    if idx < |ins| {
      var ra := Saves(ins[idx], RA);
      var p1 := if ra then s.prologue.(raBackedUp := true, raBackupOffset := 0) else s.prologue;
      var i1 := if ra then idx + 1 else idx;
      if i1 < |ins| {
        var fp := Saves(ins[i1], FP);
        var p2 := if fp then p1.(fpBackedUp := true, fpBackupOffset := 8, fpSet := true) else p1;
        GprsFacts(ins, s.(prologue := p2), if fp then i1 + 2 else i1);
      }
    }
  }

  /** An FPR save with an unexpected register flags the function (the frame check never does). */
  lemma FprsFlags(ins: seq<Instruction>, s: FunctionState, idx: nat, scan: bool)
    ensures var r := Fprs(ins, s, idx, scan);
      r.outcome == SuspectedAsm ==>
        scan && SuspectFlagged(ins, s, r.state, [], idx, FprSaves)
  {
    var run := if scan then Run(ins, idx, FprSaves) else Some(0);
    if run.Some? {
      var n := run.value;
      var s1 := if n == 0 then s else s.(prologue := s.prologue.(fprBackupOffset := StoreOffset(ins[idx])));
      var c := if n == 0 then Pass else BackupCheck(ins, idx, n, s1.prologue.fprBackupOffset, 4, FprSaves, 0);
      match c
      case Suspect(k) =>
        BackupCheckSuspect(ins, idx, n, s1.prologue.fprBackupOffset, 4, FprSaves, 0);
        assert Fprs(ins, s, idx, scan) == Analysis(SuspectedAsm, Suspected(s1, ins[idx + k]));
        assert s.warnings + [] + [SuspectStore(ins[idx + k])] == s.warnings + [SuspectStore(ins[idx + k])];
        SuspectFlaggedAt(ins, s, Suspected(s1, ins[idx + k]), [], idx, FprSaves, k);
      case Pass =>
        FrameFacts(ins, s1.(prologue := s1.prologue.(nFprBackup := n)), idx + n);
      case Fail =>
    }
  }

  lemma GprsFlags(ins: seq<Instruction>, s: FunctionState, idx: nat)
    ensures var r := Gprs(ins, s, idx);
      r.outcome == SuspectedAsm ==> FlaggedFrom(ins, s, r.state, idx)
  {
    var run := Run(ins, idx, GprSaves);
    if run.Some? {
      var n := run.value;
      var warning := StopWarning(ins[idx + n]);
      var s1 := s.(warnings := s.warnings + warning);
      var s2 := if n == 0 then s1 else s1.(prologue := s1.prologue.(gprBackupOffset := StoreOffset(ins[idx])));
      var c := if n == 0 then Pass else BackupCheck(ins, idx, n, s2.prologue.gprBackupOffset, 16, GprSaves, 0);
      match c
      case Suspect(k) =>
        assert Gprs(ins, s, idx) == Analysis(SuspectedAsm, Suspected(s2, ins[idx + k]));
        GprSuspectFlagged(ins, s, s2, idx, n, k);
      case Pass =>
        var s3 := s2.(prologue := s2.prologue.(nGprBackup := n));
        assert Gprs(ins, s, idx) == Fprs(ins, s3, idx + n, warning == []);
        if n != 0 {
          BackupCheckPass(ins, idx, n, s2.prologue.gprBackupOffset, 16, GprSaves, 0);
        }
        FprsFlagsAfterGprs(ins, s, s3, idx, n, warning);
      case Fail =>
    }
  }

  /** A GPR save out of order flags the function after the scan's stop warning. */
  lemma GprSuspectFlagged(ins: seq<Instruction>, s: FunctionState, s2: FunctionState, idx: nat, n: nat, k: nat)
    requires Run(ins, idx, GprSaves) == Some(n) && n != 0
    requires BackupCheck(ins, idx, n, StoreOffset(ins[idx]), 16, GprSaves, 0) == Suspect(k)
    requires s2.warnings == s.warnings + StopWarning(ins[idx + n]) && s2.basicBlocks == s.basicBlocks
    requires s2.prologue.decoded == s.prologue.decoded
    ensures k < n && FlaggedFrom(ins, s, Suspected(s2, ins[idx + k]), idx)
  {
    BackupCheckSuspect(ins, idx, n, StoreOffset(ins[idx]), 16, GprSaves, 0);
    SuspectFlaggedAt(ins, s, Suspected(s2, ins[idx + k]), StopWarning(ins[idx + n]), idx, GprSaves, k);
  }

  /** The FPR stage, after `n` GPR saves in order from `idx` and the stop warning `w`, flags as FlaggedFrom says. */
  lemma FprsFlagsAfterGprs(ins: seq<Instruction>, s: FunctionState, s3: FunctionState, idx: nat, n: nat, w: seq<Warning>)
    requires Run(ins, idx, GprSaves) == Some(n) && w == StopWarning(ins[idx + n])
    requires InOrder(ins, idx, n, StoreOffset(ins[idx]), 16, GprSaves, 0, n)
    requires s3.warnings == s.warnings + w && s3.basicBlocks == s.basicBlocks
    requires s3.prologue.decoded == s.prologue.decoded
    ensures var r := Fprs(ins, s3, idx + n, w == []);
      r.outcome == SuspectedAsm ==> FlaggedFrom(ins, s, r.state, idx)
  {
    FprsFlags(ins, s3, idx + n, w == []);
    var r := Fprs(ins, s3, idx + n, w == []);
    if r.outcome == SuspectedAsm {
      SuspectFlaggedAfter(ins, s, s3, r.state, w, idx + n, FprSaves);
    }
  }

  lemma BackupsFlags(ins: seq<Instruction>, s: FunctionState, idx: nat)
    ensures var r := Backups(ins, s, idx);
      r.outcome == SuspectedAsm ==> FlaggedFrom(ins, s, r.state, GprScanStart(ins, idx))
  {
    if idx < |ins| {
      var ra := Saves(ins[idx], RA);
      var p1 := if ra then s.prologue.(raBackedUp := true, raBackupOffset := 0) else s.prologue;
      var i1 := if ra then idx + 1 else idx;
      if i1 < |ins| {
        var fp := Saves(ins[i1], FP);
        var p2 := if fp then p1.(fpBackedUp := true, fpBackupOffset := 8, fpSet := true) else p1;
        var g := if fp then i1 + 2 else i1;
        assert g == GprScanStart(ins, idx);
        var r := Backups(ins, s, idx);
        if r.outcome == SuspectedAsm {
          assert r == Resume(ins, s.(prologue := p2), AtGprs(g));
          assert r == Gprs(ins, s.(prologue := p2), g);
          GprsFlags(ins, s.(prologue := p2), g);
          FlaggedFromSame(ins, s, s.(prologue := p2), r.state, g);
        }
      }
    }
  }

  /**
    The recorded stack usage is -imm of a daddiu sp, sp, imm at instruction 1,
    and 0 otherwise; with no stack usage nothing is analysed and only
    `decoded` and the first block change.
   */
  lemma AnalyzeStackUsage(ins: seq<Instruction>, s: FunctionState)
    ensures var r := Analyze(ins, s);
      && (r.outcome != Aborted ==>
            && |ins| >= 2
            && r.state.prologue.totalStackUsage == StackUsage(ins[1])
            && (StackUsage(ins[1]) == 0 ==>
                  && r.outcome == Decoded
                  && r.state == s.(prologue := s.prologue.(totalStackUsage := 0, decoded := true),
                                   basicBlocks := r.state.basicBlocks)))
  {
    if |ins| >= 2 {
      var usage := StackUsage(ins[1]);
      var s1 := s.(prologue := s.prologue.(totalStackUsage := usage));
      if usage == 0 {
        FinishFacts(s1);
      } else {
        BackupsFacts(ins, s1, 2);
      }
    }
  }

  /**
    A normal end marks the prologue decoded and trims the first basic block
    to start at the prologue's end; when the function uses the stack, the
    stack variables are placed, the frame is the canonical one, and the
    register saves are recorded where they were read.
   */
  lemma AnalyzeDecoded(ins: seq<Instruction>, s: FunctionState)
    ensures var r := Analyze(ins, s);
      r.outcome == Decoded ==>
        && r.state.prologue.decoded
        && Trimmed(s.basicBlocks, r.state.basicBlocks, r.state.prologueEnd)
        && (StackUsage(ins[1]) != 0 ==>
              && r.state.prologueStart == 1
              && StackVarsPlaced(r.state.prologue)
              && LaidOut(r.state.prologue)
              && FrameRecorded(ins, r.state.prologue, r.state.prologueEnd))
  {
    if |ins| >= 2 {
      var usage := StackUsage(ins[1]);
      var s1 := s.(prologue := s.prologue.(totalStackUsage := usage));
      if usage == 0 {
        FinishFacts(s1);
      } else {
        BackupsFacts(ins, s1, 2);
        var r := Backups(ins, s1, 2);
        if r.outcome == Decoded {
          RecordedFits(ins, r.state.prologue, r.state.prologueEnd);
        }
      }
    }
  }

  /**
    A save with an unexpected register flags the function, only appends to
    the warnings, and leaves the basic blocks and `decoded` as they were.
   */
  lemma AnalyzeSuspected(ins: seq<Instruction>, s: FunctionState)
    ensures var r := Analyze(ins, s);
      r.outcome == SuspectedAsm ==> StackUsage(ins[1]) != 0 && FlaggedFrom(ins, s, r.state, GprScanStart(ins, 2))
  {
    if |ins| >= 2 {
      var usage := StackUsage(ins[1]);
      var s1 := s.(prologue := s.prologue.(totalStackUsage := usage));
      if usage == 0 {
        FinishFacts(s1);
      } else {
        BackupsFlags(ins, s1, 2);
      }
    }
  }

  // ---------------------------------------------------------------------------
  // The function object whose fields the analysis updates in place.

  class Function {
    const startWord: int
    const endWord: int
    const instructions: seq<Instruction>
    var basicBlocks: seq<BasicBlock>
    var prologue: Prologue
    var prologueStart: int
    var prologueEnd: int
    var suspectedAsm: bool
    var warnings: seq<Warning>

    /**
      A function over the given words and their decoded instructions; the
      other fields start as the class declares them.
     */
    constructor (startWord: int, endWord: int, instructions: seq<Instruction>)
      ensures this.startWord == startWord && this.endWord == endWord && this.instructions == instructions
    {
      this.startWord := startWord;
      this.endWord := endWord;
      this.instructions := instructions;
    }

    function State(): FunctionState
      reads this
    {
      FunctionState(basicBlocks, prologue, prologueStart, prologueEnd, suspectedAsm, warnings)
    }

    /**
      Function::analyze_prologue. On Aborted (an assertion of the source
      failing) the state is not described.
     */
    method AnalyzePrologue() returns (outcome: Outcome)
      modifies this
      ensures var r := Analyze(instructions, old(State()));
        outcome == r.outcome && (outcome != Aborted ==> State() == r.state)
    {
      if |instructions| < 2 {
        return Aborted;
      }
      var idx := 1;
      if IsStackAlloc(instructions[idx]) {
        prologue := prologue.(totalStackUsage := -(instructions[idx].imm as int));
        idx := idx + 1;
      } else {
        prologue := prologue.(totalStackUsage := 0);
      }
      if prologue.totalStackUsage != 0 {
        outcome := AnalyzeSaves(idx);
      } else {
        outcome := FinishPrologue();
      }
    }

    method AnalyzeSaves(idx: nat) returns (outcome: Outcome)
      modifies this
      ensures var r := Backups(instructions, old(State()), idx);
        outcome == r.outcome && (outcome != Aborted ==> State() == r.state)
    {
      var i := idx;
      var p := prologue;
      if i >= |instructions| {
        return Aborted;
      }
      if Saves(instructions[i], RA) {
        p := p.(raBackedUp := true, raBackupOffset := StoreOffset(instructions[i]));
        if p.raBackupOffset != 0 {
          return Aborted;
        }
        i := i + 1;
      }
      if i >= |instructions| {
        return Aborted;
      }
      if Saves(instructions[i], FP) {
        p := p.(fpBackedUp := true, fpBackupOffset := StoreOffset(instructions[i]));
        if p.fpBackupOffset != 8 {
          return Aborted;
        }
        i := i + 1;
        if i >= |instructions| {
          return Aborted;
        }
        p := p.(fpSet := IsFpSetup(instructions[i]));
        if !p.fpSet {
          return Aborted;
        }
        i := i + 1;
      }
      prologue := p;
      outcome := AnalyzeGprSaves(i);
    }

    method AnalyzeGprSaves(idx: nat) returns (outcome: Outcome)
      modifies this
      ensures var r := Gprs(instructions, old(State()), idx);
        outcome == r.outcome && (outcome != Aborted ==> State() == r.state)
    {
      var n, warning := ScanGprSaves(idx);
      if n.None? {
        return Aborted;
      }
      var nGprBackups := n.value;
      var gprIdx := idx + nGprBackups;
      var expectNothingAfterGprs := warning != [];
      var p := prologue;
      if nGprBackups != 0 {
        p := p.(gprBackupOffset := StoreOffset(instructions[idx]));
        var c := CheckSaves(idx, nGprBackups, p.gprBackupOffset, 16, GprSaves);
        if c.Fail? {
          return Aborted;
        }
        if c.Suspect? {
          prologue := p;
          suspectedAsm := true;
          warnings := warnings + warning + [SuspectStore(instructions[idx + c.at])];
          return SuspectedAsm;
        }
      }
      prologue := p.(nGprBackup := nGprBackups);
      warnings := warnings + warning;
      outcome := AnalyzeFprSaves(gprIdx, !expectNothingAfterGprs);
    }

    method AnalyzeFprSaves(idx: nat, scan: bool) returns (outcome: Outcome)
      modifies this
      ensures var r := Fprs(instructions, old(State()), idx, scan);
        outcome == r.outcome && (outcome != Aborted ==> State() == r.state)
    {
      var nFprBackups := 0;
      var fprIdx := idx;
      var p := prologue;
      if scan {
        var n := ScanFprSaves(idx);
        if n.None? {
          return Aborted;
        }
        nFprBackups := n.value;
        fprIdx := idx + nFprBackups;
        if nFprBackups != 0 {
          p := p.(fprBackupOffset := StoreOffset(instructions[idx]));
          var c := CheckSaves(idx, nFprBackups, p.fprBackupOffset, 4, FprSaves);
          if c.Fail? {
            return Aborted;
          }
          if c.Suspect? {
            prologue := p;
            suspectedAsm := true;
            warnings := warnings + [SuspectStore(instructions[idx + c.at])];
            return SuspectedAsm;
          }
        }
      }
      prologue := p.(nFprBackup := nFprBackups);
      outcome := AnalyzeFrame(fprIdx);
    }

    method AnalyzeFrame(end: int) returns (outcome: Outcome)
      modifies this
      ensures var r := Frame(instructions, old(State()), end);
        outcome == r.outcome && (outcome != Aborted ==> State() == r.state)
    {
      prologueStart := 1;
      prologueEnd := end;
      var placed := PlaceStackVars();
      if !placed {
        return Aborted;
      }
      var ok := CheckFrame();
      if !ok {
        return Aborted;
      }
      outcome := FinishPrologue();
    }

    /**
      The stack-variable area: its offset after the RA and FP saves and its
      size up to the first register save; false when the FPR saves do not
      come after the GPR saves or the size is negative.
     */
    method PlaceStackVars() returns (placed: bool)
      modifies this
      ensures var p := old(prologue);
        var svo := if p.fpBackedUp then 16 else if p.raBackedUp then 8 else 0;
        && placed == (!(p.nGprBackup != 0 && p.nFprBackup != 0 && p.fprBackupOffset <= p.gprBackupOffset)
                      && StackVarBytes(p, svo) >= 0)
        && (placed ==> State() == old(State()).(prologue := p.(stackVarOffset := svo,
                                                                nStackVarBytes := StackVarBytes(p, svo))))
    {
      var p := prologue;
      var svo := 0;
      if p.raBackedUp {
        svo := 8;
      }
      if p.fpBackedUp {
        svo := 16;
      }
      p := p.(stackVarOffset := svo);
      if p.nGprBackup == 0 && p.nFprBackup == 0 {
        p := p.(nStackVarBytes := p.totalStackUsage - svo);
      } else if p.nGprBackup == 0 {
        p := p.(nStackVarBytes := p.fprBackupOffset - svo);
      } else if p.nFprBackup == 0 {
        p := p.(nStackVarBytes := p.gprBackupOffset - svo);
      } else {
        if p.fprBackupOffset <= p.gprBackupOffset {
          return false;
        }
        p := p.(nStackVarBytes := p.gprBackupOffset - svo);
      }
      prologue := p;
      placed := p.nStackVarBytes >= 0;
    }

    method FinishPrologue() returns (outcome: Outcome)
      modifies this
      ensures var r := Finish(old(State()));
        outcome == r.outcome && (outcome != Aborted ==> State() == r.state)
    {
      if |basicBlocks| == 0 || basicBlocks[0].endWord < prologueEnd {
        return Aborted;
      }
      basicBlocks := basicBlocks[0 := basicBlocks[0].(startWord := prologueEnd)];
      prologue := prologue.(decoded := true);
      return Decoded;
    }

    /** The GPR save scan: the saves from `from` on, and the warning it stops with. */
    method ScanGprSaves(from: nat) returns (n: Option<nat>, warning: seq<Warning>)
      ensures n == Run(instructions, from, GprSaves)
      ensures n.Some? ==> warning == StopWarning(instructions[from + n.value])
    {
      var gprIdx := from;
      var count := 0;
      warning := [];
      while true
        invariant gprIdx == from + count
        invariant Run(instructions, from, GprSaves) == Shifted(Run(instructions, gprIdx, GprSaves), count)
        decreases |instructions| - gprIdx
      {
        if gprIdx >= |instructions| {
          return None, warning;
        }
        var store := instructions[gprIdx];
        if !IsSpStore(store, 16) {
          break;
        }
        if store.value == R0 {
          warning := [StackZeroing];
          break;
        }
        if store.value == A0 {
          warning := [A0OnStack];
          break;
        }
        count := count + 1;
        gprIdx := gprIdx + 1;
      }
      return Some(count), warning;
    }

    /** The FPR save scan: the saves from `from` on. */
    method ScanFprSaves(from: nat) returns (n: Option<nat>)
      ensures n == Run(instructions, from, FprSaves)
    {
      var fprIdx := from;
      var count := 0;
      while true
        invariant fprIdx == from + count
        invariant Run(instructions, from, FprSaves) == Shifted(Run(instructions, fprIdx, FprSaves), count)
        decreases |instructions| - fprIdx
      {
        if fprIdx >= |instructions| {
          return None;
        }
        if !IsFprSave(instructions[fprIdx]) {
          break;
        }
        count := count + 1;
        fprIdx := fprIdx + 1;
      }
      return Some(count);
    }

    /** The check loop over the `n` saves from `idx`. */
    method CheckSaves(idx: nat, n: nat, base: int, stride: int, kind: SaveKind) returns (c: Check)
      requires idx + n <= |instructions|
      ensures c == BackupCheck(instructions, idx, n, base, stride, kind, 0)
    {
      var i := 0;
      while i < n
        invariant 0 <= i <= n
        invariant BackupCheck(instructions, idx, n, base, stride, kind, 0)
               == BackupCheck(instructions, idx, n, base, stride, kind, i)
      {
        var thisOffset := StoreOffset(instructions[idx + i]);
        var thisReg := StoreValue(instructions[idx + i]);
        if thisOffset != base + stride * i {
          return Fail;
        }
        var expected := ExpectedBackup(kind, i, n);
        if expected.None? || thisReg != expected.value {
          return if expected.None? then Fail else Suspect(i);
        }
        i := i + 1;
      }
      return Pass;
    }

    /** The frame rebuild, as the running total `totalStack`. */
    method CheckFrame() returns (ok: bool)
      ensures ok == (FrameEnd(prologue) == Some(prologue.totalStackUsage))
    {
      var p := prologue;
      var regsEnd := CheckRegs();
      if regsEnd.None? {
        return false;
      }
      var totalStack := regsEnd.value;
      if p.nStackVarBytes != 0 {
        if p.stackVarOffset != totalStack {
          return false;
        }
        totalStack := totalStack + p.nStackVarBytes;
      }
      var gprEnd := CheckSection(p.nGprBackup, p.gprBackupOffset, 16 * p.nGprBackup, 16, totalStack);
      if gprEnd.None? {
        return false;
      }
      var fprEnd := CheckSection(p.nFprBackup, p.fprBackupOffset, 4 * p.nFprBackup, 4, gprEnd.value);
      if fprEnd.None? {
        return false;
      }
      totalStack := AlignInt(fprEnd.value, 16);
      ok := p.totalStackUsage == totalStack;
    }

    /** The RA and FP part of the frame rebuild: the running total after them, or None at a failed check. */
    method CheckRegs() returns (total: Option<int>)
      ensures total == RegsEnd(prologue)
    {
      var p := prologue;
      var totalStack := 0;
      if p.raBackedUp {
        totalStack := AlignInt(totalStack, 8);
        if p.raBackupOffset != totalStack {
          return None;
        }
        totalStack := totalStack + 8;
      }
      if !p.raBackedUp && p.fpBackedUp {
        totalStack := totalStack + 8;
      }
      if p.fpBackedUp {
        totalStack := AlignInt(totalStack, 8);
        if p.fpBackupOffset != totalStack {
          return None;
        }
        totalStack := totalStack + 8;
        if !p.fpSet {
          return None;
        }
      }
      return Some(totalStack);
    }

    /** One register-save section of the frame rebuild: align, compare the recorded offset, add the bytes. */
    method CheckSection(count: int, offset: int, bytes: int, m: nat, total: int) returns (r: Option<int>)
      requires m == 4 || m == 16
      ensures r == SectionAt(count, offset, bytes, m, total)
    {
      if count == 0 {
        return Some(total);
      }
      var totalStack := AlignInt(total, m);
      if offset != totalStack {
        return None;
      }
      return Some(totalStack + bytes);
    }
  }
}
