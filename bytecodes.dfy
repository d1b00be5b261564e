/**
 * Java bytecode instructions as the method comparator sees them: one decoded
 * instruction at a time, with its position (bci), its standard opcode, its
 * `wide` flag and its raw bytes. Opcode numbers and instruction formats follow
 * section 6.5 of the Java Virtual Machine Specification.
 */
module Bytecodes {

  /** One byte of a method's code array. */
  type Byte = b: int | 0 <= b < 0x100

  /** A standard opcode (the stream reports "fast" variants as their standard form). */
  type Opcode = c: int | 0 <= c < 0x100

  const BIPUSH: Opcode := 16
  const SIPUSH: Opcode := 17
  const LDC: Opcode := 18
  const LDC_W: Opcode := 19
  const LDC2_W: Opcode := 20
  const ILOAD: Opcode := 21
  const ALOAD: Opcode := 25
  const ISTORE: Opcode := 54
  const ASTORE: Opcode := 58
  const IINC: Opcode := 132
  const IFEQ: Opcode := 153
  const IF_ACMPNE: Opcode := 166
  const GOTO: Opcode := 167
  const JSR: Opcode := 168
  const RET: Opcode := 169
  const TABLESWITCH: Opcode := 170
  const LOOKUPSWITCH: Opcode := 171
  const GETSTATIC: Opcode := 178
  const INVOKESTATIC: Opcode := 184
  const INVOKEINTERFACE: Opcode := 185
  const INVOKEDYNAMIC: Opcode := 186
  const NEW: Opcode := 187
  const NEWARRAY: Opcode := 188
  const ANEWARRAY: Opcode := 189
  const CHECKCAST: Opcode := 192
  const INSTANCEOF: Opcode := 193
  const WIDE: Opcode := 196
  const MULTIANEWARRAY: Opcode := 197
  const IFNULL: Opcode := 198
  const IFNONNULL: Opcode := 199
  const GOTO_W: Opcode := 200
  const JSR_W: Opcode := 201

  // Opcode categories, one per group of `case` labels in the comparator.

  /** new, anewarray, multianewarray, checkcast, instanceof: a class reference. */
  predicate IsClassRef(c: Opcode) {
    c == NEW || c == ANEWARRAY || c == MULTIANEWARRAY || c == CHECKCAST || c == INSTANCEOF
  }

  /** getstatic .. invokeinterface: a field or method reference. */
  predicate IsMemberRef(c: Opcode) {
    GETSTATIC <= c <= INVOKEINTERFACE
  }

  /** iload .. aload, istore .. astore and ret: a local-variable slot. */
  predicate IsLocalAccess(c: Opcode) {
    (ILOAD <= c <= ALOAD) || (ISTORE <= c <= ASTORE) || c == RET
  }

  /** The if* family, goto, jsr, ifnull, ifnonnull: a 16-bit branch offset. */
  predicate IsBranch(c: Opcode) {
    (IFEQ <= c <= JSR) || c == IFNULL || c == IFNONNULL
  }

  /** goto_w and jsr_w: a 32-bit branch offset. */
  predicate IsWideBranch(c: Opcode) {
    c == GOTO_W || c == JSR_W
  }

  predicate IsSwitch(c: Opcode) {
    c == TABLESWITCH || c == LOOKUPSWITCH
  }

  /** The opcodes that the `wide` prefix may modify. */
  predicate Widenable(c: Opcode) {
    IsLocalAccess(c) || c == IINC
  }

  /** The length in bytes of every instruction other than the two switches. */
  function InstrLength(c: Opcode, wide: bool): nat {
    if wide then (if c == IINC then 6 else 4)
    else if c == BIPUSH || c == LDC || c == NEWARRAY || IsLocalAccess(c) then 2
    else if c == SIPUSH || c == LDC_W || c == LDC2_W || c == IINC || IsBranch(c)
         || (GETSTATIC <= c <= INVOKESTATIC) || c == NEW || c == ANEWARRAY
         || c == CHECKCAST || c == INSTANCEOF then 3
    else if c == MULTIANEWARRAY then 4
    else if c == INVOKEINTERFACE || c == INVOKEDYNAMIC || IsWideBranch(c) then 5
    else 1
  }

  /**
   * One decoded instruction: `bci` is its offset in the code array, `code` its
   * opcode, `wide` whether a `wide` prefix precedes it, and `raw` its bytes from
   * its first byte (the prefix, when there is one) up to the next instruction.
   */
  datatype Instr = Instr(bci: nat, code: Opcode, wide: bool, raw: seq<Byte>)

  /** An unsigned big-endian 16-bit operand. */
  function U2(raw: seq<Byte>, k: nat): (v: int)
    requires k + 2 <= |raw|
    ensures 0 <= v < 0x1_0000
  {
    (raw[k] as int) * 0x100 + raw[k + 1]
  }

  /** An unsigned big-endian 32-bit operand. */
  function U4(raw: seq<Byte>, k: nat): (v: int)
    requires k + 4 <= |raw|
    ensures 0 <= v < 0x1_0000_0000
  {
    U2(raw, k) * 0x1_0000 + U2(raw, k + 2)
  }

  /** The C cast `(short)` of an unsigned 16-bit value: same value modulo 2^16, in signed range. */
  function S2(u: int): (v: int)
    requires 0 <= u < 0x1_0000
    ensures -0x8000 <= v < 0x8000
    ensures v == u || v == u - 0x1_0000
  {
    if u < 0x8000 then u else u - 0x1_0000
  }

  /** The C cast `(int)` of an unsigned 32-bit value: same value modulo 2^32, in signed range. */
  function S4(u: int): (v: int)
    requires 0 <= u < 0x1_0000_0000
    ensures -0x8000_0000 <= v < 0x8000_0000
    ensures v == u || v == u - 0x1_0000_0000
  {
    if u < 0x8000_0000 then u else u - 0x1_0000_0000
  }

  /**
   * Where a switch's 4-byte-aligned operands start inside the instruction:
   * after the opcode and 0 to 3 padding bytes, aligned relative to the start
   * of the code array.
   */
  function SwitchBase(bci: nat): (b: nat)
    ensures 1 <= b <= 4
    ensures (bci + b) % 4 == 0
  {
    4 - bci % 4
  }

  /** A switch whose raw bytes hold exactly its default, its counts and its table. */
  predicate SwitchWellFormed(ins: Instr)
    requires IsSwitch(ins.code)
  {
    var b := SwitchBase(ins.bci);
    |ins.raw| >= b + 8 &&
    if ins.code == LOOKUPSWITCH then
      var n := S4(U4(ins.raw, b + 4));
      n >= 0 && |ins.raw| == b + 8 + 8 * n
    else
      |ins.raw| >= b + 12 &&
      var lo := S4(U4(ins.raw, b + 4));
      var hi := S4(U4(ins.raw, b + 8));
      lo <= hi && |ins.raw| == b + 12 + 4 * (hi - lo + 1)
  }

  /** What the bytecode stream guarantees of every instruction it returns. */
  predicate WellFormed(ins: Instr) {
    && ins.code != WIDE
    && |ins.raw| >= 1
    && (if ins.wide
        then Widenable(ins.code) && |ins.raw| >= 2 && ins.raw[0] == WIDE && ins.raw[1] == ins.code
        else ins.raw[0] == ins.code)
    && (if IsSwitch(ins.code) then SwitchWellFormed(ins)
        else |ins.raw| == InstrLength(ins.code, ins.wide))
  }

  predicate AllWellFormed(code: seq<Instr>) {
    forall k :: 0 <= k < |code| ==> WellFormed(code[k])
  }

  /** The instructions tile the code array [0, size) in order, without gaps. */
  predicate Contiguous(code: seq<Instr>, size: nat) {
    && (|code| == 0 ==> size == 0)
    && (|code| > 0 ==> code[0].bci == 0 && code[|code| - 1].bci + |code[|code| - 1].raw| == size)
    && (forall k :: 0 < k < |code| ==> code[k].bci == code[k - 1].bci + |code[k - 1].raw|)
  }

  /** A decoded method body: well-formed instructions covering `size` bytes. */
  predicate WellFormedCode(code: seq<Instr>, size: nat) {
    AllWellFormed(code) && Contiguous(code, size)
  }

  // Operand accessors: each reads the bytes the comparator reads.

  /** The u2 constant-pool index at bcp+1 (get_index_big / get_index_int). */
  function CpIndex(ins: Instr): int
    requires |ins.raw| >= 3
  {
    U2(ins.raw, 1)
  }

  /** The local slot: bcp[1], or the u2 at bcp+2 after a `wide` prefix (get_index). */
  function LocalIndex(ins: Instr): int
    requires WellFormed(ins) && IsLocalAccess(ins.code)
  {
    if ins.wide then U2(ins.raw, 2) else ins.raw[1]
  }

  /** The signed branch offset of a 16-bit or 32-bit branch. */
  function BranchOffset(ins: Instr): int
    requires WellFormed(ins) && (IsBranch(ins.code) || IsWideBranch(ins.code))
  {
    if IsBranch(ins.code) then S2(U2(ins.raw, 1)) else S4(U4(ins.raw, 1))
  }

  /** A well-formed lookupswitch, as far as its operands are concerned. */
  predicate IsLookupSwitch(ins: Instr) {
    ins.code == LOOKUPSWITCH && SwitchWellFormed(ins)
  }

  /** A well-formed tableswitch, as far as its operands are concerned. */
  predicate IsTableSwitch(ins: Instr) {
    ins.code == TABLESWITCH && SwitchWellFormed(ins)
  }

  function SwitchDefault(ins: Instr): int
    requires IsSwitch(ins.code) && SwitchWellFormed(ins)
  {
    S4(U4(ins.raw, SwitchBase(ins.bci)))
  }

  function LookupPairCount(ins: Instr): (n: nat)
    requires IsLookupSwitch(ins)
  {
    S4(U4(ins.raw, SwitchBase(ins.bci) + 4))
  }

  function LookupKey(ins: Instr, i: nat): int
    requires IsLookupSwitch(ins) && i < LookupPairCount(ins)
  {
    S4(U4(ins.raw, SwitchBase(ins.bci) + 8 + 8 * i))
  }

  function LookupOffset(ins: Instr, i: nat): int
    requires IsLookupSwitch(ins) && i < LookupPairCount(ins)
  {
    S4(U4(ins.raw, SwitchBase(ins.bci) + 8 + 8 * i + 4))
  }

  function TableLow(ins: Instr): int
    requires IsTableSwitch(ins)
  {
    S4(U4(ins.raw, SwitchBase(ins.bci) + 4))
  }

  function TableHigh(ins: Instr): int
    requires IsTableSwitch(ins)
  {
    S4(U4(ins.raw, SwitchBase(ins.bci) + 8))
  }

  /** The number of jump offsets in a tableswitch, hi - lo + 1. */
  function TableSize(ins: Instr): (n: nat)
    requires IsTableSwitch(ins)
    ensures n >= 1 && |ins.raw| == SwitchBase(ins.bci) + 12 + 4 * n
  {
    TableHigh(ins) - TableLow(ins) + 1
  }

  function TableOffset(ins: Instr, i: nat): int
    requires IsTableSwitch(ins) && i < TableSize(ins)
  {
    S4(U4(ins.raw, SwitchBase(ins.bci) + 12 + 4 * i))
  }

  /** Positions strictly increase along a contiguous stream. */
  lemma {:induction false} BciIncreasing(code: seq<Instr>, size: nat, a: nat, b: nat)
    requires WellFormedCode(code, size)
    requires a < b < |code|
    ensures code[a].bci < code[b].bci
    decreases b - a
  {
    assert WellFormed(code[b - 1]);
    if a < b - 1 {
      BciIncreasing(code, size, a, b - 1);
    }
  }

  /** Every instruction of a contiguous stream ends within the code array. */
  lemma {:induction false} InstrWithinCode(code: seq<Instr>, size: nat, k: nat)
    requires WellFormedCode(code, size)
    requires k < |code|
    ensures code[k].bci + |code[k].raw| <= size
    decreases |code| - k
  {
    if k < |code| - 1 {
      assert WellFormed(code[k + 1]);
      InstrWithinCode(code, size, k + 1);
    }
  }
}
