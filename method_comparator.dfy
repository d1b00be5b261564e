/**
 * The method comparator used when a class is redefined: is the new version of
 * a method equivalent to the old one modulo constant pool (EMCP, a lockstep
 * walk), or is it the old code with fragments of new code inserted, so that
 * positions can be mapped from old to new (switchable)?
 */
module MethodComparison {
  import opened Sequences
  import opened Bytecodes
  import opened ConstantPools
  import opened BciMaps

  /** What the comparator reads of a method besides its code stream. */
  datatype MethodView = MethodView(
    codeSize: nat,
    maxStack: nat,
    maxLocals: nat,
    sizeOfParameters: nat,
    code: seq<Instr>,
    cp: ConstantPool)

  predicate WellFormedView(m: MethodView) {
    WellFormedCode(m.code, m.codeSize)
  }

  /**
   * check_stack_and_locals_size: the first of max_stack (1), max_locals (2)
   * and the parameter size (3) that differs, or 0 when the shapes agree.
   */
  function CheckStackAndLocalsSize(oldM: MethodView, newM: MethodView): (d: int)
    ensures 0 <= d <= 3
    ensures d == 0 <==> (oldM.maxStack == newM.maxStack && oldM.maxLocals == newM.maxLocals
                         && oldM.sizeOfParameters == newM.sizeOfParameters)
    ensures d == 1 <==> oldM.maxStack != newM.maxStack
    ensures d == 2 <==> oldM.maxStack == newM.maxStack && oldM.maxLocals != newM.maxLocals
    ensures d == 3 <==> (oldM.maxStack == newM.maxStack && oldM.maxLocals == newM.maxLocals
                         && oldM.sizeOfParameters != newM.sizeOfParameters)
  {
    if oldM.maxStack != newM.maxStack then 1
    else if oldM.maxLocals != newM.maxLocals then 2
    else if oldM.sizeOfParameters != newM.sizeOfParameters then 3
    else 0
  }

  /**
   * The comparison mode: strict (EMCP), or switchable with the bci map's
   * location query and the fragments it holds when the instruction is compared.
   */
  datatype Mode = Strict | Switchable(query: LocationQuery, fragments: seq<Fragment>)

  /** A forward jump deferred to the end of the walk: its target in the old and in the new code. */
  datatype JumpPair = JumpPair(oldDest: int, newDest: int)

  /**
   * The outcome of comparing the operands of one instruction pair: whether they
   * are accepted, and the jump pairs appended to the list of deferred forward
   * jumps, accepted or not.
   */
  datatype Verdict = Verdict(accept: bool, deferred: seq<JumpPair>)

  /** The two instructions of a pair have the same opcode and both are well formed. */
  predicate SameOpcode(iOld: Instr, iNew: Instr) {
    WellFormed(iOld) && WellFormed(iNew) && iOld.code == iNew.code
  }

  // ---------------------------------------------------------------------
  // Operand equality, one function per group of opcodes.

  /** new, anewarray, multianewarray, checkcast, instanceof. */
  function ClassRefSame(oldCp: ConstantPool, newCp: ConstantPool, iOld: Instr, iNew: Instr): bool
    requires SameOpcode(iOld, iNew) && IsClassRef(iOld.code)
  {
    && oldCp.klassAt(CpIndex(iOld)) == newCp.klassAt(CpIndex(iNew))
    && (iOld.code == MULTIANEWARRAY ==> iOld.raw[3] == iNew.raw[3])
  }

  /** Field access and invocation: owning class, member name and descriptor. */
  function MemberRefSame(oldCp: ConstantPool, newCp: ConstantPool, iOld: Instr, iNew: Instr): bool
    requires SameOpcode(iOld, iNew) && IsMemberRef(iOld.code)
  {
    var o, n := CpIndex(iOld), CpIndex(iNew);
    && oldCp.klassRefAt(o) == newCp.klassRefAt(n)
    && oldCp.nameRefAt(o) == newCp.nameRefAt(n)
    && oldCp.signatureRefAt(o) == newCp.signatureRefAt(n)
  }

  /** The pool index of ldc (one byte) or ldc_w (two bytes). */
  function LdcIndex(ins: Instr): int
    requires WellFormed(ins) && (ins.code == LDC || ins.code == LDC_W)
  {
    if ins.code == LDC then ins.raw[1] else CpIndex(ins)
  }

  /**
   * ldc and ldc_w: an int or float literal needs the same tag and an equal
   * value; a string, resolved or not, an equal text; anything else is taken
   * for a class and needs a class tag, resolved or not, naming the same class.
   */
  function LdcSame(oldCp: ConstantPool, newCp: ConstantPool, o: int, n: int): bool {
    var tagOld, tagNew := oldCp.tagAt(o), newCp.tagAt(n);
    if tagOld == JVM_CONSTANT_INTEGER || tagOld == JVM_CONSTANT_FLOAT then
      && tagOld == tagNew
      && if tagOld == JVM_CONSTANT_INTEGER then oldCp.intAt(o) == newCp.intAt(n)
         else FloatEqual(oldCp.floatAt(o), newCp.floatAt(n))
    else if IsStringTag(tagOld) then
      IsStringTag(tagNew) && oldCp.stringAt(o) == newCp.stringAt(n)
    else
      IsKlassTag(tagNew) && oldCp.klassAt(o) == newCp.klassAt(n)
  }

  /** ldc2_w: the same tag, then equal long values or IEEE-equal doubles. */
  function Ldc2wSame(oldCp: ConstantPool, newCp: ConstantPool, o: int, n: int): bool {
    var tagOld, tagNew := oldCp.tagAt(o), newCp.tagAt(n);
    && tagOld == tagNew
    && if tagOld == JVM_CONSTANT_LONG then oldCp.longAt(o) == newCp.longAt(n)
       else DoubleEqual(oldCp.doubleAt(o), newCp.doubleAt(n))
  }

  /** Loads, stores and ret: the same `wide` flag and the same slot. */
  function LocalSame(iOld: Instr, iNew: Instr): bool
    requires SameOpcode(iOld, iNew) && IsLocalAccess(iOld.code)
  {
    iOld.wide == iNew.wide && LocalIndex(iOld) == LocalIndex(iNew)
  }

  /**
   * iinc, as the comparator reads it: a plain iinc compares its index and
   * constant bytes (bcp+1, bcp+2); a wide one compares the four bytes at bcp+1,
   * which are the iinc opcode, the two index bytes and only the high byte of
   * the constant.
   */
  function IincOperandsSameAsWritten(iOld: Instr, iNew: Instr): bool
    requires SameOpcode(iOld, iNew) && iOld.code == IINC
  {
    && iOld.wide == iNew.wide
    && if !iOld.wide then U2(iOld.raw, 1) == U2(iNew.raw, 1)
       else U4(iOld.raw, 1) == U4(iNew.raw, 1)
  }

  /** iinc as intended: a wide one compares its two index and two constant bytes at bcp+2. */
  function IincOperandsSame(iOld: Instr, iNew: Instr): bool
    requires SameOpcode(iOld, iNew) && iOld.code == IINC
  {
    && iOld.wide == iNew.wide
    && if !iOld.wide then U2(iOld.raw, 1) == U2(iNew.raw, 1)
       else U4(iOld.raw, 2) == U4(iNew.raw, 2)
  }

  /**
   * Branches. Strict: equal offsets. Switchable: two backward offsets are
   * checked at once against the bci map, two forward ones are deferred as the
   * pair of absolute targets, and any other combination (a change of
   * direction, or a zero offset) is rejected.
   */
  function BranchVerdict(mode: Mode, oldBci: int, oldOfs: int, newBci: int, newOfs: int): Verdict {
    match mode
    case Strict => Verdict(oldOfs == newOfs, [])
    case Switchable(query, fragments) =>
      var oldDest, newDest := oldBci + oldOfs, newBci + newOfs;
      if oldOfs < 0 && newOfs < 0 then Verdict(query(fragments, oldDest, newDest), [])
      else if oldOfs > 0 && newOfs > 0 then Verdict(true, [JumpPair(oldDest, newDest)])
      else Verdict(false, [])
  }

  /**
   * The index of the first lookupswitch entry, from i on, whose keys differ,
   * or the pair count when none do.
   */
  function FirstKeyMismatch(iOld: Instr, iNew: Instr, i: nat): (k: nat)
    requires IsLookupSwitch(iOld) && IsLookupSwitch(iNew)
    requires LookupPairCount(iOld) == LookupPairCount(iNew)
    requires i <= LookupPairCount(iOld)
    ensures i <= k <= LookupPairCount(iOld)
    decreases LookupPairCount(iOld) - i
  {
    if i == LookupPairCount(iOld) || LookupKey(iOld, i) != LookupKey(iNew, i) then i
    else FirstKeyMismatch(iOld, iNew, i + 1)
  }

  /** The scan stops at the first entry whose keys differ, or after the last entry. */
  lemma {:induction false} FirstKeyMismatchIsFirst(iOld: Instr, iNew: Instr, i: nat)
    requires IsLookupSwitch(iOld) && IsLookupSwitch(iNew)
    requires LookupPairCount(iOld) == LookupPairCount(iNew)
    requires i <= LookupPairCount(iOld)
    ensures var k := FirstKeyMismatch(iOld, iNew, i);
            && (k < LookupPairCount(iOld) ==> LookupKey(iOld, k) != LookupKey(iNew, k))
            && forall j :: i <= j < k ==> LookupKey(iOld, j) == LookupKey(iNew, j)
    decreases LookupPairCount(iOld) - i
  {
    if i < LookupPairCount(iOld) && LookupKey(iOld, i) == LookupKey(iNew, i) {
      FirstKeyMismatchIsFirst(iOld, iNew, i + 1);
    }
  }

  /** When the keys agree from i up to k and differ at k (or k is the end), the scan from i stops at k. */
  lemma {:induction false} FirstKeyMismatchFrom(iOld: Instr, iNew: Instr, i: nat, k: nat)
    requires IsLookupSwitch(iOld) && IsLookupSwitch(iNew)
    requires LookupPairCount(iOld) == LookupPairCount(iNew)
    requires i <= k <= LookupPairCount(iOld)
    requires forall j :: i <= j < k ==> LookupKey(iOld, j) == LookupKey(iNew, j)
    requires k < LookupPairCount(iOld) ==> LookupKey(iOld, k) != LookupKey(iNew, k)
    ensures FirstKeyMismatch(iOld, iNew, i) == k
    decreases k - i
  {
    if i < k {
      FirstKeyMismatchFrom(iOld, iNew, i + 1, k);
    }
  }

  /** Appending the targets of entry i extends a list holding the targets of the first i entries. */
  lemma LookupTargetsNext(prefix: seq<JumpPair>, iOld: Instr, iNew: Instr, i: nat)
    requires IsLookupSwitch(iOld) && IsLookupSwitch(iNew)
    requires i < LookupPairCount(iOld) && i < LookupPairCount(iNew)
    ensures prefix + LookupTargets(iOld, iNew, i) + [JumpPair(iOld.bci + LookupOffset(iOld, i), iNew.bci + LookupOffset(iNew, i))]
         == prefix + LookupTargets(iOld, iNew, i + 1)
  {
    ConcatAssoc(prefix, LookupTargets(iOld, iNew, i), [JumpPair(iOld.bci + LookupOffset(iOld, i), iNew.bci + LookupOffset(iNew, i))]);
  }

  /** The absolute targets of the first k lookupswitch entries, old then new for each. */
  function LookupTargets(iOld: Instr, iNew: Instr, k: nat): (r: seq<JumpPair>)
    requires IsLookupSwitch(iOld) && IsLookupSwitch(iNew)
    requires k <= LookupPairCount(iOld) && k <= LookupPairCount(iNew)
    ensures |r| == k
  {
    if k == 0 then []
    else LookupTargets(iOld, iNew, k - 1)
         + [JumpPair(iOld.bci + LookupOffset(iOld, k - 1), iNew.bci + LookupOffset(iNew, k - 1))]
  }

  /** Appending the targets of entry i extends a list holding the targets of the first i entries. */
  lemma TableTargetsNext(prefix: seq<JumpPair>, iOld: Instr, iNew: Instr, i: nat)
    requires IsTableSwitch(iOld) && IsTableSwitch(iNew)
    requires i < TableSize(iOld) && i < TableSize(iNew)
    ensures prefix + TableTargets(iOld, iNew, i) + [JumpPair(iOld.bci + TableOffset(iOld, i), iNew.bci + TableOffset(iNew, i))]
         == prefix + TableTargets(iOld, iNew, i + 1)
  {
    ConcatAssoc(prefix, TableTargets(iOld, iNew, i), [JumpPair(iOld.bci + TableOffset(iOld, i), iNew.bci + TableOffset(iNew, i))]);
  }

  /** The absolute targets of the first k tableswitch entries, old then new for each. */
  function TableTargets(iOld: Instr, iNew: Instr, k: nat): (r: seq<JumpPair>)
    requires IsTableSwitch(iOld) && IsTableSwitch(iNew)
    requires k <= TableSize(iOld) && k <= TableSize(iNew)
    ensures |r| == k
  {
    if k == 0 then []
    else TableTargets(iOld, iNew, k - 1)
         + [JumpPair(iOld.bci + TableOffset(iOld, k - 1), iNew.bci + TableOffset(iNew, k - 1))]
  }

  /** The pair of default targets of two switches. */
  function DefaultTargets(iOld: Instr, iNew: Instr): JumpPair
    requires SameOpcode(iOld, iNew) && IsSwitch(iOld.code)
  {
    JumpPair(iOld.bci + SwitchDefault(iOld), iNew.bci + SwitchDefault(iNew))
  }

  /**
   * The switchable lookupswitch entries: the same pair count and equal keys
   * entry by entry; each entry's targets are deferred until the first
   * differing key.
   */
  function LookupSwitchVerdict(iOld: Instr, iNew: Instr): (v: Verdict)
    requires IsLookupSwitch(iOld) && IsLookupSwitch(iNew)
  {
    if LookupPairCount(iOld) != LookupPairCount(iNew) then Verdict(false, [])
    else
      var k := FirstKeyMismatch(iOld, iNew, 0);
      Verdict(k == LookupPairCount(iOld), LookupTargets(iOld, iNew, k))
  }

  /**
   * The switchable tableswitch bounds: the same low and high bounds; all
   * hi - lo + 1 targets are then deferred.
   */
  function TableSwitchVerdict(iOld: Instr, iNew: Instr): (v: Verdict)
    requires IsTableSwitch(iOld) && IsTableSwitch(iNew)
  {
    if TableLow(iOld) != TableLow(iNew) || TableHigh(iOld) != TableHigh(iNew) then Verdict(false, [])
    else Verdict(true, TableTargets(iOld, iNew, TableSize(iOld)))
  }

  /**
   * lookupswitch and tableswitch. Strict: the whole instructions, padding
   * included, must have the same bytes. Switchable: the default targets are
   * deferred first, whatever follows, then the lookupswitch or tableswitch rule.
   */
  function SwitchVerdict(mode: Mode, iOld: Instr, iNew: Instr): (v: Verdict)
    requires SameOpcode(iOld, iNew) && IsSwitch(iOld.code)
  {
    match mode
    case Strict => Verdict(iOld.raw == iNew.raw, [])
    case Switchable(_, _) =>
      var entries := if iOld.code == LOOKUPSWITCH then LookupSwitchVerdict(iOld, iNew)
                     else TableSwitchVerdict(iOld, iNew);
      Verdict(entries.accept, [DefaultTargets(iOld, iNew)] + entries.deferred)
  }

  /**
   * args_same: the operand comparison of two instructions with the same opcode.
   * Opcodes outside every group need no operand comparison.
   */
  function ArgsVerdict(oldCp: ConstantPool, newCp: ConstantPool, mode: Mode, iOld: Instr, iNew: Instr): (v: Verdict)
    requires SameOpcode(iOld, iNew)
    ensures mode.Strict? ==> v.deferred == []
  {
    var c := iOld.code;
    if IsClassRef(c) then Verdict(ClassRefSame(oldCp, newCp, iOld, iNew), [])
    else if IsMemberRef(c) then Verdict(MemberRefSame(oldCp, newCp, iOld, iNew), [])
    else if c == LDC || c == LDC_W then Verdict(LdcSame(oldCp, newCp, LdcIndex(iOld), LdcIndex(iNew)), [])
    else if c == LDC2_W then Verdict(Ldc2wSame(oldCp, newCp, CpIndex(iOld), CpIndex(iNew)), [])
    else if c == BIPUSH then Verdict(iOld.raw[1] == iNew.raw[1], [])
    else if c == SIPUSH then Verdict(U2(iOld.raw, 1) == U2(iNew.raw, 1), [])
    else if IsLocalAccess(c) then Verdict(LocalSame(iOld, iNew), [])
    else if c == IINC then Verdict(IincOperandsSame(iOld, iNew), [])
    else if IsBranch(c) || IsWideBranch(c) then
      BranchVerdict(mode, iOld.bci, BranchOffset(iOld), iNew.bci, BranchOffset(iNew))
    else if IsSwitch(c) then SwitchVerdict(mode, iOld, iNew)
    else Verdict(true, [])
  }

  /** One step of the strict walk: same opcode and accepted operands. */
  predicate StrictPairSame(oldCp: ConstantPool, newCp: ConstantPool, iOld: Instr, iNew: Instr)
    requires WellFormed(iOld) && WellFormed(iNew)
  {
    Attempt(oldCp, newCp, Strict, iOld, iNew).accept
  }

  /** Old instruction k has a new one at the same index that the strict walk pairs it with. */
  predicate PairedAt(oldCp: ConstantPool, newCp: ConstantPool, olds: seq<Instr>, news: seq<Instr>, k: nat)
    requires AllWellFormed(olds) && AllWellFormed(news) && k < |olds|
  {
    k < |news| && StrictPairSame(oldCp, newCp, olds[k], news[k])
  }

  /**
   * The strict walk from position i of both streams: it succeeds when the old
   * stream is exhausted, and fails at the first step where the new stream is
   * exhausted or the pair differs.
   */
  predicate EmcpWalk(oldCp: ConstantPool, newCp: ConstantPool, olds: seq<Instr>, news: seq<Instr>, i: nat)
    requires AllWellFormed(olds) && AllWellFormed(news)
    requires i <= |olds|
    decreases |olds| - i
  {
    if i == |olds| then true
    else PairedAt(oldCp, newCp, olds, news, i) && EmcpWalk(oldCp, newCp, olds, news, i + 1)
  }

  /** methods_EMCP: equal code sizes, equal shapes, and a successful strict walk. */
  predicate Emcp(oldM: MethodView, newM: MethodView)
    requires WellFormedView(oldM) && WellFormedView(newM)
  {
    && oldM.codeSize == newM.codeSize
    && CheckStackAndLocalsSize(oldM, newM) == 0
    && EmcpWalk(oldM.cp, newM.cp, oldM.code, newM.code, 0)
  }

  // ---------------------------------------------------------------------
  // The switchable walk, described by the old-to-new matching it builds.

  /**
   * matched[k] is the position in the new stream of the instruction matched
   * with old instruction k: strictly increasing, with equal opcodes.
   */
  ghost predicate IsMatching(olds: seq<Instr>, news: seq<Instr>, matched: seq<nat>) {
    && |matched| <= |olds|
    && (forall k :: 0 <= k < |matched| ==> matched[k] < |news| && olds[k].code == news[matched[k]].code)
    && (forall k :: 0 < k < |matched| ==> matched[k - 1] < matched[k])
  }

  /** Where the new cursor stands when old instruction k is compared. */
  function GapStart(matched: seq<nat>, k: nat): nat
    requires k <= |matched|
  {
    if k == 0 then 0 else matched[k - 1] + 1
  }

  /** The fragment recorded for old instruction k, if its match was not the first candidate. */
  ghost function GapAt(olds: seq<Instr>, news: seq<Instr>, matched: seq<nat>, k: nat): seq<Fragment>
    requires IsMatching(olds, news, matched) && k < |matched|
  {
    var start := GapStart(matched, k);
    if matched[k] == start then []
    else [Fragment(olds[k].bci, news[start].bci, news[matched[k]].bci)]
  }

  /** The fragments a walk with this matching records, in the order it records them. */
  ghost function Gaps(olds: seq<Instr>, news: seq<Instr>, matched: seq<nat>): seq<Fragment>
    requires IsMatching(olds, news, matched)
    decreases |matched|
  {
    if matched == [] then []
    else
      var k := |matched| - 1;
      assert IsMatching(olds, news, matched[..k]);
      Gaps(olds, news, matched[..k]) + GapAt(olds, news, matched, k)
  }

  /**
   * One attempt to pair an old instruction with a new one, `c_old == c_new &&
   * args_same(c_old, c_new)`: instructions with different opcodes are
   * rejected without looking at their operands.
   */
  function Attempt(oldCp: ConstantPool, newCp: ConstantPool, mode: Mode, iOld: Instr, iNew: Instr): (v: Verdict)
    requires WellFormed(iOld) && WellFormed(iNew)
    ensures v.accept ==> iOld.code == iNew.code
    ensures iOld.code != iNew.code ==> v.deferred == []
  {
    if iOld.code == iNew.code then ArgsVerdict(oldCp, newCp, mode, iOld, iNew) else Verdict(false, [])
  }

  /** The mode in force when old instruction k is compared: the fragments recorded so far. */
  ghost function ModeAt(query: LocationQuery, frags0: seq<Fragment>, olds: seq<Instr>, news: seq<Instr>,
                        matched: seq<nat>, k: nat): Mode
    requires IsMatching(olds, news, matched) && k <= |matched|
  {
    assert IsMatching(olds, news, matched[..k]);
    Switchable(query, frags0 + Gaps(olds, news, matched[..k]))
  }

  /**
   * Old instruction k is paired with the first new instruction, from where the
   * new cursor stood, that the attempt accepts.
   */
  ghost predicate MatchedAt(oldCp: ConstantPool, newCp: ConstantPool, query: LocationQuery, frags0: seq<Fragment>,
                            olds: seq<Instr>, news: seq<Instr>, matched: seq<nat>, k: nat)
    requires AllWellFormed(olds) && AllWellFormed(news)
    requires IsMatching(olds, news, matched) && k < |matched|
  {
    var mode := ModeAt(query, frags0, olds, news, matched, k);
    && Attempt(oldCp, newCp, mode, olds[k], news[matched[k]]).accept
    && forall m :: GapStart(matched, k) <= m < matched[k] ==> !Attempt(oldCp, newCp, mode, olds[k], news[m]).accept
  }

  /** Extending a matching leaves what is known of its earlier entries unchanged. */
  lemma {:induction false} MatchedAtExtend(oldCp: ConstantPool, newCp: ConstantPool, query: LocationQuery, frags0: seq<Fragment>,
                        olds: seq<Instr>, news: seq<Instr>, matched: seq<nat>, j: nat, k: nat)
    requires AllWellFormed(olds) && AllWellFormed(news)
    requires IsMatching(olds, news, matched) && IsMatching(olds, news, matched + [j])
    requires k < |matched|
    requires MatchedAt(oldCp, newCp, query, frags0, olds, news, matched, k)
    ensures MatchedAt(oldCp, newCp, query, frags0, olds, news, matched + [j], k)
  {
    var ext := matched + [j];
    assert ext[..k] == matched[..k];
    assert ext[k] == matched[k];
    assert GapStart(ext, k) == GapStart(matched, k);
  }

  /**
   * One step of the switchable walk: pairing the next old instruction with the
   * first acceptable new one at or after the cursor extends the matching and
   * its record of fragments.
   */
  lemma {:induction false} MatchedStep(oldCp: ConstantPool, newCp: ConstantPool, query: LocationQuery, frags0: seq<Fragment>,
                    olds: seq<Instr>, news: seq<Instr>, matched: seq<nat>, k: nat)
    requires AllWellFormed(olds) && AllWellFormed(news)
    requires IsMatching(olds, news, matched) && |matched| < |olds|
    requires GapStart(matched, |matched|) <= k < |news|
    requires forall kk :: 0 <= kk < |matched| ==> MatchedAt(oldCp, newCp, query, frags0, olds, news, matched, kk)
    requires Attempt(oldCp, newCp, ModeAt(query, frags0, olds, news, matched, |matched|), olds[|matched|], news[k]).accept
    requires forall m :: GapStart(matched, |matched|) <= m < k ==>
               !Attempt(oldCp, newCp, ModeAt(query, frags0, olds, news, matched, |matched|), olds[|matched|], news[m]).accept
    ensures IsMatching(olds, news, matched + [k])
    ensures GapStart(matched + [k], |matched|) == GapStart(matched, |matched|)
    ensures Gaps(olds, news, matched + [k]) == Gaps(olds, news, matched) + GapAt(olds, news, matched + [k], |matched|)
    ensures forall kk :: 0 <= kk <= |matched| ==> MatchedAt(oldCp, newCp, query, frags0, olds, news, matched + [k], kk)
  {
    var i := |matched|;
    ExtendMatching(query, frags0, olds, news, matched, k);
    forall kk | 0 <= kk < i
      ensures MatchedAt(oldCp, newCp, query, frags0, olds, news, matched + [k], kk)
    {
      MatchedAtExtend(oldCp, newCp, query, frags0, olds, news, matched, k, kk);
    }
  }

  /** The matching and fragment facts of one step, apart from any verdict. */
  lemma {:induction false} ExtendMatching(query: LocationQuery, frags0: seq<Fragment>,
                                          olds: seq<Instr>, news: seq<Instr>, matched: seq<nat>, k: nat)
    requires IsMatching(olds, news, matched) && |matched| < |olds|
    requires GapStart(matched, |matched|) <= k < |news|
    requires olds[|matched|].code == news[k].code
    ensures IsMatching(olds, news, matched + [k])
    ensures (matched + [k])[..|matched|] == matched
    ensures GapStart(matched + [k], |matched|) == GapStart(matched, |matched|)
    ensures Gaps(olds, news, matched + [k]) == Gaps(olds, news, matched) + GapAt(olds, news, matched + [k], |matched|)
    ensures ModeAt(query, frags0, olds, news, matched + [k], |matched|) == ModeAt(query, frags0, olds, news, matched, |matched|)
  {
    var ext := matched + [k];
    assert ext[..|matched|] == matched;
    assert matched[..|matched|] == matched;
    assert Gaps(olds, news, ext[..|matched|]) == Gaps(olds, news, matched[..|matched|]);
  }

  // ---------------------------------------------------------------------
  // The forward jumps a switchable walk defers.

  /** The jump-pair lists of the attempts to pair iOld with news[lo..hi], one per attempt, in order. */
  function AttemptLists(oldCp: ConstantPool, newCp: ConstantPool, mode: Mode, iOld: Instr,
                        news: seq<Instr>, lo: nat, hi: nat): (r: seq<seq<JumpPair>>)
    requires WellFormed(iOld) && AllWellFormed(news) && lo <= hi <= |news|
    ensures |r| == hi - lo
  {
    seq(hi - lo, i requires 0 <= i < hi - lo => Attempt(oldCp, newCp, mode, iOld, news[lo + i]).deferred)
  }

  /**
   * The jump pairs deferred by the attempts to pair iOld with news[lo..hi],
   * in order: every attempt leaves its pairs behind, accepted or not.
   */
  function AttemptsDeferred(oldCp: ConstantPool, newCp: ConstantPool, mode: Mode, iOld: Instr,
                            news: seq<Instr>, lo: nat, hi: nat): seq<JumpPair>
    requires WellFormed(iOld) && AllWellFormed(news) && lo <= hi <= |news|
  {
    Flatten(AttemptLists(oldCp, newCp, mode, iOld, news, lo, hi))
  }

  /** A run of attempts defers what its first part and then its second part defer. */
  lemma AttemptsDeferredSplit(oldCp: ConstantPool, newCp: ConstantPool, mode: Mode, iOld: Instr,
                              news: seq<Instr>, lo: nat, mid: nat, hi: nat)
    requires WellFormed(iOld) && AllWellFormed(news) && lo <= mid <= hi <= |news|
    ensures AttemptsDeferred(oldCp, newCp, mode, iOld, news, lo, hi)
            == AttemptsDeferred(oldCp, newCp, mode, iOld, news, lo, mid)
               + AttemptsDeferred(oldCp, newCp, mode, iOld, news, mid, hi)
  {
    var whole := AttemptLists(oldCp, newCp, mode, iOld, news, lo, hi);
    var left := AttemptLists(oldCp, newCp, mode, iOld, news, lo, mid);
    var right := AttemptLists(oldCp, newCp, mode, iOld, news, mid, hi);
    assert whole == left + right;
    FlattenConcat(left, right);
  }

  /** A single attempt defers its own pairs. */
  lemma AttemptsDeferredOne(oldCp: ConstantPool, newCp: ConstantPool, mode: Mode, iOld: Instr,
                            news: seq<Instr>, lo: nat)
    requires WellFormed(iOld) && AllWellFormed(news) && lo < |news|
    ensures AttemptsDeferred(oldCp, newCp, mode, iOld, news, lo, lo + 1)
            == Attempt(oldCp, newCp, mode, iOld, news[lo]).deferred
  {
    var one := AttemptLists(oldCp, newCp, mode, iOld, news, lo, lo + 1);
    assert one[..0] == [];
    assert Flatten(one) == Flatten(one[..0]) + one[0];
  }

  /** One more attempt appends its own pairs. */
  lemma AttemptsDeferredNext(oldCp: ConstantPool, newCp: ConstantPool, mode: Mode, iOld: Instr,
                             news: seq<Instr>, lo: nat, hi: nat)
    requires WellFormed(iOld) && AllWellFormed(news) && lo <= hi < |news|
    ensures AttemptsDeferred(oldCp, newCp, mode, iOld, news, lo, hi + 1)
            == AttemptsDeferred(oldCp, newCp, mode, iOld, news, lo, hi)
               + Attempt(oldCp, newCp, mode, iOld, news[hi]).deferred
  {
    AttemptsDeferredSplit(oldCp, newCp, mode, iOld, news, lo, hi, hi + 1);
    AttemptsDeferredOne(oldCp, newCp, mode, iOld, news, hi);
  }

  /** A deferred list that holds the pairs of a run of attempts, grown by one more attempt. */
  lemma AttemptsDeferredAppend(prefix: seq<JumpPair>, oldCp: ConstantPool, newCp: ConstantPool, mode: Mode,
                               iOld: Instr, news: seq<Instr>, lo: nat, hi: nat)
    requires WellFormed(iOld) && AllWellFormed(news) && lo <= hi < |news|
    ensures prefix + AttemptsDeferred(oldCp, newCp, mode, iOld, news, lo, hi)
            + Attempt(oldCp, newCp, mode, iOld, news[hi]).deferred
            == prefix + AttemptsDeferred(oldCp, newCp, mode, iOld, news, lo, hi + 1)
  {
    AttemptsDeferredNext(oldCp, newCp, mode, iOld, news, lo, hi);
    ConcatAssoc(prefix, AttemptsDeferred(oldCp, newCp, mode, iOld, news, lo, hi),
                Attempt(oldCp, newCp, mode, iOld, news[hi]).deferred);
  }

  /**
   * The pairs deferred while old instruction k seeks its match: those of every
   * candidate from the cursor up to and including the one matched.
   */
  ghost function StepDeferred(oldCp: ConstantPool, newCp: ConstantPool, query: LocationQuery, frags0: seq<Fragment>,
                              olds: seq<Instr>, news: seq<Instr>, matched: seq<nat>, k: nat): seq<JumpPair>
    requires AllWellFormed(olds) && AllWellFormed(news)
    requires IsMatching(olds, news, matched) && k < |matched|
  {
    AttemptsDeferred(oldCp, newCp, ModeAt(query, frags0, olds, news, matched, k), olds[k], news,
                     GapStart(matched, k), matched[k] + 1)
  }

  /** The pairs deferred by each step of a walk that built this matching, one list per step. */
  ghost function StepLists(oldCp: ConstantPool, newCp: ConstantPool, query: LocationQuery, frags0: seq<Fragment>,
                           olds: seq<Instr>, news: seq<Instr>, matched: seq<nat>): (r: seq<seq<JumpPair>>)
    requires AllWellFormed(olds) && AllWellFormed(news) && IsMatching(olds, news, matched)
    ensures |r| == |matched|
  {
    seq(|matched|, k requires 0 <= k < |matched| => StepDeferred(oldCp, newCp, query, frags0, olds, news, matched, k))
  }

  /** The pairs deferred by the steps of a walk that built this matching, in order. */
  ghost function StepsDeferred(oldCp: ConstantPool, newCp: ConstantPool, query: LocationQuery, frags0: seq<Fragment>,
                               olds: seq<Instr>, news: seq<Instr>, matched: seq<nat>): seq<JumpPair>
    requires AllWellFormed(olds) && AllWellFormed(news) && IsMatching(olds, news, matched)
  {
    Flatten(StepLists(oldCp, newCp, query, frags0, olds, news, matched))
  }

  /**
   * The deferred forward-jump list of a whole switchable walk that built
   * `matched`. When the walk failed, the unmatched old instruction tried every
   * remaining new instruction, and their pairs follow.
   */
  ghost function WalkDeferred(oldCp: ConstantPool, newCp: ConstantPool, query: LocationQuery, frags0: seq<Fragment>,
                              olds: seq<Instr>, news: seq<Instr>, matched: seq<nat>): seq<JumpPair>
    requires AllWellFormed(olds) && AllWellFormed(news) && IsMatching(olds, news, matched)
  {
    var steps := StepsDeferred(oldCp, newCp, query, frags0, olds, news, matched);
    var n := |matched|;
    if n == |olds| then steps
    else steps + AttemptsDeferred(oldCp, newCp, ModeAt(query, frags0, olds, news, matched, n), olds[n], news,
                                  GapStart(matched, n), |news|)
  }

  /** Extending a matching leaves the pairs deferred by its earlier steps unchanged. */
  lemma StepDeferredExtend(oldCp: ConstantPool, newCp: ConstantPool, query: LocationQuery, frags0: seq<Fragment>,
                           olds: seq<Instr>, news: seq<Instr>, matched: seq<nat>, j: nat, k: nat)
    requires AllWellFormed(olds) && AllWellFormed(news)
    requires IsMatching(olds, news, matched) && IsMatching(olds, news, matched + [j]) && k < |matched|
    ensures StepDeferred(oldCp, newCp, query, frags0, olds, news, matched + [j], k)
            == StepDeferred(oldCp, newCp, query, frags0, olds, news, matched, k)
  {
    var ext := matched + [j];
    assert ext[..k] == matched[..k];
    assert GapStart(ext, k) == GapStart(matched, k);
    assert ModeAt(query, frags0, olds, news, ext, k) == ModeAt(query, frags0, olds, news, matched, k);
  }

  /** Matching one more old instruction appends the pairs of that step's attempts. */
  lemma StepsDeferredExtend(oldCp: ConstantPool, newCp: ConstantPool, query: LocationQuery,
                            frags0: seq<Fragment>, olds: seq<Instr>, news: seq<Instr>,
                            matched: seq<nat>, k: nat)
    requires AllWellFormed(olds) && AllWellFormed(news)
    requires IsMatching(olds, news, matched) && |matched| < |olds|
    requires GapStart(matched, |matched|) <= k < |news|
    requires olds[|matched|].code == news[k].code
    ensures IsMatching(olds, news, matched + [k])
    ensures StepsDeferred(oldCp, newCp, query, frags0, olds, news, matched + [k])
            == StepsDeferred(oldCp, newCp, query, frags0, olds, news, matched)
               + AttemptsDeferred(oldCp, newCp, ModeAt(query, frags0, olds, news, matched, |matched|), olds[|matched|],
                                  news, GapStart(matched, |matched|), k + 1)
  {
    var n := |matched|;
    var ext := matched + [k];
    ExtendMatching(query, frags0, olds, news, matched, k);
    var before := StepLists(oldCp, newCp, query, frags0, olds, news, matched);
    var after := StepLists(oldCp, newCp, query, frags0, olds, news, ext);
    var step := StepDeferred(oldCp, newCp, query, frags0, olds, news, ext, n);
    forall i | 0 <= i < n
      ensures after[i] == before[i]
    {
      StepDeferredExtend(oldCp, newCp, query, frags0, olds, news, matched, k, i);
    }
    assert after == before + [step];
    FlattenConcat(before, [step]);
    assert Flatten([step]) == Flatten([step][..0]) + step;
    assert [step][..0] == [];
  }

  /** A deferred pair's old and new targets denote the same place in the bci map. */
  predicate Resolves(bciMap: BciMap, jump: JumpPair)
    reads bciMap
  {
    bciMap.OldAndNewLocationsSame(jump.oldDest, jump.newDest)
  }

  /**
   * The comparator's per-call state: the two constant pools, the mode, the bci
   * map consulted in switchable mode, and the list of deferred forward jumps.
   */
  class MethodComparator {
    const oldCp: ConstantPool
    const newCp: ConstantPool
    const switchableTest: bool
    const bciMap: BciMap?
    var fwdJmps: seq<JumpPair>

    ghost predicate Valid() {
      switchableTest ==> bciMap != null
    }

    constructor (oldCp: ConstantPool, newCp: ConstantPool, switchableTest: bool, bciMap: BciMap?)
      requires switchableTest ==> bciMap != null
      ensures Valid()
      ensures this.oldCp == oldCp && this.newCp == newCp
      ensures this.switchableTest == switchableTest && this.bciMap == bciMap
      ensures fwdJmps == []
    {
      this.oldCp := oldCp;
      this.newCp := newCp;
      this.switchableTest := switchableTest;
      this.bciMap := bciMap;
      fwdJmps := [];
    }

    /** The mode in force now: in switchable mode, with the fragments recorded so far. */
    ghost function CurrentMode(): Mode
      requires Valid()
      reads bciMap
    {
      if switchableTest then Switchable(bciMap.sameLocation, bciMap.fragments) else Strict
    }

    /**
     * args_same: accepts or rejects the operands of two instructions with the
     * same opcode, appending to the deferred forward jumps as it goes.
     */
    method ArgsSame(iOld: Instr, iNew: Instr) returns (same: bool)
      requires Valid() && SameOpcode(iOld, iNew)
      modifies this`fwdJmps
      ensures var v := ArgsVerdict(oldCp, newCp, CurrentMode(), iOld, iNew);
              same == v.accept && fwdJmps == old(fwdJmps) + v.deferred
    {
      var c := iOld.code;
      if IsClassRef(c) {
        same := ClassRefSame(oldCp, newCp, iOld, iNew);
      } else if IsMemberRef(c) {
        same := MemberRefSame(oldCp, newCp, iOld, iNew);
      } else if c == LDC || c == LDC_W {
        same := LdcSame(oldCp, newCp, LdcIndex(iOld), LdcIndex(iNew));
      } else if c == LDC2_W {
        same := Ldc2wSame(oldCp, newCp, CpIndex(iOld), CpIndex(iNew));
      } else if c == BIPUSH {
        same := iOld.raw[1] == iNew.raw[1];
      } else if c == SIPUSH {
        same := U2(iOld.raw, 1) == U2(iNew.raw, 1);
      } else if IsLocalAccess(c) {
        same := LocalSame(iOld, iNew);
      } else if c == IINC {
        same := IincOperandsSame(iOld, iNew);
      } else if IsBranch(c) || IsWideBranch(c) {
        same := BranchArgsSame(iOld, iNew);
      } else if IsSwitch(c) {
        if switchableTest {
          same := SwitchArgsSame(iOld, iNew);
        } else {
          same := |iOld.raw| == |iNew.raw| && iOld.raw == iNew.raw;
        }
      } else {
        same := true;
      }
    }

    /** `c_old == c_new && args_same(c_old, c_new)`. */
    method TryPair(iOld: Instr, iNew: Instr) returns (same: bool)
      requires Valid() && WellFormed(iOld) && WellFormed(iNew)
      modifies this`fwdJmps
      ensures var v := Attempt(oldCp, newCp, CurrentMode(), iOld, iNew);
              same == v.accept && fwdJmps == old(fwdJmps) + v.deferred
    {
      same := false;
      if iOld.code == iNew.code {
        same := ArgsSame(iOld, iNew);
      }
    }

    /**
     * The do-while of methods_switchable: advances the new stream from `from`
     * until an instruction pairs with iOld. The result is the first such
     * position; every attempt, rejected or not, leaves its deferred jumps behind.
     */
    method SeekMatch(iOld: Instr, news: seq<Instr>, from: nat) returns (found: bool, j: nat)
      requires Valid() && WellFormed(iOld) && AllWellFormed(news) && from <= |news|
      modifies this`fwdJmps
      ensures found ==> from <= j < |news| && Attempt(oldCp, newCp, CurrentMode(), iOld, news[j]).accept
      ensures found ==> forall m :: from <= m < j ==> !Attempt(oldCp, newCp, CurrentMode(), iOld, news[m]).accept
      ensures !found ==> forall m :: from <= m < |news| ==> !Attempt(oldCp, newCp, CurrentMode(), iOld, news[m]).accept
      ensures found ==> fwdJmps == old(fwdJmps) + AttemptsDeferred(oldCp, newCp, CurrentMode(), iOld, news, from, j + 1)
      ensures !found ==> fwdJmps == old(fwdJmps) + AttemptsDeferred(oldCp, newCp, CurrentMode(), iOld, news, from, |news|)
    {
      ghost var start := fwdJmps;
      ghost var mode := CurrentMode();
      found, j := false, from;
      while j < |news|
        invariant from <= j <= |news|
        invariant forall m :: from <= m < j ==> !Attempt(oldCp, newCp, mode, iOld, news[m]).accept
        invariant fwdJmps == start + AttemptsDeferred(oldCp, newCp, mode, iOld, news, from, j)
      {
        found := TryPair(iOld, news[j]);
        AttemptsDeferredAppend(start, oldCp, newCp, mode, iOld, news, from, j);
        if found {
          return;
        }
        j := j + 1;
      }
    }

    /**
     * The search of methods_switchable once the instruction at cursor j is
     * rejected: seeks a later match and, when one is found, records the
     * skipped new code [news[j].bci, news[k].bci) as a fragment.
     */
    method SkipAhead(iOld: Instr, news: seq<Instr>, j: nat) returns (found: bool, k: nat)
      requires Valid() && switchableTest && WellFormed(iOld) && AllWellFormed(news) && j < |news|
      modifies this`fwdJmps, bciMap
      ensures found ==> j < k < |news|
      ensures found ==> Attempt(oldCp, newCp, old(CurrentMode()), iOld, news[k]).accept
      ensures found ==> forall m :: j < m < k ==> !Attempt(oldCp, newCp, old(CurrentMode()), iOld, news[m]).accept
      ensures !found ==> forall m :: j < m < |news| ==> !Attempt(oldCp, newCp, old(CurrentMode()), iOld, news[m]).accept
      ensures !found ==> bciMap.fragments == old(bciMap.fragments)
      ensures found ==> bciMap.fragments == old(bciMap.fragments) + [Fragment(iOld.bci, news[j].bci, news[k].bci)]
      ensures fwdJmps == old(fwdJmps) +
                AttemptsDeferred(oldCp, newCp, old(CurrentMode()), iOld, news, j + 1, if found then k + 1 else |news|)
    {
      var oldBci, newStBci := iOld.bci, news[j].bci;
      found, k := SeekMatch(iOld, news, j + 1);
      if found {
        bciMap.StoreFragmentLocation(oldBci, newStBci, news[k].bci);
      }
    }

    /**
     * One step of methods_switchable: pairs old instruction iOld with the new
     * instruction at cursor j or, failing that, with the first later one the
     * attempt accepts, recording the skipped new code as a fragment. It fails
     * when the new stream runs out first.
     */
    method MatchNext(iOld: Instr, news: seq<Instr>, j: nat) returns (found: bool, k: nat)
      requires Valid() && switchableTest && WellFormed(iOld) && AllWellFormed(news) && j <= |news|
      modifies this`fwdJmps, bciMap
      ensures found ==> j <= k < |news|
      ensures found ==> Attempt(oldCp, newCp, old(CurrentMode()), iOld, news[k]).accept
      ensures found ==> forall m :: j <= m < k ==> !Attempt(oldCp, newCp, old(CurrentMode()), iOld, news[m]).accept
      ensures !found ==> forall m :: j <= m < |news| ==> !Attempt(oldCp, newCp, old(CurrentMode()), iOld, news[m]).accept
      ensures !found ==> bciMap.fragments == old(bciMap.fragments)
      ensures found ==> bciMap.fragments == old(bciMap.fragments) +
                          (if k == j then [] else [Fragment(iOld.bci, news[j].bci, news[k].bci)])
      ensures found ==> fwdJmps == old(fwdJmps) + AttemptsDeferred(oldCp, newCp, old(CurrentMode()), iOld, news, j, k + 1)
      ensures !found ==> fwdJmps == old(fwdJmps) + AttemptsDeferred(oldCp, newCp, old(CurrentMode()), iOld, news, j, |news|)
    {
      k := j;
      if j == |news| {
        return false, k;
      }
      ghost var mode := CurrentMode();
      found := TryPair(iOld, news[j]);
      AttemptsDeferredOne(oldCp, newCp, mode, iOld, news, j);
      if !found {
        found, k := SkipAhead(iOld, news, j);
        ghost var hi := if found then k + 1 else |news|;
        AttemptsDeferredSplit(oldCp, newCp, mode, iOld, news, j, j + 1, hi);
        ConcatAssoc(old(fwdJmps), AttemptsDeferred(oldCp, newCp, mode, iOld, news, j, j + 1),
                    AttemptsDeferred(oldCp, newCp, mode, iOld, news, j + 1, hi));
      }
    }

    /**
     * The main loop of methods_switchable: every old instruction in turn is
     * paired with a new one, in order. `matched` is the matching built, a
     * prefix of the old code when the walk fails.
     */
    method Walk(olds: seq<Instr>, news: seq<Instr>) returns (ok: bool, ghost matched: seq<nat>)
      requires Valid() && switchableTest && AllWellFormed(olds) && AllWellFormed(news)
      modifies this`fwdJmps, bciMap
      ensures IsMatching(olds, news, matched)
      ensures ok <==> |matched| == |olds|
      ensures bciMap.fragments == old(bciMap.fragments) + Gaps(olds, news, matched)
      ensures forall k :: 0 <= k < |matched| ==>
                MatchedAt(oldCp, newCp, bciMap.sameLocation, old(bciMap.fragments), olds, news, matched, k)
      ensures |matched| < |olds| ==>
                var mode := ModeAt(bciMap.sameLocation, old(bciMap.fragments), olds, news, matched, |matched|);
                forall m :: GapStart(matched, |matched|) <= m < |news| ==>
                  !Attempt(oldCp, newCp, mode, olds[|matched|], news[m]).accept
      ensures fwdJmps == old(fwdJmps) + WalkDeferred(oldCp, newCp, bciMap.sameLocation, old(bciMap.fragments), olds, news, matched)
    {
      ghost var frags0 := bciMap.fragments;
      ghost var jumps0 := fwdJmps;
      matched := [];
      var i, j := 0, 0;
      while i < |olds|
        invariant 0 <= i <= |olds| && |matched| == i
        invariant j == GapStart(matched, i)
        invariant IsMatching(olds, news, matched)
        invariant bciMap.fragments == frags0 + Gaps(olds, news, matched)
        invariant forall k :: 0 <= k < i ==> MatchedAt(oldCp, newCp, bciMap.sameLocation, frags0, olds, news, matched, k)
        invariant fwdJmps == jumps0 + StepsDeferred(oldCp, newCp, bciMap.sameLocation, frags0, olds, news, matched)
      {
        assert CurrentMode() == ModeAt(bciMap.sameLocation, frags0, olds, news, matched, i) by {
          assert matched[..i] == matched;
        }
        ghost var mode := CurrentMode();
        var found, k := MatchNext(olds[i], news, j);
        if !found {
          ConcatAssoc(jumps0, StepsDeferred(oldCp, newCp, bciMap.sameLocation, frags0, olds, news, matched),
                      AttemptsDeferred(oldCp, newCp, mode, olds[i], news, j, |news|));
          return false, matched;
        }
        ghost var previous := matched;
        matched := matched + [k];
        MatchedStep(oldCp, newCp, bciMap.sameLocation, frags0, olds, news, previous, k);
        StepsDeferredExtend(oldCp, newCp, bciMap.sameLocation, frags0, olds, news, previous, k);
        ConcatAssoc(frags0, Gaps(olds, news, previous), GapAt(olds, news, matched, i));
        ConcatAssoc(jumps0, StepsDeferred(oldCp, newCp, bciMap.sameLocation, frags0, olds, news, previous),
                    AttemptsDeferred(oldCp, newCp, mode, olds[i], news, j, k + 1));
        i, j := i + 1, k + 1;
      }
      ok := true;
    }

    /** The branch case of args_same. */
    method BranchArgsSame(iOld: Instr, iNew: Instr) returns (same: bool)
      requires Valid() && SameOpcode(iOld, iNew) && (IsBranch(iOld.code) || IsWideBranch(iOld.code))
      modifies this`fwdJmps
      ensures var v := BranchVerdict(CurrentMode(), iOld.bci, BranchOffset(iOld), iNew.bci, BranchOffset(iNew));
              same == v.accept && fwdJmps == old(fwdJmps) + v.deferred
    {
      var oldOfs, newOfs := BranchOffset(iOld), BranchOffset(iNew);
      if switchableTest {
        var oldDest, newDest := iOld.bci + oldOfs, iNew.bci + newOfs;
        if oldOfs < 0 && newOfs < 0 {
          same := bciMap.OldAndNewLocationsSame(oldDest, newDest);
        } else if oldOfs > 0 && newOfs > 0 {
          fwdJmps := fwdJmps + [JumpPair(oldDest, newDest)];
          same := true;
        } else {
          same := false;
        }
      } else {
        same := oldOfs == newOfs;
      }
    }

    /** The switchable case of args_same for lookupswitch and tableswitch. */
    method SwitchArgsSame(iOld: Instr, iNew: Instr) returns (same: bool)
      requires Valid() && switchableTest && SameOpcode(iOld, iNew) && IsSwitch(iOld.code)
      modifies this`fwdJmps
      ensures var v := SwitchVerdict(CurrentMode(), iOld, iNew);
              same == v.accept && fwdJmps == old(fwdJmps) + v.deferred
    {
      fwdJmps := fwdJmps + [JumpPair(iOld.bci + SwitchDefault(iOld), iNew.bci + SwitchDefault(iNew))];
      if iOld.code == LOOKUPSWITCH {
        same := LookupArgsSame(iOld, iNew);
        ConcatAssoc(old(fwdJmps), [DefaultTargets(iOld, iNew)], LookupSwitchVerdict(iOld, iNew).deferred);
      } else {
        same := TableArgsSame(iOld, iNew);
        ConcatAssoc(old(fwdJmps), [DefaultTargets(iOld, iNew)], TableSwitchVerdict(iOld, iNew).deferred);
      }
    }

    /** The switchable lookupswitch entries, after the default targets. */
    method LookupArgsSame(iOld: Instr, iNew: Instr) returns (same: bool)
      requires IsLookupSwitch(iOld) && IsLookupSwitch(iNew)
      modifies this`fwdJmps
      ensures var v := LookupSwitchVerdict(iOld, iNew);
              same == v.accept && fwdJmps == old(fwdJmps) + v.deferred
    {
      ghost var start := fwdJmps;
      var n := LookupPairCount(iOld);
      if n != LookupPairCount(iNew) {
        return false;
      }
      var i := 0;
      while i < n
        invariant 0 <= i <= n
        invariant FirstKeyMismatch(iOld, iNew, 0) == FirstKeyMismatch(iOld, iNew, i)
        invariant fwdJmps == start + LookupTargets(iOld, iNew, i)
      {
        var agree := LookupEntrySame(iOld, iNew, i);
        if !agree {
          return false;
        }
        LookupTargetsNext(start, iOld, iNew, i);
        i := i + 1;
      }
      same := true;
    }

    /**
     * One lookupswitch entry: the keys must be equal; if they are, the
     * entry's old and new targets are deferred.
     */
    method LookupEntrySame(iOld: Instr, iNew: Instr, i: nat) returns (agree: bool)
      requires IsLookupSwitch(iOld) && IsLookupSwitch(iNew)
      requires i < LookupPairCount(iOld) && i < LookupPairCount(iNew)
      modifies this`fwdJmps
      ensures agree <==> LookupKey(iOld, i) == LookupKey(iNew, i)
      ensures agree ==> fwdJmps == old(fwdJmps) + [JumpPair(iOld.bci + LookupOffset(iOld, i), iNew.bci + LookupOffset(iNew, i))]
      ensures !agree ==> fwdJmps == old(fwdJmps)
    {
      if LookupKey(iOld, i) != LookupKey(iNew, i) {
        return false;
      }
      var oldDest, newDest := iOld.bci + LookupOffset(iOld, i), iNew.bci + LookupOffset(iNew, i);
      fwdJmps := fwdJmps + [JumpPair(oldDest, newDest)];
      agree := true;
    }

    /** The switchable tableswitch bounds and targets, after the default targets. */
    method TableArgsSame(iOld: Instr, iNew: Instr) returns (same: bool)
      requires IsTableSwitch(iOld) && IsTableSwitch(iNew)
      modifies this`fwdJmps
      ensures var v := TableSwitchVerdict(iOld, iNew);
              same == v.accept && fwdJmps == old(fwdJmps) + v.deferred
    {
      ghost var start := fwdJmps;
      if TableLow(iOld) != TableLow(iNew) {
        return false;
      }
      if TableHigh(iOld) != TableHigh(iNew) {
        return false;
      }
      var n := TableSize(iOld);
      assert n == TableSize(iNew);
      for i := 0 to n
        invariant fwdJmps == start + TableTargets(iOld, iNew, i)
      {
        var oldDest, newDest := iOld.bci + TableOffset(iOld, i), iNew.bci + TableOffset(iNew, i);
        TableTargetsNext(start, iOld, iNew, i);
        fwdJmps := fwdJmps + [JumpPair(oldDest, newDest)];
      }
      same := true;
    }
  }

  /**
   * methods_EMCP: false at once when the code sizes or the shapes differ;
   * otherwise the lockstep walk of both streams.
   */
  method MethodsEMCP(oldM: MethodView, newM: MethodView) returns (r: bool)
    requires WellFormedView(oldM) && WellFormedView(newM)
    ensures oldM.codeSize != newM.codeSize ==> !r
    ensures CheckStackAndLocalsSize(oldM, newM) != 0 ==> !r
    ensures r == Emcp(oldM, newM)
  {
    if oldM.codeSize != newM.codeSize {
      return false;
    }
    if CheckStackAndLocalsSize(oldM, newM) != 0 {
      return false;
    }
    var cmp := new MethodComparator(oldM.cp, newM.cp, false, null);
    var olds, news := oldM.code, newM.code;
    var i := 0;
    while i < |olds|
      invariant 0 <= i <= |olds|
      invariant EmcpWalk(oldM.cp, newM.cp, olds, news, 0) == EmcpWalk(oldM.cp, newM.cp, olds, news, i)
    {
      if i >= |news| {
        return false;
      }
      var same := cmp.TryPair(olds[i], news[i]);
      if !same {
        return false;
      }
      i := i + 1;
    }
    return true;
  }

  /** The pass over the deferred forward jumps: every (old, new) pair must resolve. */
  method CheckForwardJumps(bciMap: BciMap, deferred: seq<JumpPair>) returns (ok: bool)
    ensures ok <==> forall p :: 0 <= p < |deferred| ==> Resolves(bciMap, deferred[p])
  {
    var i := 0;
    while i < |deferred|
      invariant 0 <= i <= |deferred|
      invariant forall p :: 0 <= p < i ==> Resolves(bciMap, deferred[p])
    {
      if !bciMap.OldAndNewLocationsSame(deferred[i].oldDest, deferred[i].newDest) {
        return false;
      }
      i := i + 1;
    }
    return true;
  }

  /**
   * methods_switchable. It fails when the old code is longer and, as written,
   * whenever the shapes agree (the diagnosis is negated). Otherwise it walks
   * the old stream; on a mismatch it advances only the new stream until an
   * instruction matches, records the skipped new code as a fragment, and fails
   * if the new stream runs out. After the walk every deferred forward jump must
   * resolve in the bci map.
   *
   * The ghost results describe the run: `matched` is the old-to-new matching
   * built (a prefix, when the walk failed), `deferred` the deferred jump list,
   * which holds the pairs of every attempt the walk made, matched or not.
   */
  method MethodsSwitchable(oldM: MethodView, newM: MethodView, bciMap: BciMap)
    returns (r: bool, ghost matched: seq<nat>, ghost deferred: seq<JumpPair>)
    requires WellFormedView(oldM) && WellFormedView(newM)
    modifies bciMap
    ensures oldM.codeSize > newM.codeSize ==> !r && matched == [] && deferred == []
    ensures CheckStackAndLocalsSize(oldM, newM) == 0 ==> !r && matched == [] && deferred == []
    ensures IsMatching(oldM.code, newM.code, matched)
    ensures bciMap.fragments == old(bciMap.fragments) + Gaps(oldM.code, newM.code, matched)
    ensures forall k :: 0 <= k < |matched| ==>
              MatchedAt(oldM.cp, newM.cp, bciMap.sameLocation, old(bciMap.fragments), oldM.code, newM.code, matched, k)
    ensures oldM.codeSize <= newM.codeSize && CheckStackAndLocalsSize(oldM, newM) != 0 ==>
              deferred == WalkDeferred(oldM.cp, newM.cp, bciMap.sameLocation, old(bciMap.fragments),
                                       oldM.code, newM.code, matched)
    ensures oldM.codeSize <= newM.codeSize && CheckStackAndLocalsSize(oldM, newM) != 0 &&
            |matched| < |oldM.code| ==>
              var mode := ModeAt(bciMap.sameLocation, old(bciMap.fragments), oldM.code, newM.code, matched, |matched|);
              forall m :: GapStart(matched, |matched|) <= m < |newM.code| ==>
                !Attempt(oldM.cp, newM.cp, mode, oldM.code[|matched|], newM.code[m]).accept
    ensures r <==> && oldM.codeSize <= newM.codeSize
                   && CheckStackAndLocalsSize(oldM, newM) != 0
                   && |matched| == |oldM.code|
                   && forall p :: 0 <= p < |deferred| ==> Resolves(bciMap, deferred[p])
  {
    matched, deferred := [], [];
    if oldM.codeSize > newM.codeSize {
      return false, matched, deferred;
    }
    if CheckStackAndLocalsSize(oldM, newM) == 0 {
      return false, matched, deferred;
    }
    ghost var frags0 := bciMap.fragments;
    var cmp := new MethodComparator(oldM.cp, newM.cp, true, bciMap);
    assert bciMap.fragments == frags0;
    var ok;
    ok, matched := cmp.Walk(oldM.code, newM.code);
    deferred := cmp.fwdJmps;
    if !ok {
      return false, matched, deferred;
    }
    r := CheckForwardJumps(bciMap, cmp.fwdJmps);
  }
}
