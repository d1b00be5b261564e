/**
 * What the method comparator promises, stated over its specification
 * functions: the strict walk pairs the two streams index by index and, with
 * equal code sizes, exhausts both; the branch and switch rules; the fragments
 * and the deferred forward jumps a switchable walk records; and the wide `iinc` comparison as written against
 * the comparison of its index and constant.
 */
module MethodComparisonProperties {
  import opened Sequences
  import opened Bytecodes
  import opened ConstantPools
  import opened BciMaps
  import opened MethodComparison

  // ---------------------------------------------------------------------
  // The strict (EMCP) walk.

  /**
   * The strict walk from i succeeds exactly when every remaining old
   * instruction has a new one at the same index that it pairs with.
   */
  lemma {:induction false} EmcpWalkAllPairs(oldCp: ConstantPool, newCp: ConstantPool,
                                            olds: seq<Instr>, news: seq<Instr>, i: nat)
    requires AllWellFormed(olds) && AllWellFormed(news) && i <= |olds|
    ensures EmcpWalk(oldCp, newCp, olds, news, i) <==>
            forall k :: i <= k < |olds| ==> PairedAt(oldCp, newCp, olds, news, k)
    decreases |olds| - i
  {
    if i < |olds| {
      EmcpWalkAllPairs(oldCp, newCp, olds, news, i + 1);
      if forall k :: i <= k < |olds| ==> PairedAt(oldCp, newCp, olds, news, k) {
        assert PairedAt(oldCp, newCp, olds, news, i);
      }
    }
  }

  /**
   * Two instructions the strict walk pairs have the same length: switches are
   * compared byte for byte, and everything else has the same opcode and the
   * same `wide` flag.
   */
  lemma StrictPairSameLength(oldCp: ConstantPool, newCp: ConstantPool, iOld: Instr, iNew: Instr)
    requires WellFormed(iOld) && WellFormed(iNew)
    requires StrictPairSame(oldCp, newCp, iOld, iNew)
    ensures |iOld.raw| == |iNew.raw|
  {
    var c := iOld.code;
    if IsSwitch(c) {
      assert iOld.raw == iNew.raw;
    } else if Widenable(c) {
      assert iOld.wide == iNew.wide;
    } else {
      assert !iOld.wide && !iNew.wide;
    }
  }

  /** Along a successful strict walk the k-th instructions of both streams start at the same bci. */
  lemma {:induction false} EmcpWalkAligned(oldCp: ConstantPool, newCp: ConstantPool, olds: seq<Instr>, news: seq<Instr>,
                                           oldSize: nat, newSize: nat, k: nat)
    requires WellFormedCode(olds, oldSize) && WellFormedCode(news, newSize)
    requires EmcpWalk(oldCp, newCp, olds, news, 0)
    requires k < |olds|
    ensures k < |news| && olds[k].bci == news[k].bci && |olds[k].raw| == |news[k].raw|
    decreases k
  {
    EmcpWalkAllPairs(oldCp, newCp, olds, news, 0);
    assert PairedAt(oldCp, newCp, olds, news, k);
    StrictPairSameLength(oldCp, newCp, olds[k], news[k]);
    if k > 0 {
      EmcpWalkAligned(oldCp, newCp, olds, news, oldSize, newSize, k - 1);
    }
  }

  /**
   * The strict walk stops when the old stream ends; when it succeeds, the
   * equal code sizes mean the new stream ends there too.
   */
  lemma EmcpExhaustsBoth(oldM: MethodView, newM: MethodView)
    requires WellFormedView(oldM) && WellFormedView(newM)
    requires Emcp(oldM, newM)
    ensures |oldM.code| == |newM.code|
  {
    var olds, news, size := oldM.code, newM.code, newM.codeSize;
    if |olds| == 0 {
      if |news| > 0 {
        assert false;
      }
    } else {
      var n := |olds|;
      EmcpWalkAligned(oldM.cp, newM.cp, olds, news, oldM.codeSize, size, n - 1);
      if |news| > n {
        assert news[n].bci == size;
        InstrWithinCode(news, size, n);
        assert false;
      }
    }
  }

  /**
   * A loaded constant that equals itself under the comparator's rules: an
   * ldc or ldc_w constant is an int, a float other than NaN, a string or a
   * class, and an ldc2_w constant is a long or a double other than NaN.
   */
  predicate SelfComparable(cp: ConstantPool, ins: Instr)
    requires WellFormed(ins)
  {
    && (ins.code == LDC || ins.code == LDC_W ==>
          var o := LdcIndex(ins);
          || cp.tagAt(o) == JVM_CONSTANT_INTEGER
          || (cp.tagAt(o) == JVM_CONSTANT_FLOAT && !IsNaN32(cp.floatAt(o)))
          || IsStringTag(cp.tagAt(o))
          || IsKlassTag(cp.tagAt(o)))
    && (ins.code == LDC2_W && cp.tagAt(CpIndex(ins)) != JVM_CONSTANT_LONG ==>
          !IsNaN64(cp.doubleAt(CpIndex(ins))))
  }

  /**
   * The strict walk pairs an instruction with itself exactly when its loaded
   * constant is self-comparable: every other operand is compared for equality,
   * but a NaN literal is unequal to itself, and a constant of any other tag is
   * taken for a class and fails the class-tag test.
   */
  lemma PairSelfSame(cp: ConstantPool, ins: Instr)
    requires WellFormed(ins)
    ensures StrictPairSame(cp, cp, ins, ins) <==> SelfComparable(cp, ins)
  {
    var c := ins.code;
    if c == LDC || c == LDC_W {
      var o := LdcIndex(ins);
      assert StrictPairSame(cp, cp, ins, ins) == LdcSame(cp, cp, o, o);
    } else if c == LDC2_W {
      var o := CpIndex(ins);
      assert StrictPairSame(cp, cp, ins, ins) == Ldc2wSame(cp, cp, o, o);
    } else if IsSwitch(c) {
      assert SwitchVerdict(Strict, ins, ins).accept;
    }
  }

  /**
   * methods_EMCP compares a method with itself successfully exactly when every
   * constant its code loads is self-comparable: a method that loads a NaN
   * literal is not EMCP to itself.
   */
  lemma EmcpReflexive(m: MethodView)
    requires WellFormedView(m)
    ensures Emcp(m, m) <==> forall k :: 0 <= k < |m.code| ==> SelfComparable(m.cp, m.code[k])
  {
    EmcpWalkAllPairs(m.cp, m.cp, m.code, m.code, 0);
    forall k | 0 <= k < |m.code|
      ensures PairedAt(m.cp, m.cp, m.code, m.code, k) <==> SelfComparable(m.cp, m.code[k])
    {
      PairSelfSame(m.cp, m.code[k]);
    }
  }

  // ---------------------------------------------------------------------
  // Branches and switches.

  /**
   * The branch rule. Strict: equal offsets, nothing deferred. Switchable: an
   * accepted pair goes the same way in both versions; the pair of targets is
   * deferred exactly when both branches go forward; a zero offset is rejected.
   */
  lemma BranchRule(mode: Mode, oldBci: int, oldOfs: int, newBci: int, newOfs: int)
    ensures var v := BranchVerdict(mode, oldBci, oldOfs, newBci, newOfs);
            && (mode.Strict? ==> (v.accept <==> oldOfs == newOfs) && v.deferred == [])
            && (mode.Switchable? && v.accept ==> (oldOfs < 0 && newOfs < 0) || (oldOfs > 0 && newOfs > 0))
            && (mode.Switchable? && oldOfs < 0 && newOfs < 0 ==>
                  v.accept == mode.query(mode.fragments, oldBci + oldOfs, newBci + newOfs))
            && (mode.Switchable? && oldOfs > 0 && newOfs > 0 ==> v.accept)
            && (mode.Switchable? && (oldOfs == 0 || newOfs == 0) ==> !v.accept)
            && (mode.Switchable? ==> (v.deferred != [] <==> oldOfs > 0 && newOfs > 0))
            && (v.deferred != [] ==> v.deferred == [JumpPair(oldBci + oldOfs, newBci + newOfs)])
  {
  }

  /** Entry p of the lookupswitch target list holds entry p's old and new targets. */
  lemma {:induction false} LookupTargetsAt(iOld: Instr, iNew: Instr, k: nat)
    requires IsLookupSwitch(iOld) && IsLookupSwitch(iNew)
    requires k <= LookupPairCount(iOld) && k <= LookupPairCount(iNew)
    ensures forall p :: 0 <= p < k ==>
              LookupTargets(iOld, iNew, k)[p] == JumpPair(iOld.bci + LookupOffset(iOld, p), iNew.bci + LookupOffset(iNew, p))
  {
    if k > 0 {
      LookupTargetsAt(iOld, iNew, k - 1);
    }
  }

  /** Entry p of the tableswitch target list holds jump offset p's old and new targets. */
  lemma {:induction false} TableTargetsAt(iOld: Instr, iNew: Instr, k: nat)
    requires IsTableSwitch(iOld) && IsTableSwitch(iNew)
    requires k <= TableSize(iOld) && k <= TableSize(iNew)
    ensures forall p :: 0 <= p < k ==>
              TableTargets(iOld, iNew, k)[p] == JumpPair(iOld.bci + TableOffset(iOld, p), iNew.bci + TableOffset(iNew, p))
  {
    if k > 0 {
      TableTargetsAt(iOld, iNew, k - 1);
    }
  }

  /**
   * lookupswitch in switchable mode accepts exactly when the pair counts and
   * all keys agree. The entries' targets are deferred in order up to the
   * first differing key, so an accepted pair defers one pair per entry.
   */
  lemma LookupSwitchRule(iOld: Instr, iNew: Instr)
    requires IsLookupSwitch(iOld) && IsLookupSwitch(iNew)
    ensures var v := LookupSwitchVerdict(iOld, iNew);
            && (v.accept <==> LookupPairCount(iOld) == LookupPairCount(iNew)
                              && forall j :: 0 <= j < LookupPairCount(iOld) ==> LookupKey(iOld, j) == LookupKey(iNew, j))
            && (v.accept ==> |v.deferred| == LookupPairCount(iOld))
            && (forall p :: 0 <= p < |v.deferred| ==>
                  LookupKey(iOld, p) == LookupKey(iNew, p)
                  && v.deferred[p] == JumpPair(iOld.bci + LookupOffset(iOld, p), iNew.bci + LookupOffset(iNew, p)))
  {
    var n := LookupPairCount(iOld);
    if n == LookupPairCount(iNew) {
      FirstKeyMismatchIsFirst(iOld, iNew, 0);
      LookupTargetsAt(iOld, iNew, FirstKeyMismatch(iOld, iNew, 0));
    }
  }

  /**
   * tableswitch in switchable mode accepts exactly when the low and high
   * bounds agree; it then defers hi - lo + 1 pairs, jump offset by jump offset.
   */
  lemma TableSwitchRule(iOld: Instr, iNew: Instr)
    requires IsTableSwitch(iOld) && IsTableSwitch(iNew)
    ensures var v := TableSwitchVerdict(iOld, iNew);
            && (v.accept <==> TableLow(iOld) == TableLow(iNew) && TableHigh(iOld) == TableHigh(iNew))
            && (v.accept ==> |v.deferred| == TableHigh(iOld) - TableLow(iOld) + 1)
            && (forall p :: 0 <= p < |v.deferred| ==>
                  v.deferred[p] == JumpPair(iOld.bci + TableOffset(iOld, p), iNew.bci + TableOffset(iNew, p)))
  {
    if TableLow(iOld) == TableLow(iNew) && TableHigh(iOld) == TableHigh(iNew) {
      TableTargetsAt(iOld, iNew, TableSize(iOld));
    }
  }

  /**
   * Switches in switchable mode defer the default targets first, whether the
   * pair is then accepted or not: a rejected candidate leaves that pair on the
   * deferred list. In strict mode the two instructions must be the same bytes.
   */
  lemma SwitchRule(oldCp: ConstantPool, newCp: ConstantPool, mode: Mode, iOld: Instr, iNew: Instr)
    requires SameOpcode(iOld, iNew) && IsSwitch(iOld.code)
    ensures var v := Attempt(oldCp, newCp, mode, iOld, iNew);
            && (mode.Switchable? ==> |v.deferred| >= 1 && v.deferred[0] == DefaultTargets(iOld, iNew))
            && (mode.Strict? ==> (v.accept <==> iOld.raw == iNew.raw))
  {
  }

  // ---------------------------------------------------------------------
  // The fragments recorded by a switchable walk.

  /** A walk's record of fragments is that of its first steps followed by the last step's. */
  lemma GapsSplit(olds: seq<Instr>, news: seq<Instr>, matched: seq<nat>)
    requires IsMatching(olds, news, matched) && matched != []
    ensures IsMatching(olds, news, matched[..|matched| - 1])
    ensures Gaps(olds, news, matched)
         == Gaps(olds, news, matched[..|matched| - 1]) + GapAt(olds, news, matched, |matched| - 1)
  {
  }

  /** Every fragment covers new code: it starts before it ends. */
  predicate AllCoverNewCode(fs: seq<Fragment>) {
    forall f :: f in fs ==> f.newStartBci < f.newEndBci
  }

  /** Every fragment belongs to an old bci below the bound. */
  predicate AllBelow(fs: seq<Fragment>, bound: int) {
    forall f :: f in fs ==> f.oldBci < bound
  }

  /** The fragments are in strictly increasing old bci order. */
  predicate OldBciIncreasing(fs: seq<Fragment>) {
    forall a :: 0 < a < |fs| ==> fs[a - 1].oldBci < fs[a].oldBci
  }

  lemma AllCoverNewCodeConcat(a: seq<Fragment>, b: seq<Fragment>)
    requires AllCoverNewCode(a) && AllCoverNewCode(b)
    ensures AllCoverNewCode(a + b)
  {
  }

  lemma AllBelowConcat(a: seq<Fragment>, b: seq<Fragment>, bound: int)
    requires AllBelow(a, bound) && AllBelow(b, bound)
    ensures AllBelow(a + b, bound)
  {
  }

  /** Old instruction k's fragment, if any, runs forward over new code. */
  lemma GapAtNonEmpty(olds: seq<Instr>, news: seq<Instr>, newSize: nat, matched: seq<nat>, k: nat)
    requires WellFormedCode(news, newSize)
    requires IsMatching(olds, news, matched) && k < |matched|
    ensures AllCoverNewCode(GapAt(olds, news, matched, k))
  {
    var start := GapStart(matched, k);
    if matched[k] != start {
      BciIncreasing(news, newSize, start, matched[k]);
    }
  }

  /** Every fragment a walk records covers new code: it starts before it ends. */
  lemma {:induction false} GapsNonEmpty(olds: seq<Instr>, news: seq<Instr>, newSize: nat, matched: seq<nat>)
    requires WellFormedCode(news, newSize)
    requires IsMatching(olds, news, matched)
    ensures AllCoverNewCode(Gaps(olds, news, matched))
    decreases |matched|
  {
    if matched != [] {
      var k := |matched| - 1;
      GapsSplit(olds, news, matched);
      GapsNonEmpty(olds, news, newSize, matched[..k]);
      GapAtNonEmpty(olds, news, newSize, matched, k);
      AllCoverNewCodeConcat(Gaps(olds, news, matched[..k]), GapAt(olds, news, matched, k));
    }
  }

  /** Appending a fragment beyond all others keeps the order. */
  lemma AppendIncreasing(fs: seq<Fragment>, tail: seq<Fragment>, bound: int)
    requires OldBciIncreasing(fs) && AllBelow(fs, bound) && |tail| <= 1
    requires forall g :: g in tail ==> bound <= g.oldBci
    ensures OldBciIncreasing(fs + tail)
  {
    if |tail| == 1 && |fs| > 0 {
      assert fs[|fs| - 1] in fs;
      assert tail[0] in tail;
    }
  }

  /** Old instruction k's fragment, if any, is recorded at old instruction k's bci. */
  lemma GapAtOldBci(olds: seq<Instr>, news: seq<Instr>, matched: seq<nat>, k: nat)
    requires IsMatching(olds, news, matched) && k < |matched|
    ensures forall f :: f in GapAt(olds, news, matched, k) ==> f.oldBci == olds[k].bci
  {
  }

  /** A walk's fragments all belong to old instructions before old instruction k. */
  lemma {:induction false} GapsBelow(olds: seq<Instr>, news: seq<Instr>, oldSize: nat, matched: seq<nat>, k: nat)
    requires WellFormedCode(olds, oldSize)
    requires IsMatching(olds, news, matched) && |matched| <= k < |olds|
    ensures AllBelow(Gaps(olds, news, matched), olds[k].bci)
    decreases |matched|
  {
    if matched != [] {
      var n := |matched| - 1;
      GapsSplit(olds, news, matched);
      GapsBelow(olds, news, oldSize, matched[..n], k);
      BciIncreasing(olds, oldSize, n, k);
      GapAtOldBci(olds, news, matched, n);
      AllBelowConcat(Gaps(olds, news, matched[..n]), GapAt(olds, news, matched, n), olds[k].bci);
    }
  }

  /** The fragments a walk records are in strictly increasing old bci order. */
  lemma {:induction false} GapsOrdered(olds: seq<Instr>, news: seq<Instr>, oldSize: nat, matched: seq<nat>)
    requires WellFormedCode(olds, oldSize)
    requires IsMatching(olds, news, matched)
    ensures OldBciIncreasing(Gaps(olds, news, matched))
    decreases |matched|
  {
    if matched != [] {
      var k := |matched| - 1;
      GapsSplit(olds, news, matched);
      GapsOrdered(olds, news, oldSize, matched[..k]);
      GapsBelow(olds, news, oldSize, matched[..k], k);
      GapAtOldBci(olds, news, matched, k);
      AppendIncreasing(Gaps(olds, news, matched[..k]), GapAt(olds, news, matched, k), olds[k].bci);
    }
  }

  // ---------------------------------------------------------------------
  // The forward jumps a switchable walk defers.

  /** Every pair an attempt defers is on the deferred list of any run of attempts that includes it. */
  lemma AttemptsDeferredContains(oldCp: ConstantPool, newCp: ConstantPool, mode: Mode, iOld: Instr,
                                 news: seq<Instr>, lo: nat, hi: nat, m: nat, x: JumpPair)
    requires WellFormed(iOld) && AllWellFormed(news) && lo <= m < hi <= |news|
    requires x in Attempt(oldCp, newCp, mode, iOld, news[m]).deferred
    ensures x in AttemptsDeferred(oldCp, newCp, mode, iOld, news, lo, hi)
  {
    var lists := AttemptLists(oldCp, newCp, mode, iOld, news, lo, hi);
    assert lists[m - lo] == Attempt(oldCp, newCp, mode, iOld, news[m]).deferred;
    FlattenContains(lists, m - lo, x);
  }

  /** The pairs deferred by step k are on the list of the steps of the whole matching. */
  lemma StepsDeferredContains(oldCp: ConstantPool, newCp: ConstantPool, query: LocationQuery,
                              frags0: seq<Fragment>, olds: seq<Instr>, news: seq<Instr>,
                              matched: seq<nat>, k: nat, x: JumpPair)
    requires AllWellFormed(olds) && AllWellFormed(news)
    requires IsMatching(olds, news, matched) && k < |matched|
    requires x in StepDeferred(oldCp, newCp, query, frags0, olds, news, matched, k)
    ensures x in StepsDeferred(oldCp, newCp, query, frags0, olds, news, matched)
  {
    FlattenContains(StepLists(oldCp, newCp, query, frags0, olds, news, matched), k, x);
  }

  /** In switchable mode an attempt on two switches defers their default targets. */
  lemma DefaultTargetsDeferred(oldCp: ConstantPool, newCp: ConstantPool, mode: Mode, iOld: Instr, iNew: Instr)
    requires SameOpcode(iOld, iNew) && IsSwitch(iOld.code) && mode.Switchable?
    ensures DefaultTargets(iOld, iNew) in Attempt(oldCp, newCp, mode, iOld, iNew).deferred
  {
    SwitchRule(oldCp, newCp, mode, iOld, iNew);
  }

  /** The pairs deferred by the steps of a walk are on the walk's whole deferred list. */
  lemma StepsInWalk(oldCp: ConstantPool, newCp: ConstantPool, query: LocationQuery, frags0: seq<Fragment>,
                    olds: seq<Instr>, news: seq<Instr>, matched: seq<nat>, x: JumpPair)
    requires AllWellFormed(olds) && AllWellFormed(news) && IsMatching(olds, news, matched)
    requires x in StepsDeferred(oldCp, newCp, query, frags0, olds, news, matched)
    ensures x in WalkDeferred(oldCp, newCp, query, frags0, olds, news, matched)
  {
  }

  /**
   * A switch candidate that a switchable walk tries and skips while seeking
   * the match of old instruction k still leaves its default targets on the
   * deferred list, where they must resolve for the methods to be switchable.
   */
  lemma SkippedSwitchLeavesDefault(oldCp: ConstantPool, newCp: ConstantPool, query: LocationQuery,
                                   frags0: seq<Fragment>, olds: seq<Instr>, news: seq<Instr>,
                                   matched: seq<nat>, k: nat, m: nat)
    requires AllWellFormed(olds) && AllWellFormed(news) && IsMatching(olds, news, matched)
    requires k < |matched| && GapStart(matched, k) <= m < matched[k]
    requires olds[k].code == news[m].code && IsSwitch(olds[k].code)
    ensures DefaultTargets(olds[k], news[m]) in WalkDeferred(oldCp, newCp, query, frags0, olds, news, matched)
  {
    var mode := ModeAt(query, frags0, olds, news, matched, k);
    var x := DefaultTargets(olds[k], news[m]);
    DefaultTargetsDeferred(oldCp, newCp, mode, olds[k], news[m]);
    AttemptsDeferredContains(oldCp, newCp, mode, olds[k], news, GapStart(matched, k), matched[k] + 1, m, x);
    StepsDeferredContains(oldCp, newCp, query, frags0, olds, news, matched, k, x);
    StepsInWalk(oldCp, newCp, query, frags0, olds, news, matched, x);
  }

  // ---------------------------------------------------------------------
  // The wide iinc comparison.

  /** Two u2 reads agree exactly when the two bytes read agree. */
  lemma U2Bytes(a: seq<Byte>, b: seq<Byte>, k: nat)
    requires k + 2 <= |a| && k + 2 <= |b|
    ensures U2(a, k) == U2(b, k) <==> a[k] == b[k] && a[k + 1] == b[k + 1]
  {
  }

  /** Two u4 reads agree exactly when the four bytes read agree. */
  lemma U4Bytes(a: seq<Byte>, b: seq<Byte>, k: nat)
    requires k + 4 <= |a| && k + 4 <= |b|
    ensures U4(a, k) == U4(b, k) <==> a[k..k + 4] == b[k..k + 4]
  {
    U2Bytes(a, b, k);
    U2Bytes(a, b, k + 2);
    if a[k..k + 4] == b[k..k + 4] {
      assert a[k] == b[k] && a[k + 1] == b[k + 1] && a[k + 2] == b[k + 2] && a[k + 3] == b[k + 3] by {
        assert a[k..k + 4][0] == b[k..k + 4][0] && a[k..k + 4][1] == b[k..k + 4][1];
        assert a[k..k + 4][2] == b[k..k + 4][2] && a[k..k + 4][3] == b[k..k + 4][3];
      }
    }
  }

  /**
   * The intended iinc comparison: the same `wide` flag, then the same local
   * index and the same constant, as the bytes that encode them.
   */
  lemma IincOperandsSameMeaning(iOld: Instr, iNew: Instr)
    requires SameOpcode(iOld, iNew) && iOld.code == IINC
    ensures IincOperandsSame(iOld, iNew) <==>
            && iOld.wide == iNew.wide
            && if iOld.wide then iOld.raw[2..6] == iNew.raw[2..6] else iOld.raw[1..3] == iNew.raw[1..3]
  {
    if iOld.wide == iNew.wide {
      if iOld.wide {
        U4Bytes(iOld.raw, iNew.raw, 2);
      } else {
        U2Bytes(iOld.raw, iNew.raw, 1);
        assert iOld.raw[1..3] == [iOld.raw[1], iOld.raw[2]];
        assert iNew.raw[1..3] == [iNew.raw[1], iNew.raw[2]];
      }
    }
  }

  /**
   * As written, a wide iinc compares the iinc opcode, the two index bytes and
   * only the high byte of the constant: it accepts whatever the intended
   * comparison accepts, and also pairs whose constants differ in the low byte.
   */
  lemma IincAsWrittenWeaker(iOld: Instr, iNew: Instr)
    requires SameOpcode(iOld, iNew) && iOld.code == IINC
    ensures IincOperandsSame(iOld, iNew) ==> IincOperandsSameAsWritten(iOld, iNew)
    ensures IincOperandsSameAsWritten(iOld, iNew) && iOld.wide <==>
            iNew.wide && iOld.wide && iOld.raw[2..5] == iNew.raw[2..5]
  {
    if iOld.wide && iNew.wide {
      U4Bytes(iOld.raw, iNew.raw, 1);
      U4Bytes(iOld.raw, iNew.raw, 2);
      assert iOld.raw[1..5] == [iOld.raw[1]] + iOld.raw[2..5];
      assert iNew.raw[1..5] == [iNew.raw[1]] + iNew.raw[2..5];
      assert iOld.raw[2..6] == iOld.raw[2..5] + [iOld.raw[5]];
      assert iNew.raw[2..6] == iNew.raw[2..5] + [iNew.raw[5]];
    }
  }

  /**
   * `wide iinc 1, 1` against `wide iinc 1, 2`: the comparison as written
   * accepts the pair although the constants differ; the intended one rejects it.
   */
  lemma IincAsWrittenCounterexample()
    ensures var iOld := Instr(0, IINC, true, [WIDE, IINC, 0, 1, 0, 1]);
            var iNew := Instr(0, IINC, true, [WIDE, IINC, 0, 1, 0, 2]);
            && SameOpcode(iOld, iNew)
            && IincOperandsSameAsWritten(iOld, iNew)
            && !IincOperandsSame(iOld, iNew)
  {
    var iOld := Instr(0, IINC, true, [WIDE, IINC, 0, 1, 0, 1]);
    var iNew := Instr(0, IINC, true, [WIDE, IINC, 0, 1, 0, 2]);
    assert U4(iOld.raw, 2) == 0x0001_0001;
    assert U4(iNew.raw, 2) == 0x0001_0002;
  }
}
