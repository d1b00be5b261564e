# Method comparison and class-path string handling, modelled in Dafny

This project models two pieces of the HotSpot virtual machine and proves what they promise.

**The method comparator** (`methodComparator.cpp`) is used when a class is redefined. It decides whether a new version of a method is equivalent to the old one, in one of two modes:

- **EMCP** (`methods_EMCP`) compares the two bytecode streams in lockstep, modulo the constant pool.
- **Switchable** (`methods_switchable`) accepts the old code with fragments of new code inserted. Each inserted fragment is recorded in a bci map. Backward branches are checked against that map at once. Forward branches and switch targets are deferred, then checked after the walk.

`args_same` holds the operand rule of each opcode group. `check_stack_and_locals_size` compares the shape of the two methods.

**The CDS class loader extension** (`classLoaderExt.cpp`) is modelled in four parts:

- `get_class_path_attr` finds the last `Class-Path: ` line of a JAR manifest held in a NUL-terminated buffer, and cuts that line in place.
- The Class-Path loop of `process_jar_manifest` splits the attribute value on spaces, in place, and prefixes each name with the JAR's directory.
- `find_classpath_entry_from_cache` is a most-recently-used-first cache of class path entries.
- `check` decides whether a class found on the class path may be archived.

Both files change state step by step, so the model is imperative where the code is:

- The comparator's static state becomes the `MethodComparator` class. Its deferred forward-jump list is a field, and the `BciMap` is a class whose fragment list grows.
- `methods_EMCP`, `methods_switchable` and the switch loops are methods with loop invariants.
- The manifest and the Class-Path value are `array<char>` buffers written in place.
- The cache and the `check` flags are classes with fields.

Each method is proved against a specification function. `ArgsVerdict`, `Attempt` and `EmcpWalk` specify the comparator. `ClassPathAttr`, `TaggedEnds`, `Tokens`, `IndexOfPath` and `MoveToFront` specify the class loader. The two `*_properties.dfy` files prove what those functions mean.

Instructions arrive decoded: each one has its bci, its opcode, its `wide` flag and its raw bytes, so every operand read is explicit. Operand positions follow section 6.5 of the Java Virtual Machine Specification. That includes the switch padding, which is aligned relative to the start of the code array. Constant-pool tags follow section 4.4.

`methods_switchable` is modelled as written in two places:

- It negates the shape diagnosis (`methodComparator.cpp:73`), so it fails whenever the shapes *agree*.
- A switch candidate rejected during resynchronisation leaves its deferred pairs on the list.

The one place the model departs from the source is the wide `iinc` operand comparison at `methodComparator.cpp:291`. The comparator uses the corrected comparison, and the rule as written is modelled beside it (see Findings).

## Model

| member | source | states |
|---|---|---|
| MethodComparison.CheckStackAndLocalsSize | hotspot/src/share/vm/prims/methodComparator.cpp:375-383 | The result is the first difference found: 1 when max_stack differs, else 2 when max_locals differs, else 3 when the parameter size differs, else 0; 0 exactly when all three agree. |
| MethodComparison.ArgsVerdict | hotspot/src/share/vm/prims/methodComparator.cpp:124-372 | In strict mode no operand rule ever defers a jump. |
| MethodComparison.Attempt | hotspot/src/share/vm/prims/methodComparator.cpp:91-97 | An accepted pair has equal opcodes; a pair with different opcodes defers nothing, because its operands are never looked at. |
| MethodComparison.LookupTargets | hotspot/src/share/vm/prims/methodComparator.cpp:333-342 | The first k lookupswitch entries defer exactly k pairs. |
| MethodComparison.TableTargets | hotspot/src/share/vm/prims/methodComparator.cpp:352-357 | The first k tableswitch offsets defer exactly k pairs. |
| MethodComparison.FirstKeyMismatchIsFirst | hotspot/src/share/vm/prims/methodComparator.cpp:333-337 | The lookupswitch loop stops at the first entry whose keys differ: all earlier keys are equal, and if it stops before the end the keys there differ. |
| MethodComparison.MatchedStep | hotspot/src/share/vm/prims/methodComparator.cpp:88-106 | Pairing the next old instruction with the first acceptable new one at or after the cursor extends the matching. It appends that step's fragment, if any, to the fragments recorded, and keeps what is known of every earlier step. |
| MethodComparison.StepsDeferredExtend | hotspot/src/share/vm/prims/methodComparator.cpp:88-106 | Matching one more old instruction appends exactly the pairs of that step's attempts, from the cursor to the match, to the deferred list of the earlier steps. |
| MethodComparison.MethodComparator.ArgsSame | hotspot/src/share/vm/prims/methodComparator.cpp:124-372 | The verdict is the operand rule of the opcode's group in the current mode. The deferred list grows by exactly that rule's pairs, whether the pair is accepted or not. |
| MethodComparison.MethodComparator.TryPair | hotspot/src/share/vm/prims/methodComparator.cpp:91-97 | `c_old == c_new && args_same`: an attempt's verdict, and the deferred list grown by the attempt's pairs. |
| MethodComparison.MethodComparator.SeekMatch | hotspot/src/share/vm/prims/methodComparator.cpp:95-101 | It finds the first new instruction from the cursor on that pairs with the old one, or reports that none does. Every attempt it makes, rejected or accepted, appends its deferred pairs in order, up to the match or to the end of the new stream. |
| MethodComparison.MethodComparator.SkipAhead | hotspot/src/share/vm/prims/methodComparator.cpp:91-105 | After the cursor's instruction is rejected, it finds the first acceptable new instruction after the cursor. When there is one, it stores exactly the fragment from the old bci over the skipped new code [cursor bci, match bci). When there is none, no later candidate is accepted and no fragment is stored. The deferred list grows by the pairs of every attempt made. |
| MethodComparison.MethodComparator.MatchNext | hotspot/src/share/vm/prims/methodComparator.cpp:88-106 | The old instruction is paired with the first acceptable new instruction at or after the cursor; only the new cursor moves. Exactly one fragment (old bci, new start bci, new end bci) is stored when that is not the cursor's own instruction. It fails exactly when no new instruction from the cursor to the end of the stream is accepted, and then stores no fragment. The deferred list grows by the pairs of every attempt made, from the cursor to the match or to the end of the stream. |
| MethodComparison.MethodComparator.Walk | hotspot/src/share/vm/prims/methodComparator.cpp:88-107 | The walk builds a strictly increasing matching of old to new instructions with equal opcodes. Each old instruction is paired with the first acceptable candidate. The recorded fragments are exactly the gaps of the matching, and the deferred list is exactly the pairs of every attempt made, in order. It succeeds exactly when every old instruction is matched. When it fails, the first unmatched old instruction is rejected by every new instruction from the end of the last match to the end of the stream. |
| MethodComparison.MethodComparator.BranchArgsSame | hotspot/src/share/vm/prims/methodComparator.cpp:262-282 | The branch rule of the current mode decides the verdict, and the deferred list grows by the rule's pair. The branch rule itself is in BranchRule. |
| MethodComparison.MethodComparator.SwitchArgsSame | hotspot/src/share/vm/prims/methodComparator.cpp:319-358 | The switchable switch rule decides the verdict. The default pair is appended before the lookupswitch or tableswitch rule, and stays there even when the rule rejects. |
| MethodComparison.MethodComparator.LookupArgsSame | hotspot/src/share/vm/prims/methodComparator.cpp:328-342 | The lookupswitch loop matches the lookupswitch rule: reject on differing pair counts, otherwise defer entry by entry until the first differing key. |
| MethodComparison.MethodComparator.LookupEntrySame | hotspot/src/share/vm/prims/methodComparator.cpp:334-341 | One entry agrees exactly when its keys are equal. Only then are its old and new targets appended. |
| MethodComparison.MethodComparator.TableArgsSame | hotspot/src/share/vm/prims/methodComparator.cpp:343-357 | The tableswitch code matches the tableswitch rule: reject on a differing low or high bound, otherwise defer every jump offset's pair in order. |
| MethodComparison.MethodsEMCP | hotspot/src/share/vm/prims/methodComparator.cpp:36-64 | It is false at once when the code sizes or the shapes differ. Otherwise it is true exactly when the strict walk succeeds. |
| MethodComparison.CheckForwardJumps | hotspot/src/share/vm/prims/methodComparator.cpp:110-118 | It is true exactly when every deferred (old, new) pair denotes the same place in the bci map. |
| MethodComparison.MethodsSwitchable | hotspot/src/share/vm/prims/methodComparator.cpp:67-121 | It fails when the old code is longer and, as written, whenever the shape diagnosis is 0, with nothing deferred. Otherwise it builds the walk's matching and fragments (see Walk), and its deferred list is the pairs of every attempt the walk made, rejected candidates included. It succeeds exactly when every old instruction is matched and every deferred jump resolves, so one unresolved pair makes it fail. When the walk stops early, the first unmatched old instruction is rejected by every remaining new instruction, so the result is fully determined by the inputs. New instructions after the last match are never looked at, and no fragment covers them. |
| BciMaps.BciMap.StoreFragmentLocation | hotspot/src/share/vm/prims/methodComparator.cpp:105 | Storing a fragment appends it after the ones already recorded. |
| MethodComparisonProperties.EmcpWalkAllPairs | hotspot/src/share/vm/prims/methodComparator.cpp:56-63 | The strict walk succeeds exactly when every old instruction has a new instruction at the same index with the same opcode and accepted operands. |
| MethodComparisonProperties.StrictPairSameLength | hotspot/src/share/vm/prims/methodComparator.cpp:359-365 | Two instructions the strict walk pairs have the same length in bytes. |
| MethodComparisonProperties.EmcpWalkAligned | hotspot/src/share/vm/prims/methodComparator.cpp:56-63 | Along a successful strict walk, the k-th instructions of both methods start at the same bci and have the same length. |
| MethodComparisonProperties.PairSelfSame | hotspot/src/share/vm/prims/methodComparator.cpp:163-216 | The strict walk pairs an instruction with itself exactly when its loaded constant compares equal to itself. An ldc or ldc_w constant must be an int, a float other than NaN, a string or a class. An ldc2_w constant must be a long or a double other than NaN. |
| MethodComparisonProperties.EmcpReflexive | hotspot/src/share/vm/prims/methodComparator.cpp:36-63 | methods_EMCP accepts a method compared with itself exactly when every constant its code loads compares equal to itself. So it is not reflexive: the C `!=` at lines 182 and 212 is true for a NaN float or double, and a method loading a NaN literal is not EMCP to itself. |
| MethodComparisonProperties.EmcpExhaustsBoth | hotspot/src/share/vm/prims/methodComparator.cpp:36-63 | When methods_EMCP accepts, the new method has exactly as many instructions as the old one, although the loop only watches the old stream. |
| MethodComparisonProperties.BranchRule | hotspot/src/share/vm/prims/methodComparator.cpp:262-316 | Strict mode accepts exactly equal offsets and defers nothing. In switchable mode an accepted pair branches the same way in both versions, and a zero offset is rejected. Two backward branches are accepted exactly when the bci map places their targets at the same location. Two forward branches are always accepted for now. A pair is deferred exactly when both branches go forward, and the deferred pair is the two absolute targets. |
| MethodComparisonProperties.LookupTargetsAt | hotspot/src/share/vm/prims/methodComparator.cpp:338-341 | Deferred pair p of a lookupswitch holds entry p's old and new targets. |
| MethodComparisonProperties.TableTargetsAt | hotspot/src/share/vm/prims/methodComparator.cpp:352-357 | Deferred pair p of a tableswitch holds jump offset p's old and new targets. |
| MethodComparisonProperties.LookupSwitchRule | hotspot/src/share/vm/prims/methodComparator.cpp:328-342 | A lookupswitch is accepted exactly when the pair counts and all keys agree, and it then defers one pair per entry. Every deferred pair, accepted or not, belongs to an entry whose keys agree, in entry order. |
| MethodComparisonProperties.TableSwitchRule | hotspot/src/share/vm/prims/methodComparator.cpp:343-357 | A tableswitch is accepted exactly when the low and high bounds agree, and it then defers hi - lo + 1 pairs, offset by offset. |
| MethodComparisonProperties.SwitchRule | hotspot/src/share/vm/prims/methodComparator.cpp:319-366 | In switchable mode the first deferred pair is always the default targets, whatever the verdict. In strict mode a switch pair is accepted exactly when the two instructions have the same bytes. |
| MethodComparisonProperties.GapsNonEmpty | hotspot/src/share/vm/prims/methodComparator.cpp:92-105 | Every fragment a switchable walk records covers new code: its start bci is below its end bci. |
| MethodComparisonProperties.GapsBelow | hotspot/src/share/vm/prims/methodComparator.cpp:88-106 | The fragments recorded so far all belong to old instructions before the one being compared. |
| MethodComparisonProperties.GapsOrdered | hotspot/src/share/vm/prims/methodComparator.cpp:88-106 | The fragments are recorded in strictly increasing old bci order. |
| MethodComparisonProperties.SkippedSwitchLeavesDefault | hotspot/src/share/vm/prims/methodComparator.cpp:95-101 | A switch candidate that the walk tries and skips while seeking a match still leaves its default targets on the walk's deferred list, where they must resolve. |
| MethodComparisonProperties.IincOperandsSameMeaning | hotspot/src/share/vm/prims/methodComparator.cpp:284-294 | The corrected iinc rule accepts exactly when the `wide` flags agree and the bytes that encode the local index and the constant agree. |
| MethodComparisonProperties.IincAsWrittenWeaker | hotspot/src/share/vm/prims/methodComparator.cpp:291 | The iinc rule as written accepts everything the corrected rule accepts. For wide pairs it compares only the opcode, the index and the constant's high byte. |
| MethodComparisonProperties.IincAsWrittenCounterexample | hotspot/src/share/vm/prims/methodComparator.cpp:291 | `wide iinc 1, 1` against `wide iinc 1, 2` is accepted as written and rejected by the corrected rule. |
| ClassLoaderExt.FindChar | src/hotspot/share/classfile/classLoaderExt.cpp:108 | A position strchr returns holds the character searched for and lies at or after the start. |
| ClassLoaderExt.FindCharSkips | src/hotspot/share/classfile/classLoaderExt.cpp:108 | strchr passes over neither the character searched for nor a NUL before the position it returns. |
| ClassLoaderExt.FindCharIsFirst | src/hotspot/share/classfile/classLoaderExt.cpp:167 | In a terminated string, strchr returns the first occurrence before the NUL, and returns nothing exactly when the string does not contain the character. |
| ClassLoaderExt.StrLen | src/hotspot/share/classfile/classLoaderExt.cpp:164 | strlen ends on a NUL inside the buffer. |
| ClassLoaderExt.StrLenIsFirstNul | src/hotspot/share/classfile/classLoaderExt.cpp:164 | No NUL comes before the one strlen stops at. |
| ClassLoaderExt.LinesStep | src/hotspot/share/classfile/classLoaderExt.cpp:107-127 | The '\n' that ends a line lies before the manifest's terminating NUL. Scanning from a line start is that line's step followed by the scan from the next line. |
| ClassLoaderExt.GetClassPathAttr | src/hotspot/share/classfile/classLoaderExt.cpp:98-129 | It returns the value position of the whole scan. The buffer afterwards is the manifest with a NUL written exactly at the '\n' of each tagged line, and nothing else changed. |
| ClassLoaderExt.ScanLine | src/hotspot/share/classfile/classLoaderExt.cpp:108-126 | One pass of the scan. With no '\n' left, no more lines are scanned. Otherwise the '\n' lies before the end, and the scan invariant holds at the next line. |
| ClassLoaderExt.CutTaggedLine | src/hotspot/share/classfile/classLoaderExt.cpp:113-125 | A line is tagged exactly when it starts with `Class-Path: `. Only then is its '\n' overwritten, and no other byte changes. |
| ClassLoaderExt.LastIndexOf | src/hotspot/share/classfile/classLoaderExt.cpp:154 | strrchr returns the last occurrence of the separator, and returns nothing exactly when the path has none. |
| ClassLoaderExt.DirLength | src/hotspot/share/classfile/classLoaderExt.cpp:152-160 | dir_len is 0 exactly when the JAR path has no separator. Otherwise the prefix ends with the last separator. |
| ClassLoaderExt.TokensSplitAt | src/hotspot/share/classfile/classLoaderExt.cpp:166-187 | Cutting the value at its first space yields the token before it (none if it is empty), followed by the tokens after the space. |
| ClassLoaderExt.SplitAtSpace | src/hotspot/share/classfile/classLoaderExt.cpp:167-175 | When a space is found, cutting it leaves the piece before it as a NUL-terminated string whose strlen is the piece's length. The tokens still to come are that piece, if not empty, then the tokens after the space. |
| ClassLoaderExt.SplitAtEnd | src/hotspot/share/classfile/classLoaderExt.cpp:171-175 | When no space is found, the rest of the value is one token, left as it is. |
| ClassLoaderExt.AddClassPathLibraries | src/hotspot/share/classfile/classLoaderExt.cpp:149-188 | With no attribute, nothing changes. Otherwise there is one library per token of the value, in order: the JAR's directory prefix followed by the token. The buffer ends with exactly the value's spaces turned into NULs. |
| ClassLoaderExt.SplitValue | src/hotspot/share/classfile/classLoaderExt.cpp:162-187 | The split loop yields one prefixed library per token, in order, and cuts every space of the value. |
| ClassLoaderExt.NextToken | src/hotspot/share/classfile/classLoaderExt.cpp:167-186 | One iteration moves the start forward, yields at most one token (the next one of the value), and cuts the spaces up to the new start. |
| ClassLoaderExt.IndexOfPath | src/hotspot/share/classfile/classLoaderExt.cpp:320-322 | The lookup finds the first slot holding the path, or reports that no slot holds it. |
| ClassLoaderExt.ClassPathEntryCache.Find | src/hotspot/share/classfile/classLoaderExt.cpp:313-347 | A hit returns the cached entry and moves its slot to the front. A miss with a successful stat and create caches the new entry at the front and returns it. Otherwise it returns None and the cache is unchanged. Paths stay distinct throughout. |
| ClassLoaderExt.MoveToFrontDistinct | src/hotspot/share/classfile/classLoaderExt.cpp:323-327 | Moving a slot to the front keeps every cached path distinct. |
| ClassLoaderExt.ClassLoaderExtState.Check | src/hotspot/share/classfile/classLoaderExt.cpp:200-220 | It refuses exactly when there is a stream, dumping is on, the entry is signed and the index is at or past the application paths. An accepted class from the application paths sets both flags; otherwise the flags are unchanged. |
| ClassLoaderExtProperties.LinesAreLines | src/hotspot/share/classfile/classLoaderExt.cpp:107-112 | Every line the scan visits is complete: it ends with a '\n' before the manifest's end, with no '\n' or NUL before that. The first line starts where the scan starts. |
| ClassLoaderExtProperties.LinesAreConsecutive | src/hotspot/share/classfile/classLoaderExt.cpp:126 | Each line starts just after the previous line's '\n'. |
| ClassLoaderExtProperties.LinesStop | src/hotspot/share/classfile/classLoaderExt.cpp:107-112 | The scan stops at the end of the manifest, or before a trailing line with no '\n', which is never examined. |
| ClassLoaderExtProperties.ScanFoundLast | src/hotspot/share/classfile/classLoaderExt.cpp:113-122 | With no tagged line the position is unchanged. Otherwise it is just past the tag of the last tagged line. |
| ClassLoaderExtProperties.TaggedEndsAreTaggedLines | src/hotspot/share/classfile/classLoaderExt.cpp:122-124 | A position is cut exactly when it is the '\n' of a tagged line. |
| ClassLoaderExtProperties.TagWithinLine | src/hotspot/share/classfile/classLoaderExt.cpp:122-123 | A tagged complete line is at least as long as the tag, which is the `found <= line_end` sanity check. |
| ClassLoaderExtProperties.ClassPathAttrIsLastTaggedLine | src/hotspot/share/classfile/classLoaderExt.cpp:98-129 | get_class_path_attr returns NULL exactly when no complete line starts with the tag. Otherwise it points just past the tag of the last such line, at or before that line's end, which the scan cuts. |
| ClassLoaderExtProperties.TokensAreWords | src/hotspot/share/classfile/classLoaderExt.cpp:166-176 | Every token is non-empty and contains no space, so empty pieces between consecutive spaces are skipped. |
| ClassLoaderExtProperties.TokensOfJoin | src/hotspot/share/classfile/classLoaderExt.cpp:162-187 | Splitting words joined by single spaces gives the words back. |
| ClassLoaderExtProperties.LibraryPathLength | src/hotspot/share/classfile/classLoaderExt.cpp:175-181 | A library path has dir_len + name_len characters, and its prefix is empty exactly when the JAR path has no separator. |
| ClassLoaderExtProperties.MoveToFrontOrder | src/hotspot/share/classfile/classLoaderExt.cpp:323-327 | The cache length is unchanged and the hit goes first. Every other slot keeps its relative order, and a hit at slot 0 leaves the cache as it was. |
| ClassLoaderExtProperties.MoveToFrontPermutes | src/hotspot/share/classfile/classLoaderExt.cpp:325-326 | remove_at followed by insert_before(0) only reorders the cache. |
| ClassLoaderExtProperties.MoveToFrontHitsFirst | src/hotspot/share/classfile/classLoaderExt.cpp:320-328 | After a hit on a path, the next lookup of that path finds it at slot 0. |

## Left out

- BytecodeStream decoding is not modelled. Methods are given as decoded, well-formed instruction sequences that tile the code array, which is what the stream guarantees. The "fast" bytecode variants are assumed already mapped back to standard opcodes.
- Constant-pool resolution (`klass_at_noresolve`, `name_ref_at`, `tag_at` and the rest) is a record of query functions per pool. How the pool stores its entries is not modelled.
- BciMap internals are not modelled. `old_and_new_locations_same` is an abstract query over the fragments recorded so far, and `new_bci_for_old` appears only in a trace message.
- Float and double constants are bit patterns compared with IEEE equality (NaN equals nothing, and the two zeros are equal). As written, a method that loads a NaN literal is therefore not EMCP to itself (see `EmcpReflexive`).
- `round_to` on machine addresses is not modelled. Switch padding is computed relative to the start of the code array, as section 6.5 of the Java Virtual Machine Specification defines it.
- The deferred forward-jump list `_fwd_jmps` is modelled as a sequence of (old, new) pairs. The code always appends two ints at a time and reads them back as pairs, so the list's even length holds by construction.
- MethodComparison.ArgsVerdict: the comparator, and so MethodsEMCP and MethodsSwitchable, uses the corrected wide `iinc` comparison of the index and constant bytes (see Findings). It therefore rejects pairs such as `wide iinc 1, 1` against `wide iinc 1, 2` that line 291 as written accepts. The rule as written is kept as `IincOperandsSameAsWritten`.
- Branch targets `bci + offset` are unbounded integers. The C `int` sum can overflow only for a 32-bit offset (`goto_w`, `jsr_w`, a switch) whose target lies far outside the code array. The class file verifier rejects such code before a redefinition compares methods, so in-range targets are not a precondition of the model.
- `RC_TRACE`, `tty` warnings and `trace_class_path` are output only, and are not modelled.
- The `Extension-List:` check (`strstr` followed by `vm_exit`) ends the process, and is not modelled.
- `read_manifest` and its clean-up of the manifest text are not modelled. The scan starts from a buffer with a NUL at `manifest_size`, which the source asserts.
- `os::file_separator`, `os::stat`, `create_class_path_entry` and `is_classpath_entry_signed` are calls into code not shown. They become parameters: the separator, the stat outcome, the created entry (or none) and the signed flag. `DumpSharedSpaces` is a parameter too.
- `ClassLoader::update_class_path_entry_list` is not modelled. The library paths it would receive are returned in order instead.
- The `strdup` of a cached path and the lazy creation of the cache array are not modelled. Paths are compared as values.
- `record_result`, `load_class`, `load_one_class`, `KlassFactory`, `setup_app_search_path` and `setup_search_paths` are system-dictionary and I/O code, and are not modelled.
- `noBarrier.hpp` only forwards to raw access barriers, and `thirdPartyHeap.hpp` only holds declarations. Neither has logic to model.

## Findings

| source | as written | input that shows it | evidently intended | confidence | as-written member | corrected member |
|---|---|---|---|---|---|---|
| hotspot/src/share/vm/prims/methodComparator.cpp:291 | For a wide `iinc`, `get_Java_u4(bcp + 1)` reads the four bytes after the `wide` prefix. Those are the `iinc` opcode, the two index bytes and only the high byte of the constant, so constants that differ in their low byte compare equal. | `wide iinc 1, 1` against `wide iinc 1, 2` (bytes `c4 84 00 01 00 01` and `c4 84 00 01 00 02`) | Compare the two index bytes and the two constant bytes, `get_Java_u4(bcp + 2)` | high (not executed) | MethodComparisonProperties.IincAsWrittenCounterexample | MethodComparisonProperties.IincOperandsSameMeaning |
