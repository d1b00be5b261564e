/**
 * The string handling of the CDS class loader extension: finding the
 * `Class-Path: ` attribute of a JAR manifest held in a NUL-terminated buffer,
 * turning its value into library paths next to the JAR, the move-to-front
 * cache of class path entries, and the check that decides whether a class
 * found on the class path may go into the archive.
 */
module ClassLoaderExt {
  import opened Options
  import opened Sequences

  /** The manifest attribute the scan looks for, trailing space included. */
  const CLASS_PATH_TAG: string := "Class-Path: "

  // ---------------------------------------------------------------------
  // C string primitives over a character buffer.

  /**
   * strchr from `from`: the first position holding c, or None when a NUL (or
   * the end of the buffer) comes first.
   */
  function FindChar(s: seq<char>, from: nat, c: char): (r: Option<nat>)
    requires from <= |s|
    ensures r.Some? ==> from <= r.value < |s| && s[r.value] == c
    decreases |s| - from
  {
    if from == |s| then None
    else if s[from] == c then Some(from)
    else if s[from] == '\0' then None
    else FindChar(s, from + 1, c)
  }

  /** `from` lies in a buffer whose last character is a NUL. */
  predicate Terminated(s: seq<char>, from: nat) {
    from < |s| && s[|s| - 1] == '\0'
  }

  /** strlen from `from`: the distance to a NUL, the first one (StrLenIsFirstNul). */
  function StrLen(s: seq<char>, from: nat): (n: nat)
    requires Terminated(s, from)
    ensures from + n < |s| && s[from + n] == '\0'
    decreases |s| - from
  {
    if s[from] == '\0' then 0 else 1 + StrLen(s, from + 1)
  }

  /** No NUL comes before the one strlen stops at. */
  lemma {:induction false} StrLenIsFirstNul(s: seq<char>, from: nat)
    requires Terminated(s, from)
    ensures forall j :: from <= j < from + StrLen(s, from) ==> s[j] != '\0'
    decreases |s| - from
  {
    if s[from] != '\0' {
      StrLenIsFirstNul(s, from + 1);
    }
  }

  /** strlen stops at the first NUL. */
  lemma {:induction false} StrLenAt(s: seq<char>, from: nat, k: nat)
    requires Terminated(s, from) && from + k < |s| && s[from + k] == '\0'
    requires forall j :: from <= j < from + k ==> s[j] != '\0'
    ensures StrLen(s, from) == k
    decreases k
  {
    if k > 0 {
      StrLenAt(s, from + 1, k - 1);
    }
  }

  /** strchr passes over neither c nor a NUL before the position it returns. */
  lemma {:induction false} FindCharSkips(s: seq<char>, from: nat, c: char)
    requires from <= |s|
    ensures FindChar(s, from, c).Some? ==>
              forall j :: from <= j < FindChar(s, from, c).value ==> s[j] != c && s[j] != '\0'
    decreases |s| - from
  {
    if from < |s| && s[from] != c && s[from] != '\0' {
      FindCharSkips(s, from + 1, c);
    }
  }

  /**
   * strchr finds the first c before the terminating NUL, and finds nothing
   * exactly when the string from `from` holds no c.
   */
  lemma {:induction false} FindCharIsFirst(s: seq<char>, from: nat, c: char)
    requires Terminated(s, from) && c != '\0'
    ensures var r := FindChar(s, from, c);
            && (r.Some? ==> r.value < from + StrLen(s, from) && forall j :: from <= j < r.value ==> s[j] != c)
            && (r.None? <==> forall j :: from <= j < from + StrLen(s, from) ==> s[j] != c)
    decreases |s| - from
  {
    if s[from] != c && s[from] != '\0' {
      FindCharIsFirst(s, from + 1, c);
    }
  }

  /** strchr and strncmp look only at the buffer from `from` on. */
  lemma {:induction false} FindCharSuffix(s: seq<char>, t: seq<char>, from: nat, c: char)
    requires from <= |s| == |t|
    requires forall j :: from <= j < |s| ==> s[j] == t[j]
    ensures FindChar(s, from, c) == FindChar(t, from, c)
    decreases |s| - from
  {
    if from < |s| {
      FindCharSuffix(s, t, from + 1, c);
    }
  }

  // ---------------------------------------------------------------------
  // get_class_path_attr.

  /** A manifest line: the position of its first character and of its '\n'. */
  datatype Line = Line(start: nat, end: nat)

  /**
   * The newline-terminated lines the scan visits, from `start` up to `size`;
   * it stops at a line with no '\n' before the terminating NUL.
   */
  function Lines(s: seq<char>, size: nat, start: nat): seq<Line>
    requires size < |s| && start <= |s|
    decreases |s| - start
  {
    if start >= size then []
    else match FindChar(s, start, '\n')
      case None => []
      case Some(e) => [Line(start, e)] + Lines(s, size, e + 1)
  }

  /** strncmp(tag, line_start, tag_len) == 0. */
  predicate HasTag(s: seq<char>, p: nat) {
    p + |CLASS_PATH_TAG| <= |s| && s[p..p + |CLASS_PATH_TAG|] == CLASS_PATH_TAG
  }

  /** The value position a scan of these lines leaves, starting with `found`: past the tag of the last tagged line. */
  function ScanFound(s: seq<char>, lines: seq<Line>, found: Option<nat>): Option<nat> {
    if lines == [] then found
    else ScanFound(s, lines[1..], if HasTag(s, lines[0].start) then Some(lines[0].start + |CLASS_PATH_TAG|) else found)
  }

  /** The line ends a scan of these lines overwrites with NUL: those of the tagged lines. */
  function TaggedEnds(s: seq<char>, lines: seq<Line>): set<nat> {
    if lines == [] then {}
    else (if HasTag(s, lines[0].start) then {lines[0].end} else {}) + TaggedEnds(s, lines[1..])
  }

  /** The result of get_class_path_attr on a manifest of `size` characters. */
  function ClassPathAttr(s: seq<char>, size: nat): Option<nat>
    requires size < |s|
  {
    ScanFound(s, Lines(s, size, 0), None)
  }

  /** strchr never looks past a NUL. */
  lemma {:induction false} FindCharBeforeNul(s: seq<char>, from: nat, c: char, nul: nat)
    requires from <= nul < |s| && s[nul] == '\0' && c != '\0'
    ensures FindChar(s, from, c).Some? ==> FindChar(s, from, c).value < nul
    decreases nul - from
  {
    if from < nul && s[from] != c && s[from] != '\0' {
      FindCharBeforeNul(s, from + 1, c, nul);
    }
  }

  /** Scanning the line at `start` and then the lines after it is scanning from `start`. */
  lemma LinesStep(s: seq<char>, size: nat, start: nat, found: Option<nat>)
    requires start < size < |s| && s[size] == '\0' && FindChar(s, start, '\n').Some?
    ensures FindChar(s, start, '\n').value < size
    ensures var e := FindChar(s, start, '\n').value;
            && ScanFound(s, Lines(s, size, start), found)
               == ScanFound(s, Lines(s, size, e + 1), if HasTag(s, start) then Some(start + |CLASS_PATH_TAG|) else found)
            && TaggedEnds(s, Lines(s, size, start))
               == (if HasTag(s, start) then {e} else {}) + TaggedEnds(s, Lines(s, size, e + 1))
  {
    var e := FindChar(s, start, '\n').value;
    FindCharBeforeNul(s, start, '\n', size);
    var rest := Lines(s, size, e + 1);
    assert Lines(s, size, start) == [Line(start, e)] + rest;
    assert ([Line(start, e)] + rest)[1..] == rest;
  }

  /** The buffer with a NUL written at each position in `cuts`. */
  function NulAt(s: seq<char>, cuts: set<nat>): (r: seq<char>)
    ensures |r| == |s|
  {
    seq(|s|, i requires 0 <= i < |s| => if i in cuts then '\0' else s[i])
  }

  /** strchr from lineStart does not see the NULs written before it. */
  lemma FindCharPastCuts(s0: seq<char>, cuts: set<nat>, lineStart: nat, c: char)
    requires lineStart <= |s0| && forall k :: k in cuts ==> k < lineStart
    ensures FindChar(NulAt(s0, cuts), lineStart, c) == FindChar(s0, lineStart, c)
  {
    FindCharSuffix(NulAt(s0, cuts), s0, lineStart, c);
  }

  /**
   * The state of the scan before the line at lineStart: the lines still to
   * come and the value position found so far give the final result, the cuts
   * made so far and those still to come give all of them, and the buffer
   * holds exactly the cuts made so far.
   */
  ghost predicate Scanning(s0: seq<char>, size: nat, lineStart: nat, found: Option<nat>, cuts: set<nat>, m: seq<char>)
    requires size < |s0|
  {
    && lineStart <= size
    && ScanFound(s0, Lines(s0, size, lineStart), found) == ClassPathAttr(s0, size)
    && cuts + TaggedEnds(s0, Lines(s0, size, lineStart)) == TaggedEnds(s0, Lines(s0, size, 0))
    && (forall c :: c in cuts ==> c < lineStart)
    && m == NulAt(s0, cuts)
  }

  /**
   * get_class_path_attr: scans the newline-terminated lines of the manifest,
   * overwrites the '\n' of each line that starts with `Class-Path: ` with a
   * NUL, and returns the position just past the tag on the last such line.
   */
  method GetClassPathAttr(manifest: array<char>, size: nat) returns (found: Option<nat>)
    requires size < manifest.Length && manifest[size] == '\0'
    modifies manifest
    ensures found == ClassPathAttr(old(manifest[..]), size)
    ensures manifest[..] == NulAt(old(manifest[..]), TaggedEnds(old(manifest[..]), Lines(old(manifest[..]), size, 0)))
  {
    ghost var s0 := manifest[..];
    ghost var cuts: set<nat> := {};
    assert manifest[..] == NulAt(s0, cuts);
    found := None;
    var lineStart := 0;
    while lineStart < size
      invariant Scanning(s0, size, lineStart, found, cuts, manifest[..])
      decreases size - lineStart
    {
      var lineEnd;
      lineEnd, found, cuts := ScanLine(manifest, size, lineStart, found, s0, cuts);
      if lineEnd.None? {
        break;
      }
      lineStart := lineEnd.value + 1;
    }
    assert Lines(s0, size, lineStart) == [];
  }

  /**
   * One pass of the scan loop: finds the '\n' ending the line at lineStart,
   * or None when there is none; if the line starts with the tag, cuts it and
   * records the value position.
   */
  method ScanLine(manifest: array<char>, size: nat, lineStart: nat, found: Option<nat>, ghost s0: seq<char>, ghost cuts: set<nat>)
    returns (lineEnd: Option<nat>, found': Option<nat>, ghost cuts': set<nat>)
    requires size < manifest.Length == |s0| && s0[size] == '\0' && lineStart < size
    requires Scanning(s0, size, lineStart, found, cuts, manifest[..])
    modifies manifest
    ensures lineEnd.None? ==> Lines(s0, size, lineStart) == [] && Scanning(s0, size, lineStart, found', cuts', manifest[..])
    ensures lineEnd.Some? ==> lineStart <= lineEnd.value < size && Scanning(s0, size, lineEnd.value + 1, found', cuts', manifest[..])
  {
    found', cuts' := found, cuts;
    FindCharPastCuts(s0, cuts, lineStart, '\n');
    lineEnd := FindChar(manifest[..], lineStart, '\n');
    if lineEnd.None? {
      return;
    }
    LinesStep(s0, size, lineStart, found);
    var tagged := CutTaggedLine(manifest, lineStart, lineEnd.value, s0, cuts);
    if tagged {
      found' := Some(lineStart + |CLASS_PATH_TAG|);
      cuts' := cuts + {lineEnd.value};
    }
  }

  /**
   * The body of the scan for one line: if the line starts with the tag, its
   * '\n' becomes a NUL.
   */
  method CutTaggedLine(manifest: array<char>, lineStart: nat, lineEnd: nat, ghost s0: seq<char>, ghost cuts: set<nat>)
    returns (tagged: bool)
    requires lineStart <= lineEnd < manifest.Length == |s0|
    requires forall c :: c in cuts ==> c < lineStart
    requires manifest[..] == NulAt(s0, cuts)
    modifies manifest
    ensures tagged == HasTag(s0, lineStart)
    ensures manifest[..] == NulAt(s0, if tagged then cuts + {lineEnd} else cuts)
  {
    tagged := lineStart + |CLASS_PATH_TAG| <= manifest.Length
              && manifest[lineStart..lineStart + |CLASS_PATH_TAG|] == CLASS_PATH_TAG;
    assert tagged == HasTag(s0, lineStart) by {
      if lineStart + |CLASS_PATH_TAG| <= manifest.Length {
        assert manifest[lineStart..lineStart + |CLASS_PATH_TAG|] == s0[lineStart..lineStart + |CLASS_PATH_TAG|];
      }
    }
    if tagged {
      manifest[lineEnd] := '\0';
      assert manifest[..] == NulAt(s0, cuts + {lineEnd});
    }
  }

  // ---------------------------------------------------------------------
  // The Class-Path value: split on spaces, joined to the JAR's directory.

  /** strrchr: the last position of c in a NUL-free path, if any. */
  function LastIndexOf(path: string, c: char): (r: Option<nat>)
    ensures r.Some? ==> r.value < |path| && path[r.value] == c
    ensures r.Some? ==> forall j :: r.value < j < |path| ==> path[j] != c
    ensures r.None? ==> forall j :: 0 <= j < |path| ==> path[j] != c
  {
    if path == [] then None
    else if path[|path| - 1] == c then Some(|path| - 1)
    else LastIndexOf(path[..|path| - 1], c)
  }

  /** dir_len: the JAR path up to and including its last separator, or nothing. */
  function DirLength(path: string, sep: char): (n: nat)
    ensures n <= |path|
    ensures n == 0 <==> forall j :: 0 <= j < |path| ==> path[j] != sep
    ensures n > 0 ==> path[n - 1] == sep && forall j :: n <= j < |path| ==> path[j] != sep
  {
    match LastIndexOf(path, sep)
    case None => 0
    case Some(i) => i + 1
  }

  /** The length of the run of non-space characters at the start of v. */
  function RunLength(v: string): (n: nat)
    ensures n <= |v|
    ensures forall j :: 0 <= j < n ==> v[j] != ' '
    ensures n < |v| ==> v[n] == ' '
  {
    if v == [] || v[0] == ' ' then 0 else 1 + RunLength(v[1..])
  }

  /** The maximal runs of non-space characters of v, left to right. */
  function Tokens(v: string): seq<string>
    decreases |v|
  {
    if v == [] then []
    else if v[0] == ' ' then Tokens(v[1..])
    else
      var n := RunLength(v);
      [v[..n]] + Tokens(v[n..])
  }

  /** A string with no space in it. */
  predicate SpaceFree(t: string) {
    forall j :: 0 <= j < |t| ==> t[j] != ' '
  }

  /**
   * One step of the split as process_jar_manifest does it: cut at the first
   * space (or take the rest), keep the piece if it is not empty, continue
   * after the space.
   */
  lemma TokensSplitAt(w: string, i: nat)
    requires i <= |w| && (forall j :: 0 <= j < i ==> w[j] != ' ') && (i < |w| ==> w[i] == ' ')
    ensures i < |w| ==> Tokens(w) == (if i == 0 then [] else [w[..i]]) + Tokens(w[i + 1..])
    ensures i == |w| ==> Tokens(w) == (if i == 0 then [] else [w])
  {
    if i > 0 {
      assert RunLength(w) == i;
      if i < |w| {
        assert w[i..][1..] == w[i + 1..];
      } else {
        assert w[..i] == w;
      }
    }
  }

  /** The buffer once every space in [lo, hi) has been overwritten with a NUL. */
  function CutSpaces(s: seq<char>, lo: nat, hi: nat): (r: seq<char>)
    ensures |r| == |s|
  {
    seq(|s|, i requires 0 <= i < |s| => if lo <= i < hi && s[i] == ' ' then '\0' else s[i])
  }

  /** The value [from, end) of a Class-Path attribute: no NUL inside, a NUL at end. */
  predicate AttrValue(s0: seq<char>, from: nat, end: nat) {
    from <= end < |s0| && s0[end] == '\0' && s0[|s0| - 1] == '\0'
    && forall j :: from <= j < end ==> s0[j] != '\0'
  }

  /**
   * The loop finds a space at p: it lies inside the value and is the first
   * space of the rest of it.
   */
  lemma FirstSpace(s0: seq<char>, from: nat, fileStart: nat, end: nat)
    requires AttrValue(s0, from, end) && from <= fileStart < end
    requires FindChar(CutSpaces(s0, from, fileStart), fileStart, ' ').Some?
    ensures var p := FindChar(CutSpaces(s0, from, fileStart), fileStart, ' ').value;
            && p < end && s0[p] == ' '
            && forall j :: fileStart <= j < p ==> s0[j] != ' '
  {
    var b := CutSpaces(s0, from, fileStart);
    ValueUncut(s0, from, fileStart, end);
    FindCharIsFirst(b, fileStart, ' ');
  }

  /**
   * The loop finds a space at p: cutting it leaves the piece before it as a
   * NUL-terminated string, and the rest of the tokens are the piece (if not
   * empty) and the tokens after p.
   */
  lemma SplitAtSpace(s0: seq<char>, from: nat, fileStart: nat, end: nat, p: nat)
    requires AttrValue(s0, from, end) && from <= fileStart < end
    requires FindChar(CutSpaces(s0, from, fileStart), fileStart, ' ') == Some(p)
    ensures p < end
    ensures CutSpaces(s0, from, p + 1) == CutSpaces(s0, from, fileStart)[p := '\0']
    ensures Piece(CutSpaces(s0, from, p + 1), s0, from, fileStart, end, p + 1, s0[fileStart..p])
  {
    FirstSpace(s0, from, fileStart, end);
    CutAtSpace(s0, from, fileStart, end, p);
    TokensAtSpace(s0, fileStart, end, p);
  }

  /** The rest of the value, from fileStart on, is not cut yet and is a string of end - fileStart characters. */
  lemma ValueUncut(s0: seq<char>, from: nat, fileStart: nat, end: nat)
    requires AttrValue(s0, from, end) && from <= fileStart < end
    ensures var b := CutSpaces(s0, from, fileStart);
            && (forall j :: fileStart <= j < end ==> b[j] == s0[j])
            && Terminated(b, fileStart)
            && StrLen(b, fileStart) == end - fileStart
  {
    var b := CutSpaces(s0, from, fileStart);
    assert forall j :: fileStart <= j < end ==> b[j] == s0[j] && s0[j] != '\0';
    StrLenAt(b, fileStart, end - fileStart);
  }

  /** Cutting the first space p after fileStart ends the string at p. */
  lemma CutAtSpace(s0: seq<char>, from: nat, fileStart: nat, end: nat, p: nat)
    requires AttrValue(s0, from, end) && from <= fileStart <= p < end && s0[p] == ' '
    requires forall j :: fileStart <= j < p ==> s0[j] != ' '
    ensures var b := CutSpaces(s0, from, fileStart)[p := '\0'];
            && CutSpaces(s0, from, p + 1) == b
            && Terminated(b, fileStart)
            && StrLen(b, fileStart) == p - fileStart
            && b[fileStart..p] == s0[fileStart..p]
  {
    var b := CutSpaces(s0, from, fileStart)[p := '\0'];
    assert forall i :: 0 <= i < |b| ==> CutSpaces(s0, from, p + 1)[i] == b[i];
    assert forall j :: fileStart <= j < p ==> b[j] == s0[j] && s0[j] != '\0';
    StrLenAt(b, fileStart, p - fileStart);
  }

  /** Splitting the rest of the value at its first space p. */
  lemma TokensAtSpace(s0: seq<char>, fileStart: nat, end: nat, p: nat)
    requires fileStart <= p < end <= |s0| && s0[p] == ' '
    requires forall j :: fileStart <= j < p ==> s0[j] != ' '
    ensures Tokens(s0[fileStart..end]) == (if p == fileStart then [] else [s0[fileStart..p]]) + Tokens(s0[p + 1..end])
  {
    var w := s0[fileStart..end];
    TokensSplitAt(w, p - fileStart);
    assert w[p - fileStart + 1..] == s0[p + 1..end];
    assert w[..p - fileStart] == s0[fileStart..p];
  }

  /**
   * The loop finds no space: the rest of the value is one token, left as it
   * is, up to the terminating NUL.
   */
  lemma SplitAtEnd(s0: seq<char>, from: nat, fileStart: nat, end: nat)
    requires AttrValue(s0, from, end) && from <= fileStart < end
    requires FindChar(CutSpaces(s0, from, fileStart), fileStart, ' ').None?
    ensures CutSpaces(s0, from, end) == CutSpaces(s0, from, fileStart)
    ensures Piece(CutSpaces(s0, from, end), s0, from, fileStart, end, end, s0[fileStart..end])
  {
    var b := CutSpaces(s0, from, fileStart);
    var w := s0[fileStart..end];
    ValueUncut(s0, from, fileStart, end);
    FindCharIsFirst(b, fileStart, ' ');
    assert forall j :: 0 <= j < |w| ==> w[j] == b[fileStart + j];
    TokensSplitAt(w, |w|);
    assert s0[end..end] == [];
  }

  /**
   * The Class-Path loop of process_jar_manifest (and its guard): splits the
   * attribute value starting at `cpAttr` on spaces, overwriting each space
   * with a NUL, and forms one library path per non-empty token: the JAR's
   * directory prefix followed by the token. The paths are returned in order
   * instead of being added to the class path entry list.
   */
  method AddClassPathLibraries(buf: array<char>, cpAttr: Option<nat>, jarPath: string, sep: char)
    returns (libraries: seq<string>)
    requires cpAttr.Some? ==> Terminated(buf[..], cpAttr.value)
    modifies buf
    ensures cpAttr.None? ==> libraries == [] && buf[..] == old(buf[..])
    ensures cpAttr.Some? ==>
              var from := cpAttr.value;
              var end := from + StrLen(old(buf[..]), from);
              var tokens := Tokens(old(buf[from..end]));
              && |libraries| == |tokens|
              && (forall k :: 0 <= k < |tokens| ==> libraries[k] == jarPath[..DirLength(jarPath, sep)] + tokens[k])
              && buf[..] == CutSpaces(old(buf[..]), from, end)
  {
    libraries := [];
    if cpAttr.None? {
      return;
    }
    var from := cpAttr.value;
    var end := from + StrLen(buf[..], from);
    StrLenIsFirstNul(buf[..], from);
    assert buf[..] == CutSpaces(buf[..], from, from);
    if end == from {
      return;
    }
    var dirLen := DirLength(jarPath, sep);
    libraries := SplitValue(buf, from, end, jarPath[..dirLen], buf[..]);
  }

  /** Each library is the directory prefix followed by the matching token. */
  predicate Prefixed(libraries: seq<string>, prefix: string, tokens: seq<string>) {
    |libraries| == |tokens| && forall k :: 0 <= k < |tokens| ==> libraries[k] == prefix + tokens[k]
  }

  /** The loop over the value [from, end): one library per non-empty token, spaces cut. */
  method SplitValue(buf: array<char>, from: nat, end: nat, prefix: string, ghost s0: seq<char>)
    returns (libraries: seq<string>)
    requires AttrValue(s0, from, end) && from < end
    requires buf[..] == CutSpaces(s0, from, from)
    modifies buf
    ensures Prefixed(libraries, prefix, Tokens(s0[from..end]))
    ensures buf[..] == CutSpaces(s0, from, end)
  {
    libraries := [];
    ghost var done: seq<string> := [];
    var fileStart := from;
    while fileStart < end
      invariant from <= fileStart <= end
      invariant Tokens(s0[from..end]) == done + Tokens(s0[fileStart..end])
      invariant Prefixed(libraries, prefix, done)
      invariant buf[..] == CutSpaces(s0, from, fileStart)
      decreases end - fileStart
    {
      var next, token := NextToken(buf, fileStart, end, from, s0);
      ConcatAssoc(done, token, Tokens(s0[next..end]));
      if token != [] {
        libraries := libraries + [prefix + token[0]];
      }
      done := done + token;
      fileStart := next;
    }
    assert s0[fileStart..end] == [];
  }

  /**
   * After cutting the value at the next space (or reaching its end), the
   * buffer holds `piece` as a NUL-terminated string at fileStart, and the
   * tokens of the rest of the value are the piece, if not empty, and those
   * from `next` on.
   */
  ghost predicate Piece(b: seq<char>, s0: seq<char>, from: nat, fileStart: nat, end: nat, next: nat, piece: string)
    requires fileStart <= next <= end <= |s0|
  {
    && b == CutSpaces(s0, from, next)
    && Terminated(b, fileStart)
    && StrLen(b, fileStart) == |piece|
    && fileStart + |piece| <= |b|
    && b[fileStart..fileStart + |piece|] == piece
    && Tokens(s0[fileStart..end]) == (if piece == [] then [] else [piece]) + Tokens(s0[next..end])
  }

  /**
   * One iteration of the Class-Path loop: cuts the value at the next space and
   * returns where the next token starts and the token found, if not empty.
   */
  method NextToken(buf: array<char>, fileStart: nat, end: nat, ghost from: nat, ghost s0: seq<char>)
    returns (next: nat, token: seq<string>)
    requires AttrValue(s0, from, end) && from <= fileStart < end
    requires buf[..] == CutSpaces(s0, from, fileStart)
    modifies buf
    ensures fileStart < next <= end
    ensures Tokens(s0[fileStart..end]) == token + Tokens(s0[next..end])
    ensures |token| <= 1
    ensures buf[..] == CutSpaces(s0, from, next)
  {
    ghost var piece: string;
    var fileEnd := FindChar(buf[..], fileStart, ' ');
    if fileEnd.Some? {
      var p := fileEnd.value;
      SplitAtSpace(s0, from, fileStart, end, p);
      buf[p] := '\0';
      next := p + 1;
      piece := s0[fileStart..p];
    } else {
      SplitAtEnd(s0, from, fileStart, end);
      next := end;
      piece := s0[fileStart..end];
    }
    assert Piece(buf[..], s0, from, fileStart, end, next, piece);
    var nameLen := StrLen(buf[..], fileStart);
    if nameLen > 0 {
      token := [buf[fileStart..fileStart + nameLen]];
    } else {
      token := [];
    }
    assert token == (if piece == [] then [] else [piece]);
  }

  // ---------------------------------------------------------------------
  // find_classpath_entry_from_cache.

  /** A class path entry created for a path; its contents are not modelled. */
  type EntryHandle = nat

  /** One cache slot: the path looked up and the entry created for it. */
  datatype CachedEntry = CachedEntry(path: string, entry: EntryHandle)

  /** The position of the first slot for `path` at or after i, if any. */
  function IndexOfPath(entries: seq<CachedEntry>, path: string, i: nat): (r: Option<nat>)
    requires i <= |entries|
    ensures r.Some? ==> i <= r.value < |entries| && entries[r.value].path == path
    ensures r.Some? ==> forall j :: i <= j < r.value ==> entries[j].path != path
    ensures r.None? ==> forall j :: i <= j < |entries| ==> entries[j].path != path
    decreases |entries| - i
  {
    if i == |entries| then None
    else if entries[i].path == path then Some(i)
    else IndexOfPath(entries, path, i + 1)
  }

  /** remove_at(i) followed by insert_before(0, ·): slot i moves to the front. */
  function MoveToFront(entries: seq<CachedEntry>, i: nat): seq<CachedEntry>
    requires i < |entries|
  {
    [entries[i]] + entries[..i] + entries[i + 1..]
  }

  /** No path is cached twice. */
  predicate DistinctPaths(entries: seq<CachedEntry>) {
    forall a, b :: 0 <= a < b < |entries| ==> entries[a].path != entries[b].path
  }

  /**
   * The cache of class path entries, most recently used first. It is consulted
   * only while dumping, from one thread.
   */
  class ClassPathEntryCache {
    var entries: seq<CachedEntry>

    ghost predicate Valid()
      reads this
    {
      DistinctPaths(entries)
    }

    constructor ()
      ensures Valid() && entries == []
    {
      entries := [];
    }

    /**
     * find_classpath_entry_from_cache: a hit returns the cached entry and
     * moves its slot to the front; a miss stats the path and creates an entry
     * (`statOk` and `created` stand for the outcomes of those calls), caches
     * the new entry at the front and returns it, or returns None and leaves the
     * cache as it was if either step fails.
     */
    method Find(path: string, statOk: bool, created: Option<EntryHandle>) returns (r: Option<EntryHandle>)
      requires Valid()
      modifies this
      ensures Valid()
      ensures match IndexOfPath(old(entries), path, 0)
              case Some(i) => r == Some(old(entries)[i].entry) && entries == MoveToFront(old(entries), i)
              case None =>
                if statOk && created.Some? then r == created && entries == [CachedEntry(path, created.value)] + old(entries)
                else r == None && entries == old(entries)
    {
      var i := 0;
      while i < |entries|
        invariant 0 <= i <= |entries| && entries == old(entries)
        invariant IndexOfPath(entries, path, 0) == IndexOfPath(entries, path, i)
      {
        var ccpe := entries[i];
        if ccpe.path == path {
          if i != 0 {
            entries := [ccpe] + entries[..i] + entries[i + 1..];
            MoveToFrontDistinct(old(entries), i);
          }
          return Some(ccpe.entry);
        }
        i := i + 1;
      }
      if !statOk {
        return None;
      }
      if created.None? {
        return None;
      }
      entries := [CachedEntry(path, created.value)] + entries;
      return created;
    }
  }

  /** Moving a slot to the front keeps the paths distinct. */
  lemma MoveToFrontDistinct(entries: seq<CachedEntry>, i: nat)
    requires i < |entries| && DistinctPaths(entries)
    ensures DistinctPaths(MoveToFront(entries, i))
  {
    var r := MoveToFront(entries, i);
    forall a, b | 0 <= a < b < |r|
      ensures r[a].path != r[b].path
    {
      var oa := if a == 0 then i else if a <= i then a - 1 else a;
      var ob := if b <= i then b - 1 else b;
      assert r[a] == entries[oa] && r[b] == entries[ob] && oa != ob;
    }
  }

  // ---------------------------------------------------------------------
  // check.

  /** The static state of the class loader extension that check reads and sets. */
  class ClassLoaderExtState {
    var appPathsStartIndex: int
    var hasAppClasses: bool
    var hasPlatformClasses: bool

    constructor (appPathsStartIndex: int)
      ensures this.appPathsStartIndex == appPathsStartIndex
      ensures !hasAppClasses && !hasPlatformClasses
    {
      this.appPathsStartIndex := appPathsStartIndex;
      hasAppClasses := false;
      hasPlatformClasses := false;
    }

    /**
     * check: while dumping, a class from a signed JAR on the application
     * class path is refused; any other class found by a stream is accepted,
     * and one from the application class path records that the archive has
     * application and platform classes.
     */
    method Check(streamPresent: bool, dumpSharedSpaces: bool, signed: bool, classpathIndex: int) returns (ok: bool)
      modifies this`hasAppClasses, this`hasPlatformClasses
      ensures !ok <==> streamPresent && dumpSharedSpaces && signed && classpathIndex >= appPathsStartIndex
      ensures if ok && streamPresent && classpathIndex >= appPathsStartIndex
              then hasAppClasses && hasPlatformClasses
              else hasAppClasses == old(hasAppClasses) && hasPlatformClasses == old(hasPlatformClasses)
    {
      if streamPresent {
        if dumpSharedSpaces && signed && classpathIndex >= appPathsStartIndex {
          return false;
        }
        if classpathIndex >= appPathsStartIndex {
          hasAppClasses := true;
          hasPlatformClasses := true;
        }
      }
      return true;
    }
  }
}
