/**
 * What the class loader extension's string handling promises: the manifest
 * scan visits whole lines and returns the value of the last `Class-Path: `
 * line, cutting exactly the tagged lines; the tokens of a value are its
 * maximal runs of non-space characters and joining them back is undone by the
 * split; the cache's move to front is a reordering that keeps the others in
 * order.
 */
module ClassLoaderExtProperties {
  import opened Options
  import opened ClassLoaderExt

  // ---------------------------------------------------------------------
  // The manifest scan.

  /** A complete line within the first `size` characters: no '\n' nor NUL before its '\n'. */
  predicate IsLine(s: seq<char>, size: nat, l: Line) {
    && l.start <= l.end < size < |s|
    && s[l.end] == '\n'
    && forall j :: l.start <= j < l.end ==> s[j] != '\n' && s[j] != '\0'
  }

  /** The scan from `start` visits complete lines, the first starting at `start`. */
  lemma {:induction false} LinesAreLines(s: seq<char>, size: nat, start: nat)
    requires start <= size < |s| && s[size] == '\0'
    ensures var lines := Lines(s, size, start);
            && (forall k :: 0 <= k < |lines| ==> IsLine(s, size, lines[k]) && start <= lines[k].start)
            && (|lines| > 0 ==> lines[0].start == start)
    decreases |s| - start
  {
    if start < size && FindChar(s, start, '\n').Some? {
      var e := FindChar(s, start, '\n').value;
      FindCharBeforeNul(s, start, '\n', size);
      FindCharSkips(s, start, '\n');
      LinesAreLines(s, size, e + 1);
      assert Lines(s, size, start) == [Line(start, e)] + Lines(s, size, e + 1);
    }
  }

  /** Each line starts just after the previous one's '\n'. */
  predicate Consecutive(lines: seq<Line>) {
    forall k :: 0 < k < |lines| ==> lines[k].start == lines[k - 1].end + 1
  }

  /** Each line of the scan starts just after the previous one's '\n'. */
  lemma {:induction false} LinesAreConsecutive(s: seq<char>, size: nat, start: nat)
    requires size < |s| && start <= |s|
    ensures Consecutive(Lines(s, size, start))
    decreases |s| - start
  {
    if start < size && FindChar(s, start, '\n').Some? {
      var e := FindChar(s, start, '\n').value;
      var rest := Lines(s, size, e + 1);
      LinesAreConsecutive(s, size, e + 1);
      assert Lines(s, size, start) == [Line(start, e)] + rest;
      assert rest != [] ==> rest[0].start == e + 1;
    }
  }

  /**
   * The scan stops at the end of the manifest or before a last line with no
   * '\n': past the last line it visits, strchr finds no further '\n'.
   */
  lemma {:induction false} LinesStop(s: seq<char>, size: nat, start: nat)
    requires size < |s| && start <= |s|
    ensures var lines := Lines(s, size, start);
            var q := if lines == [] then start else lines[|lines| - 1].end + 1;
            q >= size || FindChar(s, q, '\n').None?
    decreases |s| - start
  {
    if start < size && FindChar(s, start, '\n').Some? {
      var e := FindChar(s, start, '\n').value;
      var rest := Lines(s, size, e + 1);
      LinesStop(s, size, e + 1);
      assert Lines(s, size, start) == [Line(start, e)] + rest;
    }
  }

  /** Some line of the scan starts with the tag. */
  predicate AnyTagged(s: seq<char>, lines: seq<Line>) {
    exists k :: 0 <= k < |lines| && HasTag(s, lines[k].start)
  }

  /**
   * The scan's value position is the one it started with when no line is
   * tagged, and otherwise the one past the tag of the last tagged line.
   */
  lemma {:induction false} ScanFoundLast(s: seq<char>, lines: seq<Line>, found: Option<nat>)
    ensures !AnyTagged(s, lines) ==> ScanFound(s, lines, found) == found
    ensures forall k :: 0 <= k < |lines| && HasTag(s, lines[k].start)
                        && (forall j :: k < j < |lines| ==> !HasTag(s, lines[j].start))
                        ==> ScanFound(s, lines, found) == Some(lines[k].start + |CLASS_PATH_TAG|)
    decreases |lines|
  {
    if lines != [] {
      var next := if HasTag(s, lines[0].start) then Some(lines[0].start + |CLASS_PATH_TAG|) else found;
      ScanFoundLast(s, lines[1..], next);
      if !AnyTagged(s, lines) {
        assert !HasTag(s, lines[0].start);
        assert !AnyTagged(s, lines[1..]);
      }
      forall k | 0 <= k < |lines| && HasTag(s, lines[k].start)
                 && (forall j :: k < j < |lines| ==> !HasTag(s, lines[j].start))
        ensures ScanFound(s, lines, found) == Some(lines[k].start + |CLASS_PATH_TAG|)
      {
        if k > 0 {
          assert lines[1..][k - 1] == lines[k];
          assert forall j :: k - 1 < j < |lines[1..]| ==> lines[1..][j] == lines[j + 1];
        } else {
          assert !AnyTagged(s, lines[1..]);
        }
      }
    }
  }

  /** The NUL-terminated lines are exactly the tagged ones. */
  lemma {:induction false} TaggedEndsAreTaggedLines(s: seq<char>, lines: seq<Line>, e: nat)
    ensures e in TaggedEnds(s, lines) <==> exists k :: 0 <= k < |lines| && HasTag(s, lines[k].start) && lines[k].end == e
    decreases |lines|
  {
    if lines != [] {
      TaggedEndsAreTaggedLines(s, lines[1..], e);
      if exists k :: 0 <= k < |lines[1..]| && HasTag(s, lines[1..][k].start) && lines[1..][k].end == e {
        var k :| 0 <= k < |lines[1..]| && HasTag(s, lines[1..][k].start) && lines[1..][k].end == e;
        assert lines[k + 1] == lines[1..][k];
      }
      if exists k :: 0 <= k < |lines| && HasTag(s, lines[k].start) && lines[k].end == e {
        var k :| 0 <= k < |lines| && HasTag(s, lines[k].start) && lines[k].end == e;
        if k > 0 {
          assert lines[1..][k - 1] == lines[k];
        }
      }
    }
  }

  /** A tagged line is at least as long as the tag: the value starts at or before the line's end. */
  lemma TagWithinLine(s: seq<char>, size: nat, l: Line)
    requires IsLine(s, size, l) && HasTag(s, l.start)
    ensures l.start + |CLASS_PATH_TAG| <= l.end
  {
    assert forall j :: 0 <= j < |CLASS_PATH_TAG| ==> s[l.start + j] == CLASS_PATH_TAG[j] != '\n';
  }

  /**
   * get_class_path_attr returns None exactly when no complete line starts with
   * the tag; otherwise it points just past the tag of the last such line, at
   * or before that line's end, which the scan has overwritten with a NUL.
   */
  lemma ClassPathAttrIsLastTaggedLine(s: seq<char>, size: nat)
    requires size < |s| && s[size] == '\0'
    ensures var lines := Lines(s, size, 0);
            && (ClassPathAttr(s, size).None? <==> forall k :: 0 <= k < |lines| ==> !HasTag(s, lines[k].start))
            && (ClassPathAttr(s, size).Some? ==>
                  exists k :: && 0 <= k < |lines| && HasTag(s, lines[k].start)
                              && ClassPathAttr(s, size).value == lines[k].start + |CLASS_PATH_TAG|
                              && ClassPathAttr(s, size).value <= lines[k].end
                              && lines[k].end in TaggedEnds(s, lines)
                              && forall j :: k < j < |lines| ==> !HasTag(s, lines[j].start))
  {
    var lines := Lines(s, size, 0);
    ScanFoundLast(s, lines, None);
    LinesAreLines(s, size, 0);
    if AnyTagged(s, lines) {
      var k := LastTagged(s, lines);
      TagWithinLine(s, size, lines[k]);
      TaggedEndsAreTaggedLines(s, lines, lines[k].end);
    }
  }

  /** The index of the last tagged line, when there is one. */
  lemma LastTagged(s: seq<char>, lines: seq<Line>) returns (k: nat)
    requires AnyTagged(s, lines)
    ensures k < |lines| && HasTag(s, lines[k].start)
    ensures forall j :: k < j < |lines| ==> !HasTag(s, lines[j].start)
  {
    var k0 :| 0 <= k0 < |lines| && HasTag(s, lines[k0].start);
    k := k0;
    var i := k0 + 1;
    while i < |lines|
      invariant k < i <= |lines| && HasTag(s, lines[k].start)
      invariant forall j :: k < j < i ==> !HasTag(s, lines[j].start)
    {
      if HasTag(s, lines[i].start) {
        k := i;
      }
      i := i + 1;
    }
  }

  // ---------------------------------------------------------------------
  // The Class-Path value.

  /** Every token is a non-empty run of non-space characters. */
  lemma {:induction false} TokensAreWords(v: string)
    ensures forall k :: 0 <= k < |Tokens(v)| ==> Tokens(v)[k] != [] && SpaceFree(Tokens(v)[k])
    decreases |v|
  {
    if v != [] {
      if v[0] == ' ' {
        TokensAreWords(v[1..]);
      } else {
        var n := RunLength(v);
        TokensAreWords(v[n..]);
        assert Tokens(v) == [v[..n]] + Tokens(v[n..]);
      }
    }
  }

  /** Tokens written out with one space between each two. */
  function Join(ts: seq<string>): string {
    if ts == [] then []
    else if |ts| == 1 then ts[0]
    else ts[0] + " " + Join(ts[1..])
  }

  /** Splitting a value made of words separated by single spaces gives back the words. */
  lemma {:induction false} TokensOfJoin(ts: seq<string>)
    requires forall k :: 0 <= k < |ts| ==> ts[k] != [] && SpaceFree(ts[k])
    ensures Tokens(Join(ts)) == ts
    decreases |ts|
  {
    if |ts| == 1 {
      TokensSplitAt(ts[0], |ts[0]|);
    } else if |ts| > 1 {
      var w := Join(ts);
      var t := ts[0];
      assert w == t + (" " + Join(ts[1..]));
      assert forall j :: 0 <= j < |t| ==> w[j] == t[j];
      TokensSplitAt(w, |t|);
      assert w[..|t|] == t;
      assert w[|t| + 1..] == Join(ts[1..]);
      TokensOfJoin(ts[1..]);
      assert [t] + ts[1..] == ts;
    }
  }

  /** A library path is the JAR's directory prefix followed by the token: dir_len + name_len characters. */
  lemma LibraryPathLength(jarPath: string, sep: char, token: string)
    ensures |jarPath[..DirLength(jarPath, sep)] + token| == DirLength(jarPath, sep) + |token|
    ensures DirLength(jarPath, sep) == 0 <==> forall j :: 0 <= j < |jarPath| ==> jarPath[j] != sep
  {
  }

  // ---------------------------------------------------------------------
  // The cache.

  /**
   * Moving slot i to the front puts it first and keeps every other slot in
   * its relative order; slot 0 stays where it is.
   */
  lemma MoveToFrontOrder(entries: seq<CachedEntry>, i: nat)
    requires i < |entries|
    ensures var r := MoveToFront(entries, i);
            && |r| == |entries| && r[0] == entries[i]
            && (forall j :: 0 <= j < i ==> r[j + 1] == entries[j])
            && (forall j :: i < j < |entries| ==> r[j] == entries[j])
            && (i == 0 ==> r == entries)
  {
    if i == 0 {
      assert MoveToFront(entries, i) == [entries[0]] + entries[1..];
    }
  }

  /** Moving a slot to the front only reorders the cache. */
  lemma MoveToFrontPermutes(entries: seq<CachedEntry>, i: nat)
    requires i < |entries|
    ensures multiset(MoveToFront(entries, i)) == multiset(entries)
  {
    assert entries == entries[..i] + [entries[i]] + entries[i + 1..];
  }

  /** After a hit on a path, the next lookup of the same path hits at the front. */
  lemma MoveToFrontHitsFirst(entries: seq<CachedEntry>, path: string)
    requires IndexOfPath(entries, path, 0).Some?
    ensures IndexOfPath(MoveToFront(entries, IndexOfPath(entries, path, 0).value), path, 0) == Some(0)
  {
  }
}
