/**
 Reference resolution as RFC 3986 writes it: merging paths (section 5.2.3) and removing dot
 segments (section 5.2.4), with `%2e` also read as a dot, as URL libraries do.
 */
module Rfc3986 {
  import opened Bytes
  import opened PercentDecoding

  const DOT: byte := 46
  const QUESTION: byte := 63
  const HASH: byte := 35

  datatype Url = Url(origin: seq<byte>, path: seq<byte>, query: Option<seq<byte>>, fragment: Option<seq<byte>>)

  // ------------------------------------------------------------------ dot segments

  /** The segment with every `%2e` replaced by a dot. */
  function DotsDecoded(s: seq<byte>): seq<byte>
  {
    if s == [] then []
    else if |s| >= 3 && s[0] == PERCENT && s[1] == 50 && ToLower(s[2]) == 101 then [DOT] + DotsDecoded(s[3..])
    else [s[0]] + DotsDecoded(s[1..])
  }

  predicate IsDot(segment: seq<byte>) {
    DotsDecoded(segment) == [DOT]
  }

  predicate IsDotDot(segment: seq<byte>) {
    DotsDecoded(segment) == [DOT, DOT]
  }

  ghost predicate DotFree(path: seq<byte>) {
    forall p :: p in Split(path, SLASH) ==> !IsDot(p) && !IsDotDot(p)
  }

  /** The output buffer without its last segment and the slash before it. */
  function DropLastSegment(output: seq<byte>): seq<byte>
  {
    if output == [] then []
    else if output[|output| - 1] == SLASH then output[..|output| - 1]
    else DropLastSegment(output[..|output| - 1])
  }

  /** Section 5.2.4: moves segments from the input buffer to the output buffer, dropping dot segments. */
  function RemoveDotSegments(input: seq<byte>, output: seq<byte>): seq<byte>
    decreases |input|
  {
    if input == [] then output
    else
      var start := if input[0] == SLASH then 1 else 0;
      var segment := UpTo(input[start..], SLASH);
      SegmentLength(input, start);
      var rest := input[start + |segment|..];
      var rooted := if rest == [] && start == 1 then [SLASH] else rest;
      if IsDot(segment) then
        if start == 1 then RemoveDotSegments(rooted, output) else RemoveDotSegments(Unrooted(rest), output)
      else if IsDotDot(segment) then
        if start == 1 then RemoveDotSegments(rooted, DropLastSegment(output))
        else RemoveDotSegments(Unrooted(rest), output)
      else RemoveDotSegments(rest, output + input[..start + |segment|])
  }

  function Unrooted(s: seq<byte>): (r: seq<byte>)
    ensures |r| <= |s|
  {
    if s != [] && s[0] == SLASH then s[1..] else s
  }

  lemma SegmentLength(input: seq<byte>, start: nat)
    requires input != [] && start == if input[0] == SLASH then 1 else 0
    ensures start + |UpTo(input[start..], SLASH)| <= |input|
    ensures start == 0 ==> UpTo(input[start..], SLASH) != []
    ensures IsDot(UpTo(input[start..], SLASH)) || IsDotDot(UpTo(input[start..], SLASH)) ==>
            UpTo(input[start..], SLASH) != []
  {
    SplitFirst(input[start..], SLASH);
  }

  /** Section 5.2.3: the reference takes the place of what follows the base path's last slash. */
  function Merge(basePath: seq<byte>, reference: seq<byte>): seq<byte>
  {
    UpToLastSlash(basePath) + reference
  }

  function UpToLastSlash(path: seq<byte>): seq<byte>
  {
    if path == [] || path[|path| - 1] == SLASH then path else UpToLastSlash(path[..|path| - 1])
  }

  // ---------------------------------------------------------------- resolution

  predicate IsAlpha(b: byte) {
    97 <= ToLower(b) <= 122
  }

  /** ALPHA *( ALPHA / DIGIT / "+" / "-" / "." ) ":" (section 3.1). */
  predicate StartsWithScheme(s: seq<byte>) {
    s != [] && IsAlpha(s[0]) && SchemeTail(s[1..])
  }

  predicate SchemeTail(s: seq<byte>) {
    s != [] && (s[0] == COLON
                || ((IsAlpha(s[0]) || 48 <= s[0] <= 57 || s[0] in [43, 45, 46]) && SchemeTail(s[1..])))
  }

  predicate IsLetter(c: char) {
    'a' <= c <= 'z' || 'A' <= c <= 'Z'
  }

  predicate InScheme(c: char) {
    IsLetter(c) || '0' <= c <= '9' || c == '+' || c == '-' || c == '.'
  }

  /** What stands before the first colon, one byte longer. */
  lemma UpToColonStep(first: byte, rest: seq<byte>)
    requires first != COLON
    ensures COLON in [first] + rest <==> COLON in rest
    ensures UpTo([first] + rest, COLON) == [first] + UpTo(rest, COLON)
    ensures (forall b :: b in UpTo([first] + rest, COLON) ==> InScheme(b as char)) <==>
            InScheme(first as char) && forall b :: b in UpTo(rest, COLON) ==> InScheme(b as char)
  {
    assert ([first] + rest)[1..] == rest;
    var whole, tail := UpTo([first] + rest, COLON), UpTo(rest, COLON);
    assert whole == [first] + tail && whole[0] == first;
    assert first in whole && (forall b :: b in tail ==> b in whole);
    assert forall b :: b in whole ==> b == first || b in tail;
  }

  lemma {:induction false} SchemeTailMeaning(s: seq<byte>)
    ensures SchemeTail(s) <==> COLON in s && forall b :: b in UpTo(s, COLON) ==> InScheme(b as char)
  {
    if s != [] && s[0] != COLON {
      SchemeTailMeaning(s[1..]);
      UpToColonStep(s[0], s[1..]);
      assert s == [s[0]] + s[1..];
    }
  }

  /** A reference starts with a scheme if up to its first colon there is a letter, then letters, digits and `+-.`. */
  lemma SchemeMeaning(s: seq<byte>)
    ensures StartsWithScheme(s) <==>
            && COLON in s && UpTo(s, COLON) != [] && IsLetter(s[0] as char)
            && forall b :: b in UpTo(s, COLON) ==> InScheme(b as char)
  {
    if s != [] && s[0] != COLON {
      SchemeTailMeaning(s[1..]);
      UpToColonStep(s[0], s[1..]);
      assert s == [s[0]] + s[1..];
    }
  }

  datatype Resolved = Relative(url: Url) | Elsewhere

  /** What precedes the separator, and what follows it if it occurs. */
  function SplitOnce(s: seq<byte>, separator: byte): (seq<byte>, Option<seq<byte>>)
  {
    var first := UpTo(s, separator);
    (first, if |first| < |s| then Some(s[|first| + 1..]) else None)
  }

  /** Section 5.2.2 for a reference without authority; one with a scheme or authority points elsewhere. */
  function Resolve(base: Url, reference: seq<byte>): Resolved
  {
    var (body, fragment) := SplitOnce(reference, HASH);
    var (path, query) := SplitOnce(body, QUESTION);
    if StartsWithScheme(reference) || (|path| > 1 && path[0] == SLASH && path[1] == SLASH) then Elsewhere
    else if path == [] then
      Relative(Url(base.origin, base.path, if query.Some? then query else base.query, fragment))
    else
      var merged := if path[0] == SLASH then path else Merge(base.path, path);
      Relative(Url(base.origin, RemoveDotSegments(merged, []), query, fragment))
  }

  // ------------------------------------------------ what resolution leaves alone

  lemma {:induction false} UpToLastSlashOfSlashed(path: seq<byte>)
    requires path != [] && path[|path| - 1] == SLASH
    ensures UpToLastSlash(path) == path
  {
  }

  /** The first segment of a dot-free path is not a dot segment, and what follows it is dot-free. */
  lemma DotFreeSplits(path: seq<byte>)
    requires path != [] && path[0] == SLASH && DotFree(path[1..])
    ensures var n := 1 + |UpTo(path[1..], SLASH)|;
            && n <= |path| && path == path[..n] + path[n..]
            && !IsDot(UpTo(path[1..], SLASH)) && !IsDotDot(UpTo(path[1..], SLASH))
            && (n < |path| ==> path[n] == SLASH && DotFree(path[n..][1..]))
  {
    SplitFirst(path[1..], SLASH);
    var segment := UpTo(path[1..], SLASH);
    var rest := path[1 + |segment|..];
    assert segment in Split(path[1..], SLASH);
    if rest != [] {
      assert rest[1..] == path[1..][|segment| + 1..];
      assert forall p :: p in Split(rest[1..], SLASH) ==> p in Split(path[1..], SLASH)[1..];
    }
  }

  /** On an absolute path without dot segments, removing them is the identity. */
  lemma {:induction false} RemoveDotSegmentsIdentity(path: seq<byte>, output: seq<byte>)
    requires path != [] ==> path[0] == SLASH
    requires path != [] ==> DotFree(path[1..])
    ensures RemoveDotSegments(path, output) == output + path
    decreases |path|
  {
    if path == [] {
      assert output + path == output;
    } else {
      DotFreeSplits(path);
      var n := 1 + |UpTo(path[1..], SLASH)|;
      RemoveDotSegmentsIdentity(path[n..], output + path[..n]);
      Regroup(output, path[..n], path[n..]);
    }
  }

  /** Where the last slash of the path is. */
  function LastSlash(path: seq<byte>): (j: nat)
    requires path != [] && path[0] == SLASH
    ensures j < |path| && path[j] == SLASH && SLASH !in path[j + 1..]
    ensures forall i :: j < i < |path| ==> path[i] != SLASH
  {
    if path[|path| - 1] == SLASH then |path| - 1
    else
      var j := LastSlash(path[..|path| - 1]);
      assert path[j + 1..] == path[..|path| - 1][j + 1..] + [path[|path| - 1]];
      j
  }

  lemma {:induction false} DropLastSegmentAt(output: seq<byte>)
    requires output != [] && output[0] == SLASH
    ensures DropLastSegment(output) == output[..LastSlash(output)]
  {
    if output[|output| - 1] != SLASH {
      var shorter := output[..|output| - 1];
      DropLastSegmentAt(shorter);
      assert shorter[..LastSlash(shorter)] == output[..LastSlash(shorter)];
    }
  }

  /** A path up to a slash of a dot-free path is dot-free. */
  lemma DotFreeUpToSlash(path: seq<byte>, j: nat)
    requires path != [] && path[0] == SLASH && DotFree(path[1..])
    requires 0 < j < |path| && path[j] == SLASH
    ensures DotFree(path[..j][1..])
  {
    var front, rest := path[1..j], path[j + 1..];
    SplitConcat(front, rest, SLASH);
    assert path[1..] == front + ([SLASH] + rest) && path[..j][1..] == front;
    assert forall p :: p in Split(front, SLASH) ==> p in Split(path[1..], SLASH);
  }

  /** Removing dot segments works through a dot-free front unchanged. */
  lemma {:induction false} RemoveDotSegmentsFront(front: seq<byte>, rest: seq<byte>, output: seq<byte>)
    requires front != [] ==> front[0] == SLASH && DotFree(front[1..])
    requires rest != [] && rest[0] == SLASH
    ensures RemoveDotSegments(front + rest, output) == RemoveDotSegments(rest, output + front)
    decreases |front|
  {
    if front == [] {
      assert front + rest == rest && output + front == output;
    } else {
      DotFreeSplits(front);
      var n := 1 + |UpTo(front[1..], SLASH)|;
      FirstSegmentOfFront(front, rest);
      RemoveDotSegmentsFront(front[n..], rest, output + front[..n]);
      Regroup(output, front[..n], front[n..]);
    }
  }

  lemma FirstSegmentOfFront(front: seq<byte>, rest: seq<byte>)
    requires front != [] && front[0] == SLASH && rest != [] && rest[0] == SLASH
    ensures var n := 1 + |UpTo(front[1..], SLASH)|;
            && n <= |front| && UpTo((front + rest)[1..], SLASH) == UpTo(front[1..], SLASH)
            && (front + rest)[..n] == front[..n] && (front + rest)[n..] == front[n..] + rest
  {
    var segment := UpTo(front[1..], SLASH);
    SplitFirst(front[1..], SLASH);
    var after := front[1..][|segment|..];
    assert (front + rest)[1..] == segment + (after + rest);
    assert (after + rest)[0] == SLASH;
    assert after + rest == [SLASH] + (after + rest)[1..];
    UpToEnd(segment, SLASH, (after + rest)[1..]);
  }

  /** What a last segment makes of the path before it. */
  function Shortened(front: seq<byte>, last: seq<byte>): seq<byte> {
    if IsDot(last) then front + [SLASH]
    else if IsDotDot(last) then DropLastSegment(front) + [SLASH]
    else front + ([SLASH] + last)
  }

  lemma RemoveLastSegment(last: seq<byte>, output: seq<byte>)
    requires SLASH !in last
    ensures RemoveDotSegments([SLASH] + last, output) == Shortened(output, last)
  {
    assert ([SLASH] + last)[1..] == last;
    UpToEnd(last, SLASH, []);
    assert ([SLASH] + last)[1 + |last|..] == [] && ([SLASH] + last)[..1 + |last|] == [SLASH] + last;
    OneSlash(output);
    OneSlash(DropLastSegment(output));
  }

  lemma OneSlash(output: seq<byte>)
    ensures RemoveDotSegments([SLASH], output) == output + [SLASH]
  {
    assert [SLASH][1..] == [] && [SLASH][..1] == [SLASH] && UpTo([], SLASH) == [];
    assert !IsDot([]) && !IsDotDot([]);
  }

  /**
   Removing dot segments from what a dot-free path is cut to. Only the last segment can have
   become a dot segment; then it goes, and of a double one the segment before it too.
   */
  lemma CutPathResolves(path: seq<byte>, cut: seq<byte>) returns (j: nat)
    requires cut != [] && cut <= path && path[0] == SLASH && DotFree(path[1..])
    ensures j < |cut| && cut[j] == SLASH && SLASH !in cut[j + 1..]
    ensures RemoveDotSegments(cut, []) == Shortened(cut[..j], cut[j + 1..])
  {
    j := LastSlash(cut);
    var front, last := cut[..j], cut[j + 1..];
    if j > 0 {
      DotFreeUpToSlash(path, j);
      assert path[..j] == front;
    }
    assert cut == front + ([SLASH] + last);
    RemoveDotSegmentsFront(front, [SLASH] + last, []);
    assert [] + front == front;
    RemoveLastSegment(last, front);
  }

  /** An output buffer in use: empty, or absolute and dot-free. */
  ghost predicate IsCleanOutput(output: seq<byte>) {
    output != [] ==> output[0] == SLASH && DotFree(output[1..])
  }

  lemma {:induction false} LastSegment(output: seq<byte>) returns (front: seq<byte>, segment: seq<byte>)
    requires output != [] && output[0] == SLASH
    ensures output == front + ([SLASH] + segment) && SLASH !in segment
    ensures DropLastSegment(output) == front && (front != [] ==> front[0] == SLASH)
    decreases |output|
  {
    var last := output[|output| - 1];
    var shorter := output[..|output| - 1];
    if last == SLASH {
      front, segment := shorter, [];
    } else {
      front, segment := LastSegment(shorter);
      segment := segment + [last];
      assert output == shorter + [last];
    }
  }

  lemma SegmentsOfOutput(front: seq<byte>, segment: seq<byte>)
    requires SLASH !in segment && (front != [] ==> front[0] == SLASH)
    ensures var output := front + ([SLASH] + segment);
            Split(output[1..], SLASH) == (if front == [] then [] else Split(front[1..], SLASH)) + [segment]
  {
    SplitOfPart(segment, SLASH);
    if front == [] {
      assert (front + ([SLASH] + segment))[1..] == segment;
      assert [] + [segment] == [segment];
    } else {
      assert (front + ([SLASH] + segment))[1..] == front[1..] + ([SLASH] + segment);
      SplitConcat(front[1..], segment, SLASH);
    }
  }

  lemma DropKeepsClean(output: seq<byte>)
    requires IsCleanOutput(output)
    ensures IsCleanOutput(DropLastSegment(output))
  {
    if output != [] {
      var front, last := LastSegment(output);
      SegmentsOfOutput(front, last);
    }
  }

  /** Removing dot segments from an absolute path leaves an absolute path without any. */
  lemma {:induction false} RemoveDotSegmentsResult(path: seq<byte>, output: seq<byte>)
    requires path != [] ==> path[0] == SLASH
    requires IsCleanOutput(output)
    ensures IsCleanOutput(RemoveDotSegments(path, output))
    decreases |path|
  {
    if path != [] {
      SplitFirst(path[1..], SLASH);
      var segment := UpTo(path[1..], SLASH);
      var rest := path[1 + |segment|..];
      assert rest != [] ==> rest[0] == SLASH;
      SegmentLength(path, 1);
      if IsDot(segment) {
        RemoveDotSegmentsResult(if rest == [] then [SLASH] else rest, output);
      } else if IsDotDot(segment) {
        DropKeepsClean(output);
        RemoveDotSegmentsResult(if rest == [] then [SLASH] else rest, DropLastSegment(output));
      } else {
        SegmentsOfOutput(output, segment);
        assert path[..1 + |segment|] == [SLASH] + segment;
        RemoveDotSegmentsResult(rest, output + path[..1 + |segment|]);
      }
    }
  }

  /** A segment that decodes to neither dot form is not a dot segment, however it is written. */
  lemma {:induction false} DotsDecodedIsDecoded(s: seq<byte>)
    requires PERCENT !in DotsDecoded(s)
    ensures Decode(s) == Some(DotsDecoded(s))
  {
    if s != [] {
      var n := if |s| >= 3 && s[0] == PERCENT && s[1] == 50 && ToLower(s[2]) == 101 then 3 else 1;
      assert DotsDecoded(s)[0] in DotsDecoded(s);
      assert forall b :: b in DotsDecoded(s[n..]) ==> b in DotsDecoded(s);
      DotsDecodedIsDecoded(s[n..]);
    }
  }
}
