/** Mapping a request target onto the provider's base URL. */
module ProviderUrl {
  import opened Bytes
  import opened PercentDecoding
  import opened Rfc3986
  import HttpHeaders

  const BACKSLASH: byte := 92

  /** The characters that the mapping looks for. */
  lemma Delimiters()
    ensures [SLASH, BACKSLASH, PERCENT, QUESTION, HASH, DOT, COLON] == Ascii("/\\%?#.:")
  {
    var text := Ascii("/\\%?#.:");
    assert |text| == 7 && text[0] == SLASH && text[1] == BACKSLASH && text[2] == PERCENT;
    assert text[3] == QUESTION && text[4] == HASH && text[5] == DOT && text[6] == COLON;
  }

  function TrimStartSlashes(s: seq<byte>): (r: seq<byte>)
    ensures |r| <= |s| && r == s[|s| - |r|..]
    ensures r != [] ==> r[0] != SLASH
  {
    if s != [] && s[0] == SLASH then TrimStartSlashes(s[1..]) else s
  }

  function TrimEndSlashes(s: seq<byte>): (r: seq<byte>)
    ensures |r| <= |s| && r == s[..|r|]
    ensures r != [] ==> r[|r| - 1] != SLASH
  {
    if s != [] && s[|s| - 1] == SLASH then TrimEndSlashes(s[..|s| - 1]) else s
  }

  /** Decodes to something that is no dot segment and holds no path separator. */
  predicate SafeSegment(segment: seq<byte>)
  {
    var decoded := Decode(segment);
    decoded.Some? && decoded.value != [DOT] && decoded.value != [DOT, DOT]
    && SLASH !in decoded.value && BACKSLASH !in decoded.value
  }

  predicate SafePath(path: seq<byte>)
  {
    forall p <- Split(path, SLASH) :: SafeSegment(p)
  }

  method RejectUnsafeRequestPath(path: seq<byte>) returns (ok: bool)
    ensures ok <==> SafePath(path)
  {
    var segments := Split(path, SLASH);
    for i := 0 to |segments|
      invariant forall p <- segments[..i] :: SafeSegment(p)
    {
      var decoded := PercentDecodePathSegment(segments[i]);
      if decoded.None? || decoded.value == [DOT] || decoded.value == [DOT, DOT]
         || SLASH in decoded.value || BACKSLASH in decoded.value {
        assert segments[i] in segments && !SafeSegment(segments[i]);
        return false;
      }
      assert segments[..i + 1] == segments[..i] + [segments[i]];
    }
    assert segments[..|segments|] == segments;
    return true;
  }

  lemma DecodedHolds(path: seq<byte>, b: byte)
    requires Decode(path).Some? && forall p :: p in Split(path, SLASH) ==> Decode(p).Some?
    requires Split(Decode(path).value, SLASH) == DecodeAll(Split(path, SLASH)) && b != SLASH
    requires b in Decode(path).value
    ensures exists p :: p in Split(path, SLASH) && b in Decode(p).value
  {
    var parts, decoded := Split(path, SLASH), Split(Decode(path).value, SLASH);
    SplitMeaning(Decode(path).value, SLASH);
    JoinHolds(decoded, SLASH, b);
    DecodeAllParts(parts);
    var i :| 0 <= i < |decoded| && b in decoded[i];
    assert parts[i] in parts && decoded[i] == Decode(parts[i]).value;
  }

  /**
   Every escape of the path is complete, decoding it yields the same segments whether it comes
   before or after the split, and the decoded path has no dot segment and no backslash.
   */
  ghost predicate IsPlainPath(path: seq<byte>)
  {
    && EveryEscapeComplete(path) && Decode(path).Some?
    && (forall p :: p in Split(path, SLASH) ==> Decode(p).Some?)
    && Split(Decode(path).value, SLASH) == DecodeAll(Split(path, SLASH))
    && [DOT] !in Split(Decode(path).value, SLASH) && [DOT, DOT] !in Split(Decode(path).value, SLASH)
    && BACKSLASH !in Decode(path).value
  }

  lemma SafeIsPlain(path: seq<byte>)
    requires SafePath(path)
    ensures IsPlainPath(path)
  {
    var parts := Split(path, SLASH);
    DecodesIffEscapesComplete(path);
    DecodeCommutesWithSplit(path, SLASH);
    DecodeAllParts(parts);
    forall i | 0 <= i < |parts| ensures DecodeAll(parts)[i] !in [[DOT], [DOT, DOT]] {
      assert parts[i] in parts && SafeSegment(parts[i]);
    }
    if BACKSLASH in Decode(path).value {
      DecodedHolds(path, BACKSLASH);
    }
  }

  lemma PlainIsSafe(path: seq<byte>, i: nat)
    requires IsPlainPath(path) && i < |Split(path, SLASH)|
    ensures SafeSegment(Split(path, SLASH)[i])
  {
    var parts, decoded := Split(path, SLASH), Split(Decode(path).value, SLASH);
    DecodeAllParts(parts);
    assert parts[i] in parts && decoded[i] == Decode(parts[i]).value && decoded[i] in decoded;
    SplitMeaning(Decode(path).value, SLASH);
    JoinHolds(decoded, SLASH, BACKSLASH);
  }

  /** What the check of the segments amounts to, said of the path as a whole. */
  lemma AcceptedMeaning(path: seq<byte>)
    ensures SafePath(path) <==> IsPlainPath(path)
  {
    if SafePath(path) {
      SafeIsPlain(path);
    } else if IsPlainPath(path) {
      forall i | 0 <= i < |Split(path, SLASH)| ensures SafeSegment(Split(path, SLASH)[i]) {
        PlainIsSafe(path, i);
      }
    }
  }

  function SlashTerminated(path: seq<byte>): seq<byte>
  {
    if path != [] && path[|path| - 1] == SLASH then path else path + [SLASH]
  }

  function BasePrefix(base: Url): seq<byte>
  {
    TrimStartSlashes(TrimEndSlashes(base.path))
  }

  /** The base's own path leads the relative one: alone, or up to a slash. */
  predicate RepeatsBase(base: Url, relative: seq<byte>)
  {
    var prefix := BasePrefix(base);
    prefix != [] && (relative == prefix || prefix + [SLASH] <= relative)
  }

  /** The path to resolve: leading slashes dropped, and the base's path if it is repeated. */
  function RelativePath(base: Url, path: seq<byte>): seq<byte>
  {
    var relative := TrimStartSlashes(path);
    if RepeatsBase(base, relative) then TrimStartSlashes(relative[|BasePrefix(base)|..]) else relative
  }

  datatype Mapping = Mapped(url: Url) | Rejected | Foreign

  /** Leaves what stands behind the slashes and at most one repetition of the base's path. */
  method StripBasePath(base: Url, path: seq<byte>) returns (relativePath: seq<byte>)
    ensures relativePath != [] ==> relativePath[0] != SLASH
    ensures exists lead, gap :: LeadsTo(base, path, lead, gap, relativePath)
  {
    var basePath := TrimStartSlashes(TrimEndSlashes(base.path));
    relativePath := TrimStartSlashes(path);
    if basePath != [] && (relativePath == basePath || basePath + [SLASH] <= relativePath) {
      relativePath := TrimStartSlashes(relativePath[|basePath|..]);
    }
    assert relativePath == RelativePath(base, path);
    ghost var lead, gap := RelativePathLeads(base, path);
  }

  /** Rejected targets fail; a relative path that reads as an absolute URL leaves the base. */
  method ProviderRequestUrlFromBase(baseUrl: Url, target: seq<byte>) returns (mapping: Mapping)
    ensures mapping == MapTarget(baseUrl, target)
  {
    if !HttpHeaders.IsOriginForm(target) {
      return Rejected;
    }
    var base := baseUrl;
    if base.path == [] || base.path[|base.path| - 1] != SLASH {
      base := base.(path := base.path + [SLASH]);
    }
    assert base == baseUrl.(path := SlashTerminated(baseUrl.path));
    var (path, query) := SplitOnce(target, QUESTION);
    var safe := RejectUnsafeRequestPath(path);
    if !safe {
      return Rejected;
    }
    var relativePath := StripBasePath(baseUrl, path);
    RelativePathMeaning(baseUrl, path, relativePath);
    return Join(base, relativePath, query);
  }

  /** The relative path resolved against the base, with the request's own query. */
  function Join(base: Url, relative: seq<byte>, query: Option<seq<byte>>): Mapping
  {
    match Resolve(base, relative)
    case Elsewhere => Foreign
    case Relative(url) => Mapped(url.(query := query))
  }

  function MapTarget(base: Url, target: seq<byte>): Mapping
  {
    var (path, query) := SplitOnce(target, QUESTION);
    if !HttpHeaders.IsOriginForm(target) || !SafePath(path) then Rejected
    else Join(base.(path := SlashTerminated(base.path)), RelativePath(base, path), query)
  }

  /** The base as the URL library leaves it: an absolute path without dot segments. */
  ghost predicate ValidBase(base: Url) {
    base.path != [] && base.path[0] == SLASH && DotFree(base.path[1..])
  }

  // ------------------------------------------------------------------ where it lands

  lemma SafeSegmentIsNoDot(segment: seq<byte>)
    requires SafeSegment(segment)
    ensures !IsDot(segment) && !IsDotDot(segment)
  {
    if IsDot(segment) || IsDotDot(segment) {
      DotsDecodedIsDecoded(segment);
    }
  }

  /** Parts of a tail that starts at a slash are parts of the whole. */
  lemma TailParts(s: seq<byte>, n: nat)
    requires n <= |s| && (n == 0 || s[n - 1] == SLASH)
    ensures forall p :: p in Split(s[n..], SLASH) ==> p in Split(s, SLASH)
  {
    if n > 0 {
      assert s == s[..n - 1] + ([SLASH] + s[n..]);
      SplitConcat(s[..n - 1], s[n..], SLASH);
    } else {
      assert s[0..] == s;
    }
  }

  lemma {:induction false} TrimmedParts(s: seq<byte>)
    ensures forall p :: p in Split(TrimStartSlashes(s), SLASH) ==> p in Split(s, SLASH)
  {
    if s != [] && s[0] == SLASH {
      TrimmedParts(s[1..]);
      TailParts(s, 1);
    }
  }

  /** The relative path is a tail of the request path, cut at slashes: its segments are safe too. */
  lemma RelativePathIsSafe(base: Url, path: seq<byte>)
    requires SafePath(path)
    ensures SafePath(RelativePath(base, path))
  {
    var relative, prefix := TrimStartSlashes(path), BasePrefix(base);
    TrimmedParts(path);
    if RepeatsBase(base, relative) {
      var rest := relative[|prefix|..];
      if rest == [] {
        assert SafeSegment([]);
      } else {
        assert rest[0] == (prefix + [SLASH])[|prefix|] && rest[1..] == relative[|prefix| + 1..];
        TailParts(relative, |prefix| + 1);
        TrimmedParts(rest[1..]);
      }
    }
  }

  lemma {:induction false} TrimKeepsOut(s: seq<byte>, b: byte)
    requires b !in s
    ensures b !in TrimStartSlashes(s)
  {
    assert forall x :: x in TrimStartSlashes(s) ==> x in s;
  }

  lemma RelativePathKeepsOut(base: Url, path: seq<byte>, b: byte)
    requires b !in path
    ensures b !in RelativePath(base, path)
  {
    TrimKeepsOut(path, b);
    var relative := TrimStartSlashes(path);
    if RepeatsBase(base, relative) {
      assert forall x :: x in relative[|BasePrefix(base)|..] ==> x in relative;
      TrimKeepsOut(relative[|BasePrefix(base)|..], b);
    }
  }

  /** The base's path up to its last slash, followed by safe segments, has no dot segment. */
  lemma ExtendedBaseIsDotFree(base: Url, relative: seq<byte>)
    requires ValidBase(base) && SafePath(relative)
    ensures var path := SlashTerminated(base.path) + relative; path[0] == SLASH && DotFree(path[1..])
  {
    var slashed := SlashTerminated(base.path);
    var path := slashed + relative;
    forall p | p in Split(relative, SLASH) ensures !IsDot(p) && !IsDotDot(p) {
      SafeSegmentIsNoDot(p);
    }
    if |slashed| == 1 {
      assert path[1..] == relative;
    } else {
      var front := slashed[1..|slashed| - 1];
      assert path[1..] == front + ([SLASH] + relative);
      SplitConcat(front, relative, SLASH);
      if base.path != slashed {
        assert base.path[1..] == front;
      } else {
        assert base.path[1..] == front + ([SLASH] + []);
        SplitConcat(front, [], SLASH);
      }
    }
  }

  /** Where a target ought to land: below the base, its own query kept. */
  function Expected(base: Url, relative: seq<byte>, query: Option<seq<byte>>): Mapping
  {
    Mapped(Url(base.origin, SlashTerminated(base.path) + relative, query, None))
  }

  /**
   An accepted target lands exactly at the base's path followed by its relative path, dot
   segment removal changing nothing, if and only if the relative path does not read as an
   absolute URL and holds no fragment.
   */
  lemma LandsUnderBase(base: Url, target: seq<byte>)
    requires ValidBase(base) && HttpHeaders.IsOriginForm(target) && SafePath(SplitOnce(target, QUESTION).0)
    ensures var (path, query) := SplitOnce(target, QUESTION);
            var relative := RelativePath(base, path);
            MapTarget(base, target) == Expected(base, relative, query) <==>
            !StartsWithScheme(relative) && HASH !in relative
  {
    var (path, query) := SplitOnce(target, QUESTION);
    var relative := RelativePath(base, path);
    RelativePathIsSafe(base, path);
    SplitFirst(target, QUESTION);
    RelativePathKeepsOut(base, path, QUESTION);
    JoinsBelow(base, relative, query);
  }

  /** Joining a safe relative path to the base, dot segments included in the account. */
  lemma JoinsBelow(base: Url, relative: seq<byte>, query: Option<seq<byte>>)
    requires ValidBase(base) && SafePath(relative) && QUESTION !in relative
    requires relative != [] ==> relative[0] != SLASH
    ensures Join(base.(path := SlashTerminated(base.path)), relative, query) == Expected(base, relative, query) <==>
            !StartsWithScheme(relative) && HASH !in relative
  {
    SplitFirst(relative, HASH);
    if !StartsWithScheme(relative) && HASH !in relative {
      UpToEnd(relative, HASH, []);
      UpToEnd(relative, QUESTION, []);
      var slashed := SlashTerminated(base.path);
      UpToLastSlashOfSlashed(slashed);
      ExtendedBaseIsDotFree(base, relative);
      RemoveDotSegmentsIdentity(slashed + relative, []);
      Regroup([], slashed + relative, []);
      assert slashed + [] == slashed;
    }
  }

  // ------------------------------------------------------------ staying under the base

  lemma {:induction false} SlashIsNoDot(s: seq<byte>)
    requires SLASH in s
    ensures SLASH in DotsDecoded(s)
  {
    if s[0] != SLASH {
      var n := if |s| >= 3 && s[0] == PERCENT && s[1] == 50 && ToLower(s[2]) == 101 then 3 else 1;
      assert SLASH in s[n..];
      SlashIsNoDot(s[n..]);
    }
  }

  /** The last slash of such a path is the base's own, and then what follows is `body`, or one in `body`. */
  lemma LastSlashOfExtension(slashed: seq<byte>, body: seq<byte>, cut: seq<byte>, j: nat)
    requires slashed != [] && slashed[|slashed| - 1] == SLASH && cut == slashed + body
    requires j < |cut| && cut[j] == SLASH && SLASH !in cut[j + 1..]
    ensures |slashed| - 1 <= j && slashed <= cut[..j] + [SLASH]
    ensures if j == |slashed| - 1 then cut[j + 1..] == body else !IsDotDot(body)
  {
    assert cut[|slashed| - 1] == SLASH;
    assert forall i :: j < i < |cut| ==> cut[i] == cut[j + 1..][i - j - 1];
    assert cut[..j] + [SLASH] == cut[..j + 1];
    if j > |slashed| - 1 {
      assert cut[j] == body[j - |slashed|] == SLASH;
      SlashIsNoDot(body);
    }
  }

  lemma DoubleDotStays(slashed: seq<byte>, body: seq<byte>, cut: seq<byte>, j: nat)
    requires slashed != [] && slashed[0] == SLASH && slashed[|slashed| - 1] == SLASH && cut == slashed + body
    requires |slashed| - 1 <= j < |cut| && cut[j] == SLASH && IsDotDot(cut[j + 1..])
    requires if j == |slashed| - 1 then cut[j + 1..] == body else !IsDotDot(body)
    ensures slashed <= DropLastSegment(cut[..j]) + [SLASH] <==> slashed == [SLASH] || !IsDotDot(body)
  {
    var front := cut[..j];
    if front == [] {
      assert slashed == [SLASH];
    } else {
      DropLastSegmentAt(front);
      var k := LastSlash(front);
      assert front[..k] + [SLASH] == cut[..k + 1];
      assert j > |slashed| - 1 ==> front[|slashed| - 1] == SLASH;
    }
  }

  lemma ShortenedStays(slashed: seq<byte>, body: seq<byte>, cut: seq<byte>, j: nat)
    requires slashed != [] && slashed[0] == SLASH && slashed[|slashed| - 1] == SLASH && cut == slashed + body
    requires |slashed| - 1 <= j < |cut| && cut[j] == SLASH && slashed <= cut[..j] + [SLASH]
    requires if j == |slashed| - 1 then cut[j + 1..] == body else !IsDotDot(body)
    ensures slashed <= Shortened(cut[..j], cut[j + 1..]) <==> slashed == [SLASH] || !IsDotDot(body)
  {
    var last := cut[j + 1..];
    if IsDot(last) {
    } else if IsDotDot(last) {
      DoubleDotStays(slashed, body, cut, j);
    } else {
      assert cut[..j] + ([SLASH] + last) == cut;
    }
  }

  /** Where a path ends up that extends a base: below it, unless the one segment added is a double dot. */
  lemma ExtensionStays(slashed: seq<byte>, body: seq<byte>, cut: seq<byte>, full: seq<byte>)
    requires slashed != [] && slashed[0] == SLASH && slashed[|slashed| - 1] == SLASH && cut == slashed + body
    requires cut <= full && DotFree(full[1..])
    ensures slashed <= RemoveDotSegments(cut, []) <==> slashed == [SLASH] || !IsDotDot(body)
  {
    var j := CutPathResolves(full, cut);
    LastSlashOfExtension(slashed, body, cut, j);
    ShortenedStays(slashed, body, cut, j);
  }

  lemma PathOfReference(relative: seq<byte>)
    requires QUESTION !in relative && (relative != [] ==> relative[0] != SLASH)
    ensures var body := UpTo(relative, HASH);
            && body <= relative && (body != [] ==> body[0] != SLASH)
            && SplitOnce(relative, HASH).0 == body && SplitOnce(body, QUESTION) == (body, None)
  {
    var body := UpTo(relative, HASH);
    SplitFirst(relative, HASH);
    assert QUESTION !in body;
    UpToEnd(body, QUESTION, []);
  }

  /** The path a relative one without query resolves to, whatever fragment it has. */
  lemma JoinedPath(base: Url, relative: seq<byte>, query: Option<seq<byte>>)
    requires ValidBase(base) && QUESTION !in relative && (relative != [] ==> relative[0] != SLASH)
    requires !StartsWithScheme(relative)
    ensures var slashed, body := SlashTerminated(base.path), UpTo(relative, HASH);
            var joined := Join(base.(path := slashed), relative, query);
            body <= relative
            && joined.Mapped?
            && joined.url.path == if body == [] then slashed else RemoveDotSegments(slashed + body, [])
  {
    PathOfReference(relative);
    UpToLastSlashOfSlashed(SlashTerminated(base.path));
  }

  lemma RelativeStays(base: Url, relative: seq<byte>)
    requires ValidBase(base) && SafePath(relative) && UpTo(relative, HASH) <= relative
    ensures var slashed, body := SlashTerminated(base.path), UpTo(relative, HASH);
            slashed <= (if body == [] then slashed else RemoveDotSegments(slashed + body, []))
            <==> slashed == [SLASH] || !IsDotDot(body)
  {
    var slashed, body := SlashTerminated(base.path), UpTo(relative, HASH);
    ExtendedBaseIsDotFree(base, relative);
    assert slashed + body <= slashed + relative;
    ExtensionStays(slashed, body, slashed + body, slashed + relative);
  }

  lemma MappedIsJoined(base: Url, target: seq<byte>)
    requires MapTarget(base, target).Mapped?
    ensures var (path, query) := SplitOnce(target, QUESTION);
            && HttpHeaders.IsOriginForm(target) && SafePath(path)
            && MapTarget(base, target) ==
               Join(base.(path := SlashTerminated(base.path)), RelativePath(base, path), query)
            && !StartsWithScheme(RelativePath(base, path))
  {
  }

  lemma JoinedStays(base: Url, relative: seq<byte>, query: Option<seq<byte>>, joined: Mapping)
    requires ValidBase(base) && SafePath(relative) && QUESTION !in relative && !StartsWithScheme(relative)
    requires relative != [] ==> relative[0] != SLASH
    requires joined == Join(base.(path := SlashTerminated(base.path)), relative, query)
    ensures joined.Mapped?
    ensures SlashTerminated(base.path) <= joined.url.path <==>
            SlashTerminated(base.path) == [SLASH] || !IsDotDot(UpTo(relative, HASH))
  {
    JoinedPath(base, relative, query);
    RelativeStays(base, relative);
  }

  /**
   An accepted target that is mapped stays under the base if and only if the base is the root
   or its relative path, cut at the first `#`, is not a double dot. The check of the segments
   cannot see that: it looks at the target before the fragment is cut off.
   */
  lemma StaysUnderBase(base: Url, target: seq<byte>)
    requires ValidBase(base) && MapTarget(base, target).Mapped?
    ensures var slashed := SlashTerminated(base.path);
            var relative := RelativePath(base, SplitOnce(target, QUESTION).0);
            slashed <= MapTarget(base, target).url.path <==> slashed == [SLASH] || !IsDotDot(UpTo(relative, HASH))
  {
    var (path, query) := SplitOnce(target, QUESTION);
    var slashed, relative := SlashTerminated(base.path), RelativePath(base, path);
    MappedIsJoined(base, target);
    RelativePathIsSafe(base, path);
    SplitFirst(target, QUESTION);
    RelativePathKeepsOut(base, path, QUESTION);
    JoinedStays(base, relative, query, MapTarget(base, target));
  }

  // --------------------------------------------------------- the base, repeated or not

  ghost predicate AllSlashes(s: seq<byte>) {
    forall i :: 0 <= i < |s| ==> s[i] == SLASH
  }

  lemma {:induction false} TrimStartSkips(slashes: seq<byte>, rest: seq<byte>)
    requires AllSlashes(slashes)
    ensures TrimStartSlashes(slashes + rest) == TrimStartSlashes(rest)
  {
    if slashes == [] {
      assert slashes + rest == rest;
    } else {
      TrimStartSkips(slashes[1..], rest);
      assert (slashes + rest)[1..] == slashes[1..] + rest;
    }
  }

  lemma {:induction false} TrimStartMeaning(s: seq<byte>)
    ensures AllSlashes(s[..|s| - |TrimStartSlashes(s)|])
  {
    if s != [] && s[0] == SLASH {
      TrimStartMeaning(s[1..]);
      assert s[..|s| - |TrimStartSlashes(s)|] == [s[0]] + s[1..][..|s| - 1 - |TrimStartSlashes(s)|];
    }
  }

  lemma {:induction false} TrimEndMeaning(s: seq<byte>)
    ensures AllSlashes(s[|TrimEndSlashes(s)|..])
  {
    if s != [] && s[|s| - 1] == SLASH {
      TrimEndMeaning(s[..|s| - 1]);
      assert s[|TrimEndSlashes(s)|..] == s[..|s| - 1][|TrimEndSlashes(s)|..] + [SLASH];
    }
  }

  /** The path is slashes, then possibly the base's own path and slashes, then `relative`. */
  ghost predicate LeadsTo(base: Url, path: seq<byte>, lead: seq<byte>, gap: seq<byte>, relative: seq<byte>) {
    && AllSlashes(lead) && AllSlashes(gap)
    && ((path == lead + relative && !RepeatsBase(base, relative))
        || (BasePrefix(base) != [] && path == lead + (BasePrefix(base) + (gap + relative))
            && (relative != [] ==> gap != [])))
  }

  /**
   What is left of a path: it starts with no slash, and only slashes and at most one repetition
   of the base's path, set off by a slash, stand before it. Nothing else fits that description.
   */
  lemma RelativePathMeaning(base: Url, path: seq<byte>, relative: seq<byte>)
    ensures relative == RelativePath(base, path) <==>
            (relative != [] ==> relative[0] != SLASH) && exists lead, gap :: LeadsTo(base, path, lead, gap, relative)
  {
    if relative == RelativePath(base, path) {
      var lead, gap := RelativePathLeads(base, path);
    }
    if (relative != [] ==> relative[0] != SLASH) && exists lead, gap :: LeadsTo(base, path, lead, gap, relative) {
      var lead, gap :| LeadsTo(base, path, lead, gap, relative);
      LeadsToRelativePath(base, path, lead, gap, relative);
    }
  }

  lemma TrimmedOff(s: seq<byte>) returns (lead: seq<byte>)
    ensures s == lead + TrimStartSlashes(s) && AllSlashes(lead)
  {
    TrimStartMeaning(s);
    lead := s[..|s| - |TrimStartSlashes(s)|];
  }

  lemma RepetitionLeads(prefix: seq<byte>, trimmed: seq<byte>) returns (gap: seq<byte>)
    requires trimmed == prefix || prefix + [SLASH] <= trimmed
    ensures var relative := TrimStartSlashes(trimmed[|prefix|..]);
            trimmed == prefix + (gap + relative) && AllSlashes(gap) && (relative != [] ==> gap != [])
  {
    var tail := trimmed[|prefix|..];
    gap := TrimmedOff(tail);
    assert trimmed == prefix + tail;
    if trimmed != prefix {
      assert tail[0] == (prefix + [SLASH])[|prefix|] == SLASH;
    }
  }

  lemma RelativePathLeads(base: Url, path: seq<byte>) returns (lead: seq<byte>, gap: seq<byte>)
    ensures LeadsTo(base, path, lead, gap, RelativePath(base, path))
  {
    var trimmed := TrimStartSlashes(path);
    gap := [];
    lead := TrimmedOff(path);
    if RepeatsBase(base, trimmed) {
      gap := RepetitionLeads(BasePrefix(base), trimmed);
    }
  }

  lemma RepetitionIsDropped(base: Url, gap: seq<byte>, relative: seq<byte>)
    requires BasePrefix(base) != [] && AllSlashes(gap) && (relative != [] ==> gap != [] && relative[0] != SLASH)
    ensures var repeated := BasePrefix(base) + (gap + relative);
            RepeatsBase(base, repeated) && TrimStartSlashes(repeated[|BasePrefix(base)|..]) == relative
  {
    TrimStartSkips(gap, relative);
    Regroup(BasePrefix(base), gap + relative, []);
    if gap == [] {
      assert BasePrefix(base) + (gap + relative) == BasePrefix(base);
    } else {
      LeadsUpToSlash(BasePrefix(base), gap + relative);
    }
  }

  lemma LeadsToRelativePath(base: Url, path: seq<byte>, lead: seq<byte>, gap: seq<byte>, relative: seq<byte>)
    requires LeadsTo(base, path, lead, gap, relative) && (relative != [] ==> relative[0] != SLASH)
    ensures RelativePath(base, path) == relative
  {
    if path == lead + relative && !RepeatsBase(base, relative) {
      TrimStartSkips(lead, relative);
    } else {
      var repeated := BasePrefix(base) + (gap + relative);
      TrimStartSkips(lead, repeated);
      assert repeated[0] == BasePrefix(base)[0];
      RepetitionIsDropped(base, gap, relative);
    }
  }

  /** The base's path is slashes around its prefix; slash-terminated, at least one follows it. */
  lemma BaseShape(base: Url) returns (before: seq<byte>, after: seq<byte>)
    requires base.path != [] && base.path[0] == SLASH
    ensures SlashTerminated(base.path) == before + (BasePrefix(base) + after)
    ensures AllSlashes(before) && AllSlashes(after)
    ensures BasePrefix(base) != [] ==> after != [] && BasePrefix(base)[0] != SLASH
  {
    var ended := TrimEndSlashes(base.path);
    before := TrimmedOff(ended);
    after := SlashTerminated(base.path)[|ended|..];
    SlashesFollow(base.path);
    Regroup(before, BasePrefix(base), after);
  }

  lemma SlashesFollow(path: seq<byte>)
    ensures var ended := TrimEndSlashes(path);
            var after := SlashTerminated(path)[|ended|..];
            SlashTerminated(path) == ended + after && AllSlashes(after) && after != []
  {
    TrimEndMeaning(path);
    var ended := TrimEndSlashes(path);
    if path == ended {
      assert SlashTerminated(path)[|ended|..] == [SLASH];
    } else {
      assert path[|path| - 1] == path[|ended|..][|path| - |ended| - 1] == SLASH;
    }
  }

  /** Repeating the base in front of a path is the same as not repeating it. */
  lemma RelativeAfterBase(base: Url, rest: seq<byte>)
    requires base.path != [] && base.path[0] == SLASH
    ensures RelativePath(base, SlashTerminated(base.path) + rest) == TrimStartSlashes(rest)
  {
    var before, after := BaseShape(base);
    var prefix := BasePrefix(base);
    Regroup(before, prefix + after, rest);
    Regroup(prefix, after, rest);
    TrimStartSkips(before, prefix + (after + rest));
    TrimStartSkips(after, rest);
    if prefix == [] {
      Regroup(prefix, after + rest, []);
    } else {
      LeadsUpToSlash(prefix, after + rest);
    }
  }

  lemma LeadsUpToSlash(prefix: seq<byte>, rest: seq<byte>)
    requires rest != [] && rest[0] == SLASH
    ensures prefix + [SLASH] <= prefix + rest && (prefix + rest)[|prefix|..] == rest
  {
  }

  function WithQuery(path: seq<byte>, query: Option<seq<byte>>): seq<byte>
  {
    if query.None? then path else path + ([QUESTION] + query.value)
  }

  lemma WithQuerySplits(path: seq<byte>, query: Option<seq<byte>>)
    requires QUESTION !in path
    ensures SplitOnce(WithQuery(path, query), QUESTION) == (path, query)
  {
    UpToEnd(path, QUESTION, if query.Some? then query.value else []);
    if query.Some? {
      assert WithQuery(path, query)[|path| + 1..] == query.value;
    }
  }

  /** A base that is itself an acceptable target path: one leading slash, safe segments, no `?`. */
  ghost predicate PlainBase(base: Url) {
    && ValidBase(base)
    && HttpHeaders.IsOriginForm(base.path) && SafePath(base.path)
    && QUESTION !in base.path
  }

  lemma SlashedBaseIsSafe(base: Url, rest: seq<byte>)
    requires PlainBase(base) && SafePath(rest) && QUESTION !in rest
    requires rest != [] ==> rest[0] != SLASH
    ensures var path := SlashTerminated(base.path) + rest;
            SafePath(path) && QUESTION !in path && HttpHeaders.IsOriginForm(path)
  {
    var slashed := SlashTerminated(base.path);
    var front := slashed[..|slashed| - 1];
    assert slashed + rest == front + ([SLASH] + rest);
    SplitConcat(front, rest, SLASH);
    if base.path != slashed {
      assert base.path == front;
    } else {
      assert base.path == front + ([SLASH] + []);
      SplitConcat(front, [], SLASH);
    }
  }

  lemma RootedIsSafe(rest: seq<byte>)
    requires SafePath(rest) && QUESTION !in rest && (rest != [] ==> rest[0] != SLASH)
    ensures SafePath([SLASH] + rest) && QUESTION !in [SLASH] + rest && HttpHeaders.IsOriginForm([SLASH] + rest)
  {
    SplitConcat([], rest, SLASH);
    Regroup([], [SLASH] + rest, []);
    assert SafeSegment([]);
  }

  lemma LandsWithQuery(base: Url, path: seq<byte>, query: Option<seq<byte>>)
    requires ValidBase(base) && HttpHeaders.IsOriginForm(path) && SafePath(path) && QUESTION !in path
    ensures var relative := RelativePath(base, path);
            MapTarget(base, WithQuery(path, query)) == Expected(base, relative, query) <==>
            !StartsWithScheme(relative) && HASH !in relative
  {
    WithQuerySplits(path, query);
    LandsUnderBase(base, WithQuery(path, query));
  }

  /** Mapping again the path a target was mapped to, with its query, changes nothing. */
  lemma MappingIsIdempotent(base: Url, target: seq<byte>)
    requires PlainBase(base)
    requires MapTarget(base, target).Mapped? && MapTarget(base, target).url.fragment == None
    ensures var url := MapTarget(base, target).url;
            MapTarget(base, WithQuery(url.path, url.query)) == Mapped(url)
  {
    var (path, query) := SplitOnce(target, QUESTION);
    var relative := RelativePath(base, path);
    RelativePathIsSafe(base, path);
    SplitFirst(target, QUESTION);
    RelativePathKeepsOut(base, path, QUESTION);
    LandsUnderBase(base, target);
    SplitFirst(relative, HASH);
    assert MapTarget(base, target) == Expected(base, relative, query);
    var mapped := SlashTerminated(base.path) + relative;
    SlashedBaseIsSafe(base, relative);
    RelativeAfterBase(base, relative);
    LandsWithQuery(base, mapped, query);
  }

  lemma SchemeIsForeign(base: Url, path: seq<byte>, query: Option<seq<byte>>)
    requires HttpHeaders.IsOriginForm(path) && SafePath(path) && QUESTION !in path
    requires StartsWithScheme(RelativePath(base, path))
    ensures MapTarget(base, WithQuery(path, query)) == Foreign
  {
    WithQuerySplits(path, query);
  }

  lemma ExpectedDiffers(base: Url, a: seq<byte>, b: seq<byte>, query: Option<seq<byte>>)
    requires |a| < |b|
    ensures Expected(base, a, query) != Expected(base, b, query)
  {
    assert |SlashTerminated(base.path) + a| < |SlashTerminated(base.path) + b|;
  }

  /** The base repeated a second time: the shorter target loses one repetition more. */
  lemma RepeatedBaseDiffers(base: Url, rest: seq<byte>, query: Option<seq<byte>>)
    requires PlainBase(base) && SafePath(rest) && QUESTION !in rest && HASH !in rest
    requires rest != [] && rest[0] != SLASH && RepeatsBase(base, rest)
    ensures MapTarget(base, WithQuery([SLASH] + rest, query)) != Expected(base, rest, query)
  {
    var short := [SLASH] + rest;
    TrimStartSkips([SLASH], rest);
    assert TrimStartSlashes(short) == rest;
    var relative := RelativePath(base, short);
    RootedIsSafe(rest);
    RelativePathKeepsOut(base, short, HASH);
    assert |relative| < |rest|;
    if StartsWithScheme(relative) {
      SchemeIsForeign(base, short, query);
    } else {
      LandsWithQuery(base, short, query);
      ExpectedDiffers(base, relative, rest, query);
    }
  }

  lemma UnrepeatedBaseLands(base: Url, rest: seq<byte>, query: Option<seq<byte>>)
    requires PlainBase(base) && SafePath(rest) && QUESTION !in rest && HASH !in rest
    requires rest != [] ==> rest[0] != SLASH
    requires !StartsWithScheme(rest) && !RepeatsBase(base, rest)
    ensures MapTarget(base, WithQuery([SLASH] + rest, query)) == Expected(base, rest, query)
  {
    RootedIsSafe(rest);
    TrimStartSkips([SLASH], rest);
    assert TrimStartSlashes([SLASH] + rest) == rest;
    LandsWithQuery(base, [SLASH] + rest, query);
  }

  /** `/r` and `/base/r` map to the same URL exactly when `r` does not itself repeat the base. */
  lemma PrefixInsensitive(base: Url, rest: seq<byte>, query: Option<seq<byte>>)
    requires PlainBase(base) && SafePath(rest) && QUESTION !in rest
    requires rest != [] ==> rest[0] != SLASH
    requires !StartsWithScheme(rest) && HASH !in rest
    ensures MapTarget(base, WithQuery(SlashTerminated(base.path) + rest, query)) == Expected(base, rest, query)
    ensures MapTarget(base, WithQuery([SLASH] + rest, query)) == Expected(base, rest, query)
            <==> !RepeatsBase(base, rest)
  {
    SlashedBaseIsSafe(base, rest);
    RelativeAfterBase(base, rest);
    LandsWithQuery(base, SlashTerminated(base.path) + rest, query);
    if RepeatsBase(base, rest) {
      RepeatedBaseDiffers(base, rest, query);
    } else {
      UnrepeatedBaseLands(base, rest, query);
    }
  }

  // ------------------------------------------------------------ targets that go astray

  lemma {:induction false} PlainTextDecodes(s: seq<byte>)
    requires PERCENT !in s
    ensures Decode(s) == Some(s)
  {
    if s != [] {
      assert s[0] in s && forall b :: b in s[1..] ==> b in s;
      PlainTextDecodes(s[1..]);
      assert [s[0]] + s[1..] == s;
    }
  }

  /** Accepted, the target `/x:` is taken for an absolute URL and leaves every base that is not at `/x:`. */
  lemma SchemeGoesAstray(base: Url, target: seq<byte>)
    requires !RepeatsBase(base, [120, COLON]) && target == [SLASH, 120, COLON]
    ensures MapTarget(base, target) == Foreign
  {
    assert [SLASH] + [120, COLON] == target;
    SchemeOfOneLetter();
    RelativeSchemeIsForeign(base, [120, COLON], target);
  }

  lemma SchemeOfOneLetter()
    ensures StartsWithScheme([120, COLON])
  {
    assert [120, COLON][1..] == [COLON];
  }

  lemma RelativeSchemeIsForeign(base: Url, rest: seq<byte>, target: seq<byte>)
    requires target == [SLASH] + rest && StartsWithScheme(rest) && !RepeatsBase(base, rest)
    requires SLASH !in rest && PERCENT !in rest && QUESTION !in rest && BACKSLASH !in rest && rest[0] != DOT
    ensures MapTarget(base, target) == Foreign
  {
    SafeTarget(base, rest);
    SchemeIsForeign(base, target, None);
  }

  lemma SafeTarget(base: Url, rest: seq<byte>)
    requires rest != [] && SLASH !in rest && PERCENT !in rest && QUESTION !in rest && BACKSLASH !in rest
    requires rest != [DOT] && rest != [DOT, DOT] && !RepeatsBase(base, rest)
    ensures SafePath(rest) && SafePath([SLASH] + rest) && QUESTION !in [SLASH] + rest
    ensures HttpHeaders.IsOriginForm([SLASH] + rest) && RelativePath(base, [SLASH] + rest) == rest
  {
    SplitOfPart(rest, SLASH);
    PlainTextDecodes(rest);
    assert rest[0] in rest;
    RootedIsSafe(rest);
    TrimStartSkips([SLASH], rest);
  }

  /** Accepted, the target `/x#y` lands at `x` below the base, with a fragment that no provider will see. */
  lemma FragmentGoesAstray(base: Url)
    requires ValidBase(base) && !RepeatsBase(base, [120, HASH, 121])
    ensures MapTarget(base, [SLASH, 120, HASH, 121]) ==
            Mapped(Url(base.origin, SlashTerminated(base.path) + [120], None, Some([121])))
  {
    var rest: seq<byte> := [120, HASH, 121];
    assert [SLASH] + rest == [SLASH, 120, HASH, 121];
    SafeTarget(base, rest);
    WithQuerySplits([SLASH] + rest, None);
    FragmentResolves(base);
  }

  lemma FragmentResolves(base: Url)
    requires ValidBase(base)
    ensures Resolve(base.(path := SlashTerminated(base.path)), [120, HASH, 121]) ==
            Relative(Url(base.origin, SlashTerminated(base.path) + [120], None, Some([121])))
  {
    var slashed, x: seq<byte> := SlashTerminated(base.path), [120];
    FragmentSplits();
    UpToLastSlashOfSlashed(slashed);
    SplitOfPart(x, SLASH);
    PlainTextDecodes(x);
    ExtendedBaseIsDotFree(base, x);
    RemoveDotSegmentsIdentity(slashed + x, []);
    assert [] + (slashed + x) == slashed + x;
  }

  /** Accepted, the target `/..#y` lands one level above every base but the root. */
  lemma DoubleDotGoesAstray(base: Url)
    requires ValidBase(base) && SlashTerminated(base.path) != [SLASH] && !RepeatsBase(base, [DOT, DOT, HASH, 121])
    ensures var slashed := SlashTerminated(base.path);
            var above := DropLastSegment(slashed[..|slashed| - 1]) + [SLASH];
            && MapTarget(base, [SLASH, DOT, DOT, HASH, 121]) == Mapped(Url(base.origin, above, None, Some([121])))
            && !(slashed <= above)
  {
    var rest: seq<byte> := [DOT, DOT, HASH, 121];
    assert [SLASH] + rest == [SLASH, DOT, DOT, HASH, 121];
    SafeTarget(base, rest);
    WithQuerySplits([SLASH] + rest, None);
    DoubleDotReferenceResolves(base);
    StaysUnderBase(base, [SLASH] + rest);
    DoubleDotSplits();
  }

  lemma DoubleDotReferenceResolves(base: Url)
    requires ValidBase(base)
    ensures var slashed := SlashTerminated(base.path);
            var above := DropLastSegment(slashed[..|slashed| - 1]) + [SLASH];
            Resolve(base.(path := slashed), [DOT, DOT, HASH, 121]) ==
            Relative(Url(base.origin, above, None, Some([121])))
  {
    DoubleDotSplits();
    UpToLastSlashOfSlashed(SlashTerminated(base.path));
    DoubleDotResolves(base);
  }

  lemma DoubleDotResolves(base: Url)
    requires ValidBase(base)
    ensures var slashed := SlashTerminated(base.path);
            RemoveDotSegments(slashed + [DOT, DOT], []) == DropLastSegment(slashed[..|slashed| - 1]) + [SLASH]
  {
    var slashed := SlashTerminated(base.path);
    var front := slashed[..|slashed| - 1];
    ExtendedBaseIsDotFree(base, []);
    assert slashed + [] == slashed;
    if front != [] {
      DotFreeUpToSlash(slashed, |front|);
    }
    DoubleDotIsOne();
    assert slashed + [DOT, DOT] == front + ([SLASH] + [DOT, DOT]);
    RemoveDotSegmentsFront(front, [SLASH] + [DOT, DOT], []);
    assert [] + front == front;
    RemoveLastSegment([DOT, DOT], front);
  }

  lemma DoubleDotSplits()
    ensures SplitOnce([DOT, DOT, HASH, 121], HASH) == ([DOT, DOT], Some([121]))
    ensures SplitOnce([DOT, DOT], QUESTION) == ([DOT, DOT], None)
    ensures UpTo([DOT, DOT, HASH, 121], HASH) == [DOT, DOT] && !StartsWithScheme([DOT, DOT, HASH, 121])
    ensures IsDotDot([DOT, DOT]) && !IsDot([DOT, DOT])
  {
    UpToEnd([DOT, DOT], HASH, [121]);
    assert [DOT, DOT] + ([HASH] + [121]) == [DOT, DOT, HASH, 121];
    assert [DOT, DOT, HASH, 121][3..] == [121];
    UpToEnd([DOT, DOT], QUESTION, []);
    DoubleDotIsOne();
  }

  lemma DoubleDotIsOne()
    ensures DotsDecoded([DOT, DOT]) == [DOT, DOT]
  {
    var one: seq<byte> := [DOT];
    assert one[1..] == [] && DotsDecoded(one) == one;
    var two: seq<byte> := [DOT, DOT];
    assert two[1..] == one && [DOT] + one == two;
  }

  lemma FragmentSplits()
    ensures SplitOnce([120, HASH, 121], HASH) == ([120], Some([121]))
    ensures SplitOnce([120], QUESTION) == ([120], None)
    ensures !StartsWithScheme([120, HASH, 121])
  {
    UpToEnd([120], HASH, [121]);
    assert [120] + ([HASH] + [121]) == [120, HASH, 121];
    assert [120, HASH, 121][2..] == [121] && [120, HASH, 121][1..] == [HASH, 121];
    UpToEnd([120], QUESTION, []);
  }
}
