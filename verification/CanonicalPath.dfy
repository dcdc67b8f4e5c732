/** The single escaped spelling of a request path, and what a rule's path matches. */
module CanonicalPath {
  import opened Octets
  import opened Text
  import opened Percent
  import opened PathGlob

  datatype PathParts = PathParts(path: string, segments: seq<string>)

  predicate SegmentOk(segment: string, utf8: string -> bool) {
    && utf8(segment)
    && '/' !in segment && '\\' !in segment && ';' !in segment
    && !ContainsTriplet(segment)
    && segment != "." && segment != ".."
    && !ContainsControl(segment)
  }

  /** Only the last segment may be empty. */
  predicate RawOk(raws: seq<string>, i: nat, utf8: string -> bool)
    requires i < |raws|
  {
    && (raws[i] != "" || i == |raws| - 1)
    && Unescape(raws[i]).Some? && SegmentOk(Unescape(raws[i]).value, utf8)
  }

  predicate RawsOk(raws: seq<string>, utf8: string -> bool) {
    forall i {:trigger raws[i]} {:trigger RawOk(raws, i, utf8)} :: 0 <= i < |raws| ==> RawOk(raws, i, utf8)
  }

  function Decoded(raws: seq<string>): (segments: seq<string>)
    requires forall i :: 0 <= i < |raws| ==> Unescape(raws[i]).Some?
    ensures |segments| == |raws|
  {
    seq(|raws|, i requires 0 <= i < |raws| => Unescape(raws[i]).value)
  }

  predicate AllBytes(segments: seq<string>) {
    forall i :: 0 <= i < |segments| ==> IsBytes(segments[i])
  }

  function Encoded(segments: seq<string>): (encoded: seq<string>)
    requires AllBytes(segments)
    ensures |encoded| == |segments|
  {
    seq(|segments|, i requires 0 <= i < |segments| => Escape(segments[i], KeptInPath))
  }

  /** The spelling of a list of segments. */
  function Spelling(segments: seq<string>): string
    requires AllBytes(segments)
  {
    if segments == [] then "/" else "/" + Join(Encoded(segments), '/')
  }

  /** What policy sees of an escaped path: its canonical spelling and its decoded segments, or a refusal. */
  ghost function Parts(escapedPath: string, utf8: string -> bool): Option<PathParts>
    requires IsBytes(escapedPath)
  {
    if escapedPath == "" || escapedPath == "/" then Some(PathParts("/", []))
    else if escapedPath[0] != '/' || '?' in escapedPath || '#' in escapedPath then None
    else
      var raws := Split(escapedPath[1..], '/');
      if !RawsOk(raws, utf8) then None
      else
        DecodedIsBytes(escapedPath, raws);
        Some(PathParts(Spelling(Decoded(raws)), Decoded(raws)))
  }

  lemma RawIsBytes(escapedPath: string, raws: seq<string>, i: nat)
    requires IsBytes(escapedPath) && escapedPath != "" && raws == Split(escapedPath[1..], '/')
    requires i < |raws| && Unescape(raws[i]).Some?
    ensures IsBytes(raws[i]) && IsBytes(Unescape(raws[i]).value)
  {
    SplitIsBytes(escapedPath[1..], '/');
    assert raws[i] in raws;
    UnescapeGivesBytes(raws[i]);
  }

  lemma DecodedIsBytes(escapedPath: string, raws: seq<string>)
    requires IsBytes(escapedPath) && escapedPath != "" && raws == Split(escapedPath[1..], '/')
    requires forall i :: 0 <= i < |raws| ==> Unescape(raws[i]).Some?
    ensures AllBytes(raws) && AllBytes(Decoded(raws))
  {
    forall i | 0 <= i < |raws| ensures IsBytes(raws[i]) && IsBytes(Decoded(raws)[i]) {
      RawIsBytes(escapedPath, raws, i);
    }
  }

  /** Reads, checks and re-encodes the segments one by one. */
  method CanonicalPathParts(escapedPath: string, utf8: string -> bool) returns (parts: Option<PathParts>)
    requires IsBytes(escapedPath)
    ensures parts == Parts(escapedPath, utf8)
  {
    hide Escape;
    hide Unescape;
    hide SegmentOk;
    hide Split;
    hide Join;
    var path := if escapedPath == "" then "/" else escapedPath;
    if path[0] != '/' {
      return None;
    }
    if '?' in path || '#' in path {
      return None;
    }
    if path == "/" {
      return Some(PathParts("/", []));
    }
    var raws := Split(path[1..], '/');
    var segments, encoded: seq<string> := [], [];
    var i := 0;
    while i < |raws|
      invariant 0 <= i == |segments| == |encoded| <= |raws|
      invariant forall j {:trigger raws[j]} {:trigger RawOk(raws, j, utf8)} :: 0 <= j < i ==> RawOk(raws, j, utf8)
      invariant forall j :: 0 <= j < i ==> segments[j] == Unescape(raws[j]).value && IsBytes(segments[j])
      invariant forall j :: 0 <= j < i ==> encoded[j] == Escape(segments[j], KeptInPath)
    {
      var raw := raws[i];
      if raw == "" && i != |raws| - 1 {
        return None;
      }
      var segment := Unescape(raw);
      if segment.None? || !SegmentOk(segment.value, utf8) {
        return None;
      }
      RawIsBytes(path, raws, i);
      segments := segments + [segment.value];
      encoded := encoded + [Escape(segment.value, KeptInPath)];
      i := i + 1;
    }
    assert segments == Decoded(raws);
    assert encoded == Encoded(segments);
    return Some(PathParts("/" + Join(encoded, '/'), segments));
  }

  /** Segments as a path can have them. */
  ghost predicate Canonical(segments: seq<string>, utf8: string -> bool) {
    && AllBytes(segments)
    && segments != [""]
    && (forall i :: 0 <= i < |segments| ==> SegmentOk(segments[i], utf8))
    && (forall i :: 0 <= i < |segments| - 1 ==> segments[i] != "")
  }

  lemma PartsAreCanonical(escapedPath: string, utf8: string -> bool)
    requires IsBytes(escapedPath) && Parts(escapedPath, utf8).Some?
    ensures Canonical(Parts(escapedPath, utf8).value.segments, utf8)
    ensures Parts(escapedPath, utf8).value.path == Spelling(Parts(escapedPath, utf8).value.segments)
  {
    if escapedPath != "" && escapedPath != "/" {
      var raws := Split(escapedPath[1..], '/');
      var segments := Decoded(raws);
      DecodedIsBytes(escapedPath, raws);
      forall i | 0 <= i < |raws| ensures SegmentOk(segments[i], utf8) && (segments[i] == "" <==> raws[i] == "") {
        UnescapeGivesBytes(raws[i]);
        assert RawOk(raws, i, utf8);
      }
      JoinSplit(escapedPath[1..], '/');
      if |raws| == 1 {
        assert raws[0] == escapedPath[1..] != "";
      }
      forall i | 0 <= i < |segments| - 1 ensures segments[i] != "" {
        assert RawOk(raws, i, utf8);
      }
    }
  }

  lemma EncodedSegment(segment: string)
    requires IsBytes(segment)
    ensures Unescape(Escape(segment, KeptInPath)) == Some(segment)
    ensures IsBytes(Escape(segment, KeptInPath))
    ensures Escape(segment, KeptInPath) == "" <==> segment == ""
    ensures '/' !in Escape(segment, KeptInPath)
    ensures '?' !in Escape(segment, KeptInPath) && '#' !in Escape(segment, KeptInPath)
  {
    hide Escape;
    hide Unescape;
    UnescapeEscape(segment, KeptInPath);
    EscapedAlphabet(segment, KeptInPath);
  }

  lemma SpellingAlphabet(segments: seq<string>)
    requires AllBytes(segments)
    ensures IsBytes(Spelling(segments))
    ensures Spelling(segments) != "" && Spelling(segments)[0] == '/'
    ensures '?' !in Spelling(segments) && '#' !in Spelling(segments)
  {
    if segments != [] {
      var encoded := Encoded(segments);
      var joined := Join(encoded, '/');
      forall p | p in encoded ensures IsBytes(p) && '?' !in p && '#' !in p {
        var i :| 0 <= i < |encoded| && encoded[i] == p;
        EncodedSegment(segments[i]);
      }
      assert Spelling(segments)[0] == '/';
      JoinMembers(encoded, '/', '?');
      JoinMembers(encoded, '/', '#');
      forall k | 0 <= k < |joined| ensures joined[k] < 256 as char {
        JoinMembers(encoded, '/', joined[k]);
      }
    }
  }

  lemma EncodedRawsOk(segments: seq<string>, utf8: string -> bool)
    requires Canonical(segments, utf8)
    ensures RawsOk(Encoded(segments), utf8) && Decoded(Encoded(segments)) == segments
  {
    hide Escape;
    hide Unescape;
    hide SegmentOk;
    var encoded := Encoded(segments);
    forall i | 0 <= i < |encoded| ensures Unescape(encoded[i]) == Some(segments[i]) && RawOk(encoded, i, utf8) {
      EncodedSegment(segments[i]);
    }
  }

  lemma SpellingSplits(segments: seq<string>)
    requires AllBytes(segments) && segments != [] && segments != [""]
    ensures Split(Spelling(segments)[1..], '/') == Encoded(segments)
    ensures Spelling(segments) != "/"
  {
    hide Escape;
    hide Split;
    var encoded := Encoded(segments);
    forall p | p in encoded ensures '/' !in p {
      var i :| 0 <= i < |encoded| && encoded[i] == p;
      EncodedSegment(segments[i]);
    }
    SplitJoin(encoded, '/');
    assert Spelling(segments)[1..] == Join(encoded, '/');
    if |encoded| == 1 {
      EncodedSegment(segments[0]);
      assert segments == [segments[0]];
    }
  }

  /** The spelling reads back as the segments it spells. */
  lemma SpellingReadsBack(segments: seq<string>, utf8: string -> bool)
    requires Canonical(segments, utf8)
    ensures IsBytes(Spelling(segments))
    ensures Parts(Spelling(segments), utf8) == Some(PathParts(Spelling(segments), segments))
  {
    hide Escape;
    hide Unescape;
    hide SegmentOk;
    hide Split;
    hide Join;
    hide Spelling;
    if segments == [] {
      RootSpelling(utf8);
    } else {
      SpellingAlphabet(segments);
      SpellingSplits(segments);
      EncodedRawsOk(segments, utf8);
    }
  }

  lemma RootSpelling(utf8: string -> bool)
    ensures Spelling([]) == "/" && IsBytes("/") && Parts("/", utf8) == Some(PathParts("/", []))
  {
  }

  /** Canonicalization is idempotent: a canonical path is its own canonical path, with the same segments. */
  lemma CanonicalPathIdempotent(escapedPath: string, utf8: string -> bool)
    requires IsBytes(escapedPath) && Parts(escapedPath, utf8).Some?
    ensures IsBytes(Parts(escapedPath, utf8).value.path)
    ensures Parts(Parts(escapedPath, utf8).value.path, utf8) == Parts(escapedPath, utf8)
  {
    PartsAreCanonical(escapedPath, utf8);
    SpellingReadsBack(Parts(escapedPath, utf8).value.segments, utf8);
  }

  /** One spelling per meaning: accepted paths share a canonical path exactly when they have the same segments. */
  lemma OneSpelling(a: string, b: string, utf8: string -> bool)
    requires IsBytes(a) && IsBytes(b) && Parts(a, utf8).Some? && Parts(b, utf8).Some?
    ensures Parts(a, utf8).value.path == Parts(b, utf8).value.path
            <==> Parts(a, utf8).value.segments == Parts(b, utf8).value.segments
  {
    PartsAreCanonical(a, utf8);
    PartsAreCanonical(b, utf8);
    CanonicalPathIdempotent(a, utf8);
    CanonicalPathIdempotent(b, utf8);
  }

  lemma {:induction false} UnescapeJoined(segments: seq<string>)
    requires AllBytes(segments) && segments != []
    ensures Unescape(Join(Encoded(segments), '/')) == Some(Join(segments, '/'))
    decreases |segments|
  {
    hide Escape;
    hide Unescape;
    var encoded := Encoded(segments);
    if |segments| == 1 {
      UnescapeEscape(segments[0], KeptInPath);
    } else {
      var rest := Join(encoded[1..], '/');
      assert encoded[1..] == Encoded(segments[1..]);
      UnescapeJoined(segments[1..]);
      var slash := ['/'] + rest;
      UnescapeSlash(rest);
      UnescapeEscaped(segments[0], KeptInPath, slash);
      assert Join(encoded, '/') == Escape(segments[0], KeptInPath) + slash;
      assert Join(segments, '/') == segments[0] + (['/'] + Join(segments[1..], '/'));
    }
  }

  lemma UnescapeSlash(rest: string)
    requires Unescape(rest).Some?
    ensures Unescape(['/'] + rest) == Some(['/'] + Unescape(rest).value)
  {
    assert (['/'] + rest)[1..] == rest;
  }

  /** The decoded path sent upstream splits into exactly the segments that policy matched. */
  lemma ForwardedPathIsMatchedPath(escapedPath: string, utf8: string -> bool)
    requires IsBytes(escapedPath) && Parts(escapedPath, utf8).Some?
    ensures Unescape(Parts(escapedPath, utf8).value.path).Some?
    ensures HasPrefix(Unescape(Parts(escapedPath, utf8).value.path).value, "/")
    ensures var forwarded := Unescape(Parts(escapedPath, utf8).value.path).value;
            var segments := Parts(escapedPath, utf8).value.segments;
            if segments == [] then forwarded == "/" else Split(forwarded[1..], '/') == segments
  {
    hide Escape;
    hide Split;
    PartsAreCanonical(escapedPath, utf8);
    var segments := Parts(escapedPath, utf8).value.segments;
    var path := Spelling(segments);
    if segments != [] {
      UnescapeJoined(segments);
      assert path[1..] == Join(Encoded(segments), '/');
      forall p | p in segments ensures '/' !in p {
        var i :| 0 <= i < |segments| && segments[i] == p;
      }
      SplitJoin(segments, '/');
      assert (['/'] + Join(segments, '/'))[1..] == Join(segments, '/');
    } else {
      assert path[1..] == "";
    }
  }

  /** A rule's path: canonical like a request's, its segments `*` and `**` wild. */
  function Compiled(segments: seq<string>): (pattern: seq<PathSegment>)
    ensures |pattern| == |segments|
  {
    seq(|segments|, i requires 0 <= i < |segments| => SegmentOf(segments[i]))
  }

  method CompilePathGlob(text: string, utf8: string -> bool) returns (pattern: Option<seq<PathSegment>>)
    requires IsBytes(text)
    ensures pattern.Some? <==> Parts(text, utf8).Some?
    ensures pattern.Some? ==> pattern.value == Compiled(Parts(text, utf8).value.segments)
  {
    hide Parts;
    hide SegmentOf;
    hide IsBytes;
    var parts := CanonicalPathParts(text, utf8);
    if parts.None? {
      return None;
    }
    var segments := parts.value.segments;
    var compiled: seq<PathSegment> := [];
    for i := 0 to |segments|
      invariant compiled == Compiled(segments)[..i]
    {
      compiled := compiled + [SegmentOf(segments[i])];
    }
    return Some(compiled);
  }

  /** A rule whose path has no wild segment matches the requests with its canonical path, and no other. */
  lemma ExactRuleMatchesOnePath(rule: string, request: string, utf8: string -> bool)
    requires IsBytes(rule) && IsBytes(request) && Parts(rule, utf8).Some? && Parts(request, utf8).Some?
    requires "*" !in Parts(rule, utf8).value.segments && "**" !in Parts(rule, utf8).value.segments
    ensures Matches(Compiled(Parts(rule, utf8).value.segments), Parts(request, utf8).value.segments)
            <==> Parts(rule, utf8).value.path == Parts(request, utf8).value.path
  {
    LiteralsMatchThemselves(Parts(rule, utf8).value.segments, Parts(request, utf8).value.segments);
    OneSpelling(rule, request, utf8);
  }

  lemma {:induction false} LiteralsMatchThemselves(segments: seq<string>, path: seq<string>)
    requires "*" !in segments && "**" !in segments
    ensures Matches(Compiled(segments), path) <==> segments == path
    decreases |segments|
  {
    var pattern := Compiled(segments);
    if segments != [] {
      assert pattern[1..] == Compiled(segments[1..]);
      if path != [] {
        LiteralsMatchThemselves(segments[1..], path[1..]);
        assert path[..1] == [path[0]] && path == [path[0]] + path[1..] && segments == [segments[0]] + segments[1..];
        assert StartsWith(pattern, path, 1) <==> segments == path;
      }
      if k :| StartsWith(pattern, path, k) {
        assert |path[..k]| == 1;
      }
    }
  }
}
