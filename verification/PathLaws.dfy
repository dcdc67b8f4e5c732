/** Nobody reads a forwarded path or query differently: no dots to remove, no separators, nothing to decode twice. */
module PathLaws {
  import opened Octets
  import opened Text
  import opened Percent
  import opened Ordering
  import opened CanonicalPath
  import opened CanonicalQuery

  // ----- dot segments, as section 5.2.4 of RFC 3986 removes them -----

  function Last(s: seq<string>): seq<string> {
    if s == [] then [] else s[..|s| - 1]
  }

  /** The segments of a path after `done`; a dot segment at the very end leaves an empty one. */
  function RemoveDotsAfter(done: seq<string>, rest: seq<string>): seq<string>
    decreases |rest|
  {
    if rest == [] then done
    else if rest[0] == "." then if |rest| == 1 then done + [""] else RemoveDotsAfter(done, rest[1..])
    else if rest[0] == ".." then if |rest| == 1 then Last(done) + [""] else RemoveDotsAfter(Last(done), rest[1..])
    else RemoveDotsAfter(done + [rest[0]], rest[1..])
  }

  function RemoveDots(segments: seq<string>): seq<string> {
    RemoveDotsAfter([], segments)
  }

  predicate DotFree(segments: seq<string>) {
    "." !in segments && ".." !in segments
  }

  lemma {:induction false} NoDotsToRemove(done: seq<string>, rest: seq<string>)
    requires DotFree(rest)
    ensures RemoveDotsAfter(done, rest) == done + rest
    decreases |rest|
  {
    if rest != [] {
      assert rest == [rest[0]] + rest[1..];
      NoDotsToRemove(done + [rest[0]], rest[1..]);
      assert done + [rest[0]] + rest[1..] == done + rest;
    } else {
      assert done + rest == done;
    }
  }

  lemma {:induction false} DotsAreRemoved(done: seq<string>, rest: seq<string>)
    requires DotFree(done)
    ensures DotFree(RemoveDotsAfter(done, rest))
    decreases |rest|
  {
    if rest != [] {
      if rest[0] == "." {
        DotsAreRemoved(done, rest[1..]);
      } else if rest[0] == ".." {
        DotsAreRemoved(Last(done), rest[1..]);
      } else {
        DotsAreRemoved(done + [rest[0]], rest[1..]);
      }
    }
  }

  lemma DotFreeIff(segments: seq<string>)
    ensures RemoveDots(segments) == segments <==> DotFree(segments)
  {
    if DotFree(segments) {
      NoDotsToRemove([], segments);
      assert [] + segments == segments;
    }
    DotsAreRemoved([], segments);
  }

  // ----- decoding twice -----

  lemma {:induction false} NothingToDecode(s: string)
    requires forall i :: 0 <= i <= |s| ==> !IsTriplet(s[i..])
    ensures Unescape(s).Some? ==> Unescape(s).value == s
    decreases |s|
  {
    if s != "" {
      assert s[0..] == s;
      forall i | 0 <= i <= |s[1..]| ensures !IsTriplet(s[1..][i..]) {
        assert s[1..][i..] == s[i + 1..];
      }
      NothingToDecode(s[1..]);
    }
  }

  lemma TripletIsLocal(a: string, b: string, i: nat)
    requires i <= |a| && b != "" && !IsHexDigit(b[0]) && b[0] != '%'
    ensures IsTriplet((a + b)[i..]) ==> IsTriplet(a[i..])
  {
    var s := a + b;
    if i + 3 <= |s| {
      assert s[i..][0] == s[i] && s[i..][1] == s[i + 1] && s[i..][2] == s[i + 2];
    }
    if i + 3 <= |a| {
      assert a[i..][0] == s[i] && a[i..][1] == s[i + 1] && a[i..][2] == s[i + 2];
    }
  }

  /** Joined with slashes, segments without triplets make a path without triplets. */
  lemma {:induction false} NoTripletInPath(segments: seq<string>, i: nat)
    requires segments != [] && forall s :: s in segments ==> !ContainsTriplet(s)
    requires i <= |Join(segments, '/')|
    ensures !IsTriplet(Join(segments, '/')[i..])
    decreases |segments|
  {
    var joined, head := Join(segments, '/'), segments[0];
    assert head in segments;
    if |segments| > 1 {
      var rest := ['/'] + Join(segments[1..], '/');
      assert joined == head + rest;
      if i <= |head| {
        TripletIsLocal(head, rest, i);
      } else {
        var j := i - |head| - 1;
        assert joined[i..] == Join(segments[1..], '/')[j..];
        NoTripletInPath(segments[1..], j);
      }
    }
  }

  // ----- paths -----

  /** A character that some server takes for a separator, or that a log or header would break on. */
  predicate Ambiguous(c: char) {
    c == '/' || c == '\\' || c == ';' || Control(c)
  }

  predicate Control(c: char) {
    c < ' ' || c == 127 as char
  }

  lemma ControlIff(s: string)
    ensures ContainsControl(s) <==> exists c :: c in s && Control(c)
  {
    if k :| 0 <= k < |s| && Control(s[k]) {
      assert s[k] in s;
    }
    if c :| c in s && Control(c) {
      var k :| 0 <= k < |s| && s[k] == c;
    }
  }

  /** Decoded segments that can be read in one way only. */
  ghost predicate OneReading(segments: seq<string>, utf8: string -> bool) {
    && RemoveDots(segments) == segments
    && (forall s, c :: s in segments && c in s ==> !Ambiguous(c))
    && (forall s :: s in segments ==> utf8(s))
    && (forall s, i :: s in segments && 0 <= i <= |s| ==> !IsTriplet(s[i..]))
  }

  lemma SegmentsOk(segments: seq<string>, utf8: string -> bool)
    ensures OneReading(segments, utf8) <==> forall s :: s in segments ==> SegmentOk(s, utf8)
  {
    hide RemoveDots;
    DotFreeIff(segments);
    forall s | s in segments
      ensures SegmentOk(s, utf8) <==>
              && s != "." && s != ".." && utf8(s)
              && (forall c :: c in s ==> !Ambiguous(c)) && (forall i :: 0 <= i <= |s| ==> !IsTriplet(s[i..]))
    {
      OneSegment(s, utf8);
    }
  }

  lemma OneSegment(s: string, utf8: string -> bool)
    ensures SegmentOk(s, utf8) <==>
            && s != "." && s != ".." && utf8(s)
            && (forall c :: c in s ==> !Ambiguous(c)) && (forall i :: 0 <= i <= |s| ==> !IsTriplet(s[i..]))
  {
    hide ContainsControl;
    ControlIff(s);
  }

  /** A path is accepted exactly when it is absolute, decodes, has empty segments only at its end, and can be
      read in one way only. */
  lemma AcceptedIff(path: string, utf8: string -> bool)
    requires IsBytes(path)
    ensures Parts(path, utf8).Some? <==>
            || path == ""
            || (&& path[0] == '/' && '?' !in path && '#' !in path
                && (path == "/" || ReadsOneWay(Split(path[1..], '/'), utf8)))
  {
    hide SegmentOk;
    hide OneReading;
    if path != "" && path != "/" {
      RawsOkIff(Split(path[1..], '/'), utf8);
    }
  }

  ghost predicate ReadsOneWay(raws: seq<string>, utf8: string -> bool) {
    && (forall i :: 0 <= i < |raws| ==> Unescape(raws[i]).Some?)
    && (forall i :: 0 <= i < |raws| - 1 ==> raws[i] != "")
    && OneReading(Decoded(raws), utf8)
  }

  lemma RawsOkIff(raws: seq<string>, utf8: string -> bool)
    ensures RawsOk(raws, utf8) <==> ReadsOneWay(raws, utf8)
  {
    hide SegmentOk;
    hide OneReading;
    hide Unescape;
    if forall i :: 0 <= i < |raws| ==> Unescape(raws[i]).Some? {
      SegmentsOk(Decoded(raws), utf8);
      var segments := Decoded(raws);
      assert forall i :: 0 <= i < |raws| ==> segments[i] in segments && segments[i] == Unescape(raws[i]).value;
      if RawsOk(raws, utf8) {
        forall s | s in segments ensures SegmentOk(s, utf8) {
          var i :| 0 <= i < |segments| && segments[i] == s;
          assert RawOk(raws, i, utf8);
        }
        assert forall i :: 0 <= i < |raws| - 1 ==> RawOk(raws, i, utf8);
      }
    }
  }

  /** What is forwarded reads as what was matched, also for a server that removes dots or decodes again. */
  lemma ForwardedReadsOneWay(path: string, utf8: string -> bool)
    requires IsBytes(path) && Parts(path, utf8).Some?
    ensures var segments := Parts(path, utf8).value.segments;
            && RemoveDots(segments) == segments
            && (forall s, c :: s in segments && c in s ==> !Ambiguous(c))
            && (forall s :: s in segments ==> utf8(s) && (Unescape(s).Some? ==> Unescape(s).value == s))
    ensures Unescape(Parts(path, utf8).value.path).Some?
    ensures var decoded := Unescape(Parts(path, utf8).value.path).value;
            Unescape(decoded).Some? ==> Unescape(decoded).value == decoded
  {
    hide SegmentOk;
    hide RemoveDots;
    PartsAreCanonical(path, utf8);
    ForwardedPathIsMatchedPath(path, utf8);
    var segments := Parts(path, utf8).value.segments;
    forall s | s in segments ensures SegmentOk(s, utf8) {
      var i :| 0 <= i < |segments| && segments[i] == s;
    }
    SegmentsOk(segments, utf8);
    forall s | s in segments ensures Unescape(s).Some? ==> Unescape(s).value == s {
      NothingToDecode(s);
    }
    var decoded := Unescape(Parts(path, utf8).value.path).value;
    DecodedHasNoTriplet(segments, decoded);
    NothingToDecode(decoded);
  }

  lemma DecodedHasNoTriplet(segments: seq<string>, decoded: string)
    requires forall s, i :: s in segments && 0 <= i <= |s| ==> !IsTriplet(s[i..])
    requires HasPrefix(decoded, "/")
    requires if segments == [] then decoded == "/" else Split(decoded[1..], '/') == segments
    ensures forall i :: 0 <= i <= |decoded| ==> !IsTriplet(decoded[i..])
  {
    forall i | 0 <= i <= |decoded| ensures !IsTriplet(decoded[i..]) {
      if i == 0 {
        assert decoded[0] == decoded[..1][0];
      } else if segments != [] {
        JoinSplit(decoded[1..], '/');
        forall s | s in segments ensures !ContainsTriplet(s) {
        }
        NoTripletInPath(segments, i - 1);
        assert decoded[i..] == decoded[1..][i - 1..];
      }
    }
  }

  // ----- queries -----

  /** A piece is parted at its first equals sign; without one its value is empty. */
  lemma PieceIsParted(key: string, value: string)
    requires '=' !in key && ';' !in key && ';' !in value
    ensures var both := PiecePair(key + ['='] + value);
            if Unescape(key).Some? && Unescape(value).Some? then both == Some(Pair(Unescape(key).value, Unescape(value).value))
            else both.None?
    ensures PiecePair(key) == if Unescape(key).Some? then Some(Pair(Unescape(key).value, "")) else None
  {
    hide Unescape;
    var piece := key + ['='] + value;
    IndexOfFirst(key, '=', value);
    assert piece[..|key|] == key && piece[|key| + 1..] == value;
    assert ';' !in piece;
    assert key[..|key|] == key;
    EmptyUnescapes();
  }

  lemma EmptyUnescapes()
    ensures Unescape("") == Some("")
  {
  }

  ghost predicate TextReadsOneWay(s: string, utf8: string -> bool) {
    utf8(s) && (forall c :: c in s ==> !Control(c)) && forall i :: 0 <= i <= |s| ==> !IsTriplet(s[i..])
  }

  /** A query is accepted exactly when it has no plus sign, every piece decodes, and every key and value is
      valid text without control bytes or a second layer of encoding. */
  lemma QueryAcceptedIff(raw: string, utf8: string -> bool)
    ensures Meaning(raw, utf8).Some? <==>
            && '+' !in raw && PairsOf(Split(raw, '&')).Some?
            && forall p :: p in PairsOf(Split(raw, '&')).value ==>
                 TextReadsOneWay(p.key, utf8) && TextReadsOneWay(p.value, utf8)
  {
    hide TextOk;
    hide TextReadsOneWay;
    hide PairsOf;
    hide Split;
    var pairs := PairsOf(Split(raw, '&'));
    if pairs.Some? {
      forall p: Pair ensures PairOk(p, utf8) <==> TextReadsOneWay(p.key, utf8) && TextReadsOneWay(p.value, utf8) {
        TextOkIff(p.key, utf8);
        TextOkIff(p.value, utf8);
      }
      assert forall i :: 0 <= i < |pairs.value| ==> pairs.value[i] in pairs.value;
    }
  }

  lemma TextOkIff(s: string, utf8: string -> bool)
    ensures TextOk(s, utf8) <==> TextReadsOneWay(s, utf8)
  {
    hide ContainsControl;
    ControlIff(s);
  }

  /** Decoding a key or a value of an accepted query again changes nothing. */
  lemma QueryDecodesOnce(raw: string, utf8: string -> bool, p: Pair)
    requires Meaning(raw, utf8).Some? && p in Meaning(raw, utf8).value
    ensures Unescape(p.key).Some? ==> Unescape(p.key).value == p.key
    ensures Unescape(p.value).Some? ==> Unescape(p.value).value == p.value
  {
    hide PairsOf;
    hide Split;
    QueryAcceptedIff(raw, utf8);
    NothingToDecode(p.key);
    NothingToDecode(p.value);
  }
}
