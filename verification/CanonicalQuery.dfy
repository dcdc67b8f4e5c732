/** The deterministic spelling of a query: decoded, checked, sorted by key and value, encoded again. */
module CanonicalQuery {
  import opened Octets
  import opened Text
  import opened Percent
  import opened Ordering

  /** A piece between two `&`: key and value are parted at the first `=`. */
  function PiecePair(piece: string): Option<Pair> {
    if ';' in piece then None
    else
      var at := IndexOf(piece, '=');
      var key, value := Unescape(piece[..at]), Unescape(if at < |piece| then piece[at + 1..] else "");
      if key.None? || value.None? then None else Some(Pair(key.value, value.value))
  }

  /** The pairs of a query, empty pieces skipped; a single bad piece spoils it. */
  function PairsOf(pieces: seq<string>): Option<seq<Pair>> {
    if pieces == [] then Some([])
    else
      var rest := PairsOf(pieces[1..]);
      if pieces[0] == "" then rest
      else if PiecePair(pieces[0]).None? || rest.None? then None
      else Some([PiecePair(pieces[0]).value] + rest.value)
  }

  predicate TextOk(s: string, utf8: string -> bool) {
    utf8(s) && !ContainsControl(s) && !ContainsTriplet(s)
  }

  predicate PairOk(pair: Pair, utf8: string -> bool) {
    TextOk(pair.key, utf8) && TextOk(pair.value, utf8)
  }

  predicate PairsOk(pairs: seq<Pair>, utf8: string -> bool) {
    forall i :: 0 <= i < |pairs| ==> PairOk(pairs[i], utf8)
  }

  predicate BytePair(pair: Pair) {
    IsBytes(pair.key) && IsBytes(pair.value)
  }

  predicate BytePairs(pairs: seq<Pair>) {
    forall i :: 0 <= i < |pairs| ==> BytePair(pairs[i])
  }

  /** What a query says, when it is accepted: its decoded pairs in the order written. */
  function Meaning(raw: string, utf8: string -> bool): Option<seq<Pair>> {
    if '+' in raw then None
    else
      var pairs := PairsOf(Split(raw, '&'));
      if pairs.None? || !PairsOk(pairs.value, utf8) then None else pairs
  }

  function RenderPair(pair: Pair): string
    requires BytePair(pair)
  {
    Escape(pair.key, KeptInQuery) + ['='] + Escape(pair.value, KeptInQuery)
  }

  function RenderAll(pairs: seq<Pair>): (parts: seq<string>)
    requires BytePairs(pairs)
    ensures |parts| == |pairs|
  {
    seq(|pairs|, i requires 0 <= i < |pairs| => RenderPair(pairs[i]))
  }

  function Render(pairs: seq<Pair>): string
    requires BytePairs(pairs)
  {
    if pairs == [] then "" else Join(RenderAll(pairs), '&')
  }

  lemma PiecePairIsBytes(piece: string)
    requires IsBytes(piece) && PiecePair(piece).Some?
    ensures BytePair(PiecePair(piece).value)
  {
    var at := IndexOf(piece, '=');
    UnescapeGivesBytes(piece[..at]);
    UnescapeGivesBytes(if at < |piece| then piece[at + 1..] else "");
  }

  lemma {:induction false} PairsOfIsBytes(pieces: seq<string>)
    requires PairsOf(pieces).Some? && forall p :: p in pieces ==> IsBytes(p)
    ensures BytePairs(PairsOf(pieces).value)
    decreases |pieces|
  {
    hide PiecePair;
    hide BytePair;
    if pieces != [] {
      PairsOfIsBytes(pieces[1..]);
      if pieces[0] != "" {
        PiecePairIsBytes(pieces[0]);
      }
    }
  }

  lemma MeaningIsBytes(raw: string, utf8: string -> bool)
    requires IsBytes(raw) && Meaning(raw, utf8).Some?
    ensures BytePairs(Meaning(raw, utf8).value) && BytePairs(Arrange(Meaning(raw, utf8).value))
  {
    hide BytePair;
    hide PairOk;
    hide Arrange;
    SplitIsBytes(raw, '&');
    PairsOfIsBytes(Split(raw, '&'));
    var pairs := Meaning(raw, utf8).value;
    SameMembers(pairs);
    assert forall i :: 0 <= i < |Arrange(pairs)| ==> Arrange(pairs)[i] in Arrange(pairs);
  }

  lemma SameMembers(pairs: seq<Pair>)
    ensures forall p :: p in Arrange(pairs) <==> p in pairs
  {
    ArrangeSorts(pairs);
    forall p ensures p in Arrange(pairs) <==> p in pairs {
      assert p in multiset(Arrange(pairs)) <==> p in multiset(pairs);
    }
  }

  /** The canonical query. */
  ghost function Canonical(raw: string, utf8: string -> bool): Option<string>
    requires IsBytes(raw)
  {
    if Meaning(raw, utf8).None? then None
    else
      MeaningIsBytes(raw, utf8);
      Some(Render(Arrange(Meaning(raw, utf8).value)))
  }

  lemma EncodedText(s: string)
    requires IsBytes(s)
    ensures Unescape(Escape(s, KeptInQuery)) == Some(s)
    ensures IsBytes(Escape(s, KeptInQuery))
    ensures '=' !in Escape(s, KeptInQuery) && '&' !in Escape(s, KeptInQuery)
    ensures ';' !in Escape(s, KeptInQuery) && '+' !in Escape(s, KeptInQuery)
  {
    hide Escape;
    hide Unescape;
    UnescapeEscape(s, KeptInQuery);
    EscapedAlphabet(s, KeptInQuery);
  }

  lemma RenderedPair(pair: Pair)
    requires BytePair(pair)
    ensures PiecePair(RenderPair(pair)) == Some(pair) && RenderPair(pair) != ""
    ensures IsBytes(RenderPair(pair)) && '&' !in RenderPair(pair) && '+' !in RenderPair(pair)
  {
    hide Escape;
    hide Unescape;
    hide IndexOf;
    var key, value := Escape(pair.key, KeptInQuery), Escape(pair.value, KeptInQuery);
    EncodedText(pair.key);
    EncodedText(pair.value);
    IndexOfFirst(key, '=', value);
    var piece := RenderPair(pair);
    assert piece[..|key|] == key && piece[|key| + 1..] == value;
  }

  lemma {:induction false} RenderedPairs(pairs: seq<Pair>)
    requires BytePairs(pairs)
    ensures PairsOf(RenderAll(pairs)) == Some(pairs)
    decreases |pairs|
  {
    hide PiecePair;
    hide RenderPair;
    if pairs != [] {
      RenderedPair(pairs[0]);
      assert RenderAll(pairs)[1..] == RenderAll(pairs[1..]);
      RenderedPairs(pairs[1..]);
      assert pairs == [pairs[0]] + pairs[1..];
    }
  }

  lemma RenderedAlphabet(pairs: seq<Pair>)
    requires BytePairs(pairs)
    ensures IsBytes(Render(pairs)) && '+' !in Render(pairs)
    ensures pairs != [] ==> Split(Render(pairs), '&') == RenderAll(pairs)
  {
    hide RenderPair;
    hide Split;
    if pairs != [] {
      var parts := RenderAll(pairs);
      forall p | p in parts ensures IsBytes(p) && '&' !in p && '+' !in p {
        var i :| 0 <= i < |parts| && parts[i] == p;
        RenderedPair(pairs[i]);
      }
      SplitJoin(parts, '&');
      JoinMembers(parts, '&', '+');
      forall k | 0 <= k < |Render(pairs)| ensures Render(pairs)[k] < 256 as char {
        JoinMembers(parts, '&', Render(pairs)[k]);
      }
    }
  }

  /** A rendered query means the pairs it renders. */
  lemma RenderReadsBack(pairs: seq<Pair>, utf8: string -> bool)
    requires BytePairs(pairs) && PairsOk(pairs, utf8)
    ensures IsBytes(Render(pairs)) && Meaning(Render(pairs), utf8) == Some(pairs)
  {
    hide RenderPair;
    hide PiecePair;
    hide PairOk;
    RenderedAlphabet(pairs);
    RenderedPairs(pairs);
    if pairs == [] {
      assert Split("", '&') == [""];
    }
  }

  lemma ArrangeTwice(pairs: seq<Pair>)
    ensures Arrange(Arrange(pairs)) == Arrange(pairs)
  {
    ArrangeSorts(pairs);
    ArrangeSorts(Arrange(pairs));
    SortedIsUnique(Arrange(Arrange(pairs)), Arrange(pairs));
  }

  /** Canonicalization is idempotent, and a canonical query means its pairs in sorted order. */
  lemma CanonicalQueryIdempotent(raw: string, utf8: string -> bool)
    requires IsBytes(raw) && Canonical(raw, utf8).Some?
    ensures IsBytes(Canonical(raw, utf8).value)
    ensures Meaning(Canonical(raw, utf8).value, utf8) == Some(Arrange(Meaning(raw, utf8).value))
    ensures Canonical(Canonical(raw, utf8).value, utf8) == Canonical(raw, utf8)
  {
    hide Arrange;
    hide Render;
    hide PairOk;
    var pairs := Meaning(raw, utf8).value;
    MeaningIsBytes(raw, utf8);
    SameMembers(pairs);
    assert forall i :: 0 <= i < |Arrange(pairs)| ==> Arrange(pairs)[i] in Arrange(pairs);
    RenderReadsBack(Arrange(pairs), utf8);
    ArrangeTwice(pairs);
  }

  /** Accepted queries share a canonical form exactly when they hold the same pairs, each as often. */
  lemma CanonicalQueryIsTheMultiset(a: string, b: string, utf8: string -> bool)
    requires IsBytes(a) && IsBytes(b) && Canonical(a, utf8).Some? && Canonical(b, utf8).Some?
    ensures Canonical(a, utf8) == Canonical(b, utf8)
            <==> multiset(Meaning(a, utf8).value) == multiset(Meaning(b, utf8).value)
  {
    hide Arrange;
    hide Render;
    hide Meaning;
    var pa, pb := Meaning(a, utf8).value, Meaning(b, utf8).value;
    MeaningIsBytes(a, utf8);
    MeaningIsBytes(b, utf8);
    CanonicalQueryIdempotent(a, utf8);
    CanonicalQueryIdempotent(b, utf8);
    ArrangeSorts(pa);
    ArrangeSorts(pb);
    if multiset(pa) == multiset(pb) {
      SortedIsUnique(Arrange(pa), Arrange(pb));
    }
  }
}
