/** Least-recently-used order, defined from the history of uses. */
module Recency {

  function Minus(s: seq<string>, r: string): seq<string> {
    if s == [] then [] else if s[0] == r then Minus(s[1..], r) else [s[0]] + Minus(s[1..], r)
  }

  /** The references ever used, the one used last first, each once. */
  function Recent(uses: seq<string>): seq<string>
    decreases |uses|
  {
    if uses == [] then []
    else
      var last := |uses| - 1;
      [uses[last]] + Minus(Recent(uses[..last]), uses[last])
  }

  function Keep(s: seq<string>, kept: set<string>): seq<string> {
    if s == [] then [] else if s[0] in kept then [s[0]] + Keep(s[1..], kept) else Keep(s[1..], kept)
  }

  lemma {:induction false} MinusMembers(s: seq<string>, r: string)
    ensures forall x :: x in Minus(s, r) <==> x in s && x != r
  {
    if s != [] {
      MinusMembers(s[1..], r);
      assert s == [s[0]] + s[1..];
    }
  }

  lemma {:induction false} MinusNothing(s: seq<string>, r: string)
    requires r !in s
    ensures Minus(s, r) == s
  {
    if s != [] {
      MinusNothing(s[1..], r);
    }
  }

  /** Dropping a reference from the kept ones drops it from the list. */
  lemma {:induction false} KeepFewer(s: seq<string>, kept: set<string>, r: string)
    ensures Keep(s, kept - {r}) == Minus(Keep(s, kept), r)
  {
    if s != [] {
      KeepFewer(s[1..], kept, r);
      if s[0] in kept {
        var keep := Keep(s, kept);
        assert keep[0] == s[0] && keep[1..] == Keep(s[1..], kept);
      }
    }
  }

  lemma {:induction false} KeepAfterMinus(s: seq<string>, kept: set<string>, r: string)
    ensures Keep(Minus(s, r), kept) == Minus(Keep(s, kept), r)
    ensures Keep(Minus(s, r), kept + {r}) == Minus(Keep(s, kept), r)
  {
    if s != [] {
      KeepAfterMinus(s[1..], kept, r);
      if s[0] in kept {
        var keep := Keep(s, kept);
        assert keep[0] == s[0] && keep[1..] == Keep(s[1..], kept);
      }
      if s[0] != r {
        var minus := Minus(s, r);
        assert minus[0] == s[0] && minus[1..] == Minus(s[1..], r);
      }
    }
  }

  /** Using a reference puts it in front and takes it from where it was. */
  lemma UseComesFirst(uses: seq<string>, kept: set<string>, r: string)
    ensures Keep(Recent(uses + [r]), kept + {r}) == [r] + Minus(Keep(Recent(uses), kept), r)
  {
    assert (uses + [r])[..|uses|] == uses;
    var rest := Minus(Recent(uses), r);
    assert ([r] + rest)[1..] == rest;
    KeepAfterMinus(Recent(uses), kept, r);
  }

  lemma {:induction false} KeepNone(s: seq<string>)
    ensures Keep(s, {}) == []
  {
    if s != [] {
      KeepNone(s[1..]);
    }
  }
}
