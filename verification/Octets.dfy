/** Bytes and the few facts about byte strings that several components share. */
module Octets {

  type byte = b: int | 0 <= b < 256

  type bytes = seq<byte>

  const MAX_UINT64: nat := 0xFFFF_FFFF_FFFF_FFFF

  datatype Option<+T> = None | Some(value: T)

  predicate Distinct<T(==)>(s: seq<T>) {
    forall i, j :: 0 <= i < j < |s| ==> s[i] != s[j]
  }

  /** `pattern` stands in `text` at offset `at`. */
  predicate OccursAt(text: bytes, pattern: bytes, at: int) {
    0 <= at && at + |pattern| <= |text| && text[at..at + |pattern|] == pattern
  }

  /** `pattern` stands somewhere in `text`. */
  ghost predicate Contains(text: bytes, pattern: bytes) {
    exists at :: OccursAt(text, pattern, at)
  }

  lemma OccursInExtension(text: bytes, more: bytes, pattern: bytes, at: int)
    ensures OccursAt(text, pattern, at) ==> OccursAt(text + more, pattern, at)
  {
    if OccursAt(text, pattern, at) {
      assert (text + more)[at..at + |pattern|] == text[at..at + |pattern|];
    }
  }

  lemma ContainsInExtension(text: bytes, more: bytes, pattern: bytes)
    requires Contains(text, pattern)
    ensures Contains(text + more, pattern)
  {
    var at :| OccursAt(text, pattern, at);
    OccursInExtension(text, more, pattern, at);
  }

  lemma ContainsInPrefixed(before: bytes, text: bytes, pattern: bytes)
    requires Contains(text, pattern)
    ensures Contains(before + text, pattern)
  {
    var at :| OccursAt(text, pattern, at);
    assert (before + text)[|before| + at..|before| + at + |pattern|] == text[at..at + |pattern|];
    assert OccursAt(before + text, pattern, |before| + at);
  }

  lemma {:induction false} SubsetCardinality<T>(a: set<T>, b: set<T>)
    requires a <= b
    ensures |a| <= |b|
    decreases a
  {
    if a != {} {
      var x :| x in a;
      SubsetCardinality(a - {x}, b - {x});
    }
  }
}
