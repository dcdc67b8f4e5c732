/** Byte order on strings, key-then-value order on pairs, and why a sorted list is unique. */
module Ordering {
  import opened Octets

  datatype Pair = Pair(key: string, value: string)

  predicate StringLe(a: string, b: string) {
    a == "" || (b != "" && (a[0] < b[0] || (a[0] == b[0] && StringLe(a[1..], b[1..]))))
  }

  lemma {:induction false} StringLeTotal(a: string, b: string)
    ensures StringLe(a, b) || StringLe(b, a)
    ensures StringLe(a, b) && StringLe(b, a) ==> a == b
    ensures a == b ==> StringLe(a, b)
    decreases |a|
  {
    if a != "" && b != "" {
      StringLeTotal(a[1..], b[1..]);
      assert a == [a[0]] + a[1..] && b == [b[0]] + b[1..];
    }
  }

  lemma {:induction false} StringLeTransitive(a: string, b: string, c: string)
    requires StringLe(a, b) && StringLe(b, c)
    ensures StringLe(a, c)
    decreases |a|
  {
    if a != "" && a[0] == b[0] == c[0] {
      StringLeTransitive(a[1..], b[1..], c[1..]);
    }
  }

  predicate PairLe(a: Pair, b: Pair) {
    if a.key == b.key then StringLe(a.value, b.value) else StringLe(a.key, b.key)
  }

  lemma PairLeTotal(a: Pair, b: Pair)
    ensures PairLe(a, b) || PairLe(b, a)
    ensures PairLe(a, b) && PairLe(b, a) ==> a == b
  {
    StringLeTotal(a.key, b.key);
    StringLeTotal(a.value, b.value);
  }

  lemma PairLeTransitive(a: Pair, b: Pair, c: Pair)
    requires PairLe(a, b) && PairLe(b, c)
    ensures PairLe(a, c)
  {
    if a.key == b.key == c.key {
      StringLeTransitive(a.value, b.value, c.value);
    } else if a.key != b.key && b.key != c.key {
      StringLeTotal(a.key, b.key);
      StringLeTransitive(a.key, b.key, c.key);
    }
  }

  ghost predicate StringsOrdered(s: seq<string>) {
    forall i, j :: 0 <= i < j < |s| ==> StringLe(s[i], s[j])
  }

  ghost predicate PairsOrdered(s: seq<Pair>) {
    forall i, j :: 0 <= i < j < |s| ==> PairLe(s[i], s[j])
  }

  function Insert(x: Pair, s: seq<Pair>): seq<Pair> {
    if s == [] || PairLe(x, s[0]) then [x] + s else [s[0]] + Insert(x, s[1..])
  }

  /** The list sorted by key, then by value. */
  function Arrange(s: seq<Pair>): seq<Pair> {
    if s == [] then [] else Insert(s[0], Arrange(s[1..]))
  }

  lemma {:induction false} InsertSorts(x: Pair, s: seq<Pair>)
    requires PairsOrdered(s)
    ensures PairsOrdered(Insert(x, s)) && multiset(Insert(x, s)) == multiset{x} + multiset(s)
    decreases |s|
  {
    hide PairLe;
    if s == [] {
    } else if PairLe(x, s[0]) {
      forall j | 0 <= j < |s| ensures PairLe(x, s[j]) {
        if j > 0 {
          PairLeTransitive(x, s[0], s[j]);
        }
      }
    } else {
      var rest := Insert(x, s[1..]);
      InsertSorts(x, s[1..]);
      assert s == [s[0]] + s[1..];
      PairLeTotal(x, s[0]);
      forall j | 0 <= j < |rest| ensures PairLe(s[0], rest[j]) {
        assert rest[j] in multiset(rest);
        assert rest[j] == x || rest[j] in s[1..];
      }
    }
  }

  lemma {:induction false} ArrangeSorts(s: seq<Pair>)
    ensures PairsOrdered(Arrange(s)) && multiset(Arrange(s)) == multiset(s)
  {
    if s != [] {
      ArrangeSorts(s[1..]);
      InsertSorts(s[0], Arrange(s[1..]));
      assert s == [s[0]] + s[1..];
    }
  }

  lemma LeastIsFirst(s: seq<Pair>, x: Pair)
    requires PairsOrdered(s) && x in s
    ensures PairLe(s[0], x)
  {
    PairLeTotal(s[0], s[0]);
  }

  lemma SameHead(a: seq<Pair>, b: seq<Pair>)
    requires PairsOrdered(a) && PairsOrdered(b) && multiset(a) == multiset(b) && a != []
    ensures b != [] && a[0] == b[0]
  {
    hide PairLe;
    assert |multiset(a)| == |a| && |multiset(b)| == |b|;
    assert a[0] in multiset(b) && b[0] in multiset(a);
    LeastIsFirst(a, b[0]);
    LeastIsFirst(b, a[0]);
    PairLeTotal(a[0], b[0]);
  }

  lemma {:induction false} SortedIsUnique(a: seq<Pair>, b: seq<Pair>)
    requires PairsOrdered(a) && PairsOrdered(b) && multiset(a) == multiset(b)
    ensures a == b
    decreases |a|
  {
    hide PairLe;
    if a == [] {
      assert |multiset(b)| == |b| == 0;
    } else {
      SameHead(a, b);
      assert a == [a[0]] + a[1..] && b == [b[0]] + b[1..];
      assert multiset(a[1..]) == multiset(a) - multiset{a[0]};
      assert multiset(b[1..]) == multiset(b) - multiset{b[0]};
      SortedIsUnique(a[1..], b[1..]);
    }
  }

  /** A sorted copy of distinct names holds the same names, again distinct. */
  lemma SortKeepsDistinct(names: seq<string>, sorted: seq<string>)
    requires Distinct(names) && multiset(sorted) == multiset(names)
    ensures Distinct(sorted) && forall name :: name in sorted <==> name in names
  {
    forall name ensures name in sorted <==> name in names {
      assert name in multiset(sorted) <==> name in multiset(names);
    }
    forall i, j | 0 <= i < j < |sorted| ensures sorted[i] != sorted[j] {
      AtMostOnce(names, sorted[i]);
      TwiceIfEqual(sorted, i, j);
    }
  }

  lemma {:induction false} AtMostOnce(names: seq<string>, name: string)
    requires Distinct(names)
    ensures multiset(names)[name] <= 1
    decreases |names|
  {
    if names != [] {
      AtMostOnce(names[1..], name);
      assert names == [names[0]] + names[1..];
      assert multiset(names) == multiset{names[0]} + multiset(names[1..]);
      assert names[0] !in names[1..];
      assert names[0] !in multiset(names[1..]);
    }
  }

  lemma TwiceIfEqual(names: seq<string>, i: nat, j: nat)
    requires i < j < |names|
    ensures names[i] == names[j] ==> multiset(names)[names[i]] >= 2
  {
    assert names == names[..j] + names[j..];
    assert names[i] in names[..j] && names[j] in names[j..];
    assert multiset(names) == multiset(names[..j]) + multiset(names[j..]);
    assert names[i] in multiset(names[..j]) && names[j] in multiset(names[j..]);
  }

  /** The library sort on strings: some sorted rearrangement, which is the only one. */
  method SortStrings(s: seq<string>) returns (sorted: seq<string>)
    ensures StringsOrdered(sorted) && multiset(sorted) == multiset(s)
  {
    sorted := [];
    var i := 0;
    while i < |s|
      invariant 0 <= i <= |s|
      invariant StringsOrdered(sorted) && multiset(sorted) == multiset(s[..i])
    {
      assert s[..i + 1] == s[..i] + [s[i]];
      sorted := InsertString(s[i], sorted);
      i := i + 1;
    }
    assert s[..i] == s;
  }

  method InsertString(x: string, s: seq<string>) returns (longer: seq<string>)
    requires StringsOrdered(s)
    ensures StringsOrdered(longer) && multiset(longer) == multiset{x} + multiset(s)
  {
    var k := 0;
    while k < |s| && StringLe(s[k], x)
      invariant 0 <= k <= |s|
      invariant forall i :: 0 <= i < k ==> StringLe(s[i], x)
    {
      k := k + 1;
    }
    longer := s[..k] + [x] + s[k..];
    assert s == s[..k] + s[k..];
    forall i | k <= i < |s| ensures StringLe(x, s[i]) {
      StringLeTotal(s[k], x);
      if i > k {
        StringLeTransitive(x, s[k], s[i]);
      }
    }
  }
}
