/** How the canonical query is computed: values grouped by key, each group and the keys sorted, then written out. */
module QueryForm {
  import opened Octets
  import opened Text
  import opened Percent
  import opened Ordering
  import opened CanonicalQuery

  type Values = map<string, seq<string>>

  /** The values of one key, in order. */
  function ValuesOf(pairs: seq<Pair>, key: string): seq<string> {
    if pairs == [] then []
    else (if pairs[0].key == key then [pairs[0].value] else []) + ValuesOf(pairs[1..], key)
  }

  lemma {:induction false} ValuesOfConcat(a: seq<Pair>, b: seq<Pair>, key: string)
    ensures ValuesOf(a + b, key) == ValuesOf(a, key) + ValuesOf(b, key)
    decreases |a|
  {
    if a == [] {
      assert a + b == b;
    } else {
      assert (a + b)[1..] == a[1..] + b;
      ValuesOfConcat(a[1..], b, key);
    }
  }

  lemma {:induction false} ValuesOfCounts(pairs: seq<Pair>, key: string, value: string)
    ensures multiset(ValuesOf(pairs, key))[value] == multiset(pairs)[Pair(key, value)]
    decreases |pairs|
  {
    if pairs != [] {
      ValuesOfCounts(pairs[1..], key, value);
      assert pairs == [pairs[0]] + pairs[1..];
      assert multiset(pairs) == multiset{pairs[0]} + multiset(pairs[1..]);
    }
  }

  /** The map holds the pairs, grouped by key. */
  ghost predicate Groups(values: Values, pairs: seq<Pair>) {
    && (forall key :: key in values ==> values[key] == ValuesOf(pairs, key) != [])
    && (forall key :: key !in values ==> ValuesOf(pairs, key) == [])
  }

  lemma GroupsGrow(values: Values, pairs: seq<Pair>, pair: Pair)
    requires Groups(values, pairs)
    ensures Groups(values[pair.key := (if pair.key in values then values[pair.key] else []) + [pair.value]], pairs + [pair])
  {
    forall key: string
      ensures ValuesOf(pairs + [pair], key) == ValuesOf(pairs, key) + if key == pair.key then [pair.value] else []
    {
      ValuesOfConcat(pairs, [pair], key);
    }
  }

  /** Reads the pieces of a query into a map from keys to the values written for them. */
  method ParseQuery(raw: string) returns (values: Option<Values>)
    ensures values.Some? <==> PairsOf(Split(raw, '&')).Some?
    ensures values.Some? ==> Groups(values.value, PairsOf(Split(raw, '&')).value)
  {
    hide PiecePair;
    hide Groups;
    hide Split;
    var pieces := Split(raw, '&');
    var found: Values := map[];
    ghost var pairs: seq<Pair> := [];
    NoGroups();
    var i := 0;
    assert pieces[0..] == pieces;
    PrefixedNone(PairsOf(pieces));
    while i < |pieces|
      invariant 0 <= i <= |pieces|
      invariant Groups(found, pairs)
      invariant PairsOf(pieces) == Prefixed(pairs, PairsOf(pieces[i..]))
    {
      var piece := pieces[i];
      assert pieces[i..][1..] == pieces[i + 1..];
      if piece != "" {
        var pair := PiecePair(piece);
        if pair.None? {
          return None;
        }
        GroupsGrow(found, pairs, pair.value);
        PrefixedTwice(pairs, pair.value, PairsOf(pieces[i + 1..]));
        found := found[pair.value.key := (if pair.value.key in found then found[pair.value.key] else []) + [pair.value.value]];
        pairs := pairs + [pair.value];
      }
      i := i + 1;
    }
    assert pieces[i..] == [] && pairs + [] == pairs;
    return Some(found);
  }

  ghost function Prefixed(pairs: seq<Pair>, rest: Option<seq<Pair>>): Option<seq<Pair>> {
    if rest.Some? then Some(pairs + rest.value) else None
  }

  lemma PrefixedNone(rest: Option<seq<Pair>>)
    ensures Prefixed([], rest) == rest
  {
    if rest.Some? {
      assert [] + rest.value == rest.value;
    }
  }

  lemma PrefixedTwice(pairs: seq<Pair>, pair: Pair, rest: Option<seq<Pair>>)
    ensures Prefixed(pairs, Prefixed([pair], rest)) == Prefixed(pairs + [pair], rest)
  {
    if rest.Some? {
      assert pairs + ([pair] + rest.value) == pairs + [pair] + rest.value;
    }
  }

  lemma NoGroups()
    ensures Groups(map[], [])
  {
  }

  lemma {:induction false} ValuesOfMembers(pairs: seq<Pair>, key: string)
    ensures forall value :: value in ValuesOf(pairs, key) <==> Pair(key, value) in pairs
  {
    forall value ensures value in ValuesOf(pairs, key) <==> Pair(key, value) in pairs {
      ValuesOfCounts(pairs, key, value);
      assert value in multiset(ValuesOf(pairs, key)) <==> value in ValuesOf(pairs, key);
      assert Pair(key, value) in multiset(pairs) <==> Pair(key, value) in pairs;
    }
  }

  predicate AllOk(entries: seq<string>, utf8: string -> bool) {
    forall i :: 0 <= i < |entries| ==> TextOk(entries[i], utf8)
  }

  /** Every group and its key are acceptable exactly when every pair is. */
  lemma GroupsOk(values: Values, pairs: seq<Pair>, utf8: string -> bool)
    requires Groups(values, pairs)
    ensures PairsOk(pairs, utf8) <==> forall key :: key in values ==> TextOk(key, utf8) && AllOk(values[key], utf8)
  {
    hide TextOk;
    forall key | key in values && PairsOk(pairs, utf8) ensures TextOk(key, utf8) && AllOk(values[key], utf8) {
      ValuesOfMembers(pairs, key);
      forall i | 0 <= i < |values[key]| ensures TextOk(values[key][i], utf8) {
        assert Pair(key, values[key][i]) in pairs;
      }
      assert Pair(key, values[key][0]) in pairs;
    }
    forall i | 0 <= i < |pairs| && forall key :: key in values ==> TextOk(key, utf8) && AllOk(values[key], utf8)
      ensures PairOk(pairs[i], utf8)
    {
      var key, value := pairs[i].key, pairs[i].value;
      ValuesOfMembers(pairs, key);
      assert value in ValuesOf(pairs, key);
    }
  }

  method EntriesOk(entries: seq<string>, utf8: string -> bool) returns (ok: bool)
    ensures ok <==> AllOk(entries, utf8)
  {
    for i := 0 to |entries|
      invariant forall j :: 0 <= j < i ==> TextOk(entries[j], utf8)
    {
      if !TextOk(entries[i], utf8) {
        return false;
      }
    }
    return true;
  }

  ghost predicate SortedCopy(sorted: seq<string>, entries: seq<string>) {
    StringsOrdered(sorted) && multiset(sorted) == multiset(entries)
  }

  /** Checks every key and value, in any order of the keys, and sorts the values of each key. */
  method CheckAndSort(values: Values, utf8: string -> bool) returns (sorted: Option<Values>)
    ensures sorted.Some? <==> forall key :: key in values ==> TextOk(key, utf8) && AllOk(values[key], utf8)
    ensures sorted.Some? ==> sorted.value.Keys == values.Keys
    ensures sorted.Some? ==> forall key :: key in values ==> SortedCopy(sorted.value[key], values[key])
  {
    hide TextOk;
    hide AllOk;
    hide SortedCopy;
    var done: Values := map[];
    var remaining := values.Keys;
    while remaining != {}
      invariant remaining <= values.Keys && done.Keys == values.Keys - remaining
      invariant forall key :: key in done ==> TextOk(key, utf8) && AllOk(values[key], utf8)
      invariant forall key :: key in done ==> SortedCopy(done[key], values[key])
    {
      var key :| key in remaining;
      if !TextOk(key, utf8) {
        return None;
      }
      var ok := EntriesOk(values[key], utf8);
      if !ok {
        return None;
      }
      var entries := Sorted(values[key]);
      done := done[key := entries];
      remaining := remaining - {key};
    }
    return Some(done);
  }

  method Sorted(entries: seq<string>) returns (sorted: seq<string>)
    ensures SortedCopy(sorted, entries)
  {
    sorted := SortStrings(entries);
  }

  /** The keys of the map, each once. */
  method ListKeys(values: Values) returns (keys: seq<string>)
    ensures Distinct(keys)
    ensures forall key :: key in keys <==> key in values
  {
    keys := [];
    var remaining := values.Keys;
    while remaining != {}
      invariant remaining <= values.Keys
      invariant Distinct(keys)
      invariant forall key :: key in keys <==> key in values.Keys - remaining
    {
      var key :| key in remaining;
      assert forall i :: 0 <= i < |keys| ==> keys[i] in keys;
      keys := keys + [key];
      remaining := remaining - {key};
    }
  }

  /** The pairs written out for one key, and for the keys in turn. */
  ghost function PairsFor(key: string, entries: seq<string>): seq<Pair> {
    seq(|entries|, i requires 0 <= i < |entries| => Pair(key, entries[i]))
  }

  ghost function Flatten(keys: seq<string>, values: Values): seq<Pair>
    requires forall key :: key in keys ==> key in values
  {
    if keys == [] then [] else PairsFor(keys[0], values[keys[0]]) + Flatten(keys[1..], values)
  }

  lemma {:induction false} ValuesOfPairsFor(key: string, entries: seq<string>, other: string)
    ensures ValuesOf(PairsFor(key, entries), other) == if key == other then entries else []
    decreases |entries|
  {
    var pairs := PairsFor(key, entries);
    if entries != [] {
      assert pairs[1..] == PairsFor(key, entries[1..]);
      ValuesOfPairsFor(key, entries[1..], other);
    }
  }

  lemma {:induction false} ValuesOfFlatten(keys: seq<string>, values: Values, key: string)
    requires Distinct(keys) && forall k :: k in keys ==> k in values
    ensures ValuesOf(Flatten(keys, values), key) == if key in keys then values[key] else []
    decreases |keys|
  {
    if keys != [] {
      var head, tail := PairsFor(keys[0], values[keys[0]]), Flatten(keys[1..], values);
      ValuesOfConcat(head, tail, key);
      ValuesOfPairsFor(keys[0], values[keys[0]], key);
      ValuesOfFlatten(keys[1..], values, key);
      assert keys == [keys[0]] + keys[1..];
      assert keys[0] !in keys[1..];
    }
  }

  lemma {:induction false} FlattenMembers(keys: seq<string>, values: Values)
    requires forall k :: k in keys ==> k in values
    ensures forall p :: p in Flatten(keys, values) ==> p.key in keys
    decreases |keys|
  {
    if keys != [] {
      FlattenMembers(keys[1..], values);
      assert forall p :: p in PairsFor(keys[0], values[keys[0]]) ==> p.key == keys[0];
      assert keys == [keys[0]] + keys[1..];
    }
  }

  lemma {:induction false} FlattenOrdered(keys: seq<string>, values: Values)
    requires Distinct(keys) && StringsOrdered(keys)
    requires forall k :: k in keys ==> k in values && StringsOrdered(values[k])
    ensures PairsOrdered(Flatten(keys, values))
    decreases |keys|
  {
    if keys != [] {
      var head, tail := PairsFor(keys[0], values[keys[0]]), Flatten(keys[1..], values);
      FlattenOrdered(keys[1..], values);
      FlattenMembers(keys[1..], values);
      assert PairsOrdered(head);
      forall i, j | 0 <= i < |head| && 0 <= j < |tail| ensures PairLe(head[i], tail[j]) {
        assert tail[j] in tail;
        var k :| 0 <= k < |keys[1..]| && keys[1..][k] == tail[j].key;
        assert keys[k + 1] == tail[j].key;
      }
      ConcatOrdered(head, tail);
    }
  }

  lemma ConcatOrdered(a: seq<Pair>, b: seq<Pair>)
    requires PairsOrdered(a) && PairsOrdered(b)
    requires forall i, j :: 0 <= i < |a| && 0 <= j < |b| ==> PairLe(a[i], b[j])
    ensures PairsOrdered(a + b)
  {
  }

  /** Grouping, sorting the groups and writing them in key order is sorting the pairs. */
  lemma FlattenIsArrange(pairs: seq<Pair>, values: Values, sorted: Values, keys: seq<string>)
    requires Groups(values, pairs) && sorted.Keys == values.Keys
    requires forall key :: key in values ==> SortedCopy(sorted[key], values[key])
    requires Distinct(keys) && StringsOrdered(keys) && forall key :: key in keys <==> key in values
    ensures forall key :: key in keys ==> key in sorted
    ensures Flatten(keys, sorted) == Arrange(pairs)
  {
    var flat := Flatten(keys, sorted);
    FlattenOrdered(keys, sorted);
    forall p: Pair ensures multiset(flat)[p] == multiset(pairs)[p] {
      ValuesOfFlatten(keys, sorted, p.key);
      ValuesOfCounts(flat, p.key, p.value);
      ValuesOfCounts(pairs, p.key, p.value);
    }
    assert multiset(flat) == multiset(pairs);
    ArrangeSorts(pairs);
    SortedIsUnique(flat, Arrange(pairs));
  }

  method WriteParts(keys: seq<string>, values: Values) returns (parts: seq<string>)
    requires forall key :: key in keys ==> key in values
    requires BytePairs(Flatten(keys, values))
    ensures parts == RenderAll(Flatten(keys, values))
  {
    hide RenderPair;
    parts := [];
    ghost var written: seq<Pair> := [];
    var i := 0;
    while i < |keys|
      invariant 0 <= i <= |keys|
      invariant written + Flatten(keys[i..], values) == Flatten(keys, values)
      invariant BytePairs(written) && parts == RenderAll(written)
    {
      var key := keys[i];
      assert keys[i..][1..] == keys[i + 1..];
      assert Flatten(keys, values) == written + PairsFor(key, values[key]) + Flatten(keys[i + 1..], values);
      PrefixIsBytes(written + PairsFor(key, values[key]), Flatten(keys[i + 1..], values));
      parts := WriteKey(parts, key, values[key], written);
      written := written + PairsFor(key, values[key]);
      i := i + 1;
    }
  }

  lemma PrefixIsBytes(a: seq<Pair>, b: seq<Pair>)
    requires BytePairs(a + b)
    ensures BytePairs(a)
  {
    forall i | 0 <= i < |a| ensures BytePair(a[i]) {
      assert (a + b)[i] == a[i];
    }
  }

  method WriteKey(before: seq<string>, key: string, entries: seq<string>, ghost written: seq<Pair>)
    returns (parts: seq<string>)
    requires BytePairs(written + PairsFor(key, entries))
    requires BytePairs(written) && before == RenderAll(written)
    ensures parts == RenderAll(written + PairsFor(key, entries))
  {
    hide RenderPair;
    parts := before;
    ghost var all := written + PairsFor(key, entries);
    var i := 0;
    while i < |entries|
      invariant 0 <= i <= |entries|
      invariant parts == RenderAll(all)[..|written| + i]
    {
      assert all[|written| + i] == Pair(key, entries[i]);
      parts := parts + [RenderPair(Pair(key, entries[i]))];
      i := i + 1;
    }
  }

  /** The canonical query and the sorted values that rules are matched against. */
  method CanonicalQueryForm(raw: string, utf8: string -> bool) returns (values: Values, text: Option<string>)
    requires IsBytes(raw)
    ensures text == Canonical(raw, utf8)
    ensures text.Some? ==> Groups(values, Arrange(Meaning(raw, utf8).value))
  {
    hide PairsOk;
    hide Groups;
    hide SortedCopy;
    hide TextOk;
    hide AllOk;
    hide Split;
    hide PairsOf;
    hide Arrange;
    hide Flatten;
    if '+' in raw {
      return map[], None;
    }
    var parsed := ParseQuery(raw);
    if parsed.None? {
      return map[], None;
    }
    ghost var pairs := PairsOf(Split(raw, '&')).value;
    GroupsOk(parsed.value, pairs, utf8);
    var checked := CheckAndSort(parsed.value, utf8);
    if checked.None? {
      return map[], None;
    }
    values := checked.value;
    var unsorted := ListKeys(values);
    var keys := SortStrings(unsorted);
    SortKeepsDistinct(unsorted, keys);
    FlattenIsArrange(pairs, parsed.value, values, keys);
    MeaningIsBytes(raw, utf8);
    var parts := WriteParts(keys, values);
    SortedGroups(pairs, parsed.value, values, keys);
    if parts == [] {
      return values, Some("");
    }
    return values, Some(Join(parts, '&'));
  }

  lemma SortedGroups(pairs: seq<Pair>, values: Values, sorted: Values, keys: seq<string>)
    requires Groups(values, pairs) && sorted.Keys == values.Keys
    requires forall key :: key in values ==> SortedCopy(sorted[key], values[key])
    requires Distinct(keys) && forall key :: key in keys <==> key in values
    requires Flatten(keys, sorted) == Arrange(pairs)
    ensures Groups(sorted, Arrange(pairs))
  {
    forall key: string
      ensures ValuesOf(Arrange(pairs), key) == if key in values then sorted[key] else []
      ensures key in values ==> sorted[key] != []
    {
      ValuesOfFlatten(keys, sorted, key);
      if key in values {
        assert |multiset(sorted[key])| == |multiset(values[key])|;
      }
    }
  }
}
