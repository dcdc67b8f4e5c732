/** The largest values first: no choice of at most `k` distinct names outweighs the first `k`. */
module TopSums {
  import opened Octets

  type Sizes = map<string, nat>

  ghost predicate Known(names: seq<string>, sizes: Sizes) {
    forall name :: name in names ==> name in sizes
  }

  ghost predicate LargestFirst(names: seq<string>, sizes: Sizes)
    requires Known(names, sizes)
  {
    forall i, j :: 0 <= i < j < |names| ==> sizes[names[i]] >= sizes[names[j]]
  }

  ghost function Sum(names: seq<string>, sizes: Sizes): nat
    requires Known(names, sizes)
  {
    if names == [] then 0 else sizes[names[0]] + Sum(names[1..], sizes)
  }

  /** The sum over those of the names that were chosen, and how many they are. */
  ghost function SumOf(names: seq<string>, chosen: set<string>, sizes: Sizes): nat
    requires Known(names, sizes)
  {
    if names == [] then 0
    else (if names[0] in chosen then sizes[names[0]] else 0) + SumOf(names[1..], chosen, sizes)
  }

  ghost function CountOf(names: seq<string>, chosen: set<string>): nat {
    if names == [] then 0 else (if names[0] in chosen then 1 else 0) + CountOf(names[1..], chosen)
  }

  ghost function First(names: seq<string>, k: nat): seq<string> {
    if k < |names| then names[..k] else names
  }

  lemma FirstCons(names: seq<string>, k: nat)
    requires names != [] && k > 0
    ensures First(names, k) == [names[0]] + First(names[1..], k - 1)
  {
  }

  lemma SumCons(name: string, names: seq<string>, sizes: Sizes)
    requires Known([name] + names, sizes) && Known(names, sizes)
    ensures name in sizes && Sum([name] + names, sizes) == sizes[name] + Sum(names, sizes)
  {
    assert ([name] + names)[0] == name && ([name] + names)[1..] == names;
    assert name in [name] + names;
  }

  /** One more name adds no more than the largest. */
  lemma {:induction false} OneMore(names: seq<string>, k: nat, most: nat, sizes: Sizes)
    requires Known(names, sizes) && forall name :: name in names ==> sizes[name] <= most
    ensures Known(First(names, k), sizes) && Known(First(names, k + 1), sizes)
    ensures Sum(First(names, k + 1), sizes) <= Sum(First(names, k), sizes) + most
    decreases |names|
  {
    if names != [] {
      FirstCons(names, k + 1);
      SumCons(names[0], First(names[1..], k), sizes);
      if k > 0 {
        FirstCons(names, k);
        SumCons(names[0], First(names[1..], k - 1), sizes);
        OneMore(names[1..], k - 1, most, sizes);
      } else {
        assert First(names[1..], 0) == [];
      }
    }
  }

  /** Top-k dominance. */
  lemma {:induction false} FirstDominate(names: seq<string>, chosen: set<string>, k: nat, sizes: Sizes)
    requires Known(names, sizes) && LargestFirst(names, sizes) && CountOf(names, chosen) <= k
    ensures Known(First(names, k), sizes) && SumOf(names, chosen, sizes) <= Sum(First(names, k), sizes)
    decreases |names|
  {
    if names != [] {
      var rest := names[1..];
      if k == 0 {
        FirstDominate(rest, chosen, 0, sizes);
        assert First(names, 0) == [] && First(rest, 0) == [];
      } else {
        FirstCons(names, k);
        SumCons(names[0], First(rest, k - 1), sizes);
        if names[0] in chosen {
          FirstDominate(rest, chosen, k - 1, sizes);
        } else {
          FirstDominate(rest, chosen, k, sizes);
          forall name | name in rest ensures sizes[name] <= sizes[names[0]] {
            var i :| 0 <= i < |rest| && rest[i] == name;
            assert names[i + 1] == name;
          }
          OneMore(rest, k - 1, sizes[names[0]], sizes);
        }
      }
    }
  }

  lemma {:induction false} ChooseOne(names: seq<string>, chosen: set<string>, name: string, sizes: Sizes)
    requires Known(names, sizes) && Distinct(names) && name in names && name !in chosen
    ensures SumOf(names, chosen + {name}, sizes) == SumOf(names, chosen, sizes) + sizes[name]
    ensures CountOf(names, chosen + {name}) == CountOf(names, chosen) + 1
    decreases |names|
  {
    var rest := names[1..];
    if names[0] == name {
      forall other | other in rest ensures other != name {
        var i :| 0 <= i < |rest| && rest[i] == other;
        assert names[i + 1] == other;
      }
      ChooseNone(rest, chosen, name, sizes);
    } else {
      assert names == [names[0]] + rest;
      ChooseOne(rest, chosen, name, sizes);
    }
  }

  lemma {:induction false} ChooseNone(names: seq<string>, chosen: set<string>, name: string, sizes: Sizes)
    requires Known(names, sizes) && name !in names
    ensures SumOf(names, chosen + {name}, sizes) == SumOf(names, chosen, sizes)
    ensures CountOf(names, chosen + {name}) == CountOf(names, chosen)
    decreases |names|
  {
    if names != [] {
      assert names == [names[0]] + names[1..];
      ChooseNone(names[1..], chosen, name, sizes);
    }
  }

  lemma {:induction false} ChooseNothing(names: seq<string>, sizes: Sizes)
    requires Known(names, sizes)
    ensures SumOf(names, {}, sizes) == 0 && CountOf(names, {}) == 0
  {
    if names != [] {
      ChooseNothing(names[1..], sizes);
    }
  }

  ghost function Members(names: seq<string>): set<string> {
    set name | name in names
  }

  /** A list of distinct names weighs what its set weighs among all the names. */
  lemma {:induction false} DistinctSum(list: seq<string>, names: seq<string>, sizes: Sizes)
    requires Known(names, sizes) && Distinct(names) && Distinct(list)
    requires forall name :: name in list ==> name in names
    ensures Known(list, sizes)
    ensures Sum(list, sizes) == SumOf(names, Members(list), sizes) && |list| == CountOf(names, Members(list))
    decreases |list|
  {
    if list == [] {
      assert Members(list) == {};
      ChooseNothing(names, sizes);
    } else {
      var rest := list[1..];
      assert list == [list[0]] + rest;
      DistinctSum(rest, names, sizes);
      assert Members(list) == Members(rest) + {list[0]};
      assert list[0] !in rest;
      ChooseOne(names, Members(rest), list[0], sizes);
    }
  }

  lemma {:induction false} CountAtMost(names: seq<string>, chosen: set<string>)
    ensures CountOf(names, chosen) <= |names|
  {
    if names != [] {
      CountAtMost(names[1..], chosen);
    }
  }

  /** Any list of at most `k` distinct names is no longer and weighs no more than the first `k`. */
  lemma AnyChoiceIsLighter(list: seq<string>, names: seq<string>, k: nat, sizes: Sizes)
    requires Known(names, sizes) && Distinct(names) && LargestFirst(names, sizes)
    requires Distinct(list) && |list| <= k && forall name :: name in list ==> name in names
    ensures Known(list, sizes) && Known(First(names, k), sizes)
    ensures |list| <= |First(names, k)| && Sum(list, sizes) <= Sum(First(names, k), sizes)
  {
    DistinctSum(list, names, sizes);
    CountAtMost(names, Members(list));
    FirstDominate(names, Members(list), k, sizes);
  }

  /** The order of a list does not change what it weighs. */
  lemma SameNamesSameSum(a: seq<string>, b: seq<string>, sizes: Sizes)
    requires Known(a, sizes) && Distinct(a) && Distinct(b) && forall name :: name in a <==> name in b
    ensures Known(b, sizes) && Sum(a, sizes) == Sum(b, sizes) && |a| == |b|
  {
    DistinctSum(a, a, sizes);
    DistinctSum(b, a, sizes);
    assert Members(a) == Members(b);
  }
}
