/**
 The loops of the token store over its record map: the prune fixpoint, the ancestor walks
 of validation and claims, and the breadth-first walk that revokes a subtree. Go iterates
 over a map in an unspecified order, and so do these loops.
 */
module TokenWalks {
  import opened Octets
  import opened Tokens
  import opened TokenForest

  // ----- pruneInactive -----

  /** No removed record has a kept child. */
  ghost predicate ClosedUnderChildren(rs: Records, remove: set<Hash>)
    requires Linked(rs)
  {
    forall h :: h in rs && rs[h].depth > 0 && rs[h].parent in remove ==> h in remove
  }

  ghost predicate OnlyDead(rs: Records, remove: set<Hash>, now: Time)
    requires Linked(rs)
  {
    forall h :: h in remove ==> h in rs && InactiveLineage(rs, h, now)
  }

  /** A closed set holding every inactive record holds every record with an inactive ancestor. */
  lemma {:induction false} ClosedHoldsAllDead(rs: Records, remove: set<Hash>, now: Time, h: Hash)
    requires Linked(rs) && ClosedUnderChildren(rs, remove) && h in rs
    requires forall k :: k in rs && Inactive(rs[k], now) ==> k in remove
    ensures InactiveLineage(rs, h, now) ==> h in remove
    decreases rs[h].depth
  {
    if rs[h].depth > 0 {
      ClosedHoldsAllDead(rs, remove, now, rs[h].parent);
    }
  }

  method InactiveRecords(rs: Records, now: Time) returns (remove: set<Hash>)
    ensures remove == set h | h in rs && Inactive(rs[h], now)
  {
    remove := {};
    var todo := rs.Keys;
    while todo != {}
      invariant todo <= rs.Keys
      invariant remove == set h | h in rs && h !in todo && Inactive(rs[h], now)
      decreases todo
    {
      var h :| h in todo;
      if rs[h].revokedAt.Some? || !(now < rs[h].expiresAt) {
        remove := remove + {h};
      }
      todo := todo - {h};
    }
  }

  /** One pass: adds every kept record whose parent is, by then, removed. */
  method PropagateOnce(rs: Records, start: set<Hash>, ghost now: Time) returns (remove: set<Hash>, changed: bool)
    requires Linked(rs) && OnlyDead(rs, start, now)
    ensures start <= remove && OnlyDead(rs, remove, now)
    ensures changed ==> start != remove
    ensures !changed ==> start == remove && ClosedUnderChildren(rs, remove)
  {
    remove, changed := start, false;
    var todo := rs.Keys;
    while todo != {}
      invariant todo <= rs.Keys && start <= remove && OnlyDead(rs, remove, now)
      invariant changed ==> start != remove
      invariant !changed ==> start == remove
      invariant !changed ==> forall h :: h in rs && h !in todo && rs[h].depth > 0 && rs[h].parent in remove ==> h in remove
      decreases todo
    {
      var h :| h in todo;
      todo := todo - {h};
      if h !in remove && rs[h].depth != 0 {
        if rs[h].parent in remove {
          remove, changed := remove + {h}, true;
          assert h !in start;
        }
      }
    }
  }

  /** Removes exactly the records that are inactive or have an inactive ancestor. */
  method PruneInactive(rs: Records, now: Time) returns (next: Records, changed: bool)
    requires Linked(rs)
    ensures next == Pruned(rs, now)
    ensures changed <==> next != rs
  {
    var remove := InactiveRecords(rs, now);
    if remove == {} {
      forall h | h in rs ensures !InactiveLineage(rs, h, now) {
        ClosedHoldsAllDead(rs, remove, now, h);
      }
      assert Pruned(rs, now) == rs;
      return rs, false;
    }
    ghost var inactive := remove;
    var again := true;
    while again
      invariant inactive <= remove && OnlyDead(rs, remove, now)
      invariant !again ==> ClosedUnderChildren(rs, remove)
      decreases rs.Keys - remove, again
    {
      remove, again := PropagateOnce(rs, remove, now);
    }
    forall h | h in rs ensures InactiveLineage(rs, h, now) <==> h in remove {
      ClosedHoldsAllDead(rs, remove, now, h);
    }
    next, changed := map h | h in rs && h !in remove :: rs[h], true;
    ghost var gone :| gone in remove;
    assert gone in rs && gone !in next;
  }

  // ----- recordOrAncestorInactive -----

  method RecordOrAncestorInactive(rec: Record, rs: Records, now: Time) returns (inactive: bool)
    requires Linked(rs) && rec.hash in rs && rs[rec.hash] == rec
    ensures inactive <==> InactiveLineage(rs, rec.hash, now)
  {
    var current := rec;
    while true
      invariant current.hash in rs && rs[current.hash] == current
      invariant InactiveLineage(rs, rec.hash, now) <==> InactiveLineage(rs, current.hash, now)
      decreases current.depth
    {
      if current.revokedAt.Some? || !(now < current.expiresAt) {
        return true;
      }
      if current.depth == 0 {
        return false;
      }
      current := rs[current.parent];
    }
  }

  // ----- validateLocked -----

  /** Walks the whole ancestor chain, accumulating every check into one answer. */
  method ValidateLocked(rs: Records, bearer: Bearer, req: Binding, now: Time) returns (rec: Option<Record>)
    requires Linked(rs)
    ensures rec.Some? <==> Validates(rs, bearer, req, now)
    ensures rec.Some? ==> rec.value == rs[bearer.hash]
  {
    if bearer.Malformed? || bearer.hash !in rs {
      return None;
    }
    var stored := rs[bearer.hash];
    var valid := Bound(stored, req) && stored.revokedAt.None? && now < stored.expiresAt;
    var current := stored;
    while current.depth > 0
      invariant valid ==> current.root == stored.root
      invariant current.hash in rs && rs[current.hash] == current
      invariant Validates(rs, bearer, req, now) <==>
                  valid && (current.depth > 0 ==>
                              !InactiveLineage(rs, current.parent, now) && RootAgrees(rs, current.parent, stored.root))
      decreases current.depth
    {
      var parent := rs[current.parent];
      valid := valid && parent.revokedAt.None? && now < parent.expiresAt && parent.root == stored.root;
      current := parent;
    }
    return if valid then Some(stored) else None;
  }

  // ----- claimsFromRecord -----

  lemma ChainSplits(rs: Records, h: Hash)
    requires Linked(rs) && h in rs && rs[h].depth > 0
    ensures rs[h].parent in rs && rs[rs[h].parent].hash == rs[h].parent && rs[rs[h].parent].depth == rs[h].depth - 1
    ensures forall i :: 0 <= i < rs[h].depth ==> Chain(rs, h)[i] == Chain(rs, rs[h].parent)[i]
    ensures Chain(rs, h)[rs[h].depth] == ScopeOf(rs[h])
  {
  }

  /** Fills the chain from the leaf upwards. */
  method ClaimsFromRecord(rec: Record, rs: Records) returns (claims: Claims)
    requires Linked(rs) && rec.hash in rs && rs[rec.hash] == rec
    ensures claims == ClaimsOf(rs, rec.hash)
  {
    ghost var full := Chain(rs, rec.hash);
    var chain := new LimitScope[rec.depth + 1](_ => ScopeOf(rec));
    var current, index := rec, rec.depth;
    while index > 0
      invariant current.hash in rs && rs[current.hash] == current && current.depth == index <= rec.depth
      invariant forall i :: 0 <= i <= index ==> full[i] == Chain(rs, current.hash)[i]
      invariant forall i :: index < i <= rec.depth ==> chain[i] == full[i]
    {
      ChainSplits(rs, current.hash);
      chain[index] := ScopeOf(current);
      current, index := rs[current.parent], index - 1;
    }
    chain[0] := ScopeOf(current);
    assert chain[..] == full;
    claims := ClaimsWith(rec, chain[..]);
  }

  // ----- revokeHash: the subtree walk -----

  type Index = map<Hash, seq<Hash>>

  function Kids(children: Index, h: Hash): seq<Hash> {
    if h in children then children[h] else []
  }

  lemma DistinctConcat(a: seq<Hash>, b: seq<Hash>)
    requires Distinct(a) && Distinct(b) && forall x :: x in a ==> x !in b
    ensures Distinct(a + b)
  {
    forall i, j | 0 <= i < j < |a + b| ensures (a + b)[i] != (a + b)[j] {
      assert i < |a| <= j ==> a[i] in a && b[j - |a|] in b;
    }
  }

  ghost predicate IsChildOf(rs: Records, c: Hash, parent: Hash) {
    c in rs && rs[c].depth > 0 && rs[c].parent == parent
  }

  method IndexChildren(rs: Records) returns (children: Index)
    ensures forall p :: Distinct(Kids(children, p))
    ensures forall p, c :: c in Kids(children, p) <==> IsChildOf(rs, c, p)
  {
    children := map[];
    var todo := rs.Keys;
    while todo != {}
      invariant todo <= rs.Keys
      invariant forall p :: Distinct(Kids(children, p))
      invariant forall p, c :: c in Kids(children, p) <==> IsChildOf(rs, c, p) && c !in todo
      decreases todo
    {
      var h :| h in todo;
      if rs[h].depth > 0 {
        var siblings := Kids(children, rs[h].parent) + [h];
        DistinctConcat(Kids(children, rs[h].parent), [h]);
        ghost var before := children;
        children := children[rs[h].parent := siblings];
        assert forall p :: Kids(children, p) == if p == rs[h].parent then siblings else Kids(before, p);
      }
      todo := todo - {h};
    }
  }

  /** What the walk knows: the visited and the queued tokens are a growing part of the subtree. */
  ghost predicate Frontier(rs: Records, target: Hash, visited: set<Hash>, queue: seq<Hash>)
    requires Linked(rs)
  {
    && Distinct(queue)
    && (forall q :: q in queue ==> q !in visited)
    && (target in visited || target in queue)
    && (forall h :: h in visited || h in queue ==> h in rs && Descends(rs, h, target))
    && (forall h :: (h in visited || h in queue) && h != target ==> rs[h].depth > 0 && rs[h].parent in visited)
    && (forall p, c :: p in visited && IsChildOf(rs, c, p) ==> c in visited || c in queue)
  }

  /** The children of a token are met only through that token. */
  lemma ChildrenAreNew(rs: Records, target: Hash, visited: set<Hash>, queue: seq<Hash>, p: Hash, c: Hash)
    requires Linked(rs) && Frontier(rs, target, visited, queue)
    requires p in queue && IsChildOf(rs, c, p)
    ensures c !in visited && c !in queue && c != p && Descends(rs, c, target)
  {
    DescendantsAreDeeper(rs, p, target);
    assert c != target;
  }

  lemma FrontierAdvances(rs: Records, target: Hash, visited: set<Hash>, queue: seq<Hash>, kids: seq<Hash>)
    requires Linked(rs) && Frontier(rs, target, visited, queue) && queue != []
    requires Distinct(kids) && forall c :: c in kids <==> IsChildOf(rs, c, queue[0])
    ensures Frontier(rs, target, visited + {queue[0]}, queue[1..] + kids)
  {
    var p := queue[0];
    forall c | c in kids ensures c !in visited && c !in queue && c != p && Descends(rs, c, target) {
      ChildrenAreNew(rs, target, visited, queue, p, c);
    }
    assert forall h :: h in queue <==> h == p || h in queue[1..];
    var after := queue[1..] + kids;
    assert forall h :: h in after <==> h in queue[1..] || h in kids;
    DistinctConcat(queue[1..], kids);
  }

  lemma {:induction false} VisitedAll(rs: Records, target: Hash, visited: set<Hash>, h: Hash)
    requires Linked(rs) && Frontier(rs, target, visited, []) && h in rs
    ensures Descends(rs, h, target) <==> h in visited
    decreases rs[h].depth
  {
    if h != target && rs[h].depth > 0 {
      VisitedAll(rs, target, visited, rs[h].parent);
      assert IsChildOf(rs, h, rs[h].parent);
    }
  }

  ghost function Marked(rs: Records, visited: set<Hash>, now: Time): Records {
    map h | h in rs :: if h in visited && rs[h].revokedAt.None? then rs[h].(revokedAt := Some(now)) else rs[h]
  }

  lemma MarkOne(rs: Records, visited: set<Hash>, h: Hash, now: Time)
    requires h in rs && h !in visited
    ensures Marked(rs, visited, now)[h] == rs[h]
    ensures Marked(rs, visited + {h}, now)
         == if rs[h].revokedAt.None? then Marked(rs, visited, now)[h := rs[h].(revokedAt := Some(now))]
            else Marked(rs, visited, now)
  {
  }

  ghost predicate AnyUnrevoked(rs: Records, visited: set<Hash>) {
    exists h :: h in visited && h in rs && rs[h].revokedAt.None?
  }

  lemma MarkedDiffers(rs: Records, visited: set<Hash>, now: Time)
    ensures Marked(rs, visited, now) != rs <==> AnyUnrevoked(rs, visited)
  {
    if AnyUnrevoked(rs, visited) {
      var h :| h in visited && h in rs && rs[h].revokedAt.None?;
      assert Marked(rs, visited, now)[h].revokedAt != rs[h].revokedAt;
    }
  }

  /** Marks the target and every descendant, in breadth-first order. */
  method MarkSubtree(rs: Records, target: Hash, now: Time) returns (next: Records, changed: bool)
    requires Linked(rs) && target in rs
    ensures next == Revoked(rs, target, now)
    ensures changed <==> next != rs
  {
    var children := IndexChildren(rs);
    var queue := [target];
    ghost var visited: set<Hash> := {};
    next, changed := rs, false;
    while |queue| > 0
      invariant Frontier(rs, target, visited, queue)
      invariant next == Marked(rs, visited, now)
      invariant changed <==> AnyUnrevoked(rs, visited)
      decreases rs.Keys - visited
    {
      var current := queue[0];
      MarkOne(rs, visited, current, now);
      var rec := next[current];
      if rec.revokedAt.None? {
        next, changed := next[current := rec.(revokedAt := Some(now))], true;
      }
      FrontierAdvances(rs, target, visited, queue, Kids(children, current));
      queue := queue[1..] + Kids(children, current);
      visited := visited + {current};
    }
    MarkedDiffers(rs, visited, now);
    MarkedIsRevoked(rs, target, visited, now);
  }

  lemma MarkedIsRevoked(rs: Records, target: Hash, visited: set<Hash>, now: Time)
    requires Linked(rs) && Frontier(rs, target, visited, [])
    ensures Marked(rs, visited, now) == Revoked(rs, target, now)
  {
    forall h | h in rs ensures Descends(rs, h, target) <==> h in visited {
      VisitedAll(rs, target, visited, h);
    }
  }

  // ----- counts -----

  ghost function ChildrenOf(rs: Records, parent: Hash): set<Hash> {
    set h | h in rs && rs[h].parent == parent && rs[h].depth > 0
  }

  ghost function TokensOfRoot(rs: Records, root: Hash): set<Hash> {
    set h | h in rs && rs[h].root == root
  }

  method DirectChildCount(rs: Records, parent: Hash) returns (count: nat)
    ensures count == |ChildrenOf(rs, parent)|
  {
    count := 0;
    var todo := rs.Keys;
    ghost var counted: set<Hash> := {};
    while todo != {}
      invariant todo <= rs.Keys
      invariant counted == (set h | h in rs && h !in todo && rs[h].parent == parent && rs[h].depth > 0)
      invariant count == |counted|
      decreases todo
    {
      var h :| h in todo;
      if rs[h].parent == parent && rs[h].depth > 0 {
        count, counted := count + 1, counted + {h};
      }
      todo := todo - {h};
    }
    assert counted == ChildrenOf(rs, parent);
  }

  method RootTokenCount(rs: Records, root: Hash) returns (count: nat)
    ensures count == |TokensOfRoot(rs, root)|
  {
    count := 0;
    var todo := rs.Keys;
    ghost var counted: set<Hash> := {};
    while todo != {}
      invariant todo <= rs.Keys
      invariant counted == (set h | h in rs && h !in todo && rs[h].root == root)
      invariant count == |counted|
      decreases todo
    {
      var h :| h in todo;
      if rs[h].root == root {
        count, counted := count + 1, counted + {h};
      }
      todo := todo - {h};
    }
    assert counted == TokensOfRoot(rs, root);
  }
}
