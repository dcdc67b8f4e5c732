/**
 The streaming response filter: a pull reader that never lets an injected credential
 through, however its source splits the body and whatever sizes the caller asks for.
 Filters stack, one for each credential representation.
 */
module SecretFilter {
  import opened Octets
  import opened Overlap
  import opened Readers

  const READ_BUFFER: nat := 32768
  const MAX_EMPTY_READS: nat := 100

  // ----- what the buffer must satisfy between two reads of the source -----

  /** No occurrence of the secret starts among the bytes already delivered. */
  ghost predicate NoneStarted(out: bytes, pending: bytes, secret: bytes) {
    forall at :: OccursAt(out + pending, secret, at) ==> at >= |out|
  }

  /** Every prefix of the secret that ends the stream so far is withheld in full. */
  ghost predicate Withheld(out: bytes, pending: bytes, secret: bytes) {
    forall j :: 0 <= j < |secret| && Ends(out + pending, secret, j) ==> j <= |pending|
  }

  /** Releasing all but the overlap keeps what is withheld sufficient. */
  lemma ReleaseKeepsWithheld(out: bytes, pending: bytes, secret: bytes, hold: nat, n: nat)
    requires Withheld(out, pending, secret) && IsOverlap(pending, secret, hold)
    requires n + hold <= |pending|
    ensures Withheld(out + pending[..n], pending[n..], secret)
  {
    assert out + pending[..n] + pending[n..] == out + pending;
    forall j | 0 <= j < |secret| && Ends(out + pending, secret, j) ensures j <= |pending| - n {
      assert (out + pending)[|out + pending| - j..] == pending[|pending| - j..];
      assert Ends(pending, secret, j);
    }
  }

  /** Whatever occurs in the stream so far occurs in its pending part. */
  lemma OccursInPending(out: bytes, pending: bytes, secret: bytes)
    requires NoneStarted(out, pending, secret)
    ensures Contains(out + pending, secret) ==> Contains(pending, secret)
  {
    if Contains(out + pending, secret) {
      var at :| OccursAt(out + pending, secret, at);
      assert (out + pending)[at..at + |secret|] == pending[at - |out|..at - |out| + |secret|];
      assert OccursAt(pending, secret, at - |out|);
    }
  }

  lemma NoneDelivered(out: bytes, pending: bytes, secret: bytes)
    requires 0 < |secret| && NoneStarted(out, pending, secret)
    ensures !Contains(out, secret)
  {
    forall at ensures OccursAt(out, secret, at) ==> OccursAt(out + pending, secret, at) {
      OccursInExtension(out, pending, secret, at);
    }
  }

  lemma ReleaseKeepsNoneStarted(out: bytes, pending: bytes, secret: bytes, n: nat)
    requires n <= |pending|
    requires NoneStarted(out, pending, secret) && !Contains(pending, secret)
    ensures NoneStarted(out + pending[..n], pending[n..], secret)
  {
    assert out + pending[..n] + pending[n..] == out + pending;
    OccursInPending(out, pending, secret);
  }

  lemma EndsBeforeAppend(before: bytes, more: bytes, secret: bytes, j: int)
    requires |more| <= j
    ensures Ends(before + more, secret, j) ==> Ends(before, secret, j - |more|)
  {
    var after, i := before + more, j - |more|;
    if Ends(after, secret, j) {
      assert before[|before| - i..] == after[|after| - j..][..i];
      assert secret[..j][..i] == secret[..i];
    }
  }

  lemma AppendKeepsWithheld(out: bytes, pending: bytes, more: bytes, secret: bytes)
    requires Withheld(out, pending, secret)
    ensures Withheld(out, pending + more, secret)
  {
    assert out + (pending + more) == out + pending + more;
    forall j | |more| <= j
      ensures Ends(out + pending + more, secret, j) ==> Ends(out + pending, secret, j - |more|)
    {
      EndsBeforeAppend(out + pending, more, secret, j);
    }
  }

  /** An occurrence that reaches into the new bytes starts with a prefix ending the old ones. */
  lemma OccurrenceAcross(before: bytes, more: bytes, secret: bytes, at: int)
    requires 0 <= at <= |before|
    ensures OccursAt(before + more, secret, at) ==>
              OccursAt(before, secret, at) || (|before| - at < |secret| && Ends(before, secret, |before| - at))
  {
    var after := before + more;
    if OccursAt(after, secret, at) {
      if at + |secret| <= |before| {
        assert before[at..at + |secret|] == after[at..at + |secret|];
      } else {
        assert before[at..] == after[at..at + |secret|][..|before| - at];
        assert secret[..|before| - at] == before[at..];
      }
    }
  }

  lemma AppendKeepsNoneStarted(out: bytes, pending: bytes, more: bytes, secret: bytes)
    requires NoneStarted(out, pending, secret) && Withheld(out, pending, secret)
    ensures NoneStarted(out, pending + more, secret)
  {
    assert out + (pending + more) == out + pending + more;
    forall at | OccursAt(out + pending + more, secret, at) ensures at >= |out| {
      if at <= |out + pending| {
        OccurrenceAcross(out + pending, more, secret, at);
      }
    }
  }

  /** A buffer held back whole is shorter than the secret. */
  lemma HeldIsShort(pending: bytes, secret: bytes, hold: nat)
    requires IsOverlap(pending, secret, hold) && |pending| <= hold
    ensures |pending| < |secret|
  {
  }

  method ContainsBytes(text: bytes, pattern: bytes) returns (found: bool)
    ensures found <==> Contains(text, pattern)
  {
    var at := 0;
    while at + |pattern| <= |text|
      invariant 0 <= at
      invariant forall i :: 0 <= i < at ==> !OccursAt(text, pattern, i)
    {
      if text[at..at + |pattern|] == pattern {
        assert OccursAt(text, pattern, at);
        return true;
      }
      at := at + 1;
    }
    return false;
  }

  // ----- the reader -----

  class SecretFilteringBody {
    const upstream: Source
    const inner: SecretFilteringBody?   // null when this filter reads the upstream itself
    const secret: bytes
    const failure: seq<nat>
    var pending: bytes
    var terminalErr: Option<ReadError>
    var found: bool
    var noProgress: nat

    // everything returned up to the first error, and that error
    ghost var out: bytes
    ghost var status: Option<ReadError>
    ghost const repr: set<object>
    ghost const layers: nat
    ghost const transparent: bool       // no filter down to the upstream has a secret

    ghost predicate Valid()
      reads this, repr
      decreases layers
    {
      && this in repr && upstream in repr
      && upstream.Valid()
      && IsFailureTable(secret, failure)
      && (transparent <==> secret == [] && Bottom())
      && (secret == [] ==> !found)
      && (inner != null ==>
            && inner in repr && inner.repr <= repr && this !in inner.repr
            && inner.layers < layers && inner.upstream == upstream
            && inner.Valid())
    }

    /** Nothing below this filter can hold bytes back. */
    ghost predicate Bottom() {
      inner == null || inner.transparent
    }

    ghost function SourceOut(): bytes
      reads this, upstream, inner
    {
      if inner == null then upstream.out else inner.out
    }

    ghost function SourceStatus(): Option<ReadError>
      reads this, upstream, inner
    {
      if inner == null then upstream.status else inner.status
    }

    ghost predicate SourceGood()
      requires Valid()
      reads this, repr
      decreases layers, 0
    {
      if inner == null then upstream.status != Some(SecretReflection) else inner.Good()
    }

    /** What holds from construction up to and including the first error. */
    ghost predicate Good()
      requires Valid()
      reads this, repr
      decreases layers, 1
    {
      && SourceGood()
      && (status.None? ==> Streaming())
      && (status.Some? ==> Ended(status.value))
    }

    ghost predicate Streaming()
      reads this, upstream, inner
    {
      && !found
      && SourceOut() == out + pending
      && (secret == [] ==> pending == [] && SourceStatus().None?)
      && (secret != [] ==>
            && NoneStarted(out, pending, secret)
            && (terminalErr.None? ==> SourceStatus().None? && Withheld(out, pending, secret) && noProgress < MAX_EMPTY_READS)
            && (terminalErr.None? && Bottom() ==> noProgress <= upstream.idle)
            && (terminalErr.Some? ==> CausedBySource(terminalErr.value)))
    }

    ghost predicate Ended(e: ReadError)
      reads this, upstream, inner
    {
      && out <= SourceOut()
      && (secret != [] ==> !Contains(out, secret))
      && (e == SecretReflection && SourceStatus() != Some(e) ==> secret != [] && Contains(SourceOut(), secret))
      && (e != SecretReflection ==> out == SourceOut() && CausedBySource(e))
    }

    /** The upstream ended this way, or has stalled. */
    ghost predicate EndedBy(e: ReadError)
      reads upstream
    {
      if upstream.status.Some? then upstream.status == Some(e)
      else e == NoProgress && upstream.idle >= MAX_EMPTY_READS
    }

    ghost predicate CausedBySource(e: ReadError)
      reads this, upstream, inner
    {
      || SourceStatus() == Some(e)
      || (e == NoProgress && SourceStatus().None? && secret != [] && Bottom() && upstream.idle >= MAX_EMPTY_READS)
    }

    constructor OverUpstream(upstream: Source, secret: bytes)
      requires upstream.Valid() && upstream.out == [] && upstream.status == None
      ensures Valid() && Good() && status == None && out == []
      ensures this.upstream == upstream && this.secret == secret && inner == null
      ensures repr == {this, upstream} && Secrets() == {secret}
    {
      this.upstream, this.inner := upstream, null;
      this.secret := secret;
      var table := PrefixFailure(secret);
      failure := table;
      pending, terminalErr, found, noProgress := [], None, false, 0;
      out, status := [], None;
      repr, layers, transparent := {this, upstream}, 0, secret == [];
    }

    constructor OverFilter(inner: SecretFilteringBody, secret: bytes)
      requires inner.Valid() && inner.Good() && inner.out == [] && inner.status == None
      ensures Valid() && Good() && status == None && out == []
      ensures this.upstream == inner.upstream && this.secret == secret && this.inner == inner
      ensures repr == {this} + inner.repr && Secrets() == {secret} + old(inner.Secrets())
    {
      this.upstream, this.inner := inner.upstream, inner;
      this.secret := secret;
      var table := PrefixFailure(secret);
      failure := table;
      pending, terminalErr, found, noProgress := [], None, false, 0;
      out, status := [], None;
      repr, layers, transparent := {this} + inner.repr, inner.layers + 1, secret == [] && inner.transparent;
    }

    method ReadSource(limit: nat) returns (data: bytes, err: Option<ReadError>)
      requires Valid()
      modifies repr - {this}
      ensures Valid() && |data| <= limit
      ensures 0 < limit && Bottom() ==> upstream.idle == Idle(old(upstream.idle), data, err)
      ensures 0 < limit && !Bottom() ==> data != [] || err.Some?
      ensures old(SourceGood() && SourceStatus().None?) ==>
                SourceGood() && SourceOut() == old(SourceOut()) + data && SourceStatus() == err
      decreases layers, 0
    {
      if inner == null {
        data, err := upstream.Read(limit);
      } else {
        data, err := inner.Read(limit);
      }
    }

    /**
     One `Read`. It always returns, whatever the source does, and never empty-handed; while no
     error has been returned it keeps `Good()` and extends the delivered stream by exactly its result.
     */
    method Read(size: nat) returns (data: bytes, err: Option<ReadError>)
      requires Valid()
      modifies repr
      ensures Valid() && |data| <= size
      ensures 0 < size && !transparent ==> data != [] || err.Some?
      ensures 0 < size && transparent ==> upstream.idle == Idle(old(upstream.idle), data, err)
      ensures old(Good() && status.None?) ==> Good() && out == old(out) + data && status == err
      decreases layers, 1, 2
    {
      ghost var live := Good() && status.None?;
      if size == 0 {
        return [], None;
      }
      if found {
        return [], Some(SecretReflection);
      }
      if secret == [] {
        data, err := ReadSource(size);
        if live {
          out, status := out + data, err;
        }
        return;
      }
      data, err := Filter(size, live);
    }

    /** The loop of `Read` for a non-empty secret. */
    method Filter(size: nat, ghost live: bool) returns (data: bytes, err: Option<ReadError>)
      requires Valid() && 0 < size && secret != []
      requires live ==> Good() && status.None?
      modifies repr
      ensures Valid() && |data| <= size && (data != [] || err.Some?)
      ensures live ==> Good() && out == old(out) + data && status == err
      decreases layers, 1, 1
    {
      while true
        invariant Valid()
        invariant live ==> Good() && status.None? && out == old(out)
        decreases if terminalErr.None? then 1 else 0, |secret| - |pending|, MAX_EMPTY_READS - noProgress
      {
        var reflected := ContainsBytes(pending, secret);
        if reflected {
          data, err := Reflect(live);
          return;
        }
        var hold := SuffixPrefixOverlap(pending, secret, failure);
        if terminalErr.Some? {
          hold := 0;
        }
        if |pending| > hold {
          var safe := if |pending| - hold > size then size else |pending| - hold;
          data, err := Release(safe, hold, live);
          return;
        }
        if terminalErr.Some? {
          data, err := Finish(live);
          return;
        }
        HeldIsShort(pending, secret, hold);
        Fill(live);
      }
    }

    /** The pending bytes contain the secret: drop them and fail. */
    method Reflect(ghost live: bool) returns (data: bytes, err: Option<ReadError>)
      requires Valid() && Contains(pending, secret) && secret != []
      requires live ==> Good() && status.None?
      modifies this
      ensures Valid() && data == [] && err == Some(SecretReflection)
      ensures live ==> Good() && out == old(out) + data && status == err
    {
      if live {
        ContainsInPrefixed(out, pending, secret);
        NoneDelivered(out, pending, secret);
        status := Some(SecretReflection);
      }
      found, pending := true, [];
      return [], Some(SecretReflection);
    }

    /** Deliver the first `safe` pending bytes. */
    method Release(safe: nat, hold: nat, ghost live: bool) returns (data: bytes, err: Option<ReadError>)
      requires Valid() && !Contains(pending, secret) && secret != []
      requires 0 < safe && safe + hold <= |pending|
      requires terminalErr.None? ==> IsOverlap(pending, secret, hold)
      requires live ==> Good() && status.None?
      modifies this
      ensures Valid() && |data| == safe && err == None
      ensures live ==> Good() && out == old(out) + data && status == err
    {
      data, err := pending[..safe], None;
      if live {
        ReleaseKeepsNoneStarted(out, pending, secret, safe);
        if terminalErr.None? {
          ReleaseKeepsWithheld(out, pending, secret, hold, safe);
        }
        assert out + data + pending[safe..] == out + pending;
        out := out + data;
      }
      pending := pending[safe..];
    }

    /** Everything pending was delivered: hand over the stored error. */
    method Finish(ghost live: bool) returns (data: bytes, err: Option<ReadError>)
      requires Valid() && pending == [] && terminalErr.Some? && secret != []
      requires live ==> Good() && status.None?
      modifies this
      ensures Valid() && data == [] && err == old(terminalErr)
      ensures live ==> Good() && out == old(out) + data && status == err
    {
      data, err := [], terminalErr;
      if live {
        assert out + pending == out;
        NoneDelivered(out, pending, secret);
        status := err;
      }
      terminalErr := None;
    }

    /** Read one more chunk from the source into the pending bytes. */
    method Fill(ghost live: bool)
      requires Valid() && terminalErr.None? && secret != []
      requires live ==> Good() && status.None?
      modifies repr
      ensures Valid()
      ensures live ==> Good() && status.None? && out == old(out)
      ensures |pending| > |old(pending)| || pending == old(pending)
      ensures pending == old(pending) && terminalErr.None? ==> noProgress == old(noProgress) + 1 < MAX_EMPTY_READS
      decreases layers, 1, 0
    {
      var chunk, failed := ReadSource(READ_BUFFER);
      if live {
        AppendKeepsWithheld(out, pending, chunk, secret);
        AppendKeepsNoneStarted(out, pending, chunk, secret);
        assert out + (pending + chunk) == out + pending + chunk;
      }
      if |chunk| > 0 {
        pending, noProgress := pending + chunk, 0;
      } else {
        assert pending + chunk == pending;
      }
      if failed.Some? {
        terminalErr := failed;
      }
      if |chunk| == 0 && failed.None? {
        noProgress := noProgress + 1;
        if noProgress >= MAX_EMPTY_READS {
          terminalErr := Some(NoProgress);
        }
      }
    }

    /** The secrets of this filter and of every filter below it. */
    ghost function Secrets(): set<bytes>
      requires Valid()
      reads this, repr
      decreases layers
    {
      {secret} + (if inner == null then {} else inner.Secrets())
    }

    /**
     The guarantee of a whole stack, up to and including the first error: what was delivered
     is a prefix of the upstream body and contains none of the secrets; a reflection error
     means that the upstream sent one of them; any other error means that everything the upstream
     sent was delivered, and is the upstream's own or follows a hundred empty answers of it.
     */
    lemma StackGuarantee()
      requires Valid() && Good()
      ensures out <= upstream.out
      ensures forall s :: s in Secrets() && s != [] ==> !Contains(out, s)
      ensures status == Some(SecretReflection) ==> exists s :: s in Secrets() && s != [] && Contains(upstream.out, s)
      ensures status.Some? && status != Some(SecretReflection) ==> out == upstream.out && EndedBy(status.value)
      ensures transparent && status.None? ==> out == upstream.out && upstream.status.None?
      decreases layers
    {
      if secret != [] && status.None? {
        NoneDelivered(out, pending, secret);
      }
      if inner != null {
        inner.StackGuarantee();
        assert out + inner.out[|out|..] == inner.out;
        forall s ensures Contains(out, s) ==> Contains(inner.out, s) {
          if Contains(out, s) {
            ContainsInExtension(out, inner.out[|out|..], s);
          }
        }
        if status == Some(SecretReflection) && inner.status != status {
          ContainsInExtension(inner.out, upstream.out[|inner.out|..], secret);
          assert inner.out + upstream.out[|inner.out|..] == upstream.out;
          assert secret in Secrets();
        } else if status == Some(SecretReflection) {
          var s :| s in inner.Secrets() && s != [] && Contains(upstream.out, s);
          assert s in Secrets();
        }
      } else {
        assert secret in Secrets();
      }
    }
  }

  /** Stacks one filter for each credential pattern; an empty list or an empty pattern is refused. */
  method GuardPatterns(upstream: Source, patterns: seq<bytes>) returns (body: SecretFilteringBody?)
    requires upstream.Valid() && upstream.out == [] && upstream.status == None
    ensures body == null <==> patterns == [] || [] in patterns
    ensures body != null ==>
              && fresh(body.repr - {upstream}) && body.upstream == upstream
              && body.Valid() && body.Good() && body.status == None && body.out == []
              && body.Secrets() == (set p | p in patterns)
  {
    hide SecretFilteringBody.Good;
    hide SecretFilteringBody.Secrets;
    if patterns == [] || [] in patterns {
      return null;
    }
    body := new SecretFilteringBody.OverUpstream(upstream, patterns[0]);
    for i := 1 to |patterns|
      invariant body != null && fresh(body.repr - {upstream}) && body.upstream == upstream
      invariant body.Valid() && body.Good() && body.status == None && body.out == []
      invariant body.Secrets() == (set p | p in patterns[..i])
    {
      body := new SecretFilteringBody.OverFilter(body, patterns[i]);
      assert patterns[..i + 1] == patterns[..i] + [patterns[i]];
    }
    assert patterns[..|patterns|] == patterns;
  }

  /**
   A whole use of a guarded body: reads of any sizes, stopping at the first error. Nothing of
   any credential is in what was received, and an end that is no reflection received everything.
   */
  method Drain(body: SecretFilteringBody, sizes: seq<nat>) returns (received: bytes, err: Option<ReadError>)
    requires body.Valid() && body.Good() && body.status == None && body.out == []
    modifies body.repr
    ensures body.Valid() && received <= body.upstream.out
    ensures forall s :: s in body.Secrets() && s != [] ==> !Contains(received, s)
    ensures err == Some(SecretReflection) ==>
              exists s :: s in body.Secrets() && s != [] && Contains(body.upstream.out, s)
    ensures err.Some? && err != Some(SecretReflection) ==> received == body.upstream.out && body.EndedBy(err.value)
  {
    received, err := [], None;
    var i := 0;
    while i < |sizes| && err.None?
      invariant 0 <= i <= |sizes|
      invariant body.Valid() && body.Good() && body.status == err && body.out == received
    {
      var data;
      data, err := body.Read(sizes[i]);
      received := received + data;
      i := i + 1;
    }
    body.StackGuarantee();
  }

  /** The stall is real: an upstream that answers nothing, without an error, ends the first read. */
  method StalledUpstream(secret: bytes, size: nat) returns (data: bytes, err: Option<ReadError>)
    requires secret != [] && 0 < size
    ensures data == [] && err == Some(NoProgress)
  {
    var upstream := new Source((_, _) => Response([], None));
    var body := new SecretFilteringBody.OverUpstream(upstream, secret);
    data, err := body.Read(size);
    body.StackGuarantee();
    if Contains(upstream.out, secret) {
      assert false;
    }
  }
}
