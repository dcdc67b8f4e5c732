/**
 The metered Git request body: bytes are charged as they are delivered, within a maximum and
 a decompression ratio, and an over-long, trailed or padded body never looks complete.
 */
module GitStream {
  import opened Octets
  import opened Readers

  const RATIO_SLACK: nat := 0x10_0000
  const MAX_RATIO: nat := 100
  const BUFFER_SIZE: nat := 0x8000
  const MAX_EMPTY_READS: nat := 100

  /** What the metered reader may see from below: budgets and trailers are its own affair. */
  predicate FromBelow(err: Option<ReadError>) {
    err.None? || err.value !in {ByteBudget, BodyTrailer}
  }

  /** Rejects the byte after the maximum instead of turning it into an end of file. */
  class CountingBoundedReader {
    const source: Source
    const maximum: nat
    var count: nat
    ghost var out: bytes
    ghost var status: Option<ReadError>

    constructor (source: Source, maximum: nat)
      requires source.out == [] && source.status == None
      ensures this.source == source && this.maximum == maximum && count == 0
      ensures out == [] && status == None && Good()
    {
      this.source, this.maximum, count := source, maximum, 0;
      out, status := [], None;
    }

    /** What holds from construction up to and including the first error. */
    ghost predicate Good()
      reads this, source
    {
      && count == |out| <= maximum
      && out <= source.out
      && (status.None? ==> source.status.None? && out == source.out)
      && (status.Some? && status.value != BodyLimit ==> source.status == status && out == source.out)
      && (status == Some(BodyLimit) ==> |source.out| > maximum)
      && (Foreign(status) || status == Some(BodyLimit))
    }

    method Read(size: nat) returns (data: bytes, err: Option<ReadError>)
      requires source.Valid()
      modifies this, source
      ensures source.Valid() && count >= old(count)
      ensures |data| <= size && (Foreign(err) || err == Some(BodyLimit))
      ensures old(Good() && status.None?) ==> Good() && out == old(out) + data && status == err
    {
      ghost var live := Good() && status.None?;
      if size == 0 {
        return [], None;
      }
      if count >= maximum {
        var probe;
        probe, err := source.Read(1);
        if |probe| != 0 {
          data, err := [], Some(BodyLimit);
        } else {
          data := [];
        }
        if live {
          status := err;
          assert out + data == out;
        }
        return;
      }
      var limit := if size > maximum - count then maximum - count else size;
      data, err := source.Read(limit);
      count := count + |data|;
      if live {
        out, status := out + data, err;
      }
    }
  }

  /** A read-ahead buffer over the counted body, as Go's bufio.Reader. */
  class BufferedReader {
    const raw: CountingBoundedReader
    var buffer: bytes
    var stored: Option<ReadError>
    ghost var consumed: bytes      // the bytes handed over
    ghost var spent: bool          // whether an error was handed over

    constructor (raw: CountingBoundedReader)
      requires raw.source.Valid() && raw.Good() && raw.out == [] && raw.status == None
      ensures Valid() && this.raw == raw && !spent && consumed == [] && buffer == []
    {
      this.raw, buffer, stored := raw, [], None;
      consumed, spent := [], false;
    }

    /** Nothing is lost between the counted body and its reader, and no read follows an error. */
    ghost predicate Valid()
      reads this, raw, raw.source
    {
      && raw.source.Valid() && raw.Good() && raw.out == consumed + buffer
      && (stored.None? && !spent ==> raw.status.None?)
      && (stored.Some? ==> !spent && Reported(stored.value))
    }

    ghost predicate Reported(e: ReadError)
      reads raw
    {
      raw.status == Some(e) || (e == NoProgress && raw.status.None?)
    }

    method Fill()
      requires Valid() && buffer == [] && stored.None? && !spent
      modifies this, raw, raw.source
      ensures Valid() && !spent && consumed == old(consumed) && raw.count >= old(raw.count)
      ensures buffer != [] || stored.Some?
    {
      var empty := 0;
      while empty < MAX_EMPTY_READS
        invariant Valid() && !spent && consumed == old(consumed) && raw.count >= old(raw.count)
        invariant buffer == [] && stored.None?
      {
        var data;
        data, stored := raw.Read(BUFFER_SIZE);
        buffer := data;
        assert consumed + [] + data == consumed + data;
        if |data| > 0 || stored.Some? {
          return;
        }
        empty := empty + 1;
      }
      stored := Some(NoProgress);
    }

    /** One byte, or the stored error, which is then forgotten. */
    method ReadByte() returns (b: Option<byte>, err: Option<ReadError>)
      requires Valid() && !spent
      modifies this, raw, raw.source
      ensures Valid() && raw.count >= old(raw.count)
      ensures b.Some? ==> err.None? && !spent && consumed == old(consumed) + [b.value]
      ensures b.None? ==> err.Some? && spent && consumed == old(consumed)
      ensures FromBelow(err)
    {
      err := Peek();
      if err.Some? {
        return None, err;
      }
      b := Some(buffer[0]);
      assert consumed + buffer == consumed + [buffer[0]] + buffer[1..];
      consumed := consumed + [buffer[0]];
      buffer := buffer[1..];
    }

    /** Whether a byte is there to be read. */
    method Peek() returns (err: Option<ReadError>)
      requires Valid() && !spent
      modifies this, raw, raw.source
      ensures Valid() && raw.count >= old(raw.count) && consumed == old(consumed)
      ensures err.None? ==> buffer != [] && !spent
      ensures err.Some? ==> buffer == [] && spent && Reported(err.value)
      ensures FromBelow(err)
    {
      if buffer == [] && stored.None? {
        Fill();
      }
      if buffer != [] {
        return None;
      }
      err, stored := stored, None;
      spent := true;
    }
  }

  /**
   A decompressor: any program that takes any number of bytes from its buffer at each read and
   answers anything. Once its input has failed it takes no more and never reports a clean end.
   */
  class GzipDecoder {
    const input: BufferedReader
    const respond: (nat, nat) -> Response
    const wants: (nat, nat) -> nat
    var served: nat
    var met: Option<ReadError>
    // everything returned up to the first error, and that error
    ghost var out: bytes
    ghost var status: Option<ReadError>

    ghost predicate Valid()
      reads this
    {
      && (forall k: nat, limit: nat :: |respond(k, limit).data| <= limit && FromBelow(respond(k, limit).err))
      && FromBelow(met)
    }

    constructor (input: BufferedReader, respond: (nat, nat) -> Response, wants: (nat, nat) -> nat)
      ensures this.input == input && this.respond == respond && met == None && out == [] && status == None
    {
      this.input, this.respond, this.wants, served := input, respond, wants, 0;
      met := None;
      out, status := [], None;
    }

    method Read(limit: nat) returns (data: bytes, err: Option<ReadError>)
      requires Valid() && input.Valid() && (met.None? ==> !input.spent)
      modifies this, input, input.raw, input.raw.source
      ensures Valid() && input.Valid() && (met.None? ==> !input.spent)
      ensures |data| <= limit && FromBelow(err) && input.raw.count >= old(input.raw.count)
      ensures err == Some(EndOfFile) ==> met.None?
      ensures old(status).None? ==> out == old(out) + data && status == err
    {
      var wanted := wants(served, limit);
      while wanted > 0 && met.None?
        invariant Valid() && input.Valid() && (met.None? ==> !input.spent)
        invariant input.raw.count >= old(input.raw.count)
        invariant out == old(out) && status == old(status)
      {
        var taken;
        taken, met := input.ReadByte();
        wanted := wanted - 1;
      }
      var r := respond(served, limit);
      data, err := r.data, r.err;
      if err == Some(EndOfFile) && met.Some? {
        err := if met == Some(EndOfFile) then Some(UnexpectedEndOfFile) else met;
      }
      served := served + 1;
      if status.None? {
        out, status := out + data, err;
      }
    }
  }

  /** Accepts the end of a compressed stream only where the request body ends too. */
  class StrictGzipReader {
    const decoder: GzipDecoder
    var terminal: Option<ReadError>
    var checked: bool
    ghost var out: bytes
    ghost var status: Option<ReadError>

    ghost predicate Valid()
      reads this, decoder, decoder.input, decoder.input.raw, decoder.input.raw.source
    {
      && decoder.Valid() && decoder.input.Valid() && FromBelow(terminal)
      && (!checked && decoder.met.None? ==> !decoder.input.spent)
    }

    /** The decompressor and the request body have both ended, and every raw byte was decompressed. */
    ghost predicate Complete()
      reads decoder, decoder.input, decoder.input.raw, decoder.input.raw.source
    {
      && decoder.status == Some(EndOfFile)
      && decoder.input.raw.source.status == Some(EndOfFile)
      && decoder.input.consumed == decoder.input.raw.out == decoder.input.raw.source.out
    }

    /** What holds from construction up to and including the first error. */
    ghost predicate Good()
      reads this, decoder, decoder.input, decoder.input.raw, decoder.input.raw.source
    {
      && out == decoder.out
      && (terminal.Some? ==> checked && terminal == Some(BadGzip))
      && (status.None? && !checked ==> decoder.status.None?)
      && (status.None? && checked ==> terminal.Some?)
      && (status == Some(EndOfFile) ==> Complete())
    }

    constructor (decoder: GzipDecoder)
      requires decoder.Valid() && decoder.input.Valid() && !decoder.input.spent
      requires decoder.met.None? && decoder.out == [] && decoder.status == None
      ensures this.decoder == decoder && Valid() && Good() && out == [] && status == None
    {
      this.decoder, terminal, checked := decoder, None, false;
      out, status := [], None;
    }

    method Read(limit: nat) returns (data: bytes, err: Option<ReadError>)
      requires Valid()
      modifies this, decoder, decoder.input, decoder.input.raw, decoder.input.raw.source
      ensures Valid() && |data| <= limit && FromBelow(err)
      ensures decoder.input.raw.count >= old(decoder.input.raw.count)
      ensures old(Good() && status.None?) ==> Good() && out == old(out) + data && status == err
    {
      ghost var live := Good() && status.None?;
      if terminal.Some? {
        data, err := [], terminal;
        terminal := None;
        if live {
          assert out + data == out;
          status := err;
        }
        return;
      }
      if checked {
        return [], Some(EndOfFile);
      }
      data, err := decoder.Read(limit);
      if err == Some(EndOfFile) {
        err := CheckTrailing(|data|);
      }
      if live {
        out, status := out + data, err;
      }
    }

    /** At the end of the stream: one more raw byte is too many, and so is any failure but a clean end. */
    method CheckTrailing(delivered: nat) returns (err: Option<ReadError>)
      requires Valid() && !checked && terminal.None? && !decoder.input.spent
      modifies this, decoder.input, decoder.input.raw, decoder.input.raw.source
      ensures Valid() && checked && out == old(out) && status == old(status)
      ensures decoder.input.raw.count >= old(decoder.input.raw.count)
      ensures err.None? <==> terminal.Some?
      ensures terminal.Some? ==> terminal == Some(BadGzip) && delivered > 0
      ensures err.Some? ==> err.value in {EndOfFile, BadGzip}
      ensures err == Some(EndOfFile) ==>
                && decoder.input.raw.source.status == Some(EndOfFile)
                && decoder.input.consumed == decoder.input.raw.out == decoder.input.raw.source.out
    {
      checked := true;
      var trailing := decoder.input.Peek();
      if trailing == Some(EndOfFile) {
        assert decoder.input.consumed + [] == decoder.input.consumed;
        return Some(EndOfFile);
      }
      if delivered > 0 {
        terminal := Some(BadGzip);
        return None;
      }
      return Some(BadGzip);
    }
  }

  /** The byte budget: it may refuse any charge, and what it accepts is spent. */
  class Meter {
    const accepts: (nat, nat) -> bool
    var calls: nat
    ghost var charged: nat

    constructor (accepts: (nat, nat) -> bool)
      ensures this.accepts == accepts && charged == 0
    {
      this.accepts, calls := accepts, 0;
      charged := 0;
    }

    method Charge(count: nat) returns (ok: bool)
      modifies this
      ensures charged == old(charged) + (if ok then count else 0)
    {
      ok := accepts(calls, count);
      calls := calls + 1;
      if ok {
        charged := charged + count;
      }
    }
  }

  /** The decoded total is within the slack and a hundred times the raw bytes. */
  predicate WithinRatio(decoded: nat, raw: nat) {
    decoded <= RATIO_SLACK + raw * MAX_RATIO
  }

  class GitMeteredReader {
    const raw: CountingBoundedReader
    const gzip: StrictGzipReader?  // null when the body is not compressed
    const meter: Meter
    const maximum: nat
    const trailer: bool            // whether the request carries a trailer
    var count: nat
    var terminal: Option<ReadError>
    ghost var out: bytes
    ghost var status: Option<ReadError>

    ghost function Below(): set<object>
    {
      {raw, raw.source} + if gzip == null then {} else {gzip, gzip.decoder, gzip.decoder.input}
    }

    ghost predicate Valid()
      reads this, Below()
    {
      && raw.source.Valid()
      && (gzip != null ==> gzip.decoder.input.raw == raw && gzip.Valid())
    }

    ghost function DecodedOut(): bytes
      reads raw, gzip
    {
      if gzip == null then raw.out else gzip.out
    }

    ghost function DecodedStatus(): Option<ReadError>
      reads raw, gzip
    {
      if gzip == null then raw.status else gzip.status
    }

    /** The reader below is still on its first, error-free stretch and behaves. */
    ghost predicate DecodedGood()
      requires Valid()
      reads this, Below()
    {
      if gzip == null then raw.Good() else gzip.Good()
    }

    /** What holds from construction up to and including the first error. */
    ghost predicate Good()
      requires Valid()
      reads this, Below(), meter
    {
      && DecodedGood()
      && count == |out| == meter.charged <= maximum
      && out <= DecodedOut()
      && (gzip != null ==> WithinRatio(count, raw.count))
      && (status.None? ==>
            out == DecodedOut()
            && (terminal.None? ==> DecodedStatus().None?)
            && (terminal.Some? ==> terminal == Some(BodyTrailer) && trailer && DecodedStatus() == Some(EndOfFile)))
      && (status == Some(EndOfFile) ==> out == DecodedOut() && DecodedStatus() == status && !trailer)
      && (status == Some(BodyTrailer) ==> out == DecodedOut() && trailer)
    }

    constructor (raw: CountingBoundedReader, gzip: StrictGzipReader?, meter: Meter, maximum: nat, trailer: bool)
      requires raw.source.Valid() && raw.Good() && raw.status == None && (gzip == null ==> raw.out == [])
      requires gzip != null ==>
                 gzip.decoder.input.raw == raw && gzip.Valid() && gzip.Good() && gzip.out == [] && gzip.status == None
                 && gzip.terminal == None
      requires meter.charged == 0
      ensures this.raw == raw && this.gzip == gzip && this.meter == meter
      ensures this.maximum == maximum && this.trailer == trailer
      ensures Valid() && Good() && out == [] && status == None
    {
      this.raw, this.gzip, this.meter := raw, gzip, meter;
      this.maximum, this.trailer := maximum, trailer;
      count, terminal := 0, None;
      out, status := [], None;
    }

    method ReadDecoded(limit: nat) returns (data: bytes, err: Option<ReadError>)
      requires Valid()
      modifies Below()
      ensures Valid() && |data| <= limit && raw.count >= old(raw.count)
      ensures old(DecodedGood() && DecodedStatus().None?) ==>
                DecodedGood() && DecodedOut() == old(DecodedOut()) + data && DecodedStatus() == err
      ensures FromBelow(err)
    {
      if gzip == null {
        data, err := raw.Read(limit);
      } else {
        data, err := gzip.Read(limit);
      }
    }

    /**
     One `Read`. While no error was returned it keeps `Good()`: what it delivers is what it
     charges, and it reports an end of file only when the whole decoded body was delivered.
     */
    method Read(size: nat) returns (data: bytes, err: Option<ReadError>)
      requires Valid()
      modifies this, Below(), meter
      ensures Valid() && |data| <= size
      ensures old(Good() && status.None?) ==> Good() && out == old(out) + data && status == err
    {
      ghost var live := Good() && status.None?;
      if size == 0 {
        return [], None;
      }
      if terminal.Some? {
        data, err := [], terminal;
        terminal := None;
        if live {
          status := err;
        }
        return;
      }
      if count >= maximum {
        data, err := Probe(live);
        return;
      }
      var limit := if size > maximum - count then maximum - count else size;
      data, err := Deliver(limit, live);
    }

    /** Between a read of the decoded body and its delivery, with so many of its bytes charged. */
    ghost predicate Pending(chunk: bytes, err: Option<ReadError>, paid: nat)
      requires Valid()
      reads this, Below(), meter
    {
      && DecodedGood() && FromBelow(err)
      && status.None? && terminal.None?
      && count == |out| + paid == meter.charged <= maximum
      && DecodedOut() == out + chunk && DecodedStatus() == err
      && (gzip != null ==> WithinRatio(count, raw.count))
    }

    method ReadPending(limit: nat, ghost live: bool) returns (data: bytes, err: Option<ReadError>)
      requires Valid() && terminal.None?
      requires live ==> Good() && status.None?
      modifies Below()
      ensures Valid() && |data| <= limit
      ensures live ==> Pending(data, err, 0)
    {
      data, err := ReadDecoded(limit);
    }

    /** At the maximum: one more byte is too many. */
    method Probe(ghost live: bool) returns (data: bytes, err: Option<ReadError>)
      requires Valid() && count >= maximum && terminal.None?
      requires live ==> Good() && status.None?
      modifies this, Below()
      ensures Valid() && data == []
      ensures live ==> Good() && out == old(out) && status == err
    {
      var probe, failed := ReadPending(1, live);
      err := EndProbe(probe, failed, live);
      data := [];
    }

    method EndProbe(probe: bytes, failed: Option<ReadError>, ghost live: bool) returns (err: Option<ReadError>)
      requires Valid() && (live ==> Pending(probe, failed, 0))
      modifies this
      ensures Valid()
      ensures live ==> Good() && out == old(out) && status == err
    {
      err := failed;
      if |probe| != 0 {
        err := Some(BodyLimit);
      } else if failed == Some(EndOfFile) && trailer {
        err := Some(BodyTrailer);
      }
      if live {
        assert probe == [] ==> out + probe == out;
        status := err;
      }
    }

    /** Below the maximum: read, ask for leave, deliver. */
    method Deliver(limit: nat, ghost live: bool) returns (data: bytes, err: Option<ReadError>)
      requires Valid() && count + limit <= maximum && terminal.None?
      requires live ==> Good() && status.None?
      modifies this, Below(), meter
      ensures Valid() && |data| <= limit
      ensures live ==> Good() && out == old(out) + data && status == err
    {
      var chunk, failed := ReadPending(limit, live);
      data, err := Settle(chunk, failed, live);
    }

    /** What was read is charged and delivered, or dropped with an error. */
    method Settle(chunk: bytes, failed: Option<ReadError>, ghost live: bool) returns (data: bytes, err: Option<ReadError>)
      requires Valid() && count + |chunk| <= maximum && terminal.None?
      requires live ==> Pending(chunk, failed, 0)
      modifies this, meter
      ensures Valid() && |data| <= |chunk|
      ensures live ==> Good() && out == old(out) + data && status == err
    {
      if |chunk| > 0 {
        err := Admit(chunk, failed, live);
        if err.Some? {
          data := [];
          if live {
            assert out + data == out;
            status := err;
          }
          return;
        }
      }
      data, err := Hand(chunk, failed, live);
    }

    /** Leave to deliver: within the ratio, and charged. */
    method Admit(chunk: bytes, ghost failed: Option<ReadError>, ghost live: bool) returns (refusal: Option<ReadError>)
      requires Valid() && count + |chunk| <= maximum
      requires live ==> Pending(chunk, failed, 0)
      modifies this`count, meter
      ensures Valid()
      ensures refusal.Some? ==> refusal.value in {BadGzip, ByteBudget}
      ensures live ==> Pending(chunk, failed, if refusal.None? then |chunk| else 0)
    {
      var n := |chunk|;
      if gzip != null && (raw.count > (MAX_UINT64 - RATIO_SLACK) / MAX_RATIO || !WithinRatio(count + n, raw.count)) {
        return Some(BadGzip);
      }
      var ok := meter.Charge(n);
      if !ok {
        return Some(ByteBudget);
      }
      count := count + n;
      return None;
    }

    /** Hands over; a trailer turns the end of file into an error, after the last bytes. */
    method Hand(chunk: bytes, failed: Option<ReadError>, ghost live: bool) returns (data: bytes, err: Option<ReadError>)
      requires Valid() && terminal.None?
      requires live ==> Pending(chunk, failed, |chunk|)
      modifies this
      ensures Valid() && data == chunk
      ensures live ==> Good() && out == old(out) + data && status == err
    {
      data, err := chunk, failed;
      if failed == Some(EndOfFile) && trailer {
        if |data| > 0 {
          terminal, err := Some(BodyTrailer), None;
        } else {
          err := Some(BodyTrailer);
        }
      }
      if live {
        out, status := out + data, err;
      }
    }
  }

  /**
   A whole forwarding, compressed or not, stopping at the first error: every byte forwarded was
   charged once, none beyond the maximum or the ratio, and the body counts as complete only when it is.
   */
  method Forward(body: GitMeteredReader, sizes: seq<nat>) returns (forwarded: bytes, err: Option<ReadError>)
    requires body.Valid() && body.Good() && body.status == None && body.out == []
    modifies body, body.Below(), body.meter
    ensures body.Valid() && forwarded <= body.DecodedOut()
    ensures |forwarded| == body.meter.charged <= body.maximum
    ensures err == Some(EndOfFile) ==> forwarded == body.DecodedOut() && !body.trailer
    ensures body.gzip == null ==> forwarded <= body.raw.source.out
    ensures body.gzip == null && err == Some(EndOfFile) ==>
              forwarded == body.raw.source.out && body.raw.source.status == Some(EndOfFile)
    ensures body.gzip != null ==>
              && body.raw.out <= body.raw.source.out && |body.raw.out| <= body.raw.maximum
              && |forwarded| <= RATIO_SLACK + MAX_RATIO * |body.raw.out|
    ensures body.gzip != null && err == Some(EndOfFile) ==>
              forwarded == body.gzip.decoder.out && body.gzip.Complete()
  {
    forwarded, err := [], None;
    var i := 0;
    while i < |sizes| && err.None?
      invariant 0 <= i <= |sizes|
      invariant body.Valid() && body.Good() && body.status == err && body.out == forwarded
    {
      var data;
      data, err := body.Read(sizes[i]);
      forwarded := forwarded + data;
      i := i + 1;
    }
  }
}
