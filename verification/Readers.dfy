/** Byte readers as Go's io.Reader has them: each read gives some bytes, an error, or both. */
module Readers {
  import opened Octets

  datatype ReadError =
    | EndOfFile
    | UnexpectedEndOfFile
    | NoProgress
    | Transport(code: int)
    | SecretReflection
    | BodyLimit
    | ByteBudget
    | BodyTrailer
    | BadGzip

  datatype Response = Response(data: bytes, err: Option<ReadError>)

  /** What the other side of a connection may answer; the other errors are the gateway's own. */
  predicate Foreign(e: Option<ReadError>) {
    e.None? || e.value.EndOfFile? || e.value.NoProgress? || e.value.Transport?
  }

  /** How many answers in a row were empty without an error. */
  function Idle(before: nat, data: bytes, err: Option<ReadError>): nat {
    if data == [] && err.None? then before + 1 else 0
  }

  /** A body from the network. Its answers are an arbitrary function of the read's number and size. */
  class Source {
    const respond: (nat, nat) -> Response
    var served: nat
    // everything returned up to the first error, and that error
    ghost var out: bytes
    ghost var status: Option<ReadError>
    ghost var idle: nat

    ghost predicate Silent() {
      forall k: nat, limit: nat :: respond(k, limit) == Response([], None)
    }

    ghost predicate Valid()
      reads this
    {
      && (forall k: nat, limit: nat :: |respond(k, limit).data| <= limit && Foreign(respond(k, limit).err))
      && (Silent() ==> out == [] && status == None)
    }

    constructor (respond: (nat, nat) -> Response)
      ensures this.respond == respond && out == [] && status == None && idle == 0
    {
      this.respond, served := respond, 0;
      out, status, idle := [], None, 0;
    }

    method Read(limit: nat) returns (data: bytes, err: Option<ReadError>)
      requires Valid()
      modifies this
      ensures Valid() && |data| <= limit && Foreign(err)
      ensures idle == Idle(old(idle), data, err)
      ensures old(status).None? ==> out == old(out) + data && status == err
      ensures old(status).Some? ==> out == old(out) && status == old(status)
    {
      var response := respond(served, limit);
      data, err := response.data, response.err;
      served := served + 1;
      idle := Idle(idle, data, err);
      if status.None? {
        out, status := out + data, err;
      }
    }
  }
}
