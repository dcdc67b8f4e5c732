/** The pkt-line framing of the Git wire protocol, with the prefix that must be replayed. */
module PktLine {
  import opened Text

  const MAX_PKT_LINE: nat := 65520

  datatype Error = InvalidProtocol | InvalidRef | LimitExceeded | Unsupported

  datatype Result<+T> = Ok(value: T) | Err(error: Error) {
    predicate IsFailure() {
      Err?
    }

    function PropagateFailure<U>(): Result<U>
      requires Err?
    {
      Err(error)
    }

    function Extract(): T
      requires Ok?
    {
      value
    }
  }

  datatype Packet = Data(payload: string) | Flush | Delimiter | ResponseEnd

  // ----- the length field -----

  /** The value of a lower-case hexadecimal digit, or 16: a length has no upper-case ones. */
  function LengthDigit(c: char): (v: nat)
    ensures v <= 16
  {
    if IsHexDigit(c) && !('A' <= c <= 'F') then HexValue(c) else 16
  }

  predicate IsHexHeader(header: string) {
    |header| == 4 && forall i :: 0 <= i < 4 ==> LengthDigit(header[i]) < 16
  }

  function LengthOf(header: string): nat
    requires IsHexHeader(header)
  {
    ((LengthDigit(header[0]) * 16 + LengthDigit(header[1])) * 16 + LengthDigit(header[2])) * 16 + LengthDigit(header[3])
  }

  function HexChar(v: nat): (c: char)
    requires v < 16
    ensures LengthDigit(c) == v
  {
    if v < 10 then ('0' as int + v) as char else ('a' as int + v - 10) as char
  }

  function Header(n: nat): (header: string)
    requires n < 65536
    ensures IsHexHeader(header) && LengthOf(header) == n
  {
    var q1 := n / 16;
    var q2 := q1 / 16;
    var q3 := q2 / 16;
    assert n == q1 * 16 + n % 16 && q1 == q2 * 16 + q1 % 16 && q2 == q3 * 16 + q2 % 16;
    var header := [HexChar(q3), HexChar(q2 % 16), HexChar(q1 % 16), HexChar(n % 16)];
    assert LengthDigit(header[0]) == q3 && LengthDigit(header[1]) == q2 % 16;
    assert LengthDigit(header[2]) == q1 % 16 && LengthDigit(header[3]) == n % 16;
    header
  }

  // ----- one packet -----

  /**
   The packet that starts at `pos` and the offset after it, when everything consumed up to
   there may be `max` bytes long.
   */
  function PacketAt(data: string, pos: nat, max: nat): (r: Result<(Packet, nat)>)
    requires pos <= |data|
    ensures r.Ok? ==> pos + 4 <= r.value.1 <= |data| && r.value.1 <= max
  {
    if |data| - pos < 4 || !IsHexHeader(data[pos..pos + 4]) then Err(InvalidProtocol)
    else if pos + 4 > max then Err(LimitExceeded)
    else
      var length := LengthOf(data[pos..pos + 4]);
      if length == 0 then Ok((Flush, pos + 4))
      else if length == 1 then Ok((Delimiter, pos + 4))
      else if length == 2 then Ok((ResponseEnd, pos + 4))
      else if length == 3 || length > MAX_PKT_LINE || |data| - pos < length then Err(InvalidProtocol)
      else if pos + length > max then Err(LimitExceeded)
      else Ok((Data(data[pos + 4..pos + length]), pos + length))
  }

  function Encoded(payload: string): (s: string)
    requires |payload| <= MAX_PKT_LINE - 4
    ensures |s| == |payload| + 4
  {
    Header(|payload| + 4) + payload
  }

  const FLUSH: string := "0000"

  /** A packet that was encoded is read back, wherever it stands. */
  lemma EncodedReadsBack(data: string, pos: nat, payload: string, max: nat)
    requires |payload| <= MAX_PKT_LINE - 4 && At(data, pos, Encoded(payload)) && pos + |payload| + 4 <= max
    ensures PacketAt(data, pos, max) == Ok((Data(payload), pos + |payload| + 4))
  {
    hide IsHexHeader;
    hide LengthOf;
    AtSplits(data, pos, Header(|payload| + 4), payload);
  }

  lemma FlushReadsBack(data: string, pos: nat, max: nat)
    requires At(data, pos, FLUSH) && pos + 4 <= max
    ensures PacketAt(data, pos, max) == Ok((Flush, pos + 4))
  {
    assert IsHexHeader(FLUSH) && LengthOf(FLUSH) == 0;
  }

  // ----- the reader -----

  /** A request body: all its bytes, and whether it then ends cleanly or with a read error. */
  class Reader {
    const data: string
    const clean: bool
    var pos: nat

    constructor (data: string, clean: bool)
      ensures this.data == data && this.clean == clean && pos == 0
    {
      this.data, this.clean, pos := data, clean, 0;
    }

    /** All of the next `n` bytes, or failure. */
    method ReadFull(n: nat) returns (ok: bool, chunk: string)
      requires pos <= |data|
      modifies this
      ensures pos <= |data|
      ensures ok <==> old(pos) + n <= |data|
      ensures ok ==> pos == old(pos) + n && chunk == data[old(pos)..pos]
    {
      if pos + n <= |data| {
        ok, chunk := true, data[pos..pos + n];
        pos := pos + n;
      } else {
        ok, chunk := false, data[pos..];
        pos := |data|;
      }
    }

    /** Succeeds when nothing follows and the body ended cleanly. */
    method RequireEOF() returns (ok: bool)
      requires pos <= |data|
      modifies this
      ensures pos <= |data|
      ensures ok <==> old(pos) == |data| && clean
      ensures ok ==> pos == old(pos)
    {
      if pos < |data| {
        pos := pos + 1;
        return false;
      }
      return clean;
    }
  }

  class PrefixBuffer {
    const max: nat
    var bytes: string

    constructor (max: nat)
      ensures this.max == max && bytes == ""
    {
      this.max, bytes := max, "";
    }

    method Append(value: string) returns (ok: bool)
      modifies this
      ensures ok <==> |old(bytes)| + |value| <= max
      ensures bytes == if ok then old(bytes) + value else old(bytes)
    {
      if |value| > max - |bytes| {
        return false;
      }
      bytes := bytes + value;
      return true;
    }
  }

  /** The buffer holds exactly what the reader gave out. */
  ghost predicate InStep(reader: Reader, prefix: PrefixBuffer)
    reads reader, prefix
  {
    reader.pos <= |reader.data| && prefix.bytes == reader.data[..reader.pos]
  }

  method ParseLength(header: string) returns (ok: bool, length: nat)
    requires |header| == 4
    ensures ok <==> IsHexHeader(header)
    ensures ok ==> length == LengthOf(header)
  {
    length := 0;
    for i := 0 to 4
      invariant forall k :: 0 <= k < i ==> LengthDigit(header[k]) < 16
      invariant i == 0 ==> length == 0
      invariant i == 1 ==> length == LengthDigit(header[0])
      invariant i == 2 ==> length == LengthDigit(header[0]) * 16 + LengthDigit(header[1])
      invariant i == 3 ==> length == (LengthDigit(header[0]) * 16 + LengthDigit(header[1])) * 16 + LengthDigit(header[2])
      invariant i == 4 ==> IsHexHeader(header) && length == LengthOf(header)
    {
      var digit := LengthDigit(header[i]);
      if digit == 16 {
        return false, 0;
      }
      length := length * 16 + digit;
    }
    ok := true;
  }

  method ReadPacket(reader: Reader, prefix: PrefixBuffer) returns (r: Result<Packet>)
    requires InStep(reader, prefix)
    modifies reader, prefix
    ensures reader.pos <= |reader.data|
    ensures match PacketAt(reader.data, old(reader.pos), prefix.max)
            case Ok((packet, next)) => r == Ok(packet) && reader.pos == next && InStep(reader, prefix)
            case Err(e) => r == Err(e)
  {
    hide IsHexHeader;
    hide LengthOf;
    ghost var start := reader.pos;
    var ok, header := reader.ReadFull(4);
    if !ok {
      return Err(InvalidProtocol);
    }
    var hex, length := ParseLength(header);
    if !hex {
      return Err(InvalidProtocol);
    }
    ok := prefix.Append(header);
    if !ok {
      return Err(LimitExceeded);
    }
    TakeGrows(reader.data, start, start + 4);
    if length == 0 {
      return Ok(Flush);
    } else if length == 1 {
      return Ok(Delimiter);
    } else if length == 2 {
      return Ok(ResponseEnd);
    } else if length == 3 || length > MAX_PKT_LINE {
      return Err(InvalidProtocol);
    }
    var payload;
    ok, payload := reader.ReadFull(length - 4);
    if !ok {
      return Err(InvalidProtocol);
    }
    ok := prefix.Append(payload);
    if !ok {
      return Err(LimitExceeded);
    }
    TakeGrows(reader.data, start + 4, start + length);
    return Ok(Data(payload));
  }
}
