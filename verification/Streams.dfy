/** The byte sources the readers pull from. A stream delivers its bytes in fragments of sizes the
    peer and the kernel choose; the choice is an explicit schedule. */
module Streams {
  import opened Bytes

  datatype ParseReason =
    | HeaderBlockTooLarge
    | InvalidUtf8InHeaders
    | MalformedHeaderLine
    | MissingMethod
    | MissingPath
    | InvalidContentLength
    | InvalidUtf8InStatusLine
    | MissingStatusLine
    | MissingHttpVersion
    | MissingStatusCode
    | InvalidStatusCode
    | InvalidContentLengthInResponse
    | UnexpectedEndOfResponseBody
    | ResponseBodyExceedsContentLength
    | InvalidChunkSizeLine
    | InvalidChunkSize
    | ChunkLineTooLong
    | MalformedChunkedBody
    | InvalidUtf8InResponse

  datatype Error =
    | Io
    | Timeout
    | Parse(reason: ParseReason)
    | EmptyRequest
    | EmptyServerList
    | NoHealthyBackend
    | PoolFull
    | ShutdownInProgress
    | BodyTooLarge

  datatype Result<+T> = Ok(value: T) | Err(error: Error)
  {
    function GetOr(other: T): T {
      if Ok? then value else other
    }
  }

  /** What a read reports once every byte has been delivered: the peer closed (0 bytes), or the
      read fails, by timing out on a connection that stays open or otherwise. */
  datatype End = Closed | Stalled | Failed

  /** `read` on an exhausted stream. */
  function ReadAtEnd(end: End): Result<Bytes> {
    match end
    case Closed => Ok([])
    case Stalled => Err(Timeout)
    case Failed => Err(Io)
  }

  /** `read_exact` on a stream that runs dry. */
  function DryError(end: End): Error {
    if end == Stalled then Timeout else Io
  }

  /** Size of the next fragment: as scheduled, at least 1, at most what was asked for and what is
      left; after the schedule runs out, as much as possible. */
  function ReadLen(plan: seq<nat>, k: nat, available: nat): (n: nat)
    ensures n <= k && n <= available
    ensures k > 0 && available > 0 ==> n > 0
  {
    var want := if plan == [] then k else if plan[0] == 0 then 1 else plan[0];
    if want <= k && want <= available then want else if k <= available then k else available
  }

  function Later(plan: seq<nat>): seq<nat> {
    if plan == [] then [] else plan[1..]
  }

  /** What `read_exact` of `n` bytes returns and leaves, for a source with `s` still to come. */
  function Exactly(s: Bytes, end: End, n: nat): (Result<Bytes>, Bytes) {
    if n <= |s| then (Ok(s[..n]), s[n..]) else (Err(DryError(end)), [])
  }

  /** A connection: the bytes still to be delivered and the schedule of the coming reads. */
  class ByteStream {
    var data: Bytes
    var plan: seq<nat>
    const end: End

    constructor (data: Bytes, end: End, plan: seq<nat>)
      ensures this.data == data && this.end == end && this.plan == plan
    {
      this.data, this.end, this.plan := data, end, plan;
    }

    method Read(k: nat) returns (r: Result<Bytes>)
      modifies this
      ensures old(data) == [] ==> r == ReadAtEnd(end) && data == []
      ensures old(data) != [] ==>
                var n := ReadLen(old(plan), k, |old(data)|);
                r == Ok(old(data)[..n]) && data == old(data)[n..] && plan == Later(old(plan))
    {
      if data == [] {
        return ReadAtEnd(end);
      }
      var n := ReadLen(plan, k, |data|);
      r := Ok(data[..n]);
      data, plan := data[n..], Later(plan);
    }

    method ReadExact(n: nat) returns (r: Result<Bytes>)
      modifies this
      ensures (r, data) == Exactly(old(data), end, n)
    {
      var buf := [];
      while |buf| < n
        invariant |buf| <= n && buf + data == old(data)
        decreases n - |buf|
      {
        var got := Read(n - |buf|);
        match got {
          case Err(e) => return Err(e);
          case Ok(bytes) =>
            if bytes == [] {
              return Err(Io);
            }
            buf := buf + bytes;
        }
      }
      r := Ok(buf);
    }
  }

  /** The bytes read past the head, in front of the connection they came from. */
  class PrefixReader {
    const prefix: Bytes
    const inner: ByteStream
    var offset: nat

    ghost predicate Valid()
      reads this
    {
      offset <= |prefix|
    }

    /** What is still to come: the rest of the prefix, then the rest of the connection. */
    ghost function Unread(): Bytes
      requires Valid()
      reads this, inner
    {
      prefix[offset..] + inner.data
    }

    constructor (prefix: Bytes, inner: ByteStream)
      ensures Valid() && this.prefix == prefix && this.inner == inner && Unread() == prefix + inner.data
    {
      this.prefix, this.inner, this.offset := prefix, inner, 0;
    }

    method Read(k: nat) returns (r: Result<Bytes>)
      requires Valid()
      modifies this, inner
      ensures Valid()
      ensures old(Unread()) == [] ==> r == ReadAtEnd(inner.end) && Unread() == []
      ensures old(Unread()) != [] ==> r.Ok? && |r.value| <= k && r.value + Unread() == old(Unread())
      ensures old(Unread()) != [] && k > 0 ==> r.value != []
    {
      if offset < |prefix| {
        var available := |prefix| - offset;
        var n := if available < k then available else k;
        r := Ok(prefix[offset..offset + n]);
        offset := offset + n;
      } else {
        r := inner.Read(k);
      }
    }

    method ReadExact(n: nat) returns (r: Result<Bytes>)
      requires Valid()
      modifies this, inner
      ensures Valid() && (r, Unread()) == Exactly(old(Unread()), inner.end, n)
    {
      var buf := [];
      while |buf| < n
        invariant Valid() && |buf| <= n && buf + Unread() == old(Unread())
        decreases n - |buf|
      {
        var got := Read(n - |buf|);
        match got {
          case Err(e) => return Err(e);
          case Ok(bytes) =>
            if bytes == [] {
              return Err(Io);
            }
            buf := buf + bytes;
        }
      }
      r := Ok(buf);
    }
  }
}
