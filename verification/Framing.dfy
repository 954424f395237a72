/** Length-prefixed frames over a byte stream that may return short reads and interrupts. */
module Framing {
  import opened Bytes
  import opened Wrappers

  datatype IoError = UnexpectedEof | InvalidData | InvalidInput | Fault

  const HEADER_LEN: nat := 4

  // Specification of one read

  datatype Parsed = EndOfStream | Frame(payload: seq<byte>, rest: seq<byte>) | Rejected(error: IoError)

  /** The first frame of `data`, the graceful end, or why neither is there. */
  function ParseFrame(data: seq<byte>, maxBytes: nat): (r: Parsed)
    ensures r.Frame? ==> |r.rest| < |data|
  {
    if data == [] then EndOfStream
    else if |data| < HEADER_LEN then Rejected(UnexpectedEof) else
    var length := FromBigEndian(data[..HEADER_LEN]);
    if length == 0 || length > maxBytes then Rejected(InvalidData)
    else if |data| < HEADER_LEN + length then Rejected(UnexpectedEof)
    else Frame(data[HEADER_LEN..HEADER_LEN + length], data[HEADER_LEN + length..])
  }

  /** A payload the writer accepts. */
  predicate Sendable(payload: seq<byte>, maxBytes: nat) {
    0 < |payload| <= maxBytes && |payload| < U32_LIMIT
  }

  function FrameBytes(payload: seq<byte>): seq<byte> {
    ToBigEndian(|payload|, HEADER_LEN) + payload
  }

  // The streams

  /** How the transport answers the next read call. */
  datatype Answer = Interrupt | Failure | AtMost(limit: nat)

  datatype ReadOutcome = Got(n: nat) | Interrupted | Failed

  /** A byte source: what it still holds, and its answers to the read calls to come. */
  class Reader {
    var data: seq<byte>
    var schedule: seq<Answer>

    constructor (data: seq<byte>, schedule: seq<Answer>)
      ensures this.data == data && this.schedule == schedule
    {
      this.data, this.schedule := data, schedule;
    }

    /** `Read::read` into `buffer[from..to]`: zero bytes only at the end of the stream. */
    method Read(buffer: array<byte>, from: nat, to: nat) returns (r: ReadOutcome)
      requires from < to <= buffer.Length
      modifies this, buffer
      ensures schedule == if old(schedule) == [] then [] else old(schedule)[1..]
      ensures r.Got? ==> r.n <= to - from && r.n <= |old(data)| && (r.n == 0 <==> old(data) == [])
                         && data == old(data)[r.n..]
      ensures r.Got? ==> forall i :: from <= i < from + r.n ==> buffer[i] == old(data)[i - from]
      ensures r.Got? ==> forall i :: 0 <= i < buffer.Length && !(from <= i < from + r.n) ==> buffer[i] == old(buffer[i])
      ensures !r.Got? ==> old(schedule) != [] && data == old(data) && buffer[..] == old(buffer[..])
      ensures r.Failed? ==> old(schedule)[0] == Failure
    {
      var answer := if schedule == [] then AtMost(to - from) else schedule[0];
      schedule := if schedule == [] then [] else schedule[1..];
      match answer {
        case Interrupt => r := Interrupted;
        case Failure => r := Failed;
        case AtMost(limit) =>
          var room := if |data| < to - from then |data| else to - from;
          var n := if limit < room then limit else room;
          if n == 0 && room > 0 { n := 1; }
          forall i | from <= i < from + n { buffer[i] := data[i - from]; }
          data := data[n..];
          r := Got(n);
      }
    }

    /** `Read::read_exact` into `buffer[from..]`: retries interrupts and short reads. */
    method ReadExact(buffer: array<byte>, from: nat) returns (error: Result<(), IoError>)
      requires from <= buffer.Length
      modifies this, buffer
      ensures forall a :: a in schedule ==> a in old(schedule)
      ensures error == Err(Fault) ==> Failure in old(schedule)
      ensures error != Err(Fault) ==> error == if |old(data)| < buffer.Length - from then Err(UnexpectedEof) else Ok(())
      ensures error.Ok? ==> data == old(data)[buffer.Length - from..]
                            && buffer[..] == old(buffer[..from]) + old(data)[..buffer.Length - from]
    {
      var at := from;
      while at < buffer.Length
        invariant from <= at <= buffer.Length && at - from <= |old(data)|
        invariant data == old(data)[at - from..]
        invariant forall i :: 0 <= i < from ==> buffer[i] == old(buffer[i])
        invariant forall i :: from <= i < at ==> buffer[i] == old(data)[i - from]
        invariant forall a :: a in schedule ==> a in old(schedule)
        decreases |data|, |schedule|
      {
        var r := Read(buffer, at, buffer.Length);
        match r {
          case Interrupted =>
          case Failed => return Err(Fault);
          case Got(n) =>
            if n == 0 { return Err(UnexpectedEof); }
            at := at + n;
        }
      }
      return Ok(());
    }

    /** Reads one frame; the end of the stream is graceful only before a header. */
    method ReadFrame(maxBytes: nat) returns (frame: Result<seq<byte>, IoError>, eof: bool)
      modifies this
      ensures forall a :: a in schedule ==> a in old(schedule)
      ensures frame == Err(Fault) ==> Failure in old(schedule)
      ensures frame != Err(Fault) ==>
        match ParseFrame(old(data), maxBytes)
        case EndOfStream => eof && frame == Ok([])
        case Frame(payload, rest) => !eof && frame == Ok(payload) && data == rest
        case Rejected(error) => !eof && frame == Err(error)
    {
      eof := false;
      var header := new byte[HEADER_LEN](_ => 0);
      var first := false;
      while !first
        invariant forall a :: a in schedule ==> a in old(schedule)
        invariant !first ==> data == old(data)
        invariant first ==> old(data) != [] && data == old(data)[1..] && header[0] == old(data)[0]
        decreases !first, |schedule|
      {
        var r := Read(header, 0, 1);
        match r {
          case Interrupted =>
          case Failed => return Err(Fault), false;
          case Got(n) =>
            if n == 0 { return Ok([]), true; }
            first := true;
        }
      }
      var rest := ReadExact(header, 1);
      if rest.Err? { return Err(rest.error), false; }
      assert header[..] == old(data)[..HEADER_LEN];
      assert data == old(data)[HEADER_LEN..];
      var length := FromBigEndian(header[..]);
      if length == 0 || length > maxBytes { return Err(InvalidData), false; }
      var bytes := new byte[length](_ => 0);
      var body := ReadExact(bytes, 0);
      if body.Err? { return Err(body.error), false; }
      assert bytes[..] == old(data)[HEADER_LEN..HEADER_LEN + length];
      assert data == old(data)[HEADER_LEN + length..];
      frame := Ok(bytes[..]);
    }
  }

  /** A byte sink that fails once it has no room left. */
  class Writer {
    var written: seq<byte>
    var room: nat

    constructor (room: nat)
      ensures written == [] && this.room == room
    {
      written, this.room := [], room;
    }

    method WriteAll(bytes: seq<byte>) returns (ok: bool)
      modifies this
      ensures ok <==> |bytes| <= old(room)
      ensures written == old(written) + if ok then bytes else bytes[..old(room)]
      ensures room == if ok then old(room) - |bytes| else 0
    {
      ok := |bytes| <= room;
      var n := if ok then |bytes| else room;
      written, room := written + bytes[..n], room - n;
    }

    /** Writes one frame, or refuses the payload before writing anything. */
    method WriteFrame(bytes: seq<byte>, maxBytes: nat) returns (r: Result<(), IoError>)
      modifies this
      ensures !Sendable(bytes, maxBytes) ==> r == Err(InvalidInput) && written == old(written) && room == old(room)
      ensures Sendable(bytes, maxBytes) ==> r == (if |FrameBytes(bytes)| <= old(room) then Ok(()) else Err(Fault))
      ensures r.Ok? ==> written == old(written) + FrameBytes(bytes)
      ensures r == Err(Fault) ==> written == old(written) + FrameBytes(bytes)[..old(room)]
    {
      if |bytes| == 0 || |bytes| > maxBytes { return Err(InvalidInput); }
      if |bytes| >= U32_LIMIT { return Err(InvalidInput); }
      var header := WriteAll(ToBigEndian(|bytes|, HEADER_LEN));
      if !header { return Err(Fault); }
      var body := WriteAll(bytes);
      return if body then Ok(()) else Err(Fault);
    }
  }

  // The stream law

  datatype End = Clean | Broken(error: IoError)

  /** Every frame read off `data` in turn, and how the stream ended. */
  function Drain(data: seq<byte>, maxBytes: nat): (seq<seq<byte>>, End)
    decreases |data|
  {
    match ParseFrame(data, maxBytes)
    case EndOfStream => ([], Clean)
    case Rejected(error) => ([], Broken(error))
    case Frame(payload, rest) =>
      var (payloads, end) := Drain(rest, maxBytes);
      ([payload] + payloads, end)
  }

  /** A caller that reads frame after frame gets exactly these, whatever short reads and interrupts
      the transport comes up with; only a transport failure cuts the list short. */
  method ReadAll(reader: Reader, maxBytes: nat) returns (frames: seq<seq<byte>>, end: End)
    modifies reader
    ensures end == Broken(Fault) ==> Failure in old(reader.schedule) && frames <= Drain(old(reader.data), maxBytes).0
    ensures end != Broken(Fault) ==> (frames, end) == Drain(old(reader.data), maxBytes)
  {
    frames := [];
    ghost var all := Drain(reader.data, maxBytes);
    assert all.0 == [] + all.0;
    while true
      invariant forall a :: a in reader.schedule ==> a in old(reader.schedule)
      invariant all.0 == frames + Drain(reader.data, maxBytes).0 && all.1 == Drain(reader.data, maxBytes).1
      decreases |reader.data|
    {
      ghost var before := Drain(reader.data, maxBytes);
      var frame, eof := reader.ReadFrame(maxBytes);
      if frame.Err? {
        assert frame.error != Fault ==> before == ([], Broken(frame.error)) && frames + [] == frames;
        return frames, Broken(frame.error);
      }
      if eof {
        assert before == ([], Clean) && frames + [] == frames;
        return frames, Clean;
      }
      assert before.0 == [frame.value] + Drain(reader.data, maxBytes).0;
      frames := frames + [frame.value];
    }
  }

  /** The bytes of frames written one after another. */
  function Wire(payloads: seq<seq<byte>>): seq<byte> {
    if payloads == [] then [] else FrameBytes(payloads[0]) + Wire(payloads[1..])
  }

  /** How many whole frames the first `n` bytes of the wire hold. */
  function WholeFrames(payloads: seq<seq<byte>>, n: nat): (k: nat)
    ensures k <= |payloads|
  {
    if payloads == [] || n < |FrameBytes(payloads[0])| then 0
    else 1 + WholeFrames(payloads[1..], n - |FrameBytes(payloads[0])|)
  }

  lemma ParseWritten(payload: seq<byte>, rest: seq<byte>, maxBytes: nat)
    requires Sendable(payload, maxBytes)
    ensures ParseFrame(FrameBytes(payload) + rest, maxBytes) == Frame(payload, rest)
  {
    Pow256Values();
    BigEndianRoundTrip(|payload|, HEADER_LEN);
    var data := FrameBytes(payload) + rest;
    assert data[..HEADER_LEN] == ToBigEndian(|payload|, HEADER_LEN);
    assert data[HEADER_LEN..HEADER_LEN + |payload|] == payload;
    assert data[HEADER_LEN + |payload|..] == rest;
  }

  lemma ParseTruncated(payload: seq<byte>, n: nat, maxBytes: nat)
    requires Sendable(payload, maxBytes) && 0 < n < |FrameBytes(payload)|
    ensures ParseFrame(FrameBytes(payload)[..n], maxBytes) == Rejected(UnexpectedEof)
  {
    Pow256Values();
    BigEndianRoundTrip(|payload|, HEADER_LEN);
    if n >= HEADER_LEN {
      assert FrameBytes(payload)[..n][..HEADER_LEN] == ToBigEndian(|payload|, HEADER_LEN);
    }
  }

  /** What is read off the first `n` bytes: the whole frames among them, then a clean end if they are
      all of the bytes, and an unexpected one otherwise. */
  predicate CutsAt(payloads: seq<seq<byte>>, n: nat, maxBytes: nat)
    requires n <= |Wire(payloads)|
  {
    var k := WholeFrames(payloads, n);
    && |Wire(payloads[..k])| <= n
    && Drain(Wire(payloads)[..n], maxBytes)
       == (payloads[..k], if n == |Wire(payloads[..k])| then Clean else Broken(UnexpectedEof))
  }

  lemma CutInFirst(payloads: seq<seq<byte>>, n: nat, maxBytes: nat)
    requires payloads != [] && Sendable(payloads[0], maxBytes) && n < |FrameBytes(payloads[0])|
    ensures CutsAt(payloads, n, maxBytes)
  {
    assert payloads[..0] == [];
    assert Wire(payloads)[..n] == FrameBytes(payloads[0])[..n];
    if n > 0 { ParseTruncated(payloads[0], n, maxBytes); }
  }

  lemma CutLater(first: seq<byte>, rest: seq<seq<byte>>, n: nat, maxBytes: nat)
    requires Sendable(first, maxBytes) && n <= |Wire(rest)| && CutsAt(rest, n, maxBytes)
    requires [first] + rest != [] && ([first] + rest)[1..] == rest
    ensures CutsAt([first] + rest, |FrameBytes(first)| + n, maxBytes)
  {
    var k, tail := WholeFrames(rest, n), Wire(rest)[..n];
    WireOfMore(first, rest);
    assert Wire([first] + rest)[..|FrameBytes(first)| + n] == FrameBytes(first) + tail;
    DrainMore(first, tail, maxBytes);
    WholeFramesMore(first, rest, n);
    assert ([first] + rest)[..k + 1] == [first] + rest[..k];
    WireOfMore(first, rest[..k]);
  }

  lemma DrainMore(first: seq<byte>, tail: seq<byte>, maxBytes: nat)
    requires Sendable(first, maxBytes)
    ensures Drain(FrameBytes(first) + tail, maxBytes)
         == ([first] + Drain(tail, maxBytes).0, Drain(tail, maxBytes).1)
  {
    ParseWritten(first, tail, maxBytes);
  }

  lemma WholeFramesMore(first: seq<byte>, rest: seq<seq<byte>>, n: nat)
    ensures WholeFrames([first] + rest, |FrameBytes(first)| + n) == 1 + WholeFrames(rest, n)
  {
    assert ([first] + rest)[1..] == rest;
  }

  lemma WireOfMore(first: seq<byte>, rest: seq<seq<byte>>)
    ensures Wire([first] + rest) == FrameBytes(first) + Wire(rest)
  {
    assert ([first] + rest)[1..] == rest;
  }

  /** Cut anywhere, a stream of frames still yields the whole frames before the cut, and then ends
      cleanly exactly when the cut lies between two frames. */
  lemma {:induction false} CutStream(payloads: seq<seq<byte>>, n: nat, maxBytes: nat)
    requires forall p :: p in payloads ==> Sendable(p, maxBytes)
    requires n <= |Wire(payloads)|
    ensures CutsAt(payloads, n, maxBytes)
  {
    if payloads == [] {
      assert Wire(payloads)[..n] == [];
    } else if n < |FrameBytes(payloads[0])| {
      CutInFirst(payloads, n, maxBytes);
    } else {
      CutStream(payloads[1..], n - |FrameBytes(payloads[0])|, maxBytes);
      assert payloads == [payloads[0]] + payloads[1..];
      CutLater(payloads[0], payloads[1..], n - |FrameBytes(payloads[0])|, maxBytes);
    }
  }

  /** Uncut, it yields exactly the frames that were written. */
  lemma {:induction false} WholeStream(payloads: seq<seq<byte>>, maxBytes: nat)
    requires forall p :: p in payloads ==> Sendable(p, maxBytes)
    ensures Drain(Wire(payloads), maxBytes) == (payloads, Clean)
    decreases |payloads|
  {
    if payloads != [] {
      WholeStream(payloads[1..], maxBytes);
      assert payloads == [payloads[0]] + payloads[1..];
      ParseWritten(payloads[0], Wire(payloads[1..]), maxBytes);
    }
  }

  /** Why a frame is refused: a length of zero or above the limit is invalid, and whatever else is not a
      whole frame ended too soon. */
  lemma RejectedIff(data: seq<byte>, maxBytes: nat)
    ensures var length := FromBigEndian(data[..if |data| < 4 then 0 else 4]);
      && (ParseFrame(data, maxBytes) == EndOfStream <==> |data| == 0)
      && (ParseFrame(data, maxBytes) == Rejected(InvalidData) <==> |data| >= 4 && !(1 <= length <= maxBytes))
      && (ParseFrame(data, maxBytes) == Rejected(UnexpectedEof) <==>
            1 <= |data| < 4 || (|data| >= 4 && 1 <= length <= maxBytes && |data| < 4 + length))
  {}

  lemma ParsedFrameIsWritten(data: seq<byte>, maxBytes: nat)
    requires ParseFrame(data, maxBytes).Frame?
    ensures var f := ParseFrame(data, maxBytes);
            Sendable(f.payload, maxBytes) && data == FrameBytes(f.payload) + f.rest
  {
    Pow256Values();
    BigEndianUnique(data[..HEADER_LEN]);
    var f := ParseFrame(data, maxBytes);
    assert data == data[..HEADER_LEN] + f.payload + f.rest;
  }

  /** A stream that ends cleanly is nothing but the frames read off it: one wire form per list. */
  lemma {:induction false} CleanStreamIsWire(data: seq<byte>, maxBytes: nat)
    requires Drain(data, maxBytes).1 == Clean
    ensures data == Wire(Drain(data, maxBytes).0)
    ensures forall p :: p in Drain(data, maxBytes).0 ==> Sendable(p, maxBytes)
    decreases |data|
  {
    if ParseFrame(data, maxBytes).Frame? {
      ParsedFrameIsWritten(data, maxBytes);
      CleanStreamIsWire(ParseFrame(data, maxBytes).rest, maxBytes);
    }
  }
}
