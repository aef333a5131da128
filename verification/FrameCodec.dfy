/** Length-prefixed frames (src/device/gateway-secure-transport.ts). */
module FrameCodec {
  import opened Prelude

  // A payload stands for the UTF-8 text of one JSON message; which payloads parse to an object is the parameter `accepts`.

  const UINT32_LIMIT: nat := 0x1_0000_0000

  datatype FrameError = InvalidLength | NotAnObject

  /** What the parser remembers between two bytes: part of a header, or part of a body. */
  datatype State = Header(got: seq<byte>) | Body(expected: nat, got: seq<byte>)

  datatype Outcome = Outcome(state: State, messages: seq<seq<byte>>, error: Option<FrameError>)

  const Idle := Header([])

  ghost predicate ValidState(s: State, max: nat) {
    match s
    case Header(got) => |got| < 4
    case Body(expected, got) => 1 <= expected <= max && expected < UINT32_LIMIT && |got| < expected
  }

  function BigEndian(n: nat): (h: seq<byte>)
    requires n < UINT32_LIMIT
    ensures |h| == 4 && ReadUInt32(h) == n
  {
    var high, mid, low := n / 0x100_0000, n / 0x1_0000, n / 0x100;
    [high as byte, (mid - high * 0x100) as byte, (low - mid * 0x100) as byte, (n - low * 0x100) as byte]
  }

  function ReadUInt32(h: seq<byte>): (n: nat)
    requires |h| == 4
    ensures n < UINT32_LIMIT
  {
    ((h[0] as nat * 0x100 + h[1] as nat) * 0x100 + h[2] as nat) * 0x100 + h[3] as nat
  }

  lemma HeaderIsItsLength(h: seq<byte>)
    requires |h| == 4
    ensures BigEndian(ReadUInt32(h)) == h
  {
    var a, b, c, d := h[0] as nat, h[1] as nat, h[2] as nat, h[3] as nat;
    var n := ReadUInt32(h);
    assert n / 0x100_0000 == a && n / 0x1_0000 == a * 0x100 + b && n / 0x100 == (a * 0x100 + b) * 0x100 + c;
    assert h == [a as byte, b as byte, c as byte, d as byte];
  }

  predicate Sendable(payload: seq<byte>, max: nat) {
    1 <= |payload| <= max && |payload| < UINT32_LIMIT
  }

  /** The frame of a payload; None where the encoder throws. */
  function Encode(payload: seq<byte>, max: nat): Option<seq<byte>> {
    if Sendable(payload, max) then Some(BigEndian(|payload|) + payload) else None
  }

  /** What is on the wire: the length in four bytes, the most significant first, and then the payload. A payload is refused
      when it is empty, over the limit or too long for four bytes. */
  lemma WireFormat(payload: seq<byte>, max: nat)
    ensures Encode(payload, max).Some? <==> 1 <= |payload| <= max && |payload| < 0x1_0000_0000
    ensures Encode(payload, max).Some? ==>
      var frame := Encode(payload, max).value;
      && |frame| == 4 + |payload| && frame[4..] == payload
      && frame[0] as nat * 0x100_0000 + frame[1] as nat * 0x1_0000 + frame[2] as nat * 0x100 + frame[3] as nat == |payload|
  {
  }

  /** The encoder fills a fresh buffer: four length bytes, then the payload. */
  method EncodeJsonFrame(payload: seq<byte>, max: nat) returns (frame: Option<seq<byte>>)
    ensures frame == Encode(payload, max)
  {
    if |payload| < 1 || |payload| > max || |payload| >= UINT32_LIMIT {
      return None;
    }
    var buffer := new byte[4 + |payload|];
    var length := BigEndian(|payload|);
    forall i | 0 <= i < 4 {
      buffer[i] := length[i];
    }
    forall i | 4 <= i < 4 + |payload| {
      buffer[i] := payload[i - 4];
    }
    assert buffer[..] == BigEndian(|payload|) + payload;
    frame := Some(buffer[..]);
  }

  // ---- The parser, one byte at a time ----

  function Feed(accepts: seq<byte> -> bool, max: nat, s: State, b: byte): (o: Outcome)
    requires ValidState(s, max)
    ensures ValidState(o.state, max)
  {
    match s
    case Header(got) =>
      if |got| + 1 < 4 then Outcome(Header(got + [b]), [], None)
      else
        var length := ReadUInt32(got + [b]);
        if length < 1 || length > max then Outcome(Idle, [], Some(InvalidLength))
        else Outcome(Body(length, []), [], None)
    case Body(expected, got) =>
      if |got| + 1 < expected then Outcome(Body(expected, got + [b]), [], None)
      else if accepts(got + [b]) then Outcome(Idle, [got + [b]], None)
      else Outcome(Idle, [], Some(NotAnObject))
  }

  /** A whole chunk. An error drops the rest of the chunk. */
  function FeedAll(accepts: seq<byte> -> bool, max: nat, s: State, bytes: seq<byte>): (o: Outcome)
    requires ValidState(s, max)
    ensures ValidState(o.state, max)
    decreases |bytes|
  {
    if bytes == [] then Outcome(s, [], None)
    else
      var first := Feed(accepts, max, s, bytes[0]);
      if first.error.Some? then first
      else
        var rest := FeedAll(accepts, max, first.state, bytes[1..]);
        Outcome(rest.state, first.messages + rest.messages, rest.error)
  }

  /** A list of chunks, pushed until one of them fails. */
  function FeedChunks(accepts: seq<byte> -> bool, max: nat, s: State, chunks: seq<seq<byte>>): Outcome
    requires ValidState(s, max)
    decreases |chunks|
  {
    if chunks == [] then Outcome(s, [], None)
    else
      var first := FeedAll(accepts, max, s, chunks[0]);
      if first.error.Some? then first
      else
        var rest := FeedChunks(accepts, max, first.state, chunks[1..]);
        Outcome(rest.state, first.messages + rest.messages, rest.error)
  }

  /** Feeding more bytes after an outcome. */
  function Continue(accepts: seq<byte> -> bool, max: nat, first: Outcome, bytes: seq<byte>): Outcome
    requires ValidState(first.state, max)
  {
    if first.error.Some? then first
    else
      var rest := FeedAll(accepts, max, first.state, bytes);
      Outcome(rest.state, first.messages + rest.messages, rest.error)
  }

  /** Pushing a and then b is pushing a + b. */
  lemma {:induction false} PushIsCompositional(accepts: seq<byte> -> bool, max: nat, s: State, a: seq<byte>, b: seq<byte>)
    requires ValidState(s, max)
    ensures FeedAll(accepts, max, s, a + b) == Continue(accepts, max, FeedAll(accepts, max, s, a), b)
    decreases |a|
  {
    if a == [] {
      assert a + b == b;
      assert [] + FeedAll(accepts, max, s, b).messages == FeedAll(accepts, max, s, b).messages;
    } else {
      assert (a + b)[0] == a[0] && (a + b)[1..] == a[1..] + b;
      var step := Feed(accepts, max, s, a[0]);
      if step.error.None? {
        PushIsCompositional(accepts, max, step.state, a[1..], b);
        var mid := FeedAll(accepts, max, step.state, a[1..]);
        var last := FeedAll(accepts, max, mid.state, b);
        assert step.messages + (mid.messages + last.messages) == step.messages + mid.messages + last.messages;
      }
    }
  }

  /** How the bytes are cut into chunks does not matter. */
  lemma {:induction false} ChunkingIsIrrelevant(accepts: seq<byte> -> bool, max: nat, s: State, chunks: seq<seq<byte>>)
    requires ValidState(s, max)
    ensures FeedChunks(accepts, max, s, chunks) == FeedAll(accepts, max, s, Flatten(chunks))
    decreases |chunks|
  {
    if chunks != [] {
      PushIsCompositional(accepts, max, s, chunks[0], Flatten(chunks[1..]));
      var first := FeedAll(accepts, max, s, chunks[0]);
      if first.error.None? {
        ChunkingIsIrrelevant(accepts, max, first.state, chunks[1..]);
      }
    }
  }

  // ---- Bulk steps: a piece that does not complete the header or the body ----

  lemma MoveOne(got: seq<byte>, more: seq<byte>)
    requires more != []
    ensures got + [more[0]] + more[1..] == got + more
  {
  }

  lemma {:induction false} PartialHeader(accepts: seq<byte> -> bool, max: nat, got: seq<byte>, more: seq<byte>)
    requires |got| + |more| < 4
    ensures FeedAll(accepts, max, Header(got), more) == Outcome(Header(got + more), [], None)
    decreases |more|
  {
    if more == [] {
      assert got + more == got;
    } else {
      MoveOne(got, more);
      PartialHeader(accepts, max, got + [more[0]], more[1..]);
    }
  }

  lemma {:induction false} PartialBody(accepts: seq<byte> -> bool, max: nat, expected: nat, got: seq<byte>, more: seq<byte>)
    requires ValidState(Body(expected, got), max) && |got| + |more| < expected
    ensures FeedAll(accepts, max, Body(expected, got), more) == Outcome(Body(expected, got + more), [], None)
    decreases |more|
  {
    if more == [] {
      assert got + more == got;
    } else {
      MoveOne(got, more);
      PartialBody(accepts, max, expected, got + [more[0]], more[1..]);
    }
  }

  lemma FeedOne(accepts: seq<byte> -> bool, max: nat, s: State, b: byte)
    requires ValidState(s, max)
    ensures FeedAll(accepts, max, s, [b]) == Feed(accepts, max, s, b)
  {
    var first := Feed(accepts, max, s, b);
    assert FeedAll(accepts, max, first.state, []) == Outcome(first.state, [], None);
    assert [b][1..] == [];
  }

  lemma WholeHeader(accepts: seq<byte> -> bool, max: nat, got: seq<byte>, more: seq<byte>)
    requires |got| < 4 && |got| + |more| == 4
    ensures
      var length := ReadUInt32(got + more);
      FeedAll(accepts, max, Header(got), more) ==
      if length < 1 || length > max then Outcome(Idle, [], Some(InvalidLength)) else Outcome(Body(length, []), [], None)
  {
    var init, last := more[..|more| - 1], more[|more| - 1];
    assert more == init + [last] && got + init + [last] == got + more;
    PartialHeader(accepts, max, got, init);
    FeedOne(accepts, max, Header(got + init), last);
    PushIsCompositional(accepts, max, Header(got), init, [last]);
  }

  lemma WholeBody(accepts: seq<byte> -> bool, max: nat, expected: nat, got: seq<byte>, more: seq<byte>)
    requires ValidState(Body(expected, got), max) && |got| + |more| == expected
    ensures FeedAll(accepts, max, Body(expected, got), more) ==
      if accepts(got + more) then Outcome(Idle, [got + more], None) else Outcome(Idle, [], Some(NotAnObject))
  {
    var init, last := more[..|more| - 1], more[|more| - 1];
    assert more == init + [last] && got + init + [last] == got + more;
    PartialBody(accepts, max, expected, got, init);
    FeedOne(accepts, max, Body(expected, got + init), last);
    PushIsCompositional(accepts, max, Body(expected, got), init, [last]);
  }

  // ---- Round trips ----

  ghost predicate AllSendable(accepts: seq<byte> -> bool, max: nat, payloads: seq<seq<byte>>) {
    forall p <- payloads :: Sendable(p, max) && accepts(p)
  }

  /** The frames of a list of payloads, one after the other. */
  function Frames(payloads: seq<seq<byte>>, max: nat): seq<byte>
    requires forall p <- payloads :: Sendable(p, max)
  {
    if payloads == [] then [] else Encode(payloads[0], max).value + Frames(payloads[1..], max)
  }

  lemma OneFrame(accepts: seq<byte> -> bool, max: nat, payload: seq<byte>)
    requires Sendable(payload, max) && accepts(payload)
    ensures FeedAll(accepts, max, Idle, Encode(payload, max).value) == Outcome(Idle, [payload], None)
  {
    var head := BigEndian(|payload|);
    assert [] + head == head && [] + payload == payload;
    WholeHeader(accepts, max, [], head);
    WholeBody(accepts, max, |payload|, [], payload);
    PushIsCompositional(accepts, max, Idle, head, payload);
  }

  lemma {:induction false} FramesParse(accepts: seq<byte> -> bool, max: nat, payloads: seq<seq<byte>>)
    requires AllSendable(accepts, max, payloads)
    ensures FeedAll(accepts, max, Idle, Frames(payloads, max)) == Outcome(Idle, payloads, None)
  {
    if payloads != [] {
      OneFrame(accepts, max, payloads[0]);
      FramesParse(accepts, max, payloads[1..]);
      PushIsCompositional(accepts, max, Idle, Encode(payloads[0], max).value, Frames(payloads[1..], max));
      assert payloads == [payloads[0]] + payloads[1..];
    }
  }

  /** Any way of cutting the frames into chunks gives back exactly the payloads, in order, and leaves the parser idle. */
  lemma RoundTrip(accepts: seq<byte> -> bool, max: nat, payloads: seq<seq<byte>>, chunks: seq<seq<byte>>)
    requires AllSendable(accepts, max, payloads)
    requires Flatten(chunks) == Frames(payloads, max)
    ensures FeedChunks(accepts, max, Idle, chunks) == Outcome(Idle, payloads, None)
  {
    ChunkingIsIrrelevant(accepts, max, Idle, chunks);
    FramesParse(accepts, max, payloads);
  }

  /** After whole frames, a header that names no length from 1 to the limit, or a frame whose text is not accepted, is an
      error: the payloads before it are delivered, what follows it is dropped, and the parser is idle again. */
  lemma {:induction false} BadFrame(
    accepts: seq<byte> -> bool, max: nat, payloads: seq<seq<byte>>, bad: seq<byte>, more: seq<byte>, error: FrameError)
    requires AllSendable(accepts, max, payloads)
    requires
      || (error == InvalidLength && |bad| == 4 && !(1 <= ReadUInt32(bad) <= max))
      || (error == NotAnObject && exists p :: Sendable(p, max) && !accepts(p) && bad == BigEndian(|p|) + p)
    ensures FeedAll(accepts, max, Idle, Frames(payloads, max) + (bad + more)) == Outcome(Idle, payloads, Some(error))
  {
    BadAlone(accepts, max, bad, error);
    PushIsCompositional(accepts, max, Idle, bad, more);
    FramesParse(accepts, max, payloads);
    PushIsCompositional(accepts, max, Idle, Frames(payloads, max), bad + more);
    assert payloads + [] == payloads;
  }

  lemma {:induction false} BadAlone(accepts: seq<byte> -> bool, max: nat, bad: seq<byte>, error: FrameError)
    requires
      || (error == InvalidLength && |bad| == 4 && !(1 <= ReadUInt32(bad) <= max))
      || (error == NotAnObject && exists p :: Sendable(p, max) && !accepts(p) && bad == BigEndian(|p|) + p)
    ensures FeedAll(accepts, max, Idle, bad) == Outcome(Idle, [], Some(error))
  {
    if error == InvalidLength {
      assert [] + bad == bad;
      WholeHeader(accepts, max, [], bad);
    } else {
      var p :| Sendable(p, max) && !accepts(p) && bad == BigEndian(|p|) + p;
      var head := BigEndian(|p|);
      assert [] + head == head && [] + p == p;
      WholeHeader(accepts, max, [], head);
      WholeBody(accepts, max, |p|, [], p);
      PushIsCompositional(accepts, max, Idle, head, p);
    }
  }

  /** The bytes of an unfinished frame. */
  function Pending(s: State, max: nat): seq<byte>
    requires ValidState(s, max)
  {
    match s
    case Header(got) => got
    case Body(expected, got) => BigEndian(expected) + got
  }

  lemma {:induction false} FramesConcat(max: nat, a: seq<seq<byte>>, b: seq<seq<byte>>)
    requires forall p <- a + b :: Sendable(p, max)
    ensures (forall p <- a :: Sendable(p, max)) && (forall p <- b :: Sendable(p, max))
    ensures Frames(a + b, max) == Frames(a, max) + Frames(b, max)
  {
    forall p | p in a || p in b ensures Sendable(p, max) {
      assert p in a + b;
    }
    if a == [] {
      assert a + b == b;
    } else {
      assert (a + b)[1..] == a[1..] + b;
      FramesConcat(max, a[1..], b);
    }
  }

  lemma FeedAccounts(accepts: seq<byte> -> bool, max: nat, s: State, b: byte)
    requires ValidState(s, max)
    ensures
      var o := Feed(accepts, max, s, b);
      o.error.None? ==>
        && (forall p <- o.messages :: Sendable(p, max) && accepts(p))
        && Pending(s, max) + [b] == Frames(o.messages, max) + Pending(o.state, max)
  {
    var o := Feed(accepts, max, s, b);
    if o.error.None? {
      match s
      case Header(got) =>
        if |got| == 3 {
          HeaderIsItsLength(got + [b]);
        }
      case Body(expected, got) =>
        if |got| + 1 == expected {
          var p := got + [b];
          assert o.messages == [p] && [p][1..] == [];
          assert Frames([p], max) == BigEndian(|p|) + p;
        }
    }
  }

  lemma Reassociate(p: seq<byte>, head: seq<byte>, tail: seq<byte>, f: seq<byte>, q: seq<byte>, g: seq<byte>, r: seq<byte>)
    requires p + head == f + q && q + tail == g + r
    ensures p + (head + tail) == f + g + r
  {
    calc {
      p + (head + tail);
      (p + head) + tail;
      (f + q) + tail;
      f + (q + tail);
      f + (g + r);
      f + g + r;
    }
  }

  /** Nothing is invented or lost: an error-free stream is the frames of what was delivered plus one unfinished frame. */
  lemma {:induction false} DeliveredAccountsForInput(accepts: seq<byte> -> bool, max: nat, s: State, bytes: seq<byte>)
    requires ValidState(s, max)
    ensures
      var o := FeedAll(accepts, max, s, bytes);
      o.error.None? ==>
        && AllSendable(accepts, max, o.messages)
        && Pending(s, max) + bytes == Frames(o.messages, max) + Pending(o.state, max)
    decreases |bytes|
  {
    var o := FeedAll(accepts, max, s, bytes);
    if bytes == [] {
      assert Pending(s, max) + bytes == Frames([], max) + Pending(s, max);
    } else if o.error.None? {
      var first := Feed(accepts, max, s, bytes[0]);
      var rest := FeedAll(accepts, max, first.state, bytes[1..]);
      FeedAccounts(accepts, max, s, bytes[0]);
      DeliveredAccountsForInput(accepts, max, first.state, bytes[1..]);
      FramesConcat(max, first.messages, rest.messages);
      Reassociate(Pending(s, max), [bytes[0]], bytes[1..], Frames(first.messages, max), Pending(first.state, max),
                  Frames(rest.messages, max), Pending(o.state, max));
      assert [bytes[0]] + bytes[1..] == bytes;
    }
  }

  // ---- The parser as written: a fixed header buffer and a list of body parts ----

  class JsonFrameParser {
    const accepts: seq<byte> -> bool
    const maxMessageBytes: nat
    const header: array<byte>
    var headerBytes: nat
    var expectedLength: Option<nat>
    var bodyBytes: nat
    var bodyParts: seq<seq<byte>>

    ghost predicate Valid()
      reads this
    {
      && header.Length == 4
      && headerBytes < 4
      && (expectedLength.Some? ==>
          && headerBytes == 0
          && bodyBytes == |Flatten(bodyParts)| < expectedLength.value <= maxMessageBytes
          && expectedLength.value < UINT32_LIMIT)
    }

    /** Never more than maxMessageBytes of body are held. */
    ghost function Abstract(): (s: State)
      requires Valid()
      reads this, header
      ensures ValidState(s, maxMessageBytes)
      ensures s.Body? ==> |s.got| == bodyBytes < maxMessageBytes
    {
      if expectedLength.Some? then Body(expectedLength.value, Flatten(bodyParts)) else Header(header[..headerBytes])
    }

    constructor (accepts: seq<byte> -> bool, maxMessageBytes: nat)
      ensures Valid() && fresh(header) && Abstract() == Idle
      ensures this.accepts == accepts && this.maxMessageBytes == maxMessageBytes
    {
      this.accepts, this.maxMessageBytes := accepts, maxMessageBytes;
      header := new byte[4];
      headerBytes, expectedLength, bodyBytes, bodyParts := 0, None, 0, [];
    }

    /** Copies header bytes out of the chunk, up to the fourth. */
    method TakeHeader(chunk: seq<byte>, offset: nat) returns (next: nat, error: Option<FrameError>)
      requires Valid() && expectedLength.None? && offset < |chunk|
      modifies this, header
      ensures Valid() && offset < next <= |chunk|
      ensures Outcome(Abstract(), [], error) == FeedAll(accepts, maxMessageBytes, old(Abstract()), chunk[offset..next])
    {
      var take := if 4 - headerBytes < |chunk| - offset then 4 - headerBytes else |chunk| - offset;
      ghost var got, more := header[..headerBytes], chunk[offset..offset + take];
      forall i | 0 <= i < take {
        header[headerBytes + i] := chunk[offset + i];
      }
      assert header[..headerBytes + take] == got + more && |got| + |more| == headerBytes + take;
      headerBytes := headerBytes + take;
      next, error := offset + take, None;
      if headerBytes < 4 {
        PartialHeader(accepts, maxMessageBytes, got, more);
        return;
      }
      WholeHeader(accepts, maxMessageBytes, got, more);
      assert header[..] == header[..4];
      var length := ReadUInt32(header[..]);
      headerBytes := 0;
      if length < 1 || length > maxMessageBytes {
        error := Some(InvalidLength);
        return;
      }
      expectedLength, bodyBytes, bodyParts := Some(length), 0, [];
    }

    /** Takes body bytes out of the chunk, up to the end of the body. */
    method TakeBody(chunk: seq<byte>, offset: nat)
      returns (next: nat, messages: seq<seq<byte>>, error: Option<FrameError>)
      requires Valid() && expectedLength.Some? && offset < |chunk|
      modifies this
      ensures Valid() && offset < next <= |chunk|
      ensures Outcome(Abstract(), messages, error) == FeedAll(accepts, maxMessageBytes, old(Abstract()), chunk[offset..next])
    {
      var remaining := expectedLength.value - bodyBytes;
      var take := if remaining < |chunk| - offset then remaining else |chunk| - offset;
      ghost var got, more := Flatten(bodyParts), chunk[offset..offset + take];
      FlattenConcat(bodyParts, [more]);
      assert Flatten([more]) == more;
      bodyParts := bodyParts + [chunk[offset..offset + take]];
      bodyBytes := bodyBytes + take;
      next, messages, error := offset + take, [], None;
      if bodyBytes != expectedLength.value {
        PartialBody(accepts, maxMessageBytes, expectedLength.value, got, more);
        return;
      }
      WholeBody(accepts, maxMessageBytes, expectedLength.value, got, more);
      var text := Flatten(bodyParts);
      expectedLength, bodyBytes, bodyParts := None, 0, [];
      if !accepts(text) {
        error := Some(NotAnObject);
        return;
      }
      messages := [text];
    }

    /** Pushing a chunk is feeding its bytes one by one. */
    method Push(chunk: seq<byte>) returns (messages: seq<seq<byte>>, error: Option<FrameError>)
      requires Valid()
      modifies this, header
      ensures Valid()
      ensures Outcome(Abstract(), messages, error) == FeedAll(accepts, maxMessageBytes, old(Abstract()), chunk)
    {
      messages, error := [], None;
      var offset := 0;
      ghost var start := Abstract();
      while offset < |chunk|
        invariant 0 <= offset <= |chunk| && Valid() && error.None?
        invariant Outcome(Abstract(), messages, None) == FeedAll(accepts, maxMessageBytes, start, chunk[..offset])
        decreases |chunk| - offset
      {
        var next, delivered := offset, [];
        if expectedLength.None? {
          next, error := TakeHeader(chunk, offset);
        } else {
          next, delivered, error := TakeBody(chunk, offset);
        }
        Consume(accepts, maxMessageBytes, start, chunk, offset, next);
        messages := messages + delivered;
        offset := next;
        if error.Some? {
          SplitAt(chunk, offset);
          ErrorDropsTheRest(accepts, maxMessageBytes, start, chunk[..offset], chunk[offset..], chunk);
          return;
        }
      }
      assert chunk[..offset] == chunk;
    }
  }

  /** One loop iteration, seen from the start of the chunk. */
  lemma {:induction false} Consume(accepts: seq<byte> -> bool, max: nat, s: State, chunk: seq<byte>, offset: nat, next: nat)
    requires ValidState(s, max) && offset <= next <= |chunk|
    ensures FeedAll(accepts, max, s, chunk[..next]) ==
      Continue(accepts, max, FeedAll(accepts, max, s, chunk[..offset]), chunk[offset..next])
  {
    assert chunk[..next] == chunk[..offset] + chunk[offset..next];
    PushIsCompositional(accepts, max, s, chunk[..offset], chunk[offset..next]);
  }

  lemma ErrorDropsTheRest(accepts: seq<byte> -> bool, max: nat, s: State, seen: seq<byte>, rest: seq<byte>, chunk: seq<byte>)
    requires ValidState(s, max) && chunk == seen + rest
    requires FeedAll(accepts, max, s, seen).error.Some?
    ensures FeedAll(accepts, max, s, chunk) == FeedAll(accepts, max, s, seen)
  {
    PushIsCompositional(accepts, max, s, seen, rest);
  }

  lemma SplitAt(chunk: seq<byte>, offset: nat)
    requires offset <= |chunk|
    ensures chunk == chunk[..offset] + chunk[offset..]
  {
  }
}
