/** The per-connection stream framer of modserver.ts (Client.handleRawData):
    it reassembles [u16 LE type][u16 LE length][length bytes] packets from
    the chunks a stream transport delivers, however they are split. */
module Framer {
  import opened Bytes

  /** A reassembled packet as handed to ModServer.handleData. */
  datatype Packet = Packet(kind: int, body: seq<byte>)

  /** The four private fields of a Client. */
  datatype Phase = Phase(waitingType: int, waitingBytes: nat, waitingBuffer: seq<byte>, waitingForData: bool)

  /** Waiting for a four-byte header with an empty accumulator; the type field
      keeps the last packet's type, which nothing reads before the next header. */
  function Header(lastType: int): Phase
  {
    Phase(lastType, 4, [], false)
  }

  /** A new Client. */
  const Initial := Header(0)

  /** What the loop keeps between chunks: in the header phase the accumulator
      and the bytes still wanted make up the four header bytes and at least one
      is still wanted; in the body phase they make up a length below 2^16. */
  predicate Valid(s: Phase)
  {
    && 0 <= s.waitingType < 0x1_0000
    && if s.waitingForData then |s.waitingBuffer| + s.waitingBytes < 0x1_0000
       else 1 <= s.waitingBytes && |s.waitingBuffer| + s.waitingBytes == 4
  }

  /** The state a chunk leaves behind and the packets it dispatches, in order. */
  datatype Fed = Fed(state: Phase, packets: seq<Packet>)

  /** Packets dispatched earlier, followed by what a later feed produces. */
  function After(earlier: seq<Packet>, f: Fed): Fed
  {
    Fed(f.state, earlier + f.packets)
  }

  /** A body-phase state that has nothing left to wait for: its packet goes
      out on the next loop iteration without consuming a byte. */
  function Stalled(s: Phase): nat
  {
    if s.waitingForData && s.waitingBytes == 0 then 1 else 0
  }

  /** The outcome of one loop iteration: the chunk ran out before the
      accumulator was full, or a segment completed and `rest` is still to go. */
  datatype Move =
    | Wait(next: Phase)
    | Continue(next: Phase, out: seq<Packet>, rest: seq<byte>)

  /** One iteration of the loop of handleRawData on a non-empty chunk: move
      min(waitingBytes, |data|) bytes into the accumulator; a full header sets
      the type and the body length, a full body is dispatched. */
  function Advance(s: Phase, data: seq<byte>): (m: Move)
    requires Valid(s) && |data| > 0
    ensures Valid(m.next)
    ensures m.Wait? <==> s.waitingBytes > |data|
    ensures m.Continue? ==> |m.rest| + s.waitingBytes == |data|
    ensures m.Continue? ==> |m.out| == (if s.waitingForData then 1 else 0)
    ensures m.Continue? && s.waitingBytes == 0 ==> Stalled(m.next) < Stalled(s)
  {
    var take := if s.waitingBytes < |data| then s.waitingBytes else |data|;
    var wanted := s.waitingBytes - take;
    var buffer := s.waitingBuffer + data[..take];
    if wanted != 0 then Wait(Phase(s.waitingType, wanted, buffer, s.waitingForData))
    else if !s.waitingForData then
      Continue(Phase(FromLE(buffer[..2]), FromLE(buffer[2..4]), [], true), [], data[take..])
    else
      Continue(Phase(s.waitingType, 4, [], false), [Packet(s.waitingType, buffer)], data[take..])
  }

  /** handleRawData on one chunk: iterations until the chunk is used up. */
  function Feed(s: Phase, data: seq<byte>): (r: Fed)
    requires Valid(s)
    ensures Valid(r.state)
    decreases |data|, Stalled(s)
  {
    if |data| == 0 then Fed(s, [])
    else match Advance(s, data)
      case Wait(next) => Fed(next, [])
      case Continue(next, out, rest) => After(out, Feed(next, rest))
  }

  /** A completed segment hands the rest of the chunk to the next iteration. */
  lemma FeedContinue(s: Phase, data: seq<byte>)
    requires Valid(s) && |data| > 0 && Advance(s, data).Continue?
    ensures Feed(s, data) == After(Advance(s, data).out, Feed(Advance(s, data).next, Advance(s, data).rest))
  {
  }

  /** A chunk that ends before the segment completes is kept in the accumulator. */
  lemma FeedWait(s: Phase, data: seq<byte>)
    requires Valid(s) && |data| > 0 && Advance(s, data).Wait?
    ensures Feed(s, data) == Fed(Advance(s, data).next, [])
  {
  }

  /** The loop of handleRawData after an iteration that completed a segment. */
  lemma ContinueChain(s: Phase, data: seq<byte>, sent: seq<Packet>, before: Phase, chunk: seq<byte>)
    requires Valid(s) && Valid(before) && |chunk| > 0 && Advance(before, chunk).Continue?
    requires Feed(s, data) == After(sent, Feed(before, chunk))
    ensures
      var m := Advance(before, chunk);
      Feed(s, data) == After(sent + m.out, Feed(m.next, m.rest))
  {
    FeedContinue(before, chunk);
  }

  /** The loop of handleRawData after an iteration that used up the chunk. */
  lemma WaitChain(s: Phase, data: seq<byte>, sent: seq<Packet>, before: Phase, chunk: seq<byte>)
    requires Valid(s) && Valid(before) && |chunk| > 0 && Advance(before, chunk).Wait?
    requires Feed(s, data) == After(sent, Feed(before, chunk))
    ensures Feed(s, data) == Fed(Advance(before, chunk).next, sent)
  {
    FeedWait(before, chunk);
  }

  /** A chunk shorter than what is wanted only fills the accumulator, so a
      following chunk continues exactly where the joined chunk would. */
  lemma AdvanceShort(s: Phase, a: seq<byte>, b: seq<byte>)
    requires Valid(s) && 0 < |a| < s.waitingBytes && |b| > 0
    ensures Advance(s, a) == Wait(Phase(s.waitingType, s.waitingBytes - |a|, s.waitingBuffer + a, s.waitingForData))
    ensures Advance(s, a + b) == Advance(Advance(s, a).next, b)
  {
    assert a[..|a|] == a;
    var mid := Advance(s, a).next;
    var takeB := if mid.waitingBytes < |b| then mid.waitingBytes else |b|;
    var take := |a| + takeB;
    assert take == if s.waitingBytes < |a + b| then s.waitingBytes else |a + b|;
    assert s.waitingBytes - take == mid.waitingBytes - takeB;
    assert (a + b)[..take] == a + b[..takeB];
    assert s.waitingBuffer + (a + b)[..take] == mid.waitingBuffer + b[..takeB];
    assert (a + b)[take..] == b[takeB..];
  }

  /** A chunk that completes the current segment completes it the same way
      when more bytes follow it; those bytes join what is still to go. */
  lemma AdvanceLong(s: Phase, a: seq<byte>, b: seq<byte>)
    requires Valid(s) && 0 < |a| && s.waitingBytes <= |a|
    ensures Advance(s, a).Continue?
    ensures Advance(s, a + b) == Advance(s, a).(rest := Advance(s, a).rest + b)
  {
    var take := s.waitingBytes;
    assert (a + b)[..take] == a[..take];
    assert (a + b)[take..] == a[take..] + b;
  }

  /** Two chunks that make the same first move are fed the same way. */
  lemma FeedSameMove(s: Phase, x: seq<byte>, t: Phase, y: seq<byte>)
    requires Valid(s) && Valid(t) && |x| > 0 && |y| > 0 && Advance(s, x) == Advance(t, y)
    ensures Feed(s, x) == Feed(t, y)
  {
    if Advance(s, x).Wait? {
      FeedWait(s, x);
      FeedWait(t, y);
    } else {
      FeedContinue(s, x);
      FeedContinue(t, y);
    }
  }

  /** Prepending packet runs one after the other prepends their join. */
  lemma AfterAfter(x: seq<Packet>, y: seq<Packet>, f: Fed)
    ensures After(x, After(y, f)) == After(x + y, f)
  {
    assert x + (y + f.packets) == (x + y) + f.packets;
  }

  /** Feeding two chunks one after the other joins their packets and ends where
      the second feed ends. */
  predicate SplitsLikeJoined(s: Phase, a: seq<byte>, b: seq<byte>)
    requires Valid(s)
  {
    Feed(s, a + b) == After(Feed(s, a).packets, Feed(Feed(s, a).state, b))
  }

  /** The split law when a only fills the accumulator. */
  lemma SplitShort(s: Phase, a: seq<byte>, b: seq<byte>)
    requires Valid(s) && 0 < |a| < s.waitingBytes
    ensures SplitsLikeJoined(s, a, b)
  {
    FeedWait(s, a);
    var mid := Advance(s, a).next;
    if |b| == 0 {
      assert a + b == a;
      assert Feed(mid, b) == Fed(mid, []);
    } else {
      AdvanceShort(s, a, b);
      FeedSameMove(s, a + b, mid, b);
      assert [] + Feed(mid, b).packets == Feed(mid, b).packets;
    }
  }

  /** The split law when a completes a segment, given the law for the rest of a. */
  lemma SplitLong(s: Phase, a: seq<byte>, b: seq<byte>)
    requires Valid(s) && 0 < |a| && s.waitingBytes <= |a|
    requires Advance(s, a).Continue?
    requires SplitsLikeJoined(Advance(s, a).next, Advance(s, a).rest, b)
    ensures SplitsLikeJoined(s, a, b)
  {
    AdvanceLong(s, a, b);
    var m := Advance(s, a);
    FeedContinue(s, a);
    FeedContinue(s, a + b);
    var first := Feed(m.next, m.rest);
    AfterAfter(m.out, first.packets, Feed(first.state, b));
  }

  /** Feeding chunk a and then chunk b ends in the same state, with the same
      packets in the same order, as feeding a ++ b in one go. */
  lemma {:induction false} FeedSplit(s: Phase, a: seq<byte>, b: seq<byte>)
    requires Valid(s)
    ensures Feed(s, a + b) == After(Feed(s, a).packets, Feed(Feed(s, a).state, b))
    decreases |a|, Stalled(s)
  {
    if |a| == 0 {
      assert a + b == b;
      assert [] + Feed(s, b).packets == Feed(s, b).packets;
    } else if s.waitingBytes > |a| {
      SplitShort(s, a, b);
    } else {
      AdvanceLong(s, a, b);
      var m := Advance(s, a);
      FeedSplit(m.next, m.rest, b);
      SplitLong(s, a, b);
    }
  }

  /** The wire form of a packet: type and body length as u16 LE, then the body. */
  function Frame(p: Packet): (r: seq<byte>)
    ensures |r| == 4 + |p.body|
  {
    LE(p.kind, 2) + LE(|p.body|, 2) + p.body
  }

  /** A packet that the 16-bit header fields can describe. */
  predicate Framable(p: Packet)
  {
    0 <= p.kind < 0x1_0000 && |p.body| < 0x1_0000
  }

  /** Four header bytes take a header-phase state to the body phase with the
      declared type and length; the bytes after them are still to go. */
  lemma HeaderRead(lastType: int, kind: int, length: int, rest: seq<byte>) returns (bodyPhase: Phase)
    requires Valid(Header(lastType))
    requires 0 <= kind < 0x1_0000 && 0 <= length < 0x1_0000
    ensures bodyPhase == Phase(kind, length, [], true)
    ensures Advance(Header(lastType), LE(kind, 2) + LE(length, 2) + rest) == Continue(bodyPhase, [], rest)
  {
    bodyPhase := Phase(kind, length, [], true);
    var data := LE(kind, 2) + LE(length, 2) + rest;
    var buffer := Header(lastType).waitingBuffer + data[..4];
    assert buffer == LE(kind, 2) + LE(length, 2);
    assert buffer[..2] == LE(kind, 2) && buffer[2..4] == LE(length, 2);
    assert data[4..] == rest;
    U16RoundTrip(kind);
    U16RoundTrip(length);
    assert FromLE(buffer[..2]) == kind && FromLE(buffer[2..4]) == length;
  }

  /** Waiting for a header, a framed packet is dispatched intact once its body
      is complete, provided a byte follows when the body is empty; the framer
      then waits for the next header. */
  lemma FeedFrame(lastType: int, p: Packet, rest: seq<byte>)
    requires Valid(Header(lastType)) && Framable(p) && (|p.body| > 0 || |rest| > 0)
    ensures Feed(Header(lastType), Frame(p) + rest) == After([p], Feed(Header(p.kind), rest))
  {
    FeedHeader(lastType, p, rest);
    FeedBody(p, rest);
  }

  /** The header of a framed packet takes the framer to its body phase. */
  lemma FeedHeader(lastType: int, p: Packet, rest: seq<byte>)
    requires Valid(Header(lastType)) && Framable(p)
    ensures Feed(Header(lastType), Frame(p) + rest) == Feed(Phase(p.kind, |p.body|, [], true), p.body + rest)
  {
    var data := Frame(p) + rest;
    assert data == LE(p.kind, 2) + LE(|p.body|, 2) + (p.body + rest);
    var _ := HeaderRead(lastType, p.kind, |p.body|, p.body + rest);
    FeedContinue(Header(lastType), data);
  }

  /** In the body phase a complete body is dispatched as one packet. */
  lemma FeedBody(p: Packet, rest: seq<byte>)
    requires Framable(p) && (|p.body| > 0 || |rest| > 0)
    ensures Feed(Phase(p.kind, |p.body|, [], true), p.body + rest) == After([p], Feed(Header(p.kind), rest))
  {
    var tail := p.body + rest;
    var bodyPhase := Phase(p.kind, |p.body|, [], true);
    assert tail[..|p.body|] == p.body;
    assert tail[|p.body|..] == rest;
    assert [] + p.body == p.body;
    assert Advance(bodyPhase, tail) == Continue(Header(p.kind), [p], rest);
    FeedContinue(bodyPhase, tail);
  }

  /** A body-length field of zero leaves the framer holding an empty packet
      that only goes out when a further byte arrives. */
  lemma EmptyBodyWaits(kind: int, b: byte)
    requires 0 <= kind < 0x1_0000
    ensures Feed(Initial, Frame(Packet(kind, []))) == Fed(Phase(kind, 0, [], true), [])
    ensures Feed(Phase(kind, 0, [], true), [b]).packets == [Packet(kind, [])]
  {
    assert Frame(Packet(kind, [])) == LE(kind, 2) + LE(0, 2) + [];
    var stalled := HeaderRead(0, kind, 0, []);
    assert [b][..0] == [] && [b][0..] == [b];
    assert stalled.waitingBuffer + [b][..0] == [];
    assert Advance(stalled, [b]) == Continue(Header(kind), [Packet(kind, [])], [b]);
    assert Advance(Header(kind), [b]).Wait?;
  }

  /** The wire form of a sequence of packets. */
  function Frames(ps: seq<Packet>): (r: seq<byte>)
  {
    if ps == [] then [] else Frame(ps[0]) + Frames(ps[1..])
  }

  /** A stream of framed packets is dispatched packet for packet, provided the
      last one has a body (see EmptyBodyWaits). */
  lemma {:induction false} FeedFrames(lastType: int, ps: seq<Packet>)
    requires 0 <= lastType < 0x1_0000
    requires forall i :: 0 <= i < |ps| ==> Framable(ps[i])
    requires ps != [] ==> |ps[|ps| - 1].body| > 0
    ensures Feed(Header(lastType), Frames(ps)) == Fed(Header(if ps == [] then lastType else ps[|ps| - 1].kind), ps)
    decreases |ps|
  {
    if ps != [] {
      var tail := ps[1..];
      assert tail != [] ==> tail[|tail| - 1] == ps[|ps| - 1];
      FeedFrames(ps[0].kind, tail);
      if |ps[0].body| == 0 {
        assert tail != [];
        assert |Frames(tail)| >= 4 + |tail[0].body|;
      }
      FeedFrame(lastType, ps[0], Frames(tail));
    }
  }

  /** Chunks delivered one after another. */
  function Concat(chunks: seq<seq<byte>>): seq<byte>
  {
    if chunks == [] then [] else chunks[0] + Concat(chunks[1..])
  }

  /** handleRawData called once per chunk, carrying the state along. */
  function FeedAll(s: Phase, chunks: seq<seq<byte>>): Fed
    requires Valid(s)
    decreases |chunks|
  {
    if chunks == [] then Fed(s, [])
    else
      var first := Feed(s, chunks[0]);
      After(first.packets, FeedAll(first.state, chunks[1..]))
  }

  /** However the transport splits the stream, the framer ends in the same
      state and dispatches the same packets as for the unsplit stream. */
  lemma {:induction false} ChunkingIrrelevant(s: Phase, chunks: seq<seq<byte>>)
    requires Valid(s)
    ensures FeedAll(s, chunks) == Feed(s, Concat(chunks))
    decreases |chunks|
  {
    if chunks != [] {
      var first := Feed(s, chunks[0]);
      ChunkingIrrelevant(first.state, chunks[1..]);
      FeedSplit(s, chunks[0], Concat(chunks[1..]));
    }
  }

  /** Client.handleRawData with the client's fields. The dispatched packets are
      returned in order instead of being passed to ModServer.handleData. */
  class Client {
    var waitingType: int
    var waitingBytes: nat
    var waitingBuffer: seq<byte>
    var waitingForData: bool

    function State(): Phase
      reads this
    {
      Phase(waitingType, waitingBytes, waitingBuffer, waitingForData)
    }

    constructor ()
      ensures State() == Initial
    {
      waitingType := 0;
      waitingBytes := 4;
      waitingBuffer := [];
      waitingForData := false;
    }

    /** One iteration of the loop of handleRawData: takes what the accumulator
        still wants from the chunk; a full header sets the type and the body
        length, a full body is handed out. `wait` is the early return. */
    method Iterate(chunk: seq<byte>) returns (rest: seq<byte>, out: seq<Packet>, wait: bool)
      requires Valid(State()) && |chunk| > 0
      modifies this
      ensures Advance(old(State()), chunk) == if wait then Wait(State()) else Continue(State(), out, rest)
    {
      var take := if waitingBytes < |chunk| then waitingBytes else |chunk|;
      var newBytes := chunk[..take];
      rest := chunk[take..];
      waitingBytes := waitingBytes - take;
      waitingBuffer := waitingBuffer + newBytes;
      out := [];
      if waitingBytes != 0 {
        return rest, out, true;
      }
      if !waitingForData {
        waitingType := FromLE(waitingBuffer[..2]);
        waitingBytes := FromLE(waitingBuffer[2..4]);
      } else {
        out := [Packet(waitingType, waitingBuffer)];
        waitingBytes := 4;
      }
      waitingForData := !waitingForData;
      waitingBuffer := [];
      wait := false;
    }

    method HandleRawData(data: seq<byte>) returns (dispatched: seq<Packet>)
      requires Valid(State())
      modifies this
      ensures Valid(State())
      ensures Fed(State(), dispatched) == Feed(old(State()), data)
    {
      dispatched := [];
      var rest := data;
      assert [] + Feed(State(), rest).packets == Feed(State(), rest).packets;
      while |rest| != 0
        invariant Valid(State())
        invariant Feed(old(State()), data) == After(dispatched, Feed(State(), rest))
        decreases |rest|, Stalled(State())
      {
        ghost var before, chunk, sent := State(), rest, dispatched;
        var out, wait;
        rest, out, wait := Iterate(rest);
        if wait {
          WaitChain(old(State()), data, sent, before, chunk);
          return;
        }
        dispatched := dispatched + out;
        ContinueChain(old(State()), data, sent, before, chunk);
      }
    }
  }
}
