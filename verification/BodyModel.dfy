/** One HTTP/3 response body as a machine over byte counts: what the chunked buffer, the send
    call and the two nghttp3 callbacks do to it, and what holds over every run. */
module BodyModel {
  import opened Bytes

  const CHUNK_SIZE := 65536
  const MAX_BUFFER_SIZE := 10 * 1024 * 1024

  /** Positions are absolute from the start of the stream. Chunk i covers the positions from
      i * CHUNK_SIZE on; `freed` is where the first chunk still allocated starts. */
  datatype Body = Body(written: seq<Byte>, consumed: nat, acked: nat, freed: nat, eof: bool)

  const EMPTY := Body([], 0, 0, 0, false)

  /** Where chunk `i` starts in the stream. */
  function ChunkStart(i: nat): nat {
    i * CHUNK_SIZE
  }

  function Min(a: int, b: int): int {
    if a <= b then a else b
  }

  // ---- Writing ----------------------------------------------------------------------------

  /** Free space in the chunk being written. */
  function Room(b: Body): nat {
    (CHUNK_SIZE - |b.written| % CHUNK_SIZE) % CHUNK_SIZE
  }

  /** How much of `len` bytes fits when the allocator grants `granted` more chunks. */
  function Accepted(b: Body, len: nat, granted: nat): (r: nat)
    ensures r <= len
  {
    Min(len, Room(b) + granted * CHUNK_SIZE)
  }

  function Write(b: Body, data: seq<Byte>, granted: nat): Body {
    b.(written := b.written + data[..Accepted(b, |data|, granted)])
  }

  function MemoryUsage(b: Body): nat {
    if |b.written| > b.freed then |b.written| - b.freed else 0
  }

  predicate CanWrite(b: Body, len: nat) {
    MemoryUsage(b) + len <= MAX_BUFFER_SIZE
  }

  datatype Code = Ok | WouldBlock | NoMemory | NoStream

  /** The response API: the backpressure gate, the write, and the end-of-body mark. */
  function Send(b: Body, data: seq<Byte>, granted: nat, eof: bool): (Code, Body) {
    if |data| > 0 && !CanWrite(b, |data|) then (WouldBlock, b)
    else
      var b1 := Write(b, data, granted);
      if Accepted(b, |data|, granted) < |data| then (NoMemory, b1)
      else (Ok, if eof then b1.(eof := true) else b1)
  }

  // ---- Reading ----------------------------------------------------------------------------

  /** What a read hands out: bytes of one chunk, and whether the body ends with them. */
  datatype ReadResult = Blocked | Data(start: nat, bytes: seq<Byte>, eof: bool)

  function ChunkEnd(b: Body, p: nat): nat {
    Min(|b.written|, (p / CHUNK_SIZE + 1) * CHUNK_SIZE)
  }

  function Read(b: Body): ReadResult {
    if b.freed <= b.consumed < |b.written| then
      var end := ChunkEnd(b, b.consumed);
      Data(b.consumed, b.written[b.consumed..end], b.eof && end >= |b.written|)
    else if b.eof then Data(b.consumed, [], true)
    else Blocked
  }

  function Consume(b: Body, bytes: nat): Body {
    var available := if |b.written| > b.consumed then |b.written| - b.consumed else 0;
    b.(consumed := b.consumed + Min(bytes, available))
  }

  // ---- Acknowledging and freeing ----------------------------------------------------------

  function Ack(b: Body, bytes: nat): Body {
    b.(acked := b.acked + bytes)
  }

  predicate HeadIsFreeable(b: Body) {
    |b.written| > b.freed + CHUNK_SIZE && b.freed + CHUNK_SIZE <= b.acked
  }

  /** Free leading chunks that are acknowledged as a whole, but never the one being written. */
  function Flush(b: Body): Body
    decreases |b.written| - b.freed
  {
    if HeadIsFreeable(b) then Flush(b.(freed := b.freed + CHUNK_SIZE)) else b
  }

  lemma {:induction false} FlushTwice(b: Body)
    ensures Flush(Flush(b)) == Flush(b)
    decreases |b.written| - b.freed
  {
    if HeadIsFreeable(b) { FlushTwice(b.(freed := b.freed + CHUNK_SIZE)); }
  }

  // ---- Runs -------------------------------------------------------------------------------

  datatype Event =
    | SendBody(data: seq<Byte>, granted: nat, eof: bool)
    | ReadBody
    | AckBody(bytes: nat)
    | FlushBody

  datatype Piece = Piece(start: nat, bytes: seq<Byte>)

  /** A body with its history: the pieces handed to nghttp3, the data accepted by the API, whether
      the end of the body has been announced, and whether data was accepted after the end mark. */
  datatype Session = Session(body: Body, pieces: seq<Piece>, accepted: seq<Byte>, announced: bool, late: bool)

  const NEW_SESSION := Session(EMPTY, [], [], false, false)

  function AcceptedBy(b: Body, data: seq<Byte>, granted: nat): seq<Byte> {
    if Send(b, data, granted, false).0 == WouldBlock then [] else data[..Accepted(b, |data|, granted)]
  }

  /** The body after a read. */
  function AfterRead(b: Body): Body {
    match Read(b)
    case Blocked => b
    case Data(_, bytes, _) => Consume(b, |bytes|)
  }

  function ReadStep(s: Session): Session {
    match Read(s.body)
    case Blocked => s
    case Data(start, bytes, eof) =>
      s.(body := AfterRead(s.body), pieces := if bytes == [] then s.pieces else s.pieces + [Piece(start, bytes)],
         announced := s.announced || eof)
  }

  function Step(s: Session, ev: Event): Session {
    match ev
    case SendBody(data, granted, eof) =>
      var got := AcceptedBy(s.body, data, granted);
      s.(body := Send(s.body, data, granted, eof).1, accepted := s.accepted + got,
         late := s.late || (s.body.eof && got != []))
    case ReadBody => ReadStep(s)
    case AckBody(n) => s.(body := Ack(s.body, n))
    case FlushBody => s.(body := Flush(s.body))
  }

  function Run(s: Session, events: seq<Event>): Session
    decreases |events|
  {
    if events == [] then s else Run(Step(s, events[0]), events[1..])
  }

  function Concat(pieces: seq<Piece>): seq<Byte> {
    if pieces == [] then [] else Concat(pieces[..|pieces| - 1]) + pieces[|pieces| - 1].bytes
  }

  // ---- What every run keeps, whatever is acknowledged ----------------------------------------

  /** Only whole acknowledged chunks have been freed, and never the last one. */
  ghost predicate ChunkShape(b: Body) {
    && b.freed % CHUNK_SIZE == 0
    && b.freed <= b.acked
    && b.consumed <= |b.written|
    && (b.freed < |b.written| || b.freed == 0)
  }

  /** The pieces are consecutive and end where reading continues. */
  ghost predicate Consecutive(pieces: seq<Piece>, end: nat) {
    && (pieces == [] ==> end == 0)
    && (pieces != [] ==> pieces[0].start == 0 && pieces[|pieces| - 1].start + |pieces[|pieces| - 1].bytes| == end)
    && forall i :: 0 <= i < |pieces| - 1 ==> pieces[i].start + |pieces[i].bytes| == pieces[i + 1].start
  }

  ghost predicate PieceInBody(p: Piece, written: seq<Byte>) {
    && p.start + |p.bytes| <= |written|
    && written[p.start..p.start + |p.bytes|] == p.bytes
    && p.bytes != [] && p.start % CHUNK_SIZE + |p.bytes| <= CHUNK_SIZE
  }

  ghost predicate Inv(s: Session) {
    && ChunkShape(s.body)
    && |s.body.written| - s.body.freed <= MAX_BUFFER_SIZE
    && s.body.written == s.accepted
    && Consecutive(s.pieces, s.body.consumed)
    && (forall i :: 0 <= i < |s.pieces| ==> PieceInBody(s.pieces[i], s.body.written))
    && Concat(s.pieces) == s.body.written[..s.body.consumed]
  }

  lemma {:induction false} FlushShape(b: Body)
    requires ChunkShape(b)
    ensures var f := Flush(b);
            && ChunkShape(f) && f == b.(freed := f.freed) && b.freed <= f.freed
            && !HeadIsFreeable(f)
            && (f.freed < f.acked - CHUNK_SIZE ==> |f.written| - f.freed <= CHUNK_SIZE)
    decreases |b.written| - b.freed
  {
    if HeadIsFreeable(b) {
      FlushShape(b.(freed := b.freed + CHUNK_SIZE));
    }
  }

  lemma ReadKeeps(s: Session)
    requires Inv(s)
    ensures Inv(ReadStep(s))
  {
    hide Concat, Consecutive, PieceInBody, Read, AfterRead;
    var r := Read(s.body);
    ReadPiece(s.body);
    if r.Data? && r.bytes != [] {
      var s', p := ReadStep(s), Piece(r.start, r.bytes);
      ConsecutiveSnoc(s.pieces, p);
      ConcatSnoc(s.pieces, p);
      assert s.body.written[..s.body.consumed] + r.bytes == s'.body.written[..s'.body.consumed];
    }
  }

  /** A read hands out the bytes at the position it moves on from. */
  lemma ReadPiece(b: Body)
    requires ChunkShape(b)
    ensures var r, after := Read(b), AfterRead(b);
            if r.Blocked? || r.bytes == [] then after == b
            else
              && r.start == b.consumed && after == b.(consumed := b.consumed + |r.bytes|)
              && after.consumed <= |b.written| && b.written[b.consumed..after.consumed] == r.bytes
              && PieceInBody(Piece(r.start, r.bytes), b.written)
  {
  }

  lemma ConsecutiveSnoc(pieces: seq<Piece>, p: Piece)
    requires Consecutive(pieces, p.start)
    ensures Consecutive(pieces + [p], p.start + |p.bytes|)
  {
  }

  lemma ConcatSnoc(pieces: seq<Piece>, p: Piece)
    ensures Concat(pieces + [p]) == Concat(pieces) + p.bytes
  {
    assert (pieces + [p])[..|pieces|] == pieces;
  }

  /** The API appends a prefix of the data: all of it when it reports success, a proper one when
      memory runs out, nothing when it would exceed the limit. */
  lemma SendAppends(b: Body, data: seq<Byte>, granted: nat, eof: bool)
    requires ChunkShape(b) && |b.written| - b.freed <= MAX_BUFFER_SIZE
    ensures var (code, b') := Send(b, data, granted, eof);
            var got := AcceptedBy(b, data, granted);
            && b' == b.(written := b.written + got, eof := b.eof || (code == Ok && eof))
            && ChunkShape(b') && |b'.written| - b'.freed <= MAX_BUFFER_SIZE
            && got <= data && (code == Ok ==> got == data) && (code == NoMemory ==> got < data)
            && (code == WouldBlock <==> data != [] && |b.written| + |data| - b.freed > MAX_BUFFER_SIZE)
            && (code == WouldBlock ==> got == [])
  {
  }

  lemma PieceStays(p: Piece, written: seq<Byte>, more: seq<Byte>)
    requires PieceInBody(p, written)
    ensures PieceInBody(p, written + more)
  {
    assert (written + more)[p.start..p.start + |p.bytes|] == written[p.start..p.start + |p.bytes|];
  }

  lemma SendKeeps(s: Session, data: seq<Byte>, granted: nat, eof: bool)
    requires Inv(s)
    ensures Inv(Step(s, SendBody(data, granted, eof)))
  {
    hide Concat, Send, AcceptedBy, PieceInBody, ChunkShape, Consecutive;
    SendAppends(s.body, data, granted, eof);
    var got := AcceptedBy(s.body, data, granted);
    forall i | 0 <= i < |s.pieces|
      ensures PieceInBody(s.pieces[i], s.body.written + got)
    {
      PieceStays(s.pieces[i], s.body.written, got);
    }
    assert s.body.consumed <= |s.body.written| by { InvShape(s); ConsumedBound(s.body); }
    assert (s.body.written + got)[..s.body.consumed] == s.body.written[..s.body.consumed];
  }

  lemma ConsumedBound(b: Body)
    requires ChunkShape(b)
    ensures b.consumed <= |b.written|
  {
  }

  lemma InvShape(s: Session)
    requires Inv(s)
    ensures ChunkShape(s.body)
  {
  }

  lemma StepKeeps(s: Session, ev: Event)
    requires Inv(s)
    ensures Inv(Step(s, ev))
  {
    match ev
    case SendBody(data, granted, eof) => SendKeeps(s, data, granted, eof);
    case ReadBody => ReadKeeps(s);
    case AckBody(_) =>
    case FlushBody => FlushShape(s.body);
  }

  /** Stream fidelity and bounded memory over every run. */
  lemma {:induction false} RunKeeps(s: Session, events: seq<Event>)
    requires Inv(s)
    ensures Inv(Run(s, events))
    decreases |events|
  {
    if events != [] {
      StepKeeps(s, events[0]);
      RunKeeps(Step(s, events[0]), events[1..]);
    }
  }

  /** From an empty body: nothing is skipped, repeated or reordered, pieces lie in single chunks,
      and the retained bytes stay within the limit. */
  lemma EveryRun(events: seq<Event>)
    ensures var t := Run(NEW_SESSION, events);
            && t.body.consumed <= |t.accepted| && Concat(t.pieces) == t.accepted[..t.body.consumed]
            && Consecutive(t.pieces, t.body.consumed)
            && |t.accepted| - t.body.freed <= MAX_BUFFER_SIZE
            && t.body.freed % CHUNK_SIZE == 0 && t.body.freed <= t.body.acked
            && (t.accepted != [] ==> t.body.freed < |t.accepted|)
  {
    RunKeeps(NEW_SESSION, events);
  }

  // ---- Runs in which nghttp3 acknowledges only what it was given ----------------------------

  /** nghttp3 acknowledges no more than it has been handed. */
  ghost predicate HonestStep(s: Session, ev: Event) {
    ev.AckBody? ==> s.body.acked + ev.bytes <= s.body.consumed
  }

  ghost predicate Honest(s: Session, events: seq<Event>)
    decreases |events|
  {
    events == [] || (HonestStep(s, events[0]) && Honest(Step(s, events[0]), events[1..]))
  }

  ghost predicate Ordered(b: Body) {
    b.freed <= b.acked <= b.consumed <= |b.written|
  }

  lemma StepOrdered(s: Session, ev: Event)
    requires Inv(s) && Ordered(s.body) && HonestStep(s, ev)
    ensures Inv(Step(s, ev)) && Ordered(Step(s, ev).body)
  {
    hide Inv;
    StepKeeps(s, ev);
    if ev.FlushBody? {
      InvShape(s);
      FlushShape(s.body);
    }
  }

  /** The header's invariant: freed <= acked <= consumed <= total. */
  lemma {:induction false} CountersOrdered(s: Session, events: seq<Event>)
    requires Inv(s) && Ordered(s.body) && Honest(s, events)
    ensures Ordered(Run(s, events).body)
    decreases |events|
  {
    hide Inv, Step, Ordered;
    if events != [] {
      StepOrdered(s, events[0]);
      CountersOrdered(Step(s, events[0]), events[1..]);
    }
  }

  /** After a flush at most one chunk of acknowledged bytes is retained, so a body that is fully
      acknowledged and flushed accepts any write that leaves one chunk of the limit. */
  lemma FlushReleases(b: Body, len: nat)
    requires ChunkShape(b) && b.acked <= |b.written|
    ensures b.acked - Flush(b).freed <= CHUNK_SIZE
    ensures b.acked == |b.written| && len <= MAX_BUFFER_SIZE - CHUNK_SIZE ==> CanWrite(Flush(b), len)
  {
    FlushShape(b);
  }

  /** Exactly how far a flush gets. */
  lemma FlushExact(b: Body)
    requires ChunkShape(b)
    ensures forall c: nat :: b.freed <= c * CHUNK_SIZE ==>
              (c * CHUNK_SIZE < Flush(b).freed <==>
               c * CHUNK_SIZE + CHUNK_SIZE <= b.acked && c * CHUNK_SIZE + CHUNK_SIZE < |b.written|)
  {
    FlushShape(b);
  }

  // ---- What is counted and what is allocated --------------------------------------------------

  /** The bytes acknowledged by a list of events. */
  function AckTotal(events: seq<Event>): nat {
    if events == [] then 0
    else AckTotal(events[..|events| - 1]) + match events[|events| - 1] { case AckBody(n) => n case _ => 0 }
  }

  lemma {:induction false} RunSnoc(s: Session, events: seq<Event>, ev: Event)
    ensures Run(s, events + [ev]) == Step(Run(s, events), ev)
    decreases |events|
  {
    if events == [] {
      assert events + [ev] == [ev];
      assert Run(Step(s, ev), []) == Step(s, ev);
    } else {
      assert (events + [ev])[1..] == events[1..] + [ev];
      RunSnoc(Step(s, events[0]), events[1..], ev);
    }
  }

  /** Every byte acknowledged in a run counts, however the acknowledgements are cut. */
  lemma {:induction false} EveryAckCounts(events: seq<Event>)
    ensures Run(NEW_SESSION, events).body.acked == AckTotal(events)
    decreases |events|
  {
    if events != [] {
      var front, last := events[..|events| - 1], events[|events| - 1];
      EveryAckCounts(front);
      assert events == front + [last];
      RunSnoc(NEW_SESSION, front, last);
      OnlyAcksCount(Run(NEW_SESSION, front), last);
    }
  }

  lemma OnlyAcksCount(s: Session, ev: Event)
    ensures Step(s, ev).body.acked == s.body.acked + match ev { case AckBody(n) => n case _ => 0 }
  {
    if ev.FlushBody? { FlushKeepsRest(s.body); }
  }

  lemma {:induction false} FlushKeepsRest(b: Body)
    ensures Flush(b) == b.(freed := Flush(b).freed)
    decreases |b.written| - b.freed
  {
    if HeadIsFreeable(b) { FlushKeepsRest(b.(freed := b.freed + CHUNK_SIZE)); }
  }

  /** A run in which as much was acknowledged as was accepted, and a flush, leave room for any write
      of up to the limit less one chunk. */
  lemma DrainedAccepts(events: seq<Event>, data: seq<Byte>, granted: nat, eof: bool)
    requires AckTotal(events) == |Run(NEW_SESSION, events).accepted| && |data| <= MAX_BUFFER_SIZE - CHUNK_SIZE
    ensures Send(Run(NEW_SESSION, events + [FlushBody]).body, data, granted, eof).0 != WouldBlock
  {
    hide Flush, Write, Accepted, CanWrite;
    var t := Run(NEW_SESSION, events);
    RunKeeps(NEW_SESSION, events);
    EveryAckCounts(events);
    RunSnoc(NEW_SESSION, events, FlushBody);
    FlushReleases(t.body, |data|);
  }

  /** Chunks that `n` bytes need. */
  function ChunksFor(n: nat): nat {
    (n + CHUNK_SIZE - 1) / CHUNK_SIZE
  }

  /** A write takes all of its data if and only if the chunks it adds are granted; otherwise it
      fills the last of those that are. */
  lemma WriteFillsChunks(b: Body, data: seq<Byte>, granted: nat)
    ensures var had, all, after := ChunksFor(|b.written|), ChunksFor(|b.written| + |data|), Write(b, data, granted);
            && (Accepted(b, |data|, granted) == |data| <==> all - had <= granted)
            && (all - had > granted ==> |after.written| == (had + granted) * CHUNK_SIZE)
  {
    hide Write;
    var n := |b.written|;
    var q, r := n / CHUNK_SIZE, n % CHUNK_SIZE;
    assert n == q * CHUNK_SIZE + r;
    assert |Write(b, data, granted).written| == n + Accepted(b, |data|, granted) by { WriteLength(b, data, granted); }
    assert n + Room(b) == ChunksFor(n) * CHUNK_SIZE;
  }

  lemma WriteLength(b: Body, data: seq<Byte>, granted: nat)
    ensures |Write(b, data, granted).written| == |b.written| + Accepted(b, |data|, granted)
  {
  }

  /** Consuming never goes past what was written. */
  lemma ConsumeStops(b: Body, n: nat)
    requires b.consumed <= |b.written|
    ensures var after := Consume(b, n);
            && after == b.(consumed := after.consumed)
            && (b.consumed + n <= |b.written| ==> after.consumed == b.consumed + n)
            && (b.consumed + n > |b.written| ==> after.consumed == |b.written|)
  {
  }

  // ---- End of body ------------------------------------------------------------------------

  /** A read announces the end exactly when it leaves nothing to hand out; the exception is a
      body from which chunks were freed before they were read, where the end comes too early. */
  lemma ReadAnnouncesEof(s: Session)
    requires Inv(s)
    ensures var r := Read(s.body);
            (r.Data? && r.eof) <==>
              s.body.eof && (ReadStep(s).body.consumed == |s.body.written| || s.body.consumed < s.body.freed)
  {
  }

  ghost predicate Announcement(s: Session) {
    s.announced ==> s.body.eof && (s.late || s.body.consumed == |s.body.written|)
  }

  lemma StepAnnouncement(s: Session, ev: Event)
    requires Inv(s) && Ordered(s.body) && Announcement(s)
    ensures Announcement(Step(s, ev))
  {
    if ev.FlushBody? { FlushShape(s.body); }
    if ev.ReadBody? { ReadAnnouncesEof(s); }
  }

  /** If the backend writes nothing after the end mark, an announced end is final: everything
      accepted has been handed out. */
  lemma {:induction false} AnnouncedIsComplete(s: Session, events: seq<Event>)
    requires Inv(s) && Ordered(s.body) && Announcement(s) && Honest(s, events)
    ensures var t := Run(s, events);
            t.announced && !t.late ==> t.body.eof && Concat(t.pieces) == t.accepted
    decreases |events|
  {
    if events == [] {
      assert s.body.written[..|s.body.written|] == s.body.written;
    } else {
      hide Inv, Step, Ordered, Concat, Announcement;
      StepOrdered(s, events[0]);
      StepAnnouncement(s, events[0]);
      AnnouncedIsComplete(Step(s, events[0]), events[1..]);
    }
  }

  /** No data is sent after the end mark. */
  ghost predicate QuietAfterEnd(events: seq<Event>) {
    forall i, j :: 0 <= i < j < |events| && events[i].SendBody? && events[i].eof && events[j].SendBody? ==> events[j].data == []
  }

  ghost predicate EndSent(events: seq<Event>) {
    exists i :: 0 <= i < |events| && events[i].SendBody? && events[i].eof
  }

  lemma {:induction false} QuietIsNotLate(events: seq<Event>)
    requires QuietAfterEnd(events)
    ensures var t := Run(NEW_SESSION, events); !t.late && (t.body.eof ==> EndSent(events))
    decreases |events|
  {
    if events != [] {
      var front, last := events[..|events| - 1], events[|events| - 1];
      assert QuietAfterEnd(front) by {
        forall i, j | 0 <= i < j < |front| && front[i].SendBody? && front[i].eof && front[j].SendBody?
          ensures front[j].data == []
        {
          assert events[i] == front[i] && events[j] == front[j];
        }
      }
      QuietIsNotLate(front);
      assert events == front + [last];
      RunSnoc(NEW_SESSION, front, last);
      if EndSent(front) {
        var i :| 0 <= i < |front| && front[i].SendBody? && front[i].eof;
        assert events[i].eof;
        assert last.SendBody? ==> last.data == [];
      }
      LateStep(Run(NEW_SESSION, front), last);
      assert last.SendBody? && last.eof ==> EndSent(events) by { assert events[|events| - 1] == last; }
    }
  }

  lemma LateStep(s: Session, ev: Event)
    ensures Step(s, ev).late ==> s.late || (s.body.eof && ev.SendBody? && ev.data != [])
    ensures Step(s, ev).body.eof ==> s.body.eof || (ev.SendBody? && ev.eof)
  {
    if ev.FlushBody? { FlushKeepsRest(s.body); }
  }

  /** If nothing is sent after the end mark and only handed bytes are acknowledged, an announced end
      means that the whole body was handed out. */
  lemma WholeBody(events: seq<Event>)
    requires QuietAfterEnd(events) && Honest(NEW_SESSION, events)
    ensures var t := Run(NEW_SESSION, events); t.announced ==> t.body.eof && Concat(t.pieces) == t.accepted
  {
    QuietIsNotLate(events);
    AnnouncedIsComplete(NEW_SESSION, events);
  }

  /** Without honest acknowledgements the body can end before any of it was handed out. */
  lemma OverAckLosesBody(data: seq<Byte>)
    requires CHUNK_SIZE < |data| <= MAX_BUFFER_SIZE
    ensures var t := Run(NEW_SESSION, [SendBody(data, |data|, true), AckBody(|data|), FlushBody, ReadBody]);
            t.accepted == data && t.announced && !t.late && t.pieces == []
  {
    var s1 := Step(NEW_SESSION, SendBody(data, |data|, true));
    assert data[..|data|] == data && [] + data == data;
    assert s1.body == Body(data, 0, 0, 0, true) && s1.accepted == data;
    var s2 := Step(s1, AckBody(|data|));
    assert HeadIsFreeable(s2.body);
    FlushShape(s2.body.(freed := CHUNK_SIZE));
    var s3 := Step(s2, FlushBody);
    assert s3.body.freed >= CHUNK_SIZE;
    var s4 := Step(s3, ReadBody);
    RunOf4(NEW_SESSION, SendBody(data, |data|, true), AckBody(|data|), FlushBody, ReadBody);
  }

  lemma RunOf4(s: Session, e1: Event, e2: Event, e3: Event, e4: Event)
    ensures Run(s, [e1, e2, e3, e4]) == Step(Step(Step(Step(s, e1), e2), e3), e4)
  {
    hide Step;
    assert [e1, e2, e3, e4][1..] == [e2, e3, e4] && [e2, e3, e4][1..] == [e3, e4] && [e3, e4][1..] == [e4];
    assert Run(Step(Step(s, e1), e2), [e3, e4]) == Step(Step(Step(Step(s, e1), e2), e3), e4) by {
      assert Run(Step(Step(Step(s, e1), e2), e3), [e4]) == Step(Step(Step(Step(s, e1), e2), e3), e4) by {
        assert [e4][1..] == [];
      }
    }
  }

  function Reads(s: Session, n: nat): Session
    decreases n
  {
    if n == 0 then s else Reads(ReadStep(s), n - 1)
  }

  /** Chunks that hold bytes not handed out yet. */
  function UnreadChunks(b: Body): nat {
    if b.consumed >= |b.written| then 0
    else (|b.written| - 1) / CHUNK_SIZE - b.consumed / CHUNK_SIZE + 1
  }

  /** A read hands out the rest of exactly one chunk. */
  lemma ReadTakesOneChunk(s: Session)
    requires Inv(s) && Ordered(s.body)
    ensures var t := ReadStep(s);
            && t.body == s.body.(consumed := t.body.consumed) && Ordered(t.body)
            && UnreadChunks(t.body) == (if UnreadChunks(s.body) == 0 then 0 else UnreadChunks(s.body) - 1)
            && (t.body.consumed == |s.body.written| <==> UnreadChunks(s.body) <= 1)
  {
  }

  /** Reading needs one call per unread chunk, and the last of them, or one more call when there
      was none, announces the end. */
  lemma {:induction false} ReadsReachEof(s: Session, n: nat)
    requires Inv(s) && Ordered(s.body) && s.body.eof
    requires n >= 1 && n >= UnreadChunks(s.body)
    ensures var t := Reads(s, n);
            t.announced && t.body.consumed == |t.body.written| && t.body.written == s.body.written
    decreases n
  {
    hide Inv, UnreadChunks;
    var t := ReadStep(s);
    ReadKeeps(s);
    ReadTakesOneChunk(s);
    ReadAnnouncesEof(s);
    if n == 1 {
      assert Reads(s, 1) == Reads(t, 0);
    } else if t.body.consumed == |t.body.written| {
      ReadsStay(t, n - 1);
    } else {
      ReadsReachEof(t, n - 1);
    }
  }

  lemma {:induction false} ReadsStay(s: Session, n: nat)
    requires s.announced && s.body.consumed == |s.body.written|
    ensures Reads(s, n).announced && Reads(s, n).body == s.body
    decreases n
  {
    if n > 0 { ReadsStay(ReadStep(s), n - 1); }
  }

  /** No earlier read announces it. */
  lemma {:induction false} ReadsBeforeEof(s: Session, n: nat)
    requires Inv(s) && Ordered(s.body) && !s.announced && n < UnreadChunks(s.body)
    ensures !Reads(s, n).announced
    decreases n
  {
    hide Inv, UnreadChunks;
    if n > 0 {
      ReadKeeps(s);
      ReadTakesOneChunk(s);
      ReadAnnouncesEof(s);
      ReadsBeforeEof(ReadStep(s), n - 1);
    }
  }
}
