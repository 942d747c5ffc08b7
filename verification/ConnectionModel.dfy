/** All the streams of a connection as one machine: what a stream goes through is decided by its
    own events alone, so every run of a body carries over to every run of a connection. */
module ConnectionModel {
  import opened BodyModel
  import opened Bytes
  import opened Option

  datatype ConnEvent =
    | Open(id: nat, allowed: bool)
    | Close(id: nat)
    | SendTo(id: nat, data: seq<Byte>, granted: nat, eof: bool)
    | ReadFrom(id: nat)
    | AckFor(id: nat, bytes: nat)
    | Sweep

  type Streams = map<nat, Session>

  /** What an event means to the body of an open stream. */
  function Seen(ev: ConnEvent, id: nat): Option<Event> {
    match ev
    case SendTo(i, data, granted, eof) => if i == id then Some(SendBody(data, granted, eof)) else None
    case ReadFrom(i) => if i == id then Some(ReadBody) else None
    case AckFor(i, bytes) => if i == id then Some(AckBody(bytes)) else None
    case Sweep => Some(FlushBody)
    case _ => None
  }

  function Advance(s: Session, event: Option<Event>): Session {
    match event
    case Some(e) => Step(s, e)
    case None => s
  }

  function ConnStep(m: Streams, ev: ConnEvent): Streams {
    match ev
    case Open(id, allowed) => if id !in m && allowed then m[id := NEW_SESSION] else m
    case Close(id) => m - {id}
    case _ => map id | id in m :: Advance(m[id], Seen(ev, id))
  }

  function ConnRun(events: seq<ConnEvent>): Streams {
    if events == [] then map[]
    else ConnStep(ConnRun(events[..|events| - 1]), events[|events| - 1])
  }

  /** The events of stream `id` since it was last opened, if it is open. */
  function OwnEvents(events: seq<ConnEvent>, id: nat): Option<seq<Event>> {
    if events == [] then None
    else
      var own, last := OwnEvents(events[..|events| - 1], id), events[|events| - 1];
      match last
      case Open(i, allowed) => if i == id && allowed && own.None? then Some([]) else own
      case Close(i) => if i == id then None else own
      case _ =>
        if own.Some? && Seen(last, id).Some? then Some(own.value + [Seen(last, id).value]) else own
  }

  /** Streams do not interfere. */
  lemma {:induction false} StreamFollowsOwnEvents(events: seq<ConnEvent>, id: nat)
    ensures id in ConnRun(events) <==> OwnEvents(events, id).Some?
    ensures id in ConnRun(events) ==> ConnRun(events)[id] == Run(NEW_SESSION, OwnEvents(events, id).value)
    decreases |events|
  {
    hide Step;
    if events != [] {
      var front, last := events[..|events| - 1], events[|events| - 1];
      StreamFollowsOwnEvents(front, id);
      var own := OwnEvents(front, id);
      if own.Some? && Seen(last, id).Some? {
        RunSnoc(NEW_SESSION, own.value, Seen(last, id).value);
      }
    }
  }

  /** What counts as acknowledged on a stream is what was acknowledged on it since it was opened. */
  lemma EveryStreamAcked(events: seq<ConnEvent>, id: nat)
    requires id in ConnRun(events)
    ensures OwnEvents(events, id).Some? && ConnRun(events)[id].body.acked == AckTotal(OwnEvents(events, id).value)
  {
    StreamFollowsOwnEvents(events, id);
    EveryAckCounts(OwnEvents(events, id).value);
  }

  /** Where nghttp3 acknowledges only what it was given and nothing is sent after the end mark, an
      announced end means that all of the stream's body was handed out. */
  lemma EveryStreamComplete(events: seq<ConnEvent>, id: nat)
    requires id in ConnRun(events) && OwnEvents(events, id).Some?
    requires Honest(NEW_SESSION, OwnEvents(events, id).value)
    ensures var s := ConnRun(events)[id]; s.announced && !s.late ==> s.body.eof && Concat(s.pieces) == s.accepted
  {
    StreamFollowsOwnEvents(events, id);
    AnnouncedIsComplete(NEW_SESSION, OwnEvents(events, id).value);
  }

  /** Fidelity and bounded memory for every stream of every run. */
  lemma EveryStream(events: seq<ConnEvent>, id: nat)
    requires id in ConnRun(events)
    ensures var s := ConnRun(events)[id];
            && s.body.consumed <= |s.accepted| && Concat(s.pieces) == s.accepted[..s.body.consumed]
            && |s.accepted| - s.body.freed <= MAX_BUFFER_SIZE
  {
    StreamFollowsOwnEvents(events, id);
    EveryRun(OwnEvents(events, id).value);
  }
}
