/** The connection in arbitrary runs: every stream follows the machine of ConnectionModel, and its
    unacknowledged slices stay where they are whatever happens on the other streams. */
module ConnectionRuns {
  import opened BodyModel
  import opened BodyBuffer
  import opened BodyRuns
  import opened Bytes
  import opened Connection
  import opened ConnectionModel
  import opened StreamTable

  /** The open streams are those of the model, each with the body and the history it has there. */
  ghost predicate Follows(views: map<nat, Body>, histories: map<nat, seq<Handed>>, m: Streams) {
    && views.Keys == histories.Keys == m.Keys
    && forall id :: id in m ==> views[id] == m[id].body && HandedAs(histories[id], m[id].pieces)
  }

  /** An event of one open stream is a step of that stream. */
  lemma OneStreamStep(m: Streams, ev: ConnEvent)
    requires ev.SendTo? || ev.ReadFrom? || ev.AckFor?
    requires ev.id in m
    ensures Seen(ev, ev.id).Some? && ConnStep(m, ev) == m[ev.id := Step(m[ev.id], Seen(ev, ev.id).value)]
  {
    hide Step;
  }

  lemma SendFollows(views: map<nat, Body>, histories: map<nat, seq<Handed>>, m: Streams,
                    id: nat, data: seq<Byte>, granted: nat, eof: bool)
    requires Follows(views, histories, m) && id in m
    ensures Follows(views[id := Send(views[id], data, granted, eof).1], histories,
                    ConnStep(m, SendTo(id, data, granted, eof)))
  {
    hide Send, ConnStep, HandedAs;
    OneStreamStep(m, SendTo(id, data, granted, eof));
  }

  lemma RecordedExtends(b: Body, before: seq<Handed>, after: seq<Handed>)
    requires Recorded(b, before, after)
    ensures before <= after
  {
    hide BodyModel.Read;
  }

  lemma ReadFollows(views: map<nat, Body>, histories: map<nat, seq<Handed>>, m: Streams, id: nat, after: seq<Handed>)
    requires Follows(views, histories, m) && id in m && Recorded(views[id], histories[id], after)
    ensures Follows(views[id := AfterRead(views[id])], histories[id := after], ConnStep(m, ReadFrom(id)))
  {
    hide BodyModel.Read, ConnStep;
    OneStreamStep(m, ReadFrom(id));
    var before := histories[id];
    if after != before {
      assert forall k :: 0 <= k < |before| ==> after[k] == after[..|before|][k];
    }
  }

  lemma AckFollows(views: map<nat, Body>, histories: map<nat, seq<Handed>>, m: Streams, id: nat, n: nat)
    requires Follows(views, histories, m) && id in m
    ensures Follows(views[id := Ack(views[id], n)], histories, ConnStep(m, AckFor(id, n)))
  {
    hide ConnStep, HandedAs;
    OneStreamStep(m, AckFor(id, n));
  }

  lemma SweepStep(m: Streams)
    ensures ConnStep(m, Sweep).Keys == m.Keys
    ensures forall id :: id in m ==> ConnStep(m, Sweep)[id] == Step(m[id], FlushBody)
  {
    hide Step;
  }

  lemma FlushStep(s: Session)
    ensures Step(s, FlushBody) == s.(body := Flush(s.body))
  {
  }

  lemma SweepFollows(views: map<nat, Body>, histories: map<nat, seq<Handed>>, m: Streams)
    requires Follows(views, histories, m)
    ensures Follows(FlushAll(views), histories, ConnStep(m, Sweep))
  {
    hide ConnStep, HandedAs, Flush;
    SweepStep(m);
    forall id | id in m
      ensures FlushAll(views)[id] == Step(m[id], FlushBody).body && Step(m[id], FlushBody).pieces == m[id].pieces
    {
      FlushStep(m[id]);
    }
  }

  /** An event of a stream that is not open changes nothing. */
  lemma NoStreamNoStep(m: Streams, ev: ConnEvent)
    requires ev.SendTo? || ev.ReadFrom? || ev.AckFor?
    requires ev.id !in m
    ensures ConnStep(m, ev) == m
  {
  }

  method PerformSend(c: H3Connection, id: nat, data: seq<Byte>, granted: nat, eof: bool, ghost m: Streams)
    requires c.Valid() && Follows(c.View(), c.Histories(), m)
    modifies c.table.entries.Values, c.Memory()
    ensures c.Valid() && c.table.entries == old(c.table.entries)
    ensures Follows(c.View(), c.Histories(), ConnStep(m, SendTo(id, data, granted, eof)))
    ensures forall j :: j in c.table.entries ==>
              j in old(c.table.entries) && fresh(c.table.entries[j].body.Repr - old(c.table.entries[j].body.Repr))
              && c.table.entries[j].body.handed == old(c.table.entries[j].body.handed)
  {
    hide H3Connection.Valid, H3Connection.View, H3Connection.Histories, H3Connection.Memory, Follows, ConnStep, Send;
    c.MemoryHas();
    c.ViewMeans();
    c.MapsMean();
    FollowsKeys(c.View(), c.Histories(), m);
    ghost var views, histories := c.View(), c.Histories();
    var _ := c.SendResponseBody(id, data, granted, eof);
    if id in m {
      SendFollows(views, histories, m, id, data, granted, eof);
    } else {
      c.HistoriesSame(histories);
      NoStreamNoStep(m, SendTo(id, data, granted, eof));
    }
    c.MapsMean();
  }

  lemma FollowsKeys(views: map<nat, Body>, histories: map<nat, seq<Handed>>, m: Streams)
    requires Follows(views, histories, m)
    ensures views.Keys == histories.Keys == m.Keys
  {
  }

  method PerformRead(c: H3Connection, id: nat, ghost m: Streams)
    requires c.Valid() && Follows(c.View(), c.Histories(), m)
    modifies c.Bodies()`consumedBytes
    modifies c.Bodies()`handed
    ensures c.Valid() && c.table.entries == old(c.table.entries)
    ensures Follows(c.View(), c.Histories(), ConnStep(m, ReadFrom(id)))
    ensures forall j :: j in c.table.entries ==> old(c.table.entries[j].body.handed) <= c.table.entries[j].body.handed
  {
    hide *;
    c.MemoryHas();
    c.ViewMeans();
    c.MapsMean();
    FollowsKeys(c.View(), c.Histories(), m);
    ghost var views, histories := c.View(), c.Histories();
    var _ := c.ReadDataCallback(id, 1);
    if id in m {
      RecordedExtends(views[id], histories[id], c.table.entries[id].body.handed);
      ReadFollows(views, histories, m, id, c.table.entries[id].body.handed);
      c.MapsMean();
    } else {
      c.HistoriesSame(histories);
      NoStreamNoStep(m, ReadFrom(id));
    }
  }

  method PerformAck(c: H3Connection, id: nat, bytes: nat, ghost m: Streams)
    requires c.Valid() && Follows(c.View(), c.Histories(), m)
    modifies c.Bodies()`ackedBytes
    ensures c.Valid() && c.table.entries == old(c.table.entries)
    ensures Follows(c.View(), c.Histories(), ConnStep(m, AckFor(id, bytes)))
  {
    hide *;
    c.MemoryHas();
    c.ViewMeans();
    c.MapsMean();
    FollowsKeys(c.View(), c.Histories(), m);
    ghost var views, histories := c.View(), c.Histories();
    c.AckedStreamData(id, bytes);
    c.HistoriesSame(histories);
    if id in m {
      AckFollows(views, histories, m, id, bytes);
    } else {
      NoStreamNoStep(m, AckFor(id, bytes));
    }
  }

  method PerformSweep(c: H3Connection, ghost m: Streams)
    requires c.Valid() && Follows(c.View(), c.Histories(), m)
    modifies c.Bodies()`chunks
    modifies c.Bodies()`freedBytes
    modifies c.Bodies()`head
    ensures c.Valid() && c.table.entries == old(c.table.entries)
    ensures Follows(c.View(), c.Histories(), ConnStep(m, Sweep))
  {
    hide *;
    c.MapsMean();
    ghost var views, histories := c.View(), c.Histories();
    c.FlushSweep();
    c.HistoriesSame(histories);
    SweepFollows(views, histories, m);
  }

  lemma OpenFollows(views: map<nat, Body>, histories: map<nat, seq<Handed>>, m: Streams, id: nat, allowed: bool)
    requires Follows(views, histories, m)
    ensures if id !in m && allowed then Follows(views[id := EMPTY], histories[id := []], ConnStep(m, Open(id, allowed)))
            else ConnStep(m, Open(id, allowed)) == m
  {
  }

  lemma CloseFollows(views: map<nat, Body>, histories: map<nat, seq<Handed>>, m: Streams, id: nat)
    requires Follows(views, histories, m)
    ensures Follows(views - {id}, histories - {id}, ConnStep(m, Close(id)))
  {
  }

  method PerformOpen(c: H3Connection, id: nat, allowed: bool, ghost m: Streams)
    requires c.Valid() && Follows(c.View(), c.Histories(), m)
    modifies c.table, c.table.buckets
    ensures c.Valid() && Follows(c.View(), c.Histories(), ConnStep(m, Open(id, allowed)))
    ensures forall j :: j in old(c.table.entries) ==> j in c.table.entries && c.table.entries[j] == old(c.table.entries[j])
    ensures forall j :: j in c.table.entries && j !in old(c.table.entries) ==>
              fresh(c.table.entries[j]) && fresh(c.table.entries[j].body.Repr)
  {
    hide *;
    c.ViewMeans();
    c.MapsMean();
    FollowsKeys(c.View(), c.Histories(), m);
    ghost var views, histories := c.View(), c.Histories();
    c.StreamOpen(id, allowed);
    c.ViewMeans();
    c.HistoriesSame(if id !in m && allowed then histories[id := []] else histories);
    OpenFollows(views, histories, m, id, allowed);
  }

  method PerformClose(c: H3Connection, id: nat, ghost m: Streams)
    requires c.Valid() && Follows(c.View(), c.Histories(), m)
    modifies c.table, c.table.buckets, c.table.entries.Values`next
    ensures c.Valid() && Follows(c.View(), c.Histories(), ConnStep(m, Close(id)))
    ensures c.table.entries == old(c.table.entries) - {id}
  {
    hide *;
    c.MapsMean();
    ghost var views, histories := c.View(), c.Histories();
    c.StreamClose(id);
    c.HistoriesSame(histories - {id});
    CloseFollows(views, histories, m, id);
  }

  /** One event, carried out by the callback or API function that handles it. */
  method Perform(c: H3Connection, ev: ConnEvent, ghost m: Streams)
    requires c.Valid() && Follows(c.View(), c.Histories(), m)
    modifies c.table, c.table.buckets, c.table.entries.Values, c.Memory()
    ensures c.Valid() && Follows(c.View(), c.Histories(), ConnStep(m, ev))
    ensures forall j :: j in c.table.entries ==>
              if j in old(c.table.entries) then
                c.table.entries[j] == old(c.table.entries[j])
                && old(c.table.entries[j].body.handed) <= c.table.entries[j].body.handed
                && fresh(c.table.entries[j].body.Repr - old(c.table.entries[j].body.Repr))
              else fresh(c.table.entries[j]) && fresh(c.table.entries[j].body.Repr)
  {
    hide H3Connection.Valid, H3Connection.View, H3Connection.Histories, H3Connection.Memory, Follows, ConnStep;
    c.MemoryHas();
    match ev
    case Open(id, allowed) => PerformOpen(c, id, allowed, m);
    case Close(id) => PerformClose(c, id, m);
    case SendTo(id, data, granted, eof) => PerformSend(c, id, data, granted, eof, m);
    case ReadFrom(id) => PerformRead(c, id, m);
    case AckFor(id, bytes) => PerformAck(c, id, bytes, m);
    case Sweep => PerformSweep(c, m);
  }

  lemma EmptyFollows(c: H3Connection)
    requires c.table.entries == map[]
    ensures Follows(c.View(), c.Histories(), ConnRun([]))
  {
  }

  /** Every run of a connection, from the empty table on. */
  method RunConnection(events: seq<ConnEvent>) returns (c: H3Connection)
    ensures c.Valid() && Follows(c.View(), c.Histories(), ConnRun(events))
  {
    hide H3Connection.Valid, H3Connection.View, H3Connection.Histories, H3Connection.Memory, Follows, ConnStep;
    c := new H3Connection();
    EmptyFollows(c);
    for i := 0 to |events|
      invariant c.Valid() && Follows(c.View(), c.Histories(), ConnRun(events[..i]))
      invariant fresh(c.table) && fresh(c.table.buckets)
      invariant forall j :: j in c.table.entries ==> fresh(c.table.entries[j]) && fresh(c.table.entries[j].body.Repr)
    {
      c.MemoryFrom();
      assert forall s :: s in c.table.entries.Values ==> fresh(s);
      Perform(c, events[i], ConnRun(events[..i]));
      assert events[..i + 1][..i] == events[..i];
    }
    assert events[..|events|] == events;
  }

  /** After every run: on every stream the bytes handed out are the front of what was accepted, and
      each slice that is not acknowledged as a whole lies in an allocated chunk with its bytes. */
  lemma SlicesSurvive(c: H3Connection, events: seq<ConnEvent>, id: nat, k: nat)
    requires c.Valid() && Follows(c.View(), c.Histories(), ConnRun(events))
    requires id in ConnRun(events) && k < |ConnRun(events)[id].pieces|
    ensures id in c.table.entries
    ensures var s, body := ConnRun(events)[id], c.table.entries[id].body;
            && k < |body.handed|
            && (body.handed[k].start + body.handed[k].slice.len > body.ackedBytes ==>
                  var Slice(chunk, base, len) := body.handed[k].slice;
                  && chunk in body.all[body.head..] && base + len <= chunk.data.Length
                  && chunk.data[base..base + len] == s.pieces[k].bytes)
  {
    hide Inv, Table.Valid, H3Connection.Separate, StreamBuffer.Valid, StreamBuffer.View, HandedAs;
    StreamFollowsOwnEvents(events, id);
    RunKeeps(NEW_SESSION, OwnEvents(events, id).value) by { NewSessionKeeps(); }
    var body, s := c.table.entries[id].body, ConnRun(events)[id];
    HandedLength(body.handed, s.pieces);
    if body.handed[k].start + body.handed[k].slice.len > body.ackedBytes {
      SlicesKeepTheirBytes(body, s, k);
    }
  }

  lemma NewSessionKeeps()
    ensures Inv(NEW_SESSION)
  {
  }

  lemma HandedLength(handed: seq<Handed>, pieces: seq<Piece>)
    requires HandedAs(handed, pieces)
    ensures |handed| == |pieces|
  {
  }
}
