/** The steps that the response API, nghttp3 and the packet writer take on the streams of one
    connection: every stream follows the machine of BodyModel and none disturbs another. */
module Connection {
  import opened BodyModel
  import opened Bytes
  import opened BodyBuffer
  import opened StreamTable

  /** h3_send_response_body once its stream is found. */
  method SendOn(s: Stream, data: seq<Byte>, granted: nat, eof: bool) returns (code: Code)
    requires s.body.Valid() && s !in s.body.Repr
    modifies s.body.WriteFrame(), s`responseEof
    ensures s.body.Valid() && (code, s.body.View()) == Send(old(s.body.View()), data, granted, eof)
    ensures fresh(s.body.Repr - old(s.body.Repr)) && old(s.body.Repr) <= s.body.Repr
    ensures s.body.handed == old(s.body.handed) && old(s.body.all) <= s.body.all && s.body.head == old(s.body.head)
    ensures s.responseEof == (old(s.responseEof) || (eof && code == Ok))
  {
    hide StreamBuffer.Valid, Accepted;
    assert data == [] ==> s.body.written + data[..0] == s.body.written;
    if |data| > 0 {
      var can := s.body.CanWrite(|data|);
      if !can {
        return WouldBlock;
      }
      var ok := s.body.Write(data, granted);
      if !ok {
        return NoMemory;
      }
    }
    if eof {
      s.body.SetEof();
      s.responseEof := true;
    }
    code := Ok;
  }

  /** What the read_data callback answers: an error code, or how many vectors it filled with what,
      and whether it set the end-of-data flag. */
  datatype ReadReply = ErrWouldBlock | Filled(count: nat, outcome: ReadOutcome, eofFlag: bool)

  /** The history after a read of `b`, as the read_data callback leaves it. */
  ghost predicate Recorded(b: Body, before: seq<Handed>, after: seq<Handed>) {
    match Read(b)
    case Blocked => after == before
    case Data(start, bytes, _) =>
      if bytes == [] then after == before
      else |after| == |before| + 1 && after[..|before|] == before
           && after[|before|].start == start && after[|before|].slice.len == |bytes|
  }

  lemma HashInRange(id: nat)
    ensures StreamHash(id) < HASH_SIZE
  {
  }

  ghost predicate AllIn(chain: seq<Stream>, k: nat, done: set<nat>) {
    forall j :: 0 <= j < k && j < |chain| ==> chain[j].id in done
  }

  lemma AllInHas(chain: seq<Stream>, done: set<nat>, s: Stream)
    requires AllIn(chain, |chain|, done) && s in chain
    ensures s.id in done
  {
  }

  function FlushAll(bodies: map<nat, Body>): map<nat, Body> {
    map id | id in bodies :: Flush(bodies[id])
  }

  class H3Connection {
    const table: Table

    constructor ()
      ensures Valid() && table.entries == map[] && fresh(table) && fresh(table.buckets)
    {
      table := new Table();
    }

    ghost function Bodies(): set<StreamBuffer>
      reads table`entries
    {
      set s <- table.entries.Values :: s.body
    }

    ghost function Memory(): set<object>
      reads table`entries, Bodies()
    {
      set b, o | b in Bodies() && o in b.Repr :: o
    }

    /** The bodies share no memory with each other or with the table. */
    ghost predicate Separate()
      reads table`entries, Bodies()
    {
      && (forall i :: i in table.entries ==> Outside(table.entries[i].body.Repr))
      && (forall i, j :: i in table.entries && j in table.entries && i != j ==>
            table.entries[i].body.Repr !! table.entries[j].body.Repr)
    }

    ghost predicate Outside(repr: set<object>)
      reads table`entries
    {
      table !in repr && table.buckets !in repr && forall s :: s in table.entries.Values ==> s !in repr
    }

    ghost predicate Valid()
      reads table, table.buckets, table.entries.Values
      reads Bodies()
      reads Memory()
    {
      table.Valid() && Separate() && forall i :: i in table.entries ==> table.entries[i].body.Valid()
    }

    /** What has been handed out of each body. */
    ghost function Histories(): map<nat, seq<Handed>>
      reads table`entries, Bodies()`handed
    {
      map i | i in table.entries :: table.entries[i].body.handed
    }

    /** The memory of each body. */
    ghost function Memories(): map<nat, set<object>>
      reads table`entries, Bodies()`Repr
    {
      map i | i in table.entries :: table.entries[i].body.Repr
    }

    /** What the connection stands for: one body per open stream. */
    ghost function View(): map<nat, Body>
      reads table, Bodies()
    {
      map i | i in table.entries :: table.entries[i].body.View()
    }

    /** A stream found in the table: its body is part of no other body and not of the table. */
    lemma StreamFacts(id: nat)
      requires Valid() && id in table.entries
      ensures var s := table.entries[id];
              && s in table.entries.Values && s.body in Bodies()
              && s.body.WriteFrame() <= s.body.Repr && s.body in s.body.Repr && s !in s.body.Repr
      ensures forall j :: j in table.entries ==> table.entries[j].body in table.entries[j].body.Repr
    {
      table.entries[id].body.WriteFrameOwned();
      forall j | j in table.entries
        ensures table.entries[j].body in table.entries[j].body.Repr
      {
        table.entries[j].body.SelfOwned();
      }
    }

    method Lookup(id: nat) returns (stream: Stream?)
      requires Valid()
      ensures Valid() && View() == old(View()) && Histories() == old(Histories()) && Memories() == old(Memories())
      ensures View().Keys == table.entries.Keys == Memories().Keys
      ensures stream == (if id in table.entries then table.entries[id] else null) && (stream != null ==> stream.id == id)
    {
      hide Table.Valid, StreamBuffer.Valid, StreamBuffer.View;
      stream := table.Find(id);
    }

    /** h3_send_response_body. */
    method SendResponseBody(id: nat, data: seq<Byte>, granted: nat, eof: bool) returns (code: Code)
      requires Valid()
      modifies if id in table.entries then {table.entries[id]} + table.entries[id].body.WriteFrame() else {}
      ensures Valid() && table.entries == old(table.entries)
      ensures id !in old(View()) ==> code == NoStream && View() == old(View())
      ensures id in old(View()) ==>
                var (c, b) := Send(old(View())[id], data, granted, eof); code == c && View() == old(View())[id := b]
      ensures id in old(View()) ==> Histories() == old(Histories()) && Memories().Keys == old(Memories()).Keys
      ensures id in old(View()) ==> forall j :: j in Memories() ==> fresh(Memories()[j] - old(Memories()[j]))
    {
      hide Valid, StreamBuffer.View, Send, View, Histories;
      var stream := Lookup(id);
      if stream == null {
        return NoStream;
      }
      code := SendFound(stream, data, granted, eof);
    }

    method SendFound(stream: Stream, data: seq<Byte>, granted: nat, eof: bool) returns (code: Code)
      requires Valid() && stream.id in table.entries && table.entries[stream.id] == stream && stream.id in View()
      modifies stream, stream.body.WriteFrame()
      ensures Valid() && table.entries == old(table.entries)
      ensures var (c, b) := Send(old(View())[stream.id], data, granted, eof);
              code == c && View() == old(View())[stream.id := b]
      ensures Histories() == old(Histories()) && Memories().Keys == old(Memories()).Keys
      ensures forall j :: j in Memories() ==> fresh(Memories()[j] - old(Memories()[j]))
    {
      hide *;
      ghost var views, histories, memories := View(), Histories(), Memories();
      ViewMeans();
      MapsMean();
      code := SendApart(stream, data, granted, eof, table.entries);
      MapsMean();
      ViewBut(views, stream.id);
      HistoriesSame(histories);
      ValidIf();
    }

    /** The send, and what it leaves alone. */
    method SendApart(stream: Stream, data: seq<Byte>, granted: nat, eof: bool, ghost entries: map<nat, Stream>)
      returns (code: Code)
      requires Valid() && stream.id in table.entries && table.entries[stream.id] == stream && entries == table.entries
      modifies stream, stream.body.WriteFrame()
      ensures table.Valid() && table.entries == entries && Separate() && stream.body.Valid()
      ensures (code, stream.body.View()) == Send(old(stream.body.View()), data, granted, eof)
      ensures stream.body.handed == old(stream.body.handed) && fresh(stream.body.Repr - old(stream.body.Repr))
      ensures forall j :: j in entries && j != stream.id ==>
                && entries[j].body.Valid() && entries[j].body.View() == old(entries[j].body.View())
                && entries[j].body.handed == old(entries[j].body.handed)
                && entries[j].body.Repr == old(entries[j].body.Repr)
    {
      hide Table.Valid, StreamBuffer.Valid, Send, StreamBuffer.View, StreamBuffer.WriteFrame;
      StreamFacts(stream.id);
      code := SendOn(stream, data, granted, eof);
      assert table.Valid();
      forall j | j in entries && j != stream.id
        ensures entries[j].body.Valid() && entries[j].body.View() == old(entries[j].body.View())
        ensures entries[j].body.handed == old(entries[j].body.handed)
        ensures entries[j].body.Repr == old(entries[j].body.Repr)
      {
        assert entries[j].body.Repr !! old(stream.body.Repr);
      }
    }

    lemma MapsMean()
      ensures Histories().Keys == table.entries.Keys && Memories().Keys == table.entries.Keys
      ensures forall j :: j in table.entries ==>
                table.entries[j].body.handed == Histories()[j] && table.entries[j].body.Repr == Memories()[j]
    {
    }

    lemma MemoryHas()
      requires Valid()
      ensures Bodies() <= Memory()
      ensures forall i :: i in table.entries ==> table.entries[i].body in Bodies() && table.entries[i].body.WriteFrame() <= Memory()
    {
      hide Table.Valid, StreamBuffer.Valid, Separate, StreamBuffer.WriteFrame;
      forall i | i in table.entries
        ensures table.entries[i].body in Bodies() && table.entries[i].body.WriteFrame() <= Memory()
        ensures table.entries[i].body in Memory()
      {
        table.entries[i].body.WriteFrameOwned();
      }
    }

    lemma MemoryFrom()
      ensures forall o :: o in Memory() ==> exists i :: i in table.entries && o in table.entries[i].body.Repr
    {
      forall o | o in Memory()
        ensures exists i :: i in table.entries && o in table.entries[i].body.Repr
      {
        var b :| b in Bodies() && o in b.Repr;
        var s :| s in table.entries.Values && s.body == b;
        var i :| i in table.entries && table.entries[i] == s;
      }
    }

    lemma ViewBut(views: map<nat, Body>, id: nat)
      requires id in table.entries && views.Keys == table.entries.Keys
      requires forall j :: j in table.entries && j != id ==> table.entries[j].body.View() == views[j]
      ensures View() == views[id := table.entries[id].body.View()]
    {
    }

    lemma HistoriesSame(histories: map<nat, seq<Handed>>)
      requires histories.Keys == table.entries.Keys
      requires forall j :: j in table.entries ==> table.entries[j].body.handed == histories[j]
      ensures Histories() == histories
    {
    }

    /** http3_read_data_callback. */
    method ReadDataCallback(id: nat, veccnt: nat) returns (r: ReadReply)
      requires Valid()
      modifies (if id in table.entries then {table.entries[id].body} else {})`consumedBytes
      modifies (if id in table.entries then {table.entries[id].body} else {})`handed
      ensures Valid() && table.entries == old(table.entries)
      ensures veccnt == 0 ==> r == Filled(0, NothingYet, false) && View() == old(View())
      ensures veccnt > 0 && id !in old(View()) ==> r == ErrWouldBlock && View() == old(View())
      ensures veccnt > 0 && id in old(View()) ==>
                var b, body := old(View())[id], table.entries[id].body;
                && View() == old(View())[id := AfterRead(b)] && Histories() == old(Histories())[id := body.handed]
                && Recorded(b, old(body.handed), body.handed)
                && match Read(b)
                   case Blocked => r == ErrWouldBlock && body.handed == old(body.handed)
                   case Data(start, bytes, eof) =>
                     r.Filled? && r.count == 1 && r.eofFlag == eof
                     && if bytes == [] then r.outcome == EndOfBody && body.handed == old(body.handed)
                        else r.outcome.Available? && body.HandedOut(old(body.handed), r.outcome.slice, start, bytes)
    {
      hide Valid, View, Histories, Memories, StreamBuffer.View, StreamBuffer.HandedOut, BodyModel.Read, AfterRead, Recorded;
      var stream := Lookup(id);
      if veccnt == 0 {
        return Filled(0, NothingYet, false);
      }
      if stream == null {
        return ErrWouldBlock;
      }
      var outcome := ReadFound(stream);
      match outcome
      case NothingYet => r := ErrWouldBlock;
      case EndOfBody => r := Filled(1, outcome, true);
      case Available(_, eof) => r := Filled(1, outcome, eof);
    }

    method ReadFound(stream: Stream) returns (outcome: ReadOutcome)
      requires Valid() && stream.id in table.entries && table.entries[stream.id] == stream && stream.id in View()
      modifies stream.body`consumedBytes, stream.body`handed
      ensures Valid() && View() == old(View())[stream.id := AfterRead(old(View())[stream.id])]
      ensures Histories() == old(Histories())[stream.id := stream.body.handed]
      ensures Outcome(old(View())[stream.id], old(stream.body.handed), outcome, stream.body)
      ensures Recorded(old(View())[stream.id], old(stream.body.handed), stream.body.handed)
    {
      hide *;
      ghost var views, histories := View(), Histories();
      ViewMeans();
      MapsMean();
      outcome := ReadApart(stream, table.entries);
      OutcomeRecorded(views[stream.id], histories[stream.id], outcome, stream.body);
      ViewBut(views, stream.id);
      HistoriesBut(histories, stream.id);
      ValidIf();
    }

    /** The read, and what it leaves alone. */
    method ReadApart(stream: Stream, ghost entries: map<nat, Stream>) returns (outcome: ReadOutcome)
      requires Valid() && stream.id in table.entries && table.entries[stream.id] == stream && entries == table.entries
      modifies stream.body`consumedBytes, stream.body`handed
      ensures table.Valid() && table.entries == entries && Separate() && stream.body.Valid()
      ensures stream.body.View() == AfterRead(old(stream.body.View()))
      ensures Outcome(old(stream.body.View()), old(stream.body.handed), outcome, stream.body)
      ensures forall j :: j in entries && j != stream.id ==>
                && entries[j].body.Valid() && entries[j].body.View() == old(entries[j].body.View())
                && entries[j].body.handed == old(entries[j].body.handed)
    {
      hide Table.Valid, StreamBuffer.Valid, StreamBuffer.View, StreamBuffer.HandedOut;
      StreamFacts(stream.id);
      outcome := stream.body.ReadData();
      assert table.Valid();
      forall j | j in entries && j != stream.id
        ensures entries[j].body.Valid() && entries[j].body.View() == old(entries[j].body.View())
        ensures entries[j].body.handed == old(entries[j].body.handed)
      {
        assert entries[j].body.Repr !! stream.body.Repr;
      }
    }

    /** What a read of body `b` answers, and the history after it. */
    ghost predicate Outcome(b: Body, before: seq<Handed>, outcome: ReadOutcome, body: StreamBuffer)
      reads body, if outcome.Available? then {outcome.slice.chunk, outcome.slice.chunk.data} else {}
    {
      match Read(b)
      case Blocked => outcome == NothingYet && body.handed == before
      case Data(start, bytes, eof) =>
        if bytes == [] then outcome == EndOfBody && eof && body.handed == before
        else outcome.Available? && outcome.eof == eof && body.HandedOut(before, outcome.slice, start, bytes)
    }

    lemma OutcomeRecorded(b: Body, before: seq<Handed>, outcome: ReadOutcome, body: StreamBuffer)
      requires Outcome(b, before, outcome, body)
      ensures Recorded(b, before, body.handed)
    {
      hide BodyModel.Read, StreamBuffer.Live;
    }

    lemma HistoriesBut(histories: map<nat, seq<Handed>>, id: nat)
      requires id in table.entries && histories.Keys == table.entries.Keys
      requires forall j :: j in table.entries && j != id ==> table.entries[j].body.handed == histories[j]
      ensures Histories() == histories[id := table.entries[id].body.handed]
    {
    }

    /** http3_acked_stream_data_callback. */
    method AckedStreamData(id: nat, datalen: nat)
      requires Valid()
      modifies (if id in table.entries then {table.entries[id].body} else {})`ackedBytes
      ensures Valid() && table.entries == old(table.entries)
      ensures View() == if id in old(View()) then old(View())[id := Ack(old(View())[id], datalen)] else old(View())
    {
      hide Valid, View, Histories, Memories, Ack;
      var stream := Lookup(id);
      if stream != null {
        AckFound(stream, datalen);
      }
    }

    method AckFound(stream: Stream, datalen: nat)
      requires Valid() && stream.id in table.entries && table.entries[stream.id] == stream && stream.id in View()
      modifies stream.body`ackedBytes
      ensures Valid() && View() == old(View())[stream.id := Ack(old(View())[stream.id], datalen)]
    {
      hide Table.Valid, StreamBuffer.Valid, StreamBuffer.View, Ack;
      StreamFacts(stream.id);
      var _ := stream.body.Ack(datalen);
      assert table.Valid();
      forall j | j in table.entries && j != stream.id
        ensures table.entries[j].body.Valid() && table.entries[j].body.View() == old(table.entries[j].body.View())
      {
        assert table.entries[j].body.Repr !! stream.body.Repr;
      }
    }

    lemma BodyOf(id: nat)
      requires Valid() && id in table.entries
      ensures var body := table.entries[id].body;
              && id in View() && body.Valid() && View()[id] == body.View()
              && |View()[id].written| == body.totalLen && View()[id].consumed == body.consumedBytes
    {
      hide Separate, Table.Valid, StreamBuffer.ListOk, StreamBuffer.ChunksOk, StreamBuffer.SlicesPlaced, StreamBuffer.Owned;
    }

    /** h3_get_stream_buffer_size: the bytes accepted for the stream and not handed out yet. */
    method GetStreamBufferSize(id: nat) returns (size: nat)
      requires Valid()
      ensures View() == old(View())
      ensures size == if id in View() then |View()[id].written| - View()[id].consumed else 0
    {
      hide Valid, View, Histories, Memories, StreamBuffer.Valid;
      ghost var views := View();
      var stream := Lookup(id);
      if stream == null {
        return 0;
      }
      ViewMeans();
      BodyOf(id);
      size := stream.body.Pending();
      ViewSame(views);
    }

    /** quic_stream_open_callback; the allocation may be refused. */
    method StreamOpen(id: nat, granted: bool)
      requires Valid()
      modifies table`count, table`chains, table`entries, table.buckets
      ensures Valid()
      ensures View() == if id !in old(View()) && granted then old(View())[id := EMPTY] else old(View())
      ensures forall j :: j in old(table.entries) ==> j in table.entries && table.entries[j] == old(table.entries[j])
      ensures forall j :: j in table.entries && j !in old(table.entries) ==>
                fresh(table.entries[j]) && fresh(table.entries[j].body.Repr) && table.entries[j].body.handed == []
    {
      hide *;
      ghost var before, views := table.entries, View();
      ViewMeans();
      var stream := CreateEntry(id, granted, before, views);
      if id !in before && granted {
        SeparateWith(before, stream);
        ViewWith(before, views, stream);
      } else {
        ViewSame(views);
      }
      ValidIf();
    }

    lemma ValidIf()
      requires table.Valid() && Separate() && forall i :: i in table.entries ==> table.entries[i].body.Valid()
      ensures Valid()
    {
    }

    method CreateEntry(id: nat, granted: bool, ghost before: map<nat, Stream>, ghost views: map<nat, Body>)
      returns (stream: Stream?)
      requires Valid() && before == table.entries && views == View()
      modifies table`count, table`chains, table`entries, table.buckets
      ensures table.Valid() && forall i :: i in table.entries ==> table.entries[i].body.Valid()
      ensures id in before || !granted ==> table.entries == before && Separate()
      ensures id !in before && granted ==>
                stream != null && stream.id == id && table.entries == before[id := stream]
                && stream.body.Repr == {stream.body} && stream.body.View() == EMPTY && ApartFrom(before, stream)
                && fresh(stream) && fresh(stream.body) && stream.body.handed == []
      ensures forall j :: j in before ==> before[j].body.View() == views[j]
    {
      hide Table.Valid, StreamBuffer.Valid, StreamBuffer.View;
      assert forall j :: j in before ==> before[j] in before.Values;
      stream := table.Create(id, granted);
      forall j | j in before
        ensures before[j].body.Valid()
        ensures before[j].body.Repr == old(before[j].body.Repr) && before[j].body.View() == views[j]
      {
      }
    }

    /** The bodies of `before` are apart from each other, from the table and from a new stream. */
    ghost predicate ApartFrom(before: map<nat, Stream>, stream: Stream)
      reads set s <- before.Values :: s.body
    {
      Together(before)
      && forall i :: i in before ==> stream !in before[i].body.Repr && stream.body !in before[i].body.Repr
    }

    lemma ViewMeans()
      ensures View().Keys == table.entries.Keys
      ensures forall j :: j in table.entries ==> table.entries[j].body.View() == View()[j]
    {
    }

    lemma ViewSame(views: map<nat, Body>)
      requires views.Keys == table.entries.Keys
      requires forall j :: j in table.entries ==> table.entries[j].body.View() == views[j]
      ensures View() == views
    {
    }

    lemma ViewWith(before: map<nat, Stream>, views: map<nat, Body>, stream: Stream)
      requires stream.id !in before && table.entries == before[stream.id := stream] && views.Keys == before.Keys
      requires forall j :: j in before ==> before[j].body.View() == views[j]
      ensures View() == views[stream.id := stream.body.View()]
    {
    }

    /** A new stream keeps the bodies apart. */
    lemma SeparateWith(before: map<nat, Stream>, stream: Stream)
      requires stream.id !in before && table.entries == before[stream.id := stream]
      requires ApartFrom(before, stream)
      requires stream.body.Repr == {stream.body}
      ensures Separate()
    {
      assert forall s :: s in table.entries.Values ==> s in before.Values || s == stream;
      assert forall i :: i in table.entries ==> i in before || i == stream.id;
    }

    /** h3_close_stream and quic_stream_close_callback. */
    method StreamClose(id: nat)
      requires Valid()
      modifies table`count, table`chains, table`entries, table.buckets, table.entries.Values`next
      ensures Valid() && View() == old(View()) - {id}
      ensures table.entries == old(table.entries) - {id}
    {
      hide *;
      ghost var before, views := table.entries, View();
      ViewMeans();
      RemoveEntry(id, before, views);
      SeparateFewer(before);
      ViewSame(views - {id});
      ValidIf();
    }

    method RemoveEntry(id: nat, ghost before: map<nat, Stream>, ghost views: map<nat, Body>)
      requires Valid() && before == table.entries && views == View()
      modifies table`count, table`chains, table`entries, table.buckets, table.entries.Values`next
      ensures table.Valid() && table.entries == before - {id} && Together(before)
      ensures forall j :: j in before ==> before[j].body.Valid() && before[j].body.View() == views[j]
    {
      hide Table.Valid, StreamBuffer.Valid, StreamBuffer.View;
      assert forall j :: j in before ==> before[j] in before.Values;
      table.Remove(id);
      forall j | j in before
        ensures before[j].body.Valid()
        ensures before[j].body.Repr == old(before[j].body.Repr) && before[j].body.View() == views[j]
      {
      }
    }

    /** The bodies of `before` are apart from each other and from the table. */
    ghost predicate Together(before: map<nat, Stream>)
      reads set s <- before.Values :: s.body
    {
      && (forall i, j :: i in before && j in before && i != j ==> before[i].body.Repr !! before[j].body.Repr)
      && forall i :: i in before ==>
           table !in before[i].body.Repr && table.buckets !in before[i].body.Repr
           && forall s :: s in before.Values ==> s !in before[i].body.Repr
    }

    lemma SeparateFewer(before: map<nat, Stream>)
      requires Together(before)
      requires forall i :: i in table.entries ==> i in before && table.entries[i] == before[i]
      ensures Separate()
    {
      assert forall s :: s in table.entries.Values ==> s in before.Values;
    }

    /** Every stream in `done` is flushed, the others are as before. */
    ghost predicate Swept(before: map<nat, Body>, done: set<nat>)
      reads table, Bodies()
    {
      && before.Keys == table.entries.Keys
      && forall i :: i in table.entries ==>
           table.entries[i].body.View() == if i in done then Flush(before[i]) else before[i]
    }

    /** The sweep at the end of h3_packet_flush, over every list of every bucket. */
    method FlushSweep()
      requires Valid()
      modifies Bodies()`chunks
      modifies Bodies()`freedBytes
      modifies Bodies()`head
      ensures Valid() && table.entries == old(table.entries)
      ensures View() == FlushAll(old(View()))
    {
      hide *;
      ghost var before, done := View(), {};
      SweptNone();
      TableFacts();
      for b := 0 to HASH_SIZE
        invariant Valid() && Swept(before, done)
        invariant forall id :: id in table.entries && StreamHash(id) < b ==> id in done
      {
        done := FlushBucket(b, before, done);
      }
      forall id | id in table.entries
        ensures id in done
      {
        HashInRange(id);
      }
      SweptAll(before, done);
    }

    lemma SweptNone()
      ensures Swept(View(), {})
    {
    }

    lemma SweptAll(before: map<nat, Body>, done: set<nat>)
      requires Swept(before, done) && forall id :: id in table.entries ==> id in done
      ensures View() == FlushAll(before)
    {
    }

    lemma TableFacts()
      requires Valid()
      ensures table.Valid() && table.buckets.Length == HASH_SIZE
    {
    }

    method FlushBucket(b: nat, ghost before: map<nat, Body>, ghost done: set<nat>) returns (ghost after: set<nat>)
      requires Valid() && Swept(before, done) && b < HASH_SIZE
      modifies Bodies()`chunks
      modifies Bodies()`freedBytes
      modifies Bodies()`head
      ensures Valid() && Swept(before, after) && done <= after
      ensures forall id :: id in table.entries && StreamHash(id) == b ==> id in after
    {
      hide *;
      ghost var k := 0;
      FirstAt(b, done);
      var stream := table.buckets[b];
      after := done;
      while stream != null
        invariant Valid() && Swept(before, after) && done <= after && At(b, k, stream, after)
        invariant b < |table.chains|
        decreases |table.chains[b]| - k
      {
        AtMeans(b, k, stream, after);
        FlushOne(stream, before, after);
        AtNext(b, k, stream, after);
        stream, after, k := stream.next, after + {stream.id}, k + 1;
      }
      AtEnd(b, k, after);
      BucketDone(b, after);
    }

    /** `stream` is the k-th of bucket `b`, or null at the end, and those before it are in `done`. */
    ghost predicate At(b: nat, k: nat, stream: Stream?, done: set<nat>)
      reads table`chains
    {
      && b < |table.chains| && k <= |table.chains[b]| && AllIn(table.chains[b], k, done)
      && stream == if k < |table.chains[b]| then table.chains[b][k] else null
    }

    lemma FirstAt(b: nat, done: set<nat>)
      requires Valid() && b < HASH_SIZE
      ensures table.buckets.Length == HASH_SIZE && b < |table.chains| && At(b, 0, table.buckets[b], done)
    {
      hide Table.Valid, Separate, StreamBuffer.Valid;
      table.BucketAt(b);
    }

    lemma AtMeans(b: nat, k: nat, stream: Stream, done: set<nat>)
      requires Valid() && b < HASH_SIZE && At(b, k, stream, done)
      ensures b < |table.chains| && k < |table.chains[b]| && stream.id in table.entries && table.entries[stream.id] == stream
      ensures stream.body in Bodies()
    {
      hide Table.Valid, Separate, StreamBuffer.Valid, AllIn, ChainAt;
      table.BucketAt(b);
      assert table.entries[table.chains[b][k].id] == stream;
    }

    lemma AtNext(b: nat, k: nat, stream: Stream, done: set<nat>)
      requires Valid() && b < HASH_SIZE && At(b, k, stream, done)
      ensures b < |table.chains| && At(b, k + 1, stream.next, done + {stream.id})
    {
      hide Table.Valid, Separate, StreamBuffer.Valid;
      table.BucketAt(b);
      assert table.chains[b][k] == stream;
    }

    lemma AtEnd(b: nat, k: nat, done: set<nat>)
      requires At(b, k, null, done)
      ensures b < |table.chains| && AllIn(table.chains[b], |table.chains[b]|, done)
    {
    }

    lemma BucketDone(b: nat, done: set<nat>)
      requires Valid() && b < |table.chains| && AllIn(table.chains[b], |table.chains[b]|, done)
      ensures forall id :: id in table.entries && StreamHash(id) == b ==> id in done
    {
      hide *;
      TableFacts();
      forall id | id in table.entries && StreamHash(id) == b
        ensures id in done
      {
        table.BucketFacts(id);
        AllInHas(table.chains[b], done, table.entries[id]);
      }
    }

    method FlushOne(stream: Stream, ghost before: map<nat, Body>, ghost done: set<nat>)
      requires Valid() && Swept(before, done)
      requires stream.id in table.entries && table.entries[stream.id] == stream
      modifies stream.body`chunks, stream.body`freedBytes, stream.body`head
      ensures Valid() && Swept(before, done + {stream.id})
    {
      hide Table.Valid, StreamBuffer.Valid, StreamBuffer.View, Flush;
      StreamFacts(stream.id);
      FlushTwice(before[stream.id]);
      stream.body.FlushAcked();
      assert table.Valid();
      forall j | j in table.entries && j != stream.id
        ensures table.entries[j].body.Valid() && table.entries[j].body.View() == old(table.entries[j].body.View())
      {
        assert table.entries[j].body.Repr !! stream.body.Repr;
      }
    }
  }
}
