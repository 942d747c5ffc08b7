/** The chunked buffer of h3_buffer.c: a linked list of fixed-size chunks and four counters. */
module BodyBuffer {
  import opened BodyModel
  import opened Bytes

  class Chunk {
    const data: array<Byte>
    var len: nat
    var next: Chunk?

    constructor ()
      ensures fresh(data) && data.Length == CHUNK_SIZE && len == 0 && next == null
    {
      data := new Byte[CHUNK_SIZE];
      len, next := 0, null;
    }
  }

  /** A pointer for nghttp3: `len` bytes at offset `base` of a chunk. */
  datatype Slice = Slice(chunk: Chunk, base: nat, len: nat)

  /** A slice in the history: it starts at position `start` of the stream, in its `index`-th chunk. */
  datatype Handed = Handed(slice: Slice, start: nat, index: nat)

  datatype ReadOutcome = NothingYet | Available(slice: Slice, eof: bool) | EndOfBody

  /** The chunk has the bytes from `start` to `end`. */
  ghost predicate ChunkOk(c: Chunk, start: nat, end: nat, written: seq<Byte>)
    reads c`len, c.data
  {
    && c.data.Length == CHUNK_SIZE
    && start <= end <= |written| && c.len == end - start <= CHUNK_SIZE
    && c.data[..c.len] == written[start..end]
  }

  class StreamBuffer {
    var chunks: Chunk?
    var writeChunk: Chunk?
    var totalLen: nat
    var consumedBytes: nat
    var ackedBytes: nat
    var freedBytes: nat
    var eof: bool

    ghost var Repr: set<object>   // all the memory of this buffer
    ghost var written: seq<Byte>  // everything ever written
    ghost var all: seq<Chunk>     // every chunk ever allocated, in order
    ghost var head: nat           // how many of them have been freed
    ghost var handed: seq<Handed> // every slice handed out, in order

    ghost function NextOf(i: nat): Chunk?
      reads `all
    {
      if i + 1 < |all| then all[i + 1] else null
    }

    ghost function EndOf(i: nat): nat
      reads this
    {
      if i + 1 < |all| then ChunkStart(i + 1) else totalLen
    }

    /** The allocated chunks are the suffix of `all` from `head` on, linked in order. */
    ghost predicate Linked()
      reads `all, `head, `chunks, `writeChunk
    {
      if all == [] then head == 0 && chunks == null && writeChunk == null
      else head < |all| && chunks == all[head] && writeChunk == all[|all| - 1]
    }

    ghost predicate Links()
      reads `all, `head, all`next
    {
      forall i {:trigger all[i]} :: head <= i < |all| ==> all[i].next == NextOf(i)
    }

    ghost predicate Owned()
      reads `all, `Repr
    {
      this in Repr && forall i {:trigger all[i]} :: 0 <= i < |all| ==> all[i] in Repr && all[i].data in Repr
    }

    /** The tail shares no memory with the chunks before it. */
    ghost predicate TailApart()
      reads `all
    {
      forall i {:trigger all[i]} :: 0 <= i < |all| - 1 ==>
        all[i] != all[|all| - 1] && all[i].data != all[|all| - 1].data
    }

    /** Every chunk but the last is full; chunk i has the bytes from its start on. */
    ghost predicate ChunksOk()
      requires Owned()
      reads this, Repr
    {
      forall i {:trigger all[i]} :: head <= i < |all| ==> ChunkOk(all[i], ChunkStart(i), EndOf(i), written)
    }

    ghost predicate Counters()
      reads this
    {
      && |written| == totalLen && consumedBytes <= totalLen && (all == [] ==> totalLen == 0)
      && freedBytes == ChunkStart(head) && freedBytes <= ackedBytes
    }

    /** A slice has the address that belongs to its position in the stream, for good. */
    ghost predicate Placed(h: Handed)
      reads `all
    {
      && h.index < |all| && h.slice.chunk == all[h.index]
      && h.start == ChunkStart(h.index) + h.slice.base && h.slice.base + h.slice.len <= CHUNK_SIZE
    }

    ghost predicate SlicesPlaced()
      reads `all, `consumedBytes, `handed
    {
      forall k :: 0 <= k < |handed| ==> Placed(handed[k]) && handed[k].start + handed[k].slice.len <= consumedBytes
    }

    ghost predicate Shape()
      reads this, Repr
    {
      Owned() && ListOk() && ChunksOk() && Counters() && SlicesPlaced()
    }

    /** Between calls no chunk is empty. */
    ghost predicate Valid()
      reads this, Repr
    {
      Shape() && (all != [] ==> ChunkStart(|all| - 1) < totalLen)
    }

    ghost function View(): Body
      reads this
    {
      Body(written, consumedBytes, ackedBytes, freedBytes, eof)
    }

    /** A slice still lies in an allocated chunk and still has the bytes it was handed out with. */
    ghost predicate Live(h: Handed)
      reads this, h.slice.chunk, h.slice.chunk.data
    {
      var Slice(c, base, len) := h.slice;
      && head <= h.index < |all| && all[h.index] == c
      && base + len <= c.len <= c.data.Length
      && h.start + len <= |written|
      && c.data[base..base + len] == written[h.start..h.start + len]
    }

    lemma PlacedIsLive(h: Handed)
      requires Valid() && Placed(h) && head <= h.index && h.start + h.slice.len <= totalLen
      ensures Live(h)
    {
      hide ChunkStart, CHUNK_SIZE, Links, TailApart, ChunkOk;
      var i, c, from, to := h.index, h.slice.chunk, h.slice.base, h.slice.base + h.slice.len;
      ChunkFacts(i);
      SliceOfSlice(written, ChunkStart(i), EndOf(i), from, to);
      assert c.data[..c.len][from..to] == c.data[from..to];
    }

    /** Pointer stability: a slice that is not acknowledged as a whole is live. */
    lemma UnackedIsLive(h: Handed)
      requires Valid() && h in handed && h.start + h.slice.len > ackedBytes
      ensures Live(h)
    {
      assert Placed(h) && h.start + h.slice.len <= consumedBytes;
      IndexAtLeast(h.index, head, h.start + h.slice.len);
      PlacedIsLive(h);
    }

    constructor ()
      ensures Valid() && View() == EMPTY && handed == [] && Repr == {this}
    {
      chunks, writeChunk := null, null;
      totalLen, consumedBytes, ackedBytes, freedBytes, eof := 0, 0, 0, 0, false;
      Repr, written, all, head, handed := {this}, [], [], 0, [];
    }

    /** Memory a write may touch: the tail chunk. */
    ghost function WriteFrame(): set<object>
      reads this
    {
      if writeChunk == null then {this} else {this, writeChunk, writeChunk.data}
    }

    lemma TailFacts()
      requires Shape() && all != []
      ensures head < |all| && writeChunk == all[|all| - 1]
      ensures writeChunk.data.Length == CHUNK_SIZE && writeChunk.next == null
      ensures ChunkStart(|all| - 1) + writeChunk.len == totalLen && writeChunk.len <= CHUNK_SIZE
      ensures writeChunk.data[..writeChunk.len] == written[ChunkStart(|all| - 1)..]
    {
      assert ChunkOk(all[|all| - 1], ChunkStart(|all| - 1), totalLen, written);
    }

    /** The list itself: memory, links and tail, but not what the chunks contain. */
    ghost predicate ListOk()
      reads this, all`next
    {
      Owned() && Linked() && Links() && TailApart()
    }

    /** The chunks allocated exceed the retained bytes by less than one chunk. */
    lemma AllocatedBytes()
      requires Valid()
      ensures (|all| - head) * CHUNK_SIZE < totalLen - freedBytes + CHUNK_SIZE
    {
    }

    lemma SelfOwned()
      requires Valid()
      ensures this in Repr
    {
    }

    lemma WriteFrameOwned()
      requires Valid()
      ensures this in Repr && WriteFrame() <= Repr
    {
    }

    /** Append a chunk to the list. */
    method LinkTail(newChunk: Chunk)
      requires ListOk() && newChunk !in Repr && newChunk.data !in Repr && newChunk.next == null
      modifies `chunks, `writeChunk, `all, `Repr, (if writeChunk == null then {} else {writeChunk})`next
      ensures ListOk() && writeChunk == newChunk
      ensures all == old(all) + [newChunk] && Repr == old(Repr) + {newChunk, newChunk.data}
    {
      if writeChunk != null {
        writeChunk.next := newChunk;
      } else {
        chunks := newChunk;
      }
      writeChunk := newChunk;
      all := all + [newChunk];
      Repr := Repr + {newChunk, newChunk.data};
      assert Owned() && Linked() && TailApart();
      forall i {:trigger all[i]} | head <= i < |all|
        ensures all[i].next == NextOf(i)
      {
      }
    }

    /** Start a fresh empty chunk at the tail. */
    method AddChunk()
      requires Valid() && (writeChunk != null ==> writeChunk.len >= CHUNK_SIZE)
      modifies WriteFrame()
      ensures Shape() && View() == old(View()) && all != [] && totalLen == ChunkStart(|all| - 1)
      ensures fresh(writeChunk) && fresh(writeChunk.data) && writeChunk.len == 0
      ensures Repr == old(Repr) + {writeChunk, writeChunk.data}
      ensures all == old(all) + [writeChunk] && handed == old(handed) && head == old(head)
    {
      hide CHUNK_SIZE, ChunkStart, ChunkOk, Links, TailApart;
      ghost var n := |all|;
      StartStep(n);
      if n > 0 { TailFacts(); }
      var newChunk := new Chunk();
      LinkTail(newChunk);
      EmptyChunkOk(newChunk, totalLen, written);
    }

    /** memcpy past the length of the tail chunk. */
    method CopyToTail(data: seq<Byte>)
      requires Shape() && all != [] && 0 < |data| <= CHUNK_SIZE - writeChunk.len
      modifies writeChunk`len, writeChunk.data
      ensures writeChunk.len == old(writeChunk.len) + |data|
      ensures writeChunk.data[..writeChunk.len] == old(writeChunk.data[..writeChunk.len]) + data
    {
      TailFacts();
      var chunk, base := writeChunk, writeChunk.len;
      forall k | base <= k < base + |data| {
        chunk.data[k] := data[k - base];
      }
      chunk.len := base + |data|;
      assert chunk.data[..base] == old(chunk.data[..base]);
      assert chunk.data[base..base + |data|] == data;
    }

    /** Copy bytes that fit into the tail chunk. */
    method Append(data: seq<Byte>)
      requires Shape() && all != [] && 0 < |data| <= CHUNK_SIZE - writeChunk.len
      modifies this, writeChunk`len, writeChunk.data
      ensures Valid() && View() == old(View().(written := written + data))
      ensures all == old(all) && handed == old(handed) && head == old(head) && writeChunk == old(writeChunk)
      ensures Repr == old(Repr) && writeChunk.len == old(writeChunk.len) + |data|
    {
      hide CHUNK_SIZE, ChunkStart, ChunkOk, Links, Linked, Placed;
      TailFacts();
      ghost var before, last := written, |all| - 1;
      CopyToTail(data);
      totalLen := totalLen + |data|;
      written := written + data;
      TailOk(writeChunk, ChunkStart(last), before, data);
      forall i {:trigger all[i]} | head <= i < last
        ensures ChunkOk(all[i], ChunkStart(i), EndOf(i), written)
      {
        OtherOk(all[i], ChunkStart(i), EndOf(i), before, data);
      }
    }

    lemma RoomInTail()
      requires Valid()
      ensures (writeChunk == null <==> all == []) && (writeChunk != null ==> 0 < writeChunk.len <= CHUNK_SIZE)
      ensures Room(View()) == if writeChunk == null then 0 else CHUNK_SIZE - writeChunk.len
    {
      if all != [] {
        TailFacts();
        RoomOf(View(), |all| - 1, writeChunk.len);
      }
    }

    /** One iteration of the copy loop with `rest` still to be written. */
    method WriteSome(rest: seq<Byte>, granted: nat) returns (copied: nat, left: nat)
      requires Valid() && rest != []
      modifies WriteFrame()
      ensures Valid() && copied <= |rest| && left <= granted
      ensures View() == old(View()).(written := old(written) + rest[..copied])
      ensures copied == 0 <==> Accepted(old(View()), |rest|, granted) == 0
      ensures copied + Accepted(View(), |rest| - copied, left) == Accepted(old(View()), |rest|, granted)
      ensures old(all) <= all && handed == old(handed) && head == old(head)
      ensures fresh(Repr - old(Repr)) && old(Repr) <= Repr && fresh(WriteFrame() - old(WriteFrame()))
    {
      hide ChunkStart, ChunkOk, Links, Linked, TailApart, Placed, Room;
      RoomInTail();
      left := granted;
      if writeChunk == null || writeChunk.len >= CHUNK_SIZE {
        if left == 0 {
          return 0, 0;
        }
        left := left - 1;
        AddChunk();
      }
      copied := Min(|rest|, CHUNK_SIZE - writeChunk.len);
      Append(rest[..copied]);
      RoomInTail();
      assert copied < |rest| ==> Room(View()) == 0;
    }

    /** h3_buffer_write; the allocator grants `granted` chunks during this call. */
    method Write(data: seq<Byte>, granted: nat) returns (ok: bool)
      requires Valid()
      modifies WriteFrame()
      ensures Valid() && View() == BodyModel.Write(old(View()), data, granted)
      ensures ok <==> Accepted(old(View()), |data|, granted) == |data|
      ensures old(all) <= all && handed == old(handed) && head == old(head)
      ensures fresh(Repr - old(Repr)) && old(Repr) <= Repr
    {
      hide Accepted, Shape;
      var copied: nat, left: nat := 0, granted;
      while copied < |data|
        invariant Valid() && copied <= |data| && left <= granted
        invariant View() == old(View()).(written := old(written) + data[..copied])
        invariant copied + Accepted(View(), |data| - copied, left) == Accepted(old(View()), |data|, granted)
        invariant old(all) <= all && handed == old(handed) && head == old(head)
        invariant fresh(Repr - old(Repr)) && old(Repr) <= Repr && fresh(WriteFrame() - old(WriteFrame()))
        decreases |data| - copied
      {
        var n;
        n, left := WriteSome(data[copied..], left);
        assert data[..copied] + data[copied..][..n] == data[..copied + n];
        copied := copied + n;
        if n == 0 {
          return false;
        }
      }
      ok := true;
    }

    // ---- Reading ----------------------------------------------------------------------------

    lemma ChunkFacts(i: nat)
      requires Shape() && head <= i < |all|
      ensures all[i].next == NextOf(i) && all[i].data.Length == CHUNK_SIZE
      ensures ChunkStart(i) + all[i].len == EndOf(i) <= |written| && all[i].len <= CHUNK_SIZE
      ensures all[i].len == CHUNK_SIZE || ChunkStart(i) + all[i].len == |written|
      ensures all[i].data[..all[i].len] == written[ChunkStart(i)..EndOf(i)]
    {
    }

    /** h3_buffer_read: what is left of the chunk in which reading continues. A position before the
        first chunk wraps around to one past every chunk. */
    method Read() returns (r: ReadOutcome)
      requires Valid()
      ensures match BodyModel.Read(View())
              case Blocked => r == NothingYet
              case Data(start, bytes, eof) =>
                if bytes == [] then r == EndOfBody && eof
                else && r.Available? && r.eof == eof && r.slice.len == |bytes|
                     && head <= start / CHUNK_SIZE
                     && Placed(Handed(r.slice, start, start / CHUNK_SIZE)) && Live(Handed(r.slice, start, start / CHUNK_SIZE))
    {
      hide Links, TailApart, CHUNK_SIZE, ChunkStart, ChunkOk, SlicesPlaced, ChunkEnd;
      var pos: int := consumedBytes - freedBytes;
      var chunk := chunks;
      ghost var index := head;
      while chunk != null && (pos < 0 || pos >= chunk.len)
        invariant head <= index <= |all| && chunk == (if index < |all| then all[index] else null)
        invariant index < |all| ==> pos == consumedBytes - ChunkStart(index)
        invariant index == |all| ==> consumedBytes < freedBytes || consumedBytes == totalLen
        invariant consumedBytes < freedBytes <==> pos < 0
        decreases |all| - index
      {
        ChunkFacts(index);
        pos := pos - chunk.len;
        chunk := chunk.next;
        index := index + 1;
      }
      if chunk == null {
        return if eof then EndOfBody else NothingYet;
      }
      ChunkFacts(index);
      ChunkEndIs(View(), index, all[index].len, consumedBytes);
      var avail := chunk.len - pos;
      r := Available(Slice(chunk, pos, avail), eof && consumedBytes + avail >= totalLen);
      IndexIs(index, consumedBytes);
      PlacedIsLive(Handed(r.slice, consumedBytes, index));
    }

    /** h3_buffer_consume. */
    method Consume(bytes: nat)
      requires Valid()
      modifies `consumedBytes
      ensures Valid() && View() == BodyModel.Consume(old(View()), bytes)
    {
      hide ChunkOk, Links, Linked, TailApart, Placed, ChunkStart, CHUNK_SIZE, Owned;
      var available := if totalLen > consumedBytes then totalLen - consumedBytes else 0;
      consumedBytes := consumedBytes + Min(bytes, available);
    }

    method SetEof()
      requires Valid()
      modifies `eof
      ensures Valid() && View() == old(View()).(eof := true)
    {
      hide ChunkOk, Links, Linked, TailApart, Placed, ChunkStart, CHUNK_SIZE, Owned;
      eof := true;
    }

    /** h3_buffer_ack only counts; it warns when more is acknowledged than was read. */
    method Ack(bytes: nat) returns (warning: bool)
      requires Valid()
      modifies `ackedBytes
      ensures Valid() && View() == BodyModel.Ack(old(View()), bytes)
      ensures warning <==> ackedBytes > consumedBytes
    {
      hide ChunkOk, Links, Linked, TailApart, Placed, ChunkStart, CHUNK_SIZE, Owned;
      ackedBytes := ackedBytes + bytes;
      warning := ackedBytes > consumedBytes;
    }

    /** The loop test: there is a chunk after the head, and the head is acknowledged as a whole. */
    lemma HeadFacts()
      requires Valid()
      ensures (chunks != null && chunks != writeChunk && freedBytes + chunks.len <= ackedBytes) <==> HeadIsFreeable(View())
      ensures HeadIsFreeable(View()) ==> head + 1 < |all| && chunks.len == CHUNK_SIZE && chunks.next == all[head + 1]
    {
      hide ChunkStart, ChunkOk, Placed;
      if all != [] {
        ChunkFacts(head);
        StartStep(head + 1);
        StartsOrdered(head, |all| - 1);
        StartsOrdered(head + 1, |all| - 1);
        if head < |all| - 1 {
          assert all[head] != all[|all| - 1];
          assert chunks.len == CHUNK_SIZE;
        } else {
          assert |written| <= freedBytes + CHUNK_SIZE;
        }
      }
    }

    method FreeHead()
      requires Valid() && HeadIsFreeable(View())
      modifies `chunks, `freedBytes, `head
      ensures Valid() && View() == old(View()).(freed := old(freedBytes) + CHUNK_SIZE)
      ensures head == old(head) + 1
    {
      hide CHUNK_SIZE, ChunkStart, ChunkOk, TailApart, Placed, SlicesPlaced, NextOf;
      HeadFacts();
      StartStep(head + 1);
      freedBytes := freedBytes + chunks.len;
      chunks := chunks.next;
      head := head + 1;
      assert Counters() && SlicesPlaced();
    }

    /** h3_buffer_flush_acked: the freed chunks leave the list, nothing else moves. */
    method FlushAcked()
      requires Valid()
      modifies `chunks, `freedBytes, `head
      ensures Valid() && View() == Flush(old(View())) && head >= old(head)
    {
      hide CHUNK_SIZE, Shape, HeadIsFreeable;
      HeadFacts();
      while chunks != null && chunks != writeChunk && freedBytes + chunks.len <= ackedBytes
        invariant Valid() && Flush(View()) == Flush(old(View())) && head >= old(head)
        invariant chunks != null && chunks != writeChunk && freedBytes + chunks.len <= ackedBytes <==> HeadIsFreeable(View())
        decreases |all| - head
      {
        HeadFacts();
        FreeHead();
        HeadFacts();
      }
    }

    method Pending() returns (r: nat)
      requires Valid()
      ensures r == totalLen - consumedBytes
    {
      r := if totalLen > consumedBytes then totalLen - consumedBytes else 0;
    }

    method CanWrite(len: nat) returns (r: bool)
      requires Valid()
      ensures r == BodyModel.CanWrite(View(), len)
    {
      var usage := if totalLen > freedBytes then totalLen - freedBytes else 0;
      r := usage + len <= MAX_BUFFER_SIZE;
    }

    // ---- nghttp3 callbacks --------------------------------------------------------------------

    /** The last slice of the history is this one, it is live and has these bytes. */
    ghost predicate HandedOut(before: seq<Handed>, slice: Slice, start: nat, bytes: seq<Byte>)
      reads this, slice.chunk, slice.chunk.data
    {
      && |handed| == |before| + 1 && handed[..|before|] == before
      && handed[|before|].slice == slice && handed[|before|].start == start && Live(handed[|before|])
      && slice.len == |bytes| && slice.chunk.data[slice.base..slice.base + slice.len] == bytes
    }

    /** The part of http3_read_data_callback that works on the body: hand out a slice of one chunk
        and count it as consumed. */
    method ReadData() returns (r: ReadOutcome)
      requires Valid()
      modifies `consumedBytes, `handed
      ensures Valid()
      ensures match BodyModel.Read(old(View()))
              case Blocked => r == NothingYet && View() == old(View()) && handed == old(handed)
              case Data(start, bytes, eof) =>
                && View() == BodyModel.Consume(old(View()), |bytes|)
                && if bytes == [] then r == EndOfBody && eof && handed == old(handed)
                   else r.Available? && r.eof == eof && HandedOut(old(handed), r.slice, start, bytes)
    {
      hide ChunkOk, Links, Linked, TailApart, Placed, ChunkStart, Owned, Live;
      r := Read();
      if r.Available? {
        ghost var h := Handed(r.slice, consumedBytes, consumedBytes / CHUNK_SIZE);
        Consume(r.slice.len);
        handed := handed + [h];
        PlacedIsLive(h);
        LiveBytes(h);
      }
    }

    lemma LiveBytes(h: Handed)
      requires Live(h)
      ensures h.slice.base + h.slice.len <= h.slice.chunk.data.Length && h.start + h.slice.len <= |written|
      ensures h.slice.chunk.data[h.slice.base..h.slice.base + h.slice.len] == written[h.start..h.start + h.slice.len]
    {
    }
  }

  lemma StartStep(n: nat)
    ensures ChunkStart(0) == 0 && (n > 0 ==> ChunkStart(n) == ChunkStart(n - 1) + CHUNK_SIZE)
  {
  }

  lemma EmptyChunkOk(c: Chunk, start: nat, written: seq<Byte>)
    requires c.len == 0 && c.data.Length == CHUNK_SIZE && start == |written|
    ensures ChunkOk(c, start, start, written)
  {
  }

  lemma OtherOk(c: Chunk, start: nat, end: nat, before: seq<Byte>, data: seq<Byte>)
    requires ChunkOk(c, start, end, before)
    ensures ChunkOk(c, start, end, before + data)
  {
    assert (before + data)[start..end] == before[start..end];
  }

  lemma TailOk(c: Chunk, start: nat, before: seq<Byte>, data: seq<Byte>)
    requires c.data.Length == CHUNK_SIZE && start <= |before|
    requires c.len == |before| + |data| - start <= CHUNK_SIZE
    requires c.data[..c.len] == before[start..] + data
    ensures ChunkOk(c, start, |before| + |data|, before + data)
  {
    assert (before + data)[start..] == before[start..] + data;
  }

  lemma RoomOf(b: Body, i: nat, len: nat)
    requires |b.written| == ChunkStart(i) + len && 0 < len <= CHUNK_SIZE
    ensures Room(b) == CHUNK_SIZE - len
  {
  }

  lemma ChunkEndIs(b: Body, i: nat, len: nat, p: nat)
    requires ChunkStart(i) <= p < ChunkStart(i) + len <= |b.written| && len <= CHUNK_SIZE
    requires len == CHUNK_SIZE || ChunkStart(i) + len == |b.written|
    ensures ChunkEnd(b, p) == ChunkStart(i) + len
  {
    assert p / CHUNK_SIZE == i;
  }

  lemma IndexIs(i: nat, p: nat)
    requires ChunkStart(i) <= p < ChunkStart(i) + CHUNK_SIZE
    ensures p / CHUNK_SIZE == i
  {
  }

  lemma IndexAtLeast(i: nat, h: nat, p: nat)
    requires ChunkStart(h) < p <= ChunkStart(i) + CHUNK_SIZE
    ensures h <= i
  {
  }

  lemma StartsOrdered(i: nat, j: nat)
    ensures ChunkStart(i) <= ChunkStart(j) <==> i <= j
  {
  }

  lemma SliceOfSlice(s: seq<Byte>, from: nat, to: nat, i: nat, j: nat)
    requires from <= to <= |s| && i <= j <= to - from
    ensures s[from..to][i..j] == s[from + i..from + j]
  {
    assert forall k {:trigger s[from + i..from + j][k]} :: 0 <= k < j - i ==> s[from..to][i..j][k] == s[from + i..from + j][k];
  }
}
