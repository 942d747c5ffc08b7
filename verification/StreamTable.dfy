/** The hash table of streams in h3_connection.c: 256 buckets of linked entries as a finite map. */
module StreamTable {
  import opened BodyBuffer

  const HASH_SIZE := 256

  class Stream {
    const id: nat
    const body: StreamBuffer
    var responseEof: bool
    var next: Stream?

    constructor (id: nat)
      ensures this.id == id && !responseEof && next == null
      ensures fresh(body) && body.Valid() && body.Repr == {body} && body.handed == []
      ensures body.View() == BodyModel.EMPTY
    {
      this.id := id;
      body := new StreamBuffer();
      responseEof, next := false, null;
    }
  }

  function StreamHash(id: nat): nat {
    id % HASH_SIZE
  }

  /** The linked list that starts at `first` is `chain`. */
  ghost predicate ChainAt(first: Stream?, chain: seq<Stream>)
    reads chain`next
  {
    && first == (if chain == [] then null else chain[0])
    && forall k {:trigger chain[k]} :: 0 <= k < |chain| ==> chain[k].next == if k + 1 < |chain| then chain[k + 1] else null
  }

  lemma ChainCons(s: Stream, chain: seq<Stream>)
    requires ChainAt(s.next, chain)
    ensures ChainAt(s, [s] + chain)
  {
  }

  ghost predicate DistinctIds(chain: seq<Stream>) {
    forall j, k :: 0 <= j < k < |chain| ==> chain[j].id != chain[k].id
  }

  /** A bucket's list has exactly the entries whose ids hash to it, each id once. */
  ghost predicate BucketOk(b: nat, chain: seq<Stream>, entries: map<nat, Stream>) {
    && DistinctIds(chain)
    && forall k {:trigger chain[k]} :: 0 <= k < |chain| ==>
         StreamHash(chain[k].id) == b && chain[k].id in entries && entries[chain[k].id] == chain[k]
  }

  ghost predicate MapOk(chains: seq<seq<Stream>>, entries: map<nat, Stream>) {
    && |chains| == HASH_SIZE
    && (forall b :: 0 <= b < HASH_SIZE ==> BucketOk(b, chains[b], entries))
    && forall id {:trigger entries[id]} :: id in entries ==> entries[id].id == id && entries[id] in chains[StreamHash(id)]
  }

  lemma ChainInEntries(b: nat, chains: seq<seq<Stream>>, entries: map<nat, Stream>)
    requires MapOk(chains, entries) && b < HASH_SIZE
    ensures forall s :: s in chains[b] ==> s in entries.Values
  {
    assert BucketOk(b, chains[b], entries);
    forall k | 0 <= k < |chains[b]|
      ensures chains[b][k] in entries.Values
    {
      assert entries[chains[b][k].id] == chains[b][k];
    }
  }

  lemma NotListed(chains: seq<seq<Stream>>, entries: map<nat, Stream>, s: Stream)
    requires MapOk(chains, entries) && s.id !in entries
    ensures forall b :: 0 <= b < HASH_SIZE ==> s !in chains[b]
  {
    forall b | 0 <= b < HASH_SIZE
      ensures s !in chains[b]
    {
      assert BucketOk(b, chains[b], entries);
    }
  }

  ghost function Inserted(chains: seq<seq<Stream>>, s: Stream): seq<seq<Stream>>
    requires |chains| == HASH_SIZE
  {
    var b := StreamHash(s.id);
    chains[b := [s] + chains[b]]
  }

  lemma InsertKeeps(chains: seq<seq<Stream>>, entries: map<nat, Stream>, s: Stream)
    requires MapOk(chains, entries) && s.id !in entries
    ensures MapOk(Inserted(chains, s), entries[s.id := s])
  {
    var chains', entries' := Inserted(chains, s), entries[s.id := s];
    forall b | 0 <= b < HASH_SIZE
      ensures BucketOk(b, chains'[b], entries')
    {
      assert BucketOk(b, chains[b], entries);
    }
    forall id | id in entries'
      ensures entries'[id].id == id && entries'[id] in chains'[StreamHash(id)]
    {
      if id != s.id { assert entries[id] in chains[StreamHash(id)]; }
    }
  }

  ghost function Removed(chains: seq<seq<Stream>>, b: nat, k: nat): seq<seq<Stream>>
    requires b < |chains| && k < |chains[b]|
  {
    chains[b := chains[b][..k] + chains[b][k + 1..]]
  }

  lemma RemoveKeeps(chains: seq<seq<Stream>>, entries: map<nat, Stream>, b: nat, k: nat)
    requires MapOk(chains, entries) && b < HASH_SIZE && k < |chains[b]|
    ensures MapOk(Removed(chains, b, k), entries - {chains[b][k].id})
  {
    var s := chains[b][k];
    var chains', entries' := Removed(chains, b, k), entries - {s.id};
    assert BucketOk(b, chains[b], entries);
    forall c | 0 <= c < HASH_SIZE
      ensures BucketOk(c, chains'[c], entries')
    {
      assert BucketOk(c, chains[c], entries);
    }
    forall id | id in entries'
      ensures entries'[id].id == id && entries'[id] in chains'[StreamHash(id)]
    {
      assert entries[id] in chains[StreamHash(id)];
      if StreamHash(id) == b {
        var j :| 0 <= j < |chains[b]| && chains[b][j] == entries[id];
        assert j < k ==> chains'[b][j] == entries[id];
        assert j > k ==> chains'[b][j - 1] == entries[id];
      }
    }
  }

  class Table {
    const buckets: array<Stream?>
    var count: nat

    ghost var chains: seq<seq<Stream>>    // the list of each bucket
    ghost var entries: map<nat, Stream>   // the map the table stands for

    ghost predicate ListsOk()
      requires MapOk(chains, entries)
      reads this, buckets, entries.Values`next
    {
      && buckets.Length == HASH_SIZE
      && forall b :: 0 <= b < HASH_SIZE ==> (ChainInEntries(b, chains, entries); ChainAt(buckets[b], chains[b]))
    }

    ghost predicate Valid()
      reads this, buckets, entries.Values`next
    {
      MapOk(chains, entries) && ListsOk() && count == |entries|
    }

    constructor ()
      ensures Valid() && entries == map[] && fresh(buckets)
    {
      buckets := new Stream?[HASH_SIZE](_ => null);
      count := 0;
      chains, entries := seq(HASH_SIZE, _ => []), map[];
    }

    lemma BucketAt(b: nat)
      requires Valid() && b < HASH_SIZE
      ensures buckets.Length == HASH_SIZE && |chains| == HASH_SIZE && ChainAt(buckets[b], chains[b])
      ensures forall k {:trigger chains[b][k]} :: 0 <= k < |chains[b]| ==>
                chains[b][k].id in entries && entries[chains[b][k].id] == chains[b][k]
    {
      assert BucketOk(b, chains[b], entries);
    }

    /** Bucket `b` lists the entries whose ids are `b` modulo 256, each of them once. */
    lemma BucketHolds(b: nat)
      requires Valid() && b < 256
      ensures |chains| == buckets.Length == 256 && ChainAt(buckets[b], chains[b]) && DistinctIds(chains[b])
      ensures forall s :: s in chains[b] <==> s in entries.Values && s.id % 256 == b
    {
      assert BucketOk(b, chains[b], entries);
      ChainInEntries(b, chains, entries);
      forall s | s in entries.Values && s.id % 256 == b
        ensures s in chains[b]
      {
        assert entries[s.id] == s;
      }
    }

    lemma BucketFacts(id: nat)
      requires Valid()
      ensures buckets.Length == HASH_SIZE && |chains| == HASH_SIZE && StreamHash(id) < HASH_SIZE
      ensures forall s :: s in chains[StreamHash(id)] ==> s in entries.Values
      ensures forall s :: s in chains[StreamHash(id)] && s.id == id ==> id in entries && entries[id] == s
      ensures id in entries ==> entries[id].id == id && entries[id] in chains[StreamHash(id)]
      ensures ChainAt(buckets[StreamHash(id)], chains[StreamHash(id)])
    {
      ChainInEntries(StreamHash(id), chains, entries);
      assert BucketOk(StreamHash(id), chains[StreamHash(id)], entries);
    }

    /** h3_stream_find. */
    method Find(id: nat) returns (r: Stream?)
      requires Valid()
      ensures r == (if id in entries then entries[id] else null) && (r != null ==> r.id == id)
    {
      hide MapOk, ListsOk, StreamHash, BucketOk, DistinctIds;
      BucketFacts(id);
      ghost var chain, i := chains[StreamHash(id)], 0;
      r := buckets[StreamHash(id)];
      while r != null
        invariant 0 <= i <= |chain| && r == (if i < |chain| then chain[i] else null)
        invariant forall j :: 0 <= j < i ==> chain[j].id != id
        decreases |chain| - i
      {
        if r.id == id {
          return;
        }
        r := r.next;
        i := i + 1;
      }
    }

    /** Put a new entry at the front of its bucket. */
    method Insert(stream: Stream)
      requires Valid() && stream.id !in entries
      modifies `count, `chains, `entries, buckets, stream`next
      ensures Valid() && entries == old(entries)[stream.id := stream]
    {
      hide MapOk, StreamHash, BucketOk, ChainAt;
      var b := StreamHash(stream.id);
      ghost var before := chains;
      BucketFacts(stream.id);
      InsertKeeps(chains, entries, stream);
      NotListed(chains, entries, stream);
      stream.next := buckets[b];
      buckets[b] := stream;
      count := count + 1;
      chains := Inserted(chains, stream);
      entries := entries[stream.id := stream];
      forall c | 0 <= c < HASH_SIZE
        ensures ChainAt(buckets[c], chains[c])
      {
        assert ChainAt(old(buckets[c]), before[c]);
        if c == b { ChainCons(stream, before[b]); }
      }
    }

    /** h3_stream_create: the existing entry, or a new one, or null when the allocation is refused. */
    method Create(id: nat, granted: bool) returns (r: Stream?)
      requires Valid()
      modifies `count, `chains, `entries, buckets
      ensures Valid()
      ensures id in old(entries) ==> entries == old(entries) && r == entries[id]
      ensures id !in old(entries) && !granted ==> entries == old(entries) && r == null
      ensures id !in old(entries) && granted ==>
                r != null && fresh(r) && r.id == id && entries == old(entries)[id := r]
                && fresh(r.body) && r.body.Valid() && r.body.Repr == {r.body} && r.body.View() == BodyModel.EMPTY
                && r.body.handed == [] && !r.responseEof
    {
      hide MapOk, ListsOk, StreamBuffer.Valid;
      r := Find(id);
      if r != null || !granted {
        return;
      }
      r := new Stream(id);
      Insert(r);
    }

    /** Take the entry after `prev` (or the first one) out of bucket `b`; it is the k-th of the list. */
    method Unlink(b: nat, prev: Stream?, cur: Stream, ghost k: nat)
      requires Valid() && b < HASH_SIZE && k < |chains[b]| && cur == chains[b][k]
      requires prev == if k == 0 then null else chains[b][k - 1]
      modifies `count, `chains, `entries, buckets, entries.Values`next
      ensures Valid() && entries == old(entries) - {cur.id} && cur.id in old(entries)
    {
      hide MapOk, StreamHash, BucketOk, ChainAt;
      ApartFacts(chains, entries, b, k);
      ghost var before, first := chains, buckets[b];
      assert ChainAt(first, before[b]);
      RemoveKeeps(chains, entries, b, k);
      if prev != null {
        Relink(prev, cur, first, before[b], k);
      } else {
        DropFirst(first, cur, before[b]);
        buckets[b] := cur.next;
      }
      count := count - 1;
      chains := Removed(chains, b, k);
      entries := entries - {cur.id};
      forall c | 0 <= c < HASH_SIZE
        ensures ChainAt(buckets[c], chains[c])
      {
        if c != b {
          assert prev != null ==> prev in before[b] && prev !in before[c];
          assert ChainAt(old(buckets[c]), before[c]);
        }
      }
    }

    /** h3_stream_remove. */
    method Remove(id: nat)
      requires Valid()
      modifies `count, `chains, `entries, buckets, entries.Values`next
      ensures Valid() && entries == old(entries) - {id}
    {
      hide MapOk, ListsOk, StreamHash, BucketOk, DistinctIds;
      BucketFacts(id);
      var b := StreamHash(id);
      var prev: Stream?, cur := null, buckets[b];
      ghost var chain, k := chains[b], 0;
      while cur != null
        invariant 0 <= k <= |chain| && cur == (if k < |chain| then chain[k] else null)
        invariant prev == if k == 0 then null else chain[k - 1]
        invariant forall j :: 0 <= j < k ==> chain[j].id != id
        decreases |chain| - k
      {
        if cur.id == id {
          Unlink(b, prev, cur, k);
          return;
        }
        prev, cur := cur, cur.next;
        k := k + 1;
      }
      assert entries - {id} == entries;
    }

    /** h3_stream_table_cleanup. */
    method Cleanup()
      requires Valid()
      modifies `count, `chains, `entries, buckets
      ensures Valid() && entries == map[]
    {
      hide MapOk, BucketOk, ChainAt;
      assert buckets.Length == HASH_SIZE;
      for i := 0 to HASH_SIZE
        invariant forall b :: 0 <= b < i ==> buckets[b] == null
      {
        buckets[i] := null;
      }
      count := 0;
      chains, entries := seq(HASH_SIZE, _ => []), map[];
      EmptyOk(chains);
    }
  }

  lemma EmptyOk(chains: seq<seq<Stream>>)
    requires |chains| == HASH_SIZE && forall b :: 0 <= b < HASH_SIZE ==> chains[b] == []
    ensures MapOk(chains, map[]) && ChainAt(null, [])
  {
  }

  /** prev->next = cur->next. */
  method Relink(prev: Stream, cur: Stream, ghost first: Stream?, ghost chain: seq<Stream>, ghost k: nat)
    requires ChainAt(first, chain) && DistinctIds(chain) && 0 < k < |chain|
    requires cur == chain[k] && prev == chain[k - 1]
    modifies prev`next
    ensures ChainAt(first, chain[..k] + chain[k + 1..])
  {
    ghost var after := chain[..k] + chain[k + 1..];
    prev.next := cur.next;
    forall j {:trigger after[j]} | 0 <= j < |after|
      ensures after[j].next == if j + 1 < |after| then after[j + 1] else null
    {
      if j >= k { assert after[j] == chain[j + 1]; }
    }
  }

  lemma DropFirst(first: Stream?, cur: Stream, chain: seq<Stream>)
    requires ChainAt(first, chain) && chain != [] && cur == chain[0]
    ensures ChainAt(cur.next, chain[..0] + chain[1..])
  {
  }

  /** An entry is in one list only, and once. */
  lemma ApartFacts(chains: seq<seq<Stream>>, entries: map<nat, Stream>, b: nat, k: nat)
    requires MapOk(chains, entries) && b < HASH_SIZE && k < |chains[b]|
    ensures |chains| == HASH_SIZE && DistinctIds(chains[b]) && chains[b][k].id in entries && entries[chains[b][k].id] == chains[b][k]
    ensures forall c :: 0 <= c < HASH_SIZE && c != b ==> forall s :: s in chains[b] ==> s !in chains[c]
    ensures forall s :: s in chains[b] ==> s in entries.Values
  {
    assert BucketOk(b, chains[b], entries);
    ChainInEntries(b, chains, entries);
    forall c, s | 0 <= c < HASH_SIZE && c != b && s in chains[b]
      ensures s !in chains[c]
    {
      assert BucketOk(c, chains[c], entries);
    }
  }
}
