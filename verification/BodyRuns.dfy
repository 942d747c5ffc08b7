/** The chunked buffer against the history of a session: what nghttp3 was handed stays in memory,
    where it was, until it is acknowledged. */
module BodyRuns {
  import opened BodyModel
  import opened BodyBuffer

  /** The buffer is in the state of the session, and its slices are the session's pieces. */
  ghost predicate Matches(b: StreamBuffer, t: Session)
    reads b
  {
    b.View() == t.body && HandedAs(b.handed, t.pieces)
  }

  /** The slices have the positions and lengths of the pieces. */
  ghost predicate HandedAs(handed: seq<Handed>, pieces: seq<Piece>) {
    && |handed| == |pieces|
    && forall k :: 0 <= k < |pieces| ==>
         handed[k].start == pieces[k].start && handed[k].slice.len == |pieces[k].bytes|
  }

  /** In every state that a run can reach: a slice that is not acknowledged as a whole lies in an
      allocated chunk and still holds the bytes that were handed out. */
  lemma SlicesKeepTheirBytes(b: StreamBuffer, t: Session, k: nat)
    requires b.Valid() && Matches(b, t) && Inv(t) && k < |b.handed|
    requires b.handed[k].start + b.handed[k].slice.len > b.ackedBytes
    ensures var Slice(c, base, len) := b.handed[k].slice;
            && c in b.all[b.head..] && base + len <= c.data.Length
            && c.data[base..base + len] == t.pieces[k].bytes
  {
    hide StreamBuffer.Valid;
    b.UnackedIsLive(b.handed[k]);
    assert PieceInBody(t.pieces[k], t.body.written);
    assert b.all[b.head..][b.handed[k].index - b.head] == b.handed[k].slice.chunk;
  }
}
