# PageCamel: verified models

Dafny models of the parts of PageCamel whose correctness is least obvious from reading one function,
with proofs. `dafny verify dfyconfig.toml` checks everything.

| part of PageCamel | modules |
|---|---|
| LZ-string coder: bits, codes, phrases, text | `Bits`, `LzSpec`, `LzRoundTrip`, `LzString`, `LzWrappers`, `LzAnyInput` |
| HTTP/3 response bodies: chunked buffer, stream table, API and callbacks, whole connections | `BodyModel`, `BodyBuffer`, `BodyRuns`, `StreamTable`, `Connection`, `ConnectionModel`, `ConnectionRuns` |
| SHA-256 in the browser | `Words`, `Fips180`, `Fips180Constants`, `Fips180Meaning`, `Sha256` |
| WebSocket frames of the test client | `WebSocket`, `WebSocketWire` |
| line breaking and money formatting | `LineBreak`, `Money` |

`Option`, `Bytes` and `Bits` are shared. Each stateful algorithm is a class or a method with the
loops and fields of the original; its contract ties it to a function of the inputs or of the old
state, and the theorems are about that function.

**LZ-string.** The encoder and the decoder are two loops that share no state. `Lockstep` relates them
whenever the decoder is about to read a token: there is one list of phrases, the encoder's dictionary
is its inverse, and the decoder knows all of it but the newest phrase and a first-seen character
that is still to be introduced. One phrase is never in the encoder's dictionary: a plain JavaScript
object drops a number assigned to `"__proto__"`, so the encoder may send that phrase in two parts
again and again while the decoder gives it one code after another. Every emission of the encoder is one iteration of the
decoder that restores the relation, so the round trip holds for every text. What the encoder sends
is also read off the stream itself: `Says` gives the code, or the marker and the 8 or 16 bits of a
first occurrence, at every emission, and `Ends` that nothing follows the end marker. The decoder is also
described on arbitrary input: it terminates, its width invariant holds, and it throws if and only if
the first token is 3 and the first code after it is 4, which the first character received decides:
Base64 text throws exactly when it begins with `y` or `z`.

**HTTP/3 bodies.** `BodyModel` is a machine over byte counts with the history of what nghttp3 was
handed. `BodyBuffer.StreamBuffer` is the linked list of chunks and refines it; its ghost fields
remember every chunk and every slice, which gives pointer stability. `StreamTable.Table` is the hash
table with its bucket lists as a finite map. `Connection.H3Connection` puts a buffer into every entry
and has the API function, the callbacks and the final sweep, each of which changes one body and no
other. `ConnectionRuns.RunConnection` carries out any sequence of events on the heap objects and ends
in the state that `ConnectionModel` computes, so that fidelity, bounded memory and pointer stability
hold for every stream of every run. What nghttp3 acknowledges is arbitrary unless a lemma asks for
`Honest`; `OverAckLosesBody` shows what goes wrong otherwise, and `ReadAnnouncesEof` exactly when.

**SHA-256.** `Number` is the type of integers that a double holds exactly, so a contract over
`Number` includes the proof that no intermediate sum leaves that range. The window of 16 words and the
accumulators, which are never reduced, stand for the words of FIPS 180-4 modulo 2^32. `Fips180` is
tied to the text of the standard from outside: its constants to roots of primes, its
functions bit by bit, its padding and its output byte by byte.

## Model

| member | source | states |
|---|---|---|
| Bits.ReadBack | lib/PageCamel/Web/Static/lz-string.js:353-362 | a code found in the bit stream at a position is read back as the value written there |
| Bits.UnpackPack | lib/PageCamel/Web/Static/lz-string.js:138-159 | packing bits into characters of any width, most significant first, and unpacking them loses nothing |
| Bits.CodesRoundTrip | lib/PageCamel/Web/Static/lz-string.js:300-322 | codes of any widths, written, padded, packed, unpacked and read with the same widths, give the same values, and at least one bit is left unread, so the guard on the index never stops a complete stream |
| Bits.Padded | lib/PageCamel/Web/Static/lz-string.js:314-322 | the final flush fills whole characters, keeps all bits and adds between one bit and one full character of zeros |
| LzString.Compressor.PutBit | lib/PageCamel/Web/Static/lz-string.js:150-157 | one step of an emission loop appends exactly one bit, across character boundaries |
| LzString.Compressor.PutCode | lib/PageCamel/Web/Static/lz-string.js:193-204 | an emission loop appends the bits of a code, least significant first |
| LzString.Compressor.TickWidth | lib/PageCamel/Web/Static/lz-string.js:208-212 | the countdown and the code width after one more dictionary entry |
| LzString.Compressor.EmitWord | lib/PageCamel/Web/Static/lz-string.js:136-212 | writes the token of the current phrase and keeps everything else of the encoder's state |
| LzString.Compressor.Feed | lib/PageCamel/Web/Static/lz-string.js:125-217 | one iteration of the main loop is one step of the abstract encoder, `"__proto__"` included |
| LzString.Compressor.Flush | lib/PageCamel/Web/Static/lz-string.js:314-322 | the characters written are the padded bit stream |
| LzString.Compress | lib/PageCamel/Web/Static/lz-string.js:109-324 | the whole compressor computes the specified characters, the empty text included |
| LzString.BitReader.constructor | lib/PageCamel/Web/Static/lz-string.js:344-344 | reading starts at the first bit of the first character |
| LzString.BitReader.ReadBit | lib/PageCamel/Web/Static/lz-string.js:412-417 | masking and shifting yields the next bit of the unpacked characters, 0 past the end |
| LzString.BitReader.ReadCode | lib/PageCamel/Web/Static/lz-string.js:408-420 | a reading loop yields the value of the next n bits |
| LzString.BitReader.PastEnd | lib/PageCamel/Web/Static/lz-string.js:404-406 | the guard on the index holds exactly when every bit of every character has been read |
| LzString.Decompressor.ReadChar | lib/PageCamel/Web/Static/lz-string.js:423-459 | a first-seen character goes under the next free code, which becomes the code to look up |
| LzString.Decompressor.AcceptCode | lib/PageCamel/Web/Static/lz-string.js:469-489 | known code, next free code, invalid code and undefined previous phrase, with the dictionary and width after each |
| LzString.Decompressor.Step | lib/PageCamel/Web/Static/lz-string.js:403-491 | one iteration of the main loop is one step of the abstract decoder |
| LzString.Decompress | lib/PageCamel/Web/Static/lz-string.js:332-492 | the whole decompressor computes the specified outcome on every input, valid or corrupt, and terminates |
| LzSpec.DecStepProgress | lib/PageCamel/Web/Static/lz-string.js:403-420 | an iteration that continues has consumed input that existed, and codes never get narrower |
| LzRoundTrip.TokenOfKnown | lib/PageCamel/Web/Static/lz-string.js:193-204 | the token of a phrase with a code is one code between 3 and 2^numBits, so it is never cut or taken for a marker |
| LzRoundTrip.LookupKnown | lib/PageCamel/Web/Static/lz-string.js:469-477 | such a code is in the decoder's dictionary, or it is the next free one and stands for the previous phrase extended by its own first character |
| LzRoundTrip.ReadKnown | lib/PageCamel/Web/Static/lz-string.js:403-491 | reading the token of a known phrase brings the decoder level with the encoder |
| LzRoundTrip.ReadPending | lib/PageCamel/Web/Static/lz-string.js:422-491 | so does reading the in-line introduction of a character: the marker 0 and 8 bits for codes below 256, the marker 1 and 16 bits for others |
| LzRoundTrip.EveryToken | lib/PageCamel/Web/Static/lz-string.js:136-207 | at every emission of every run the stream reads as the code of the phrase, or as marker and character with exactly 8 or 16 bits; lengthening the phrase sends nothing |
| LzRoundTrip.PendingIsFirst | lib/PageCamel/Web/Static/lz-string.js:127-130 | at every point of every run a character awaits its introduction exactly when it occurs for the first time, and exactly the characters seen have codes |
| LzRoundTrip.EveryEnd | lib/PageCamel/Web/Static/lz-string.js:219-312 | every stream ends with the token of the last phrase and the marker 2 in the right width, and nothing more |
| LzRoundTrip.EmptyEnds | lib/PageCamel/Web/Static/lz-string.js:300-312 | the empty text is the end marker alone |
| LzRoundTrip.GrowKeeps | lib/PageCamel/Web/Static/lz-string.js:132-134 | lengthening the phrase keeps the two machines related, and only happens to phrases with codes |
| LzRoundTrip.EmissionInLockstep | lib/PageCamel/Web/Static/lz-string.js:125-217 | one emission of the encoder is one step of the decoder, which outputs the phrase, and the relation holds again |
| LzRoundTrip.FinishInLockstep | lib/PageCamel/Web/Static/lz-string.js:219-312 | the last phrase and the end marker make the decoder stop with everything it has collected |
| LzRoundTrip.RunInLockstep | lib/PageCamel/Web/Static/lz-string.js:403-491 | from any related states the decoder reproduces all that the encoder still has to send |
| LzRoundTrip.AlwaysInLockstep | lib/PageCamel/Web/Static/lz-string.js:125-217 | when the encoder has taken in any text of two or more characters, a decoder that read all bits so far is related to it and has output all but the phrase being matched |
| LzRoundTrip.DecompressInvertsCompress | lib/PageCamel/Web/Static/lz-string.js:332-492 | the decoder recovers every text from any stream that continues past the encoder's bits |
| LzRoundTrip.RoundTrip | lib/PageCamel/Web/Static/lz-string.js:109-492 | decompressing the compressor's characters gives back the text, for every text and width, with anything appended |
| LzRoundTrip.CodesFit | lib/PageCamel/Web/Static/lz-string.js:186-214 | at every point of every run the code of a known phrase is at least 3 and below 2^numBits, and short enough texts never need more than 30 bits |
| LzAnyInput.DecoderWidth | lib/PageCamel/Web/Static/lz-string.js:438-489 | on any input, at every loop head, the dictionary size and the countdown add up to 2^numBits |
| LzAnyInput.ThrowsExactly | lib/PageCamel/Web/Static/lz-string.js:364-477 | the decoder throws if and only if the first token is 3, which leaves the previous phrase undefined, and the next code is 4, which asks for it |
| LzAnyInput.Outcomes | lib/PageCamel/Web/Static/lz-string.js:332-492 | every input leads the loop to a last iteration, and that decides the outcome: empty text when the input has run out, the collected text at the end marker, an exception or null for a code it does not have |
| LzAnyInput.NullExactly | lib/PageCamel/Web/Static/lz-string.js:469-477 | null if and only if the loop comes to read a code above the next free one, or 3 after a first token 3 |
| LzAnyInput.RunsOut | lib/PageCamel/Web/Static/lz-string.js:404-406 | running out of input gives the empty text, whatever was collected |
| LzAnyInput.UndefinedByName | lib/PageCamel/Web/Static/lz-string.js:480-481 | a missing first phrase enters the dictionary by its JavaScript name |
| LzAnyInput.ThrowsOnFirst | lib/PageCamel/Web/Static/lz-string.js:332-477 | for characters of five or more bits: if and only if the first one begins with the bits 11001 |
| LzAnyInput.Base64Throws | lib/PageCamel/Web/Static/lz-string.js:41-45 | Base64 text throws if and only if it begins with y or z |
| LzAnyInput.EncodedURIComponentThrows | lib/PageCamel/Web/Static/lz-string.js:99-104 | so does text in the form for URIs |
| LzAnyInput.UTF16Throws | lib/PageCamel/Web/Static/lz-string.js:52-56 | UTF-16 text throws if and only if its first character lies in one of two ranges of 1024 |
| LzAnyInput.PlainThrows | lib/PageCamel/Web/Static/lz-string.js:326-330 | a plain compressed string throws if and only if its first character lies between 51200 and 53247 |
| LzAnyInput.BytesThrow | lib/PageCamel/Web/Static/lz-string.js:71-89 | an even number of bytes makes the decoder throw if and only if the first lies between 200 and 207 |
| LzWrappers.BaseValueOf | lib/PageCamel/Web/Static/lz-string.js:18-26 | the reverse table maps each character of a duplicate-free alphabet to its index |
| LzWrappers.KeysDistinct | lib/PageCamel/Web/Static/lz-string.js:14-15 | neither alphabet has a character twice |
| LzWrappers.Base64RoundTrip | lib/PageCamel/Web/Static/lz-string.js:29-45 | Base64 form: round trip for every text, padding included; a null input gives the empty text, which decompresses to null |
| LzWrappers.EncodedURIComponentRoundTrip | lib/PageCamel/Web/Static/lz-string.js:93-104 | URI form: round trip from every received text that differs from the one sent only by spaces for plus signs |
| LzWrappers.UTF16RoundTrip | lib/PageCamel/Web/Static/lz-string.js:47-56 | 15-bit form: round trip in spite of the offset 32 and the trailing space |
| LzWrappers.KeysAre | lib/PageCamel/Web/Static/lz-string.js:14-15 | the two alphabets, character by character |
| LzWrappers.Base64Form | lib/PageCamel/Web/Static/lz-string.js:29-39 | Base64 text is the characters of the codes and at most three equals signs |
| LzWrappers.EncodedURIComponentForm | lib/PageCamel/Web/Static/lz-string.js:93-96 | the form for URIs is the characters of the codes |
| LzWrappers.UTF16Form | lib/PageCamel/Web/Static/lz-string.js:47-50 | UTF-16 text is each code with 32 added, and a space |
| LzWrappers.BytesAt | lib/PageCamel/Web/Static/lz-string.js:63-67 | each character is two bytes, the high one first |
| LzWrappers.NullAndEmpty | lib/PageCamel/Web/Static/lz-string.js:41-102 | null and empty arguments of every entry point |
| LzWrappers.PlainRoundTrip | lib/PageCamel/Web/Static/lz-string.js:106-330 | 16-bit form: round trip |
| LzWrappers.CompressToUint8Array | lib/PageCamel/Web/Static/lz-string.js:59-69 | the array has the big-endian bytes of the compressed text |
| LzWrappers.DecompressFromUint8Array | lib/PageCamel/Web/Static/lz-string.js:72-89 | the bytes are read as big-endian units; null and odd lengths behave as in the code |
| LzWrappers.Uint8ArrayRoundTrip | lib/PageCamel/Web/Static/lz-string.js:59-89 | byte form: round trip |
| BodyModel.SendAppends | lib/PageCamel/Protocol/HTTP3/src/h3_api.c:187-209 | the API appends a prefix of the data: all of it on success, a proper one when memory runs out, none when it would exceed 10 MiB, which is exactly when it refuses |
| BodyModel.RunKeeps | lib/PageCamel/Protocol/HTTP3/src/h3_buffer.c:117-324 | every run of sends, reads, acknowledgements and flushes keeps the invariant of a body and its history |
| BodyModel.EveryRun | lib/PageCamel/Protocol/HTTP3/src/h3_buffer.c:184-281 | the bytes handed out are exactly the first consumed bytes of the accepted data, in order; retained bytes stay within 10 MiB; only whole acknowledged chunks are freed and never the last |
| BodyModel.CountersOrdered | lib/PageCamel/Protocol/HTTP3/src/h3_buffer.h:43-43 | freed <= acked <= consumed <= total in every run in which only handed bytes are acknowledged |
| BodyModel.FlushExact | lib/PageCamel/Protocol/HTTP3/src/h3_buffer.c:302-324 | a flush frees a chunk if and only if it is acknowledged as a whole and is not the one being written |
| BodyModel.FlushReleases | lib/PageCamel/Protocol/HTTP3/src/h3_buffer.c:348-368 | after a flush at most one chunk of acknowledged bytes is retained, so a fully acknowledged body accepts any write of up to 10 MiB less one chunk |
| BodyModel.EveryAckCounts | lib/PageCamel/Protocol/HTTP3/src/h3_buffer.c:287-288 | in every run acked_bytes is the sum of the acknowledgements, however they are cut |
| BodyModel.DrainedAccepts | lib/PageCamel/Protocol/HTTP3/src/h3_buffer.c:302-324 | a run in which as much was acknowledged as was accepted, and a flush, leave room for any write of up to 10 MiB less one chunk |
| BodyModel.WriteFillsChunks | lib/PageCamel/Protocol/HTTP3/src/h3_buffer.c:134-163 | a write takes all of its data if and only if the chunks it adds are granted, and otherwise fills those that are |
| BodyModel.ConsumeStops | lib/PageCamel/Protocol/HTTP3/src/h3_buffer.c:266-275 | consuming moves on by what is asked but never past what was written |
| BodyModel.ReadAnnouncesEof | lib/PageCamel/Protocol/HTTP3/src/h3_buffer.c:184-257 | a read announces the end if and only if the end is marked and nothing remains, or bytes were freed before they were read |
| BodyModel.AnnouncedIsComplete | lib/PageCamel/Protocol/HTTP3/src/h3_callbacks.c:512-551 | with honest acknowledgements and nothing sent after the end mark, an announced end means every accepted byte was handed out |
| BodyModel.WholeBody | lib/PageCamel/Protocol/HTTP3/src/h3_callbacks.c:512-551 | the same on the list of events: no data after one that marks the end |
| BodyModel.OverAckLosesBody | lib/PageCamel/Protocol/HTTP3/src/h3_buffer.c:287-324 | if more is acknowledged than was handed out, every body over one chunk can end without any of it being handed out |
| BodyModel.ReadTakesOneChunk | lib/PageCamel/Protocol/HTTP3/src/h3_buffer.c:199-226 | a read hands out the rest of exactly one chunk |
| BodyModel.ReadsReachEof | lib/PageCamel/Protocol/HTTP3/src/h3_buffer.c:184-257 | as many reads as there are unread chunks, at least one, reach the end |
| BodyModel.ReadsBeforeEof | lib/PageCamel/Protocol/HTTP3/src/h3_buffer.c:225-229 | fewer never announce it |
| BodyBuffer.StreamBuffer.constructor | lib/PageCamel/Protocol/HTTP3/src/h3_buffer.c:96-104 | an empty body that has handed out nothing |
| BodyBuffer.StreamBuffer.AddChunk | lib/PageCamel/Protocol/HTTP3/src/h3_buffer.c:136-150 | a fresh chunk goes to the end of the list and changes nothing of the body |
| BodyBuffer.StreamBuffer.CopyToTail | lib/PageCamel/Protocol/HTTP3/src/h3_buffer.c:159-160 | copying touches only positions past the length of the tail chunk |
| BodyBuffer.StreamBuffer.Append | lib/PageCamel/Protocol/HTTP3/src/h3_buffer.c:152-162 | bytes that fit are appended to the body and every earlier chunk stays as it was |
| BodyBuffer.StreamBuffer.Write | lib/PageCamel/Protocol/HTTP3/src/h3_buffer.c:117-170 | data cut over any number of chunks; when the allocator grants too few, exactly the prefix that fits is appended; slices and chunks handed out before stay |
| BodyBuffer.StreamBuffer.Read | lib/PageCamel/Protocol/HTTP3/src/h3_buffer.c:184-257 | the slice returned has the address that belongs to its position in the stream and holds its bytes; end and would-block as in the code |
| BodyBuffer.StreamBuffer.Consume | lib/PageCamel/Protocol/HTTP3/src/h3_buffer.c:259-281 | the count is clamped to what is available and nothing else changes |
| BodyBuffer.StreamBuffer.SetEof | lib/PageCamel/Protocol/HTTP3/src/h3_buffer.c:172-174 | only the end mark changes |
| BodyBuffer.StreamBuffer.Ack | lib/PageCamel/Protocol/HTTP3/src/h3_buffer.c:287-300 | the bytes are counted, however many, and the warning is given exactly when more is acknowledged than consumed |
| BodyBuffer.StreamBuffer.HeadFacts | lib/PageCamel/Protocol/HTTP3/src/h3_buffer.c:309-310 | the pointer test of the flush loop means that the head is full, acknowledged and not the chunk being written |
| BodyBuffer.StreamBuffer.FreeHead | lib/PageCamel/Protocol/HTTP3/src/h3_buffer.c:311-322 | one chunk leaves the list and freed_bytes grows by its size |
| BodyBuffer.StreamBuffer.FlushAcked | lib/PageCamel/Protocol/HTTP3/src/h3_buffer.c:302-324 | the loop frees what the specified flush frees; no chunk moves or changes |
| BodyBuffer.StreamBuffer.Pending | lib/PageCamel/Protocol/HTTP3/src/h3_buffer.c:330-335 | the bytes accepted and not handed out |
| BodyBuffer.StreamBuffer.CanWrite | lib/PageCamel/Protocol/HTTP3/src/h3_buffer.c:348-368 | whether retained plus new bytes stay within the limit |
| BodyBuffer.StreamBuffer.UnackedIsLive | lib/PageCamel/Protocol/HTTP3/src/h3_callbacks.c:490-493 | a slice not acknowledged as a whole still lies in an allocated chunk, at its place, with the bytes of its position in the stream |
| BodyBuffer.StreamBuffer.AllocatedBytes | lib/PageCamel/Protocol/HTTP3/src/h3_buffer.c:134-163 | the chunks allocated exceed the retained bytes by less than one chunk |
| BodyBuffer.StreamBuffer.ReadData | lib/PageCamel/Protocol/HTTP3/src/h3_callbacks.c:512-551 | what is read is recorded and consumed once, and the recorded slice is live with those bytes |
| BodyRuns.SlicesKeepTheirBytes | lib/PageCamel/Protocol/HTTP3/src/h3_callbacks.c:490-493 | in any state that matches a run's history, each unacknowledged slice still holds the bytes of its piece |
| StreamTable.Table.constructor | lib/PageCamel/Protocol/HTTP3/src/h3_connection.c:28-31 | the empty map |
| StreamTable.Table.Find | lib/PageCamel/Protocol/HTTP3/src/h3_connection.c:46-58 | the map's entry, or null exactly when there is none |
| StreamTable.Table.BucketHolds | lib/PageCamel/Protocol/HTTP3/src/h3_connection.c:24-26 | bucket b lists exactly the entries whose ids are b modulo 256, each once |
| StreamTable.InsertKeeps | lib/PageCamel/Protocol/HTTP3/src/h3_connection.c:75-79 | putting an entry in front of its bucket keeps each id once, in bucket id mod 256 |
| StreamTable.Table.Create | lib/PageCamel/Protocol/HTTP3/src/h3_connection.c:60-82 | idempotent on a known id; otherwise one new entry with an empty body, or null with nothing changed when memory runs out |
| StreamTable.RemoveKeeps | lib/PageCamel/Protocol/HTTP3/src/h3_connection.c:84-98 | taking the k-th entry out of a bucket represents the map without its id |
| StreamTable.Relink | lib/PageCamel/Protocol/HTTP3/src/h3_connection.c:90-91 | redirecting one pointer takes exactly one entry out of a list |
| StreamTable.Table.Remove | lib/PageCamel/Protocol/HTTP3/src/h3_connection.c:84-98 | the map loses this id only, the count follows, and an unknown id changes nothing |
| StreamTable.Table.Cleanup | lib/PageCamel/Protocol/HTTP3/src/h3_connection.c:33-44 | the empty map |
| Connection.SendOn | lib/PageCamel/Protocol/HTTP3/src/h3_api.c:187-202 | gate, write and end mark of one stream, with the response_eof flag |
| Connection.H3Connection.SendResponseBody | lib/PageCamel/Protocol/HTTP3/src/h3_api.c:172-210 | changes the body of this stream as specified, no other body and no history of slices; an unknown stream is reported |
| Connection.H3Connection.ReadDataCallback | lib/PageCamel/Protocol/HTTP3/src/h3_callbacks.c:494-552 | what nghttp3 is told, the live slice it gets, and the one body that advances |
| Connection.H3Connection.AckedStreamData | lib/PageCamel/Protocol/HTTP3/src/h3_callbacks.c:447-467 | counts on this stream only and frees nothing |
| Connection.H3Connection.StreamOpen | lib/PageCamel/Protocol/HTTP3/src/h3_callbacks.c:101-114 | one new empty body in memory of its own, all other entries as before |
| Connection.H3Connection.StreamClose | lib/PageCamel/Protocol/HTTP3/src/h3_callbacks.c:121-153 | this stream is gone, all other bodies are unchanged |
| Connection.H3Connection.GetStreamBufferSize | lib/PageCamel/Protocol/HTTP3/src/h3_api.c:262-273 | the pending bytes of the stream, 0 if it is not open |
| Connection.H3Connection.FlushBucket | lib/PageCamel/Protocol/HTTP3/src/h3_packet.c:470-474 | walking one list flushes every stream that hashes to this bucket |
| Connection.H3Connection.FlushSweep | lib/PageCamel/Protocol/HTTP3/src/h3_packet.c:467-475 | the sweep flushes every open stream exactly as a flush of its own would |
| ConnectionModel.StreamFollowsOwnEvents | lib/PageCamel/Protocol/HTTP3/src/h3_callbacks.c:494-552 | in every run of a connection a stream is open, and in the state it is in, by its own events since it was opened and nothing else |
| ConnectionModel.EveryStream | lib/PageCamel/Protocol/HTTP3/src/h3_packet.c:467-475 | fidelity and bounded memory for every stream of every run |
| ConnectionModel.EveryStreamAcked | lib/PageCamel/Protocol/HTTP3/src/h3_callbacks.c:447-467 | what counts as acknowledged on a stream is the sum of what was acknowledged on it since it was opened |
| ConnectionModel.EveryStreamComplete | lib/PageCamel/Protocol/HTTP3/src/h3_callbacks.c:512-551 | an announced end is complete on every stream that is acknowledged honestly and gets nothing after its end mark |
| ConnectionRuns.ReadFollows | lib/PageCamel/Protocol/HTTP3/src/h3_callbacks.c:528-551 | a read that records its slice keeps the body and the history equal to the model's |
| ConnectionRuns.Perform | lib/PageCamel/Protocol/HTTP3/src/h3_callbacks.c:101-552 | one event on the heap is one step of the model; entries stay, slices already handed out stay recorded, and bodies grow only into new memory |
| ConnectionRuns.RunConnection | lib/PageCamel/Protocol/HTTP3/src/h3_connection.c:24-98 | any sequence of events, from the empty table on, ends in the state of the model |
| ConnectionRuns.SlicesSurvive | lib/PageCamel/Protocol/HTTP3/src/h3_callbacks.c:487-493 | after every run, each unacknowledged slice of each open stream lies in an allocated chunk and still has the bytes that were handed out, whatever happened on the other streams |
| Fips180Constants.KIsStandard | lib/PageCamel/Web/Static/sha256.js:68-85 | every round constant is the first 32 bits of the fractional part of the cube root of its prime, the primes counted from 2 |
| Fips180Constants.H0IsStandard | lib/PageCamel/Web/Static/sha256.js:106-113 | the initial hash value comes from the square roots of the first eight primes |
| Fips180Meaning.ChoiceBits | lib/PageCamel/Web/Static/sha256.js:44-49 | bit by bit, Ch chooses between two words and Maj is the majority of three |
| Fips180Meaning.RotateBit | lib/PageCamel/Web/Static/sha256.js:41-43 | ROTR moves each bit around the word by n places |
| Fips180Meaning.SigmaBits | lib/PageCamel/Web/Static/sha256.js:50-61 | bit by bit, the four sigma functions are the parity of three bits at the distances of the standard |
| Fips180Meaning.ScheduleIs | lib/PageCamel/Web/Static/sha256.js:62-65 | the message schedule as a sum modulo 2^32 |
| Fips180Meaning.RoundIs | lib/PageCamel/Web/Static/sha256.js:137-148 | a round as two sums modulo 2^32 and a shift of the registers |
| Fips180Meaning.CompressIs | lib/PageCamel/Web/Static/sha256.js:121-159 | a block as 64 rounds and the sums with the intermediate hash value |
| Fips180Meaning.WordAtIs | lib/PageCamel/Web/Static/sha256.js:132-134 | message words are four bytes, the first of them highest |
| Fips180Meaning.PaddedIs | lib/PageCamel/Web/Static/sha256.js:186-208 | the padded message: the message, 0x80, as few zeros as complete a block, the length in bits |
| Fips180Meaning.DigestDenotes | lib/PageCamel/Web/Static/sha256.js:225-232 | the printed digest denotes its words in hexadecimal, eight lower-case digits each |
| Sha256.RotateRightIs | lib/PageCamel/Web/Static/sha256.js:41-43 | the two shifts and the or of signed numbers are ROTR of FIPS 180-4 |
| Sha256.SafeAddIs | lib/PageCamel/Web/Static/sha256.js:93-98 | adding by 16-bit halves is addition modulo 2^32, on every pair of numbers |
| Sha256.HelpersAre | lib/PageCamel/Web/Static/sha256.js:44-49 | choice and majority are Ch and Maj of the standard |
| Sha256.SigmasAre | lib/PageCamel/Web/Static/sha256.js:50-61 | the four sigma functions are those of the standard |
| Sha256.RoundAgain | lib/PageCamel/Web/Static/sha256.js:137-148 | one round on unreduced registers is one round of the standard, and both new registers are signed words |
| Sha256.JoinBytesIs | lib/PageCamel/Web/Static/sha256.js:132-134 | four shifted bytes make the big-endian word |
| Sha256.BoundsGrow | lib/PageCamel/Web/Static/sha256.js:62-65 | how fast unreduced schedule words can grow: below 382 * 2^31 in round 63 |
| Sha256.Expand | lib/PageCamel/Web/Static/sha256.js:62-65 | the in-place window of 16 words holds the schedule of the standard, within its bounds |
| Sha256.Temporaries | lib/PageCamel/Web/Static/sha256.js:137-140 | the unreduced sums T1 and T2 are exact, since every partial sum stays below 2^53 |
| Sha256.Hasher.constructor | lib/PageCamel/Web/Static/sha256.js:101-114 | the initial hash value of the standard |
| Sha256.Hasher.MakeWords | lib/PageCamel/Web/Static/sha256.js:131-134 | the first 16 schedule words |
| Sha256.Hasher.RunRounds | lib/PageCamel/Web/Static/sha256.js:121-149 | the loop stands for the 64 rounds of section 6.2.2 |
| Sha256.Hasher.Transform | lib/PageCamel/Web/Static/sha256.js:117-160 | one block: the accumulators stand for the new intermediate hash value and grow by at most 2^31 |
| Sha256.Hasher.CountBits | lib/PageCamel/Web/Static/sha256.js:169-171 | the bit count without overflow |
| Sha256.Hasher.Update | lib/PageCamel/Web/Static/sha256.js:163-184 | the whole blocks of the data are given to the transform and the rest is left in the buffer |
| Sha256.Hasher.WriteLength | lib/PageCamel/Web/Static/sha256.js:200-207 | the last eight bytes are the bit length, most significant first |
| Sha256.Hasher.Final | lib/PageCamel/Web/Static/sha256.js:187-209 | the transform is given the buffered bytes and the padding of section 5.1.1, in one or in two blocks |
| Sha256.PaddedSplits | lib/PageCamel/Web/Static/sha256.js:174-209 | the padded message is the whole blocks of the data, then the rest with its padding |
| Sha256.Hasher.EncodeWord | lib/PageCamel/Web/Static/sha256.js:228-229 | eight hexadecimal digits of the word that an accumulator stands for |
| Sha256.Hasher.EncodeHex | lib/PageCamel/Web/Static/sha256.js:225-232 | the digest in hexadecimal |
| Sha256.Digest256 | lib/PageCamel/Web/Static/sha256.js:236-241 | the result is SHA-256 of FIPS 180-4, and the buffers given to the transform are exactly the padded message |
| WebSocket.MaskedTwice | t/python/comprehensivetests.py:228-229 | masking is its own inverse |
| WebSocket.EncodeText | t/python/comprehensivetests.py:212-230 | the frame of section 5.2 of RFC 6455 with the length in 7, 16 or 64 bits |
| WebSocket.EncodeClose | t/python/comprehensivetests.py:233-243 | the close frame with its single length byte, and when making it fails |
| WebSocketWire.MaskedBits | t/python/comprehensivetests.py:228-229 | masking inverts every bit of every byte where the key's byte has that bit |
| WebSocketWire.TextIsWire | t/python/comprehensivetests.py:212-230 | a text frame is final, has opcode 1, the mask bit, the shortest length form, the key and the masked payload; there is none only from 2^64 bytes on |
| WebSocketWire.CloseIsWire | t/python/comprehensivetests.py:233-243 | a close frame is final, has opcode 8, the mask bit and the payload length modulo 128 |
| WebSocketWire.DecodeWire | t/python/comprehensivetests.py:246-276 | every frame, masked or not, in any length form that fits, decodes to its opcode and payload, whatever follows it |
| WebSocketWire.DecodedIsWire | t/python/comprehensivetests.py:246-276 | and nothing else is taken for a frame |
| WebSocketWire.ServerMessages | t/python/comprehensivetests.py:614-620 | what a server sends unmasked is collected as sent, in order, however the stream is cut |
| WebSocket.TextRoundTrip | t/python/comprehensivetests.py:246-276 | every text frame decodes to its payload and length, whatever follows it |
| WebSocket.CloseRoundTrip | t/python/comprehensivetests.py:239-239 | a close frame decodes to its payload if and only if that has at most 125 bytes |
| WebSocket.CloseFrameFails | t/python/comprehensivetests.py:236-239 | encoding fails exactly for codes over 16 bits and for reasons of 254 bytes or more |
| WebSocket.TrailingBytes | t/python/comprehensivetests.py:246-276 | later bytes never change a decoded frame |
| WebSocket.ProperPrefix | t/python/comprehensivetests.py:248-272 | a proper prefix of a frame decodes to none |
| WebSocket.DrainSplit | t/python/comprehensivetests.py:614-620 | taking frames out early and adding bytes later gives the same messages |
| WebSocket.ReceiveIsDrain | t/python/comprehensivetests.py:605-620 | how the stream is cut into arrivals makes no difference |
| WebSocket.Reassembly | t/python/comprehensivetests.py:613-620 | frames cut anywhere give their messages in order, and an incomplete last frame stays in the buffer |
| WebSocket.EncodedAreFrames | t/python/comprehensivetests.py:212-243 | what the encoders make are such frames; a close frame exactly when its reason has at most 123 bytes |
| WebSocket.AppendMasked | t/python/comprehensivetests.py:241-242 | the masking loop appends the masked payload |
| WebSocket.Tunnel.CollectMessages | t/python/comprehensivetests.py:1377-1387 | the loop takes out all complete frames and leaves the rest |
| WebSocket.Tunnel.OnData | t/python/comprehensivetests.py:605-620 | over all arrivals the messages collected and the buffer are those of the whole stream |
| LineBreak.LinesConcatenate | lib/PageCamel/Web/Static/canvasuijs/canvashelpers.js:237-280 | for every text and measure the lines concatenated are the text |
| LineBreak.LinesFit | lib/PageCamel/Web/Static/canvasuijs/canvashelpers.js:246-271 | with additive widths and no character of the text wider than a line, every line but for one trailing space fits |
| LineBreak.LinesFull | lib/PageCamel/Web/Static/canvasuijs/canvashelpers.js:265-271 | if no word is wider than a line, no line could have taken the first word of the next |
| LineBreak.LinesEnd | lib/PageCamel/Web/Static/canvasuijs/canvashelpers.js:246-271 | for every text and additive widths each line ends because the next word did not fit, because the next letter of a word wider than a line did not fit on a line of its own, or because such a word comes next |
| LineBreak.AutoLineBreak | lib/PageCamel/Web/Static/canvasuijs/canvashelpers.js:237-280 | the loop computes the lines of the fold that these lemmas are about |
| LineBreak.BreakWord | lib/PageCamel/Web/Static/canvasuijs/canvashelpers.js:250-262 | so does the inner loop for a word that is too wide |
| Money.MoneyRoundTrip | lib/PageCamel/Web/Static/canvasuijs/canvashelpers.js:151-216 | parsing the printed form gives back every number of cents, of either sign and any size |
| Money.PrintedForm | lib/PageCamel/Web/Static/canvasuijs/canvashelpers.js:155-183 | sign, grouped whole euros in decimal, comma, two digits of cents |
| Money.GroupDots | lib/PageCamel/Web/Static/canvasuijs/canvashelpers.js:165-177 | counted from the right, every fourth character and no other is a dot, and the first is not |
| Money.CentsOf | lib/PageCamel/Web/Static/canvasuijs/canvashelpers.js:185-216 | the value read from any amount with a comma, whatever its grouping and number of decimals |
| Money.ExactCents | lib/PageCamel/Web/Static/canvasuijs/canvashelpers.js:196-208 | what is read is the amount in cents if and only if there are at most two decimals or the amount is zero |
| Money.WholeEuros | lib/PageCamel/Web/Static/canvasuijs/canvashelpers.js:209-215 | an amount without a comma is read as whole euros |
| Money.NoLeadingZero | lib/PageCamel/Web/Static/canvasuijs/canvashelpers.js:153-153 | numbers are printed without leading zeros |
| Money.ParseIntReads | lib/PageCamel/Web/Static/canvasuijs/canvashelpers.js:207-215 | parseInt reads the digits after white space and a sign, whatever follows them |
| Money.ParseIntReadsHex | lib/PageCamel/Web/Static/canvasuijs/canvashelpers.js:207-215 | and hexadecimal digits after 0x |
| Money.ParseIntFails | lib/PageCamel/Web/Static/canvasuijs/canvashelpers.js:207-215 | and is NaN where no digit comes |
| Money.GroupsOf | lib/PageCamel/Web/Static/canvasuijs/canvashelpers.js:165-168 | the loop makes all groups but the first |
| Money.CentToEuros | lib/PageCamel/Web/Static/canvasuijs/canvashelpers.js:151-184 | the loops print the specified text |
| Money.EurosToCent | lib/PageCamel/Web/Static/canvasuijs/canvashelpers.js:185-216 | the loops read the specified amount, NaN included |

## Left out

LZ-string
- LzString.Compressor.TickWidth: `Math.pow` and the shifts are exact here, so dictionaries of 2^30 entries and more are not described as JavaScript would treat them; `CodesFit` shows that texts with 2 * length + 3 below 2^30 stay clear of that.
- The numbers in dictionary slots 0 to 2, which no code ever looks up.
- The six copies of the reading loop and the five of the emission loop are one method each.
- Arguments that are neither strings nor null.

HTTP/3
- BodyBuffer.StreamBuffer.Read: counters are unbounded integers; the difference that C computes modulo 2^64 is negative in the model, and both skip every chunk.
- StreamTable.Table.Find: ids are natural numbers; the remainder of a negative id is not described.
- BodyBuffer.StreamBuffer.FlushAcked: freed chunks become unreachable; `free` itself is not described, nor is `h3_buffer_cleanup`.
- Which allocations succeed is a parameter (`granted`, `allowed`), and so are the moments and amounts of reads and acknowledgements.
- The notification of nghttp3 after a send, request headers and bodies, the packet-writing loops, connection states, TLS, sockets and clocks; ngtcp2, nghttp3 and GnuTLS are not part of this model.
- `h3_send_response`, which is a header call followed by one send.

SHA-256
- Sha256.Hasher.Update: only the single call that `sha256_digest` makes, on text whose characters are bytes.
- Sha256.Digest256: messages below 64 * (2^22 - 389) bytes, which is just under 2^28; there the bound on the unreduced sums reaches 2^53. From 2^28 bytes on the shift that counts bits overflows as well.
- `sha256_encode_bytes` and the self test.

WebSocket
- Text is UTF-8 bytes already, and the random mask key is a parameter.
- WebSocket.EncodeClose: negative close codes, which `struct.pack` refuses as well.
- The waiting, timeouts and HTTP/2 events around the collecting loops, and the copy of the framing in `t/python/h3_websocket.py`.

Canvas helpers
- LineBreak.LinesFit: widths are real numbers, so the rounding of `measureText` sums is not described.
- Money.MoneyRoundTrip: numbers, here and in `EurosToCent`, are unbounded integers, so amounts from 2^53 cents on, where doubles lose digits, are idealised.
- Widgets, layout and drawing.
