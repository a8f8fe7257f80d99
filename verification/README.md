# A verified model of the WebDAV server

The server shares a directory over WebDAV. A dav may have a key: its files are then stored encrypted,
in chunks, and are decrypted again as they are read. This project models two parts of it and proves
how they fit together.

- **The encrypted file format and its readers.** A file is a 19-byte nonce, full chunks of 1,000,000
  plaintext bytes sealed under the counters 0, 1, 2, ..., and one shorter, possibly empty, last chunk.
  A sequential reader and a random-access reader take it apart again; the sizes and positions they
  need are computed in closed form. `ChunkFormat` specifies the format, `StoredChunks` says chunk by
  chunk what stands in a file and what is read from any bytes, and `EncryptedStreamers` and `Streamers`
  hold the loops over open files (`ByteFiles`), in which every read may be short.
- **The file tree under requests.** `FileTrees` models the tree and the system calls; `Copying` says
  what the recursive copy leaves behind; `Requests` says what each request does and answers;
  `Servers` holds the imperative server, proved against it; `Answers` and `Effects` say what each
  answer means. `Ranges`, `Texts` and `Uris` model the Range header, UTF-8, and the way from a listed
  name to its href and back.

What is proved about them:

- Random access yields the slice asked for, with no chunk that fails to open; past the end of the file
  it is said exactly when the reader panics or fails (`RangeIsSlice`, `RangePastEnd`).
- A file cut short yields a whole-chunk prefix, and the cut is noticed exactly when it is inside a
  chunk (`TruncationYieldsPrefix`). A range of it yields a slice of that prefix, and notices the cut
  exactly when it gets into the chunk that was cut and does not start behind it (`CutRangeIsSlice`).
- Of any stored bytes, damaged ones included, the readers yield what the chunks in front of the first one
  that does not open hold, and fail there (`DecryptByChunks`, `RangeByChunks`).
- For every request the answers and what they mean (`Answers`, `Effects`): which headers get a slice,
  what a listing holds, what a PUT leaves, when COPY and MOVE succeed and when each refusal is given.
- COPY and MOVE against sections 9.8 and 9.9 of RFC 4918, each with the exact condition under which
  the code meets them (`CopyMeaning`). The recursive copy lists directories of the very tree it
  writes to, possibly inside its own source, and ends all the same (`Servers.Server.DoCopy`).
- A request that is answered with an error has changed nothing, except for the few that are named and
  whose damage is given (`Effects.ErrorsChangeNothing`).
- The theorem that joins the parts: a dav with a key and one without, given the same requests, give
  the same answers and keep corresponding trees over every run, exactly when no request is one of
  three kinds (`Runs.RunTransparent`, and `Transparency.Telling` for the three kinds).

## Where the code falls short of its intent

The model keeps what the code does. Three families of requests tell the two davs apart, and some
more do not do what RFC 4918 says:

- A range with an explicit end passes the check at src/davs/webdav_server.rs:474-477 even if it starts
  at or past the end of the file. It is answered 206 with an empty body (`RangeAtOrPastEnd`). The end
  announced is then the last byte of the file, before the start, and the length computed at lines
  478-482 is 0 for a range that starts right at the end (`EndBeforeStart`) and wraps around for one that
  starts past it; of an empty file, all that was asked for is announced (`BytesOfNothing`). An answer 206
  announces the bytes it carries exactly when the range starts in the file (`PartHonest`, `FileHonest`).
  If the start lies past the end in the span of the last chunk, an encrypted file panics where a plain
  one yields nothing, and past the largest position a file can be read at the two fail in different
  ways (`PartTransparent`). There HEAD and GET on a plain file differ too (`HeadIsGet`).
- COPY of a file, with the collection it is in as destination, copies the file onto itself and empties
  it (src/davs/webdav_server.rs:877-882; `SelfCopyBreaks`). In a dav with a key what is left is not an
  encrypted file any more.
- A PUT of 2^32 or more full chunks to a dav with a key runs out of counters and leaves full chunks
  without a last one (`LongPutSpoils`).
- COPY of a file to a free place makes a collection and puts the file inside (`CopyOfFileNests`).
- COPY of a collection onto a file, or to a place below a file, changes nothing. With Depth 0, and with
  Depth infinity if the collection holds no file, it is answered 204 or 201 all the same
  (`ShallowCopyResult`, `CopyAnswers`); otherwise 500 (`DeepCopyAnswers`).
- MOVE of a collection into an existing collection inside it, and COPY or MOVE of a collection onto a
  collection above it, are answered 500 after the destination has been removed
  (src/davs/webdav_server.rs:826-831), in the second case with the source in it (`DestroysDestination`).
- COPY of a collection with Depth 0 onto a collection with members leaves those members in place
  (`ShallowCopy`).
- A MOVE onto something that exists is answered 201 (`MoveAnswers`), where section 9.9.4 of RFC 4918 has
  204; and a PUT makes the collections that are missing on the way to its file (`PutSucceeds`), where
  section 9.7.1 has 409.

## Conventions

- The cipher is any pair of functions with the two laws `Ciphers.Lawful` and `Ciphers.PrefixSafe`;
  `CipherExists` shows that there is one. For the real cipher the second law holds up to negligible
  probability only; nothing about secrecy is stated. The nonce is an argument of the writer.
- Unsigned 64-bit arithmetic wraps, as in a build without overflow checks, and `usize` has 64 bits.
  Seeking fails at positions of 2^63 or more, which are negative to the system call.
- Paths are relative to the dav directory, which is the path `[]`. The directory that holds it is
  outside the tree and always exists. System calls fail only for reasons visible in the tree.
- A request carries the path its URI resolved to, if any. A header that the server ignores because it
  does not parse is the same as a missing one.

## Model

| member | source | states |
|---|---|---|
| EncryptedStreamers.EncryptedStreamer.CopyFrom | src/davs/encrypted_streamer.rs:37-85 | whatever the sizes of the reads, the file receives the nonce and the sealed chunks, over what was there; the count is the plaintext length, and is missing exactly when the chunk counter does not suffice |
| ByteFiles.OverlayAt | src/davs/encrypted_streamer.rs:48-80 | what a write leaves in a file, byte for byte: the bytes written where they were written, and what was there everywhere else |
| EncryptedStreamers.EncryptedStreamer.CopyTo | src/davs/encrypted_streamer.rs:87-134 | the writer receives all that the sequential reader yields, also before an error; the count is the stored size minus the nonce, and is missing exactly when the reading fails |
| EncryptedStreamers.EncryptedStreamer.RetrieveNonce | src/davs/encrypted_streamer.rs:253-257 | the first 19 unread bytes, or an error when there are fewer |
| EncryptedStreamers.EncryptedStreamer.IntoStream | src/davs/encrypted_streamer.rs:136-175 | the buffers yielded and the way the stream ends, for every file, malformed ones included; `DecryptByChunks` says which they are |
| EncryptedStreamers.EncryptedStreamer.IntoStreamSized | src/davs/encrypted_streamer.rs:178-251 | the buffers yielded and the way the stream ends, panics of the drain included, for every file, start and length |
| ChunkFormat.WriteFromSeals | src/davs/encrypted_streamer.rs:50-82 | the writer succeeds exactly when the 32-bit counter suffices, and then writes the whole format; otherwise it stops after full chunks |
| ChunkFormat.EncryptLength | src/davs/encrypted_streamer.rs:260-277 | a stored file has exactly the size `encrypted_offset` gives for its plaintext length, below every 64-bit limit, and `decrypted_size` gives the plaintext length back |
| ChunkFormat.SizesInvert | src/davs/encrypted_streamer.rs:260-277 | `decrypted_size` undoes `encrypted_offset` as long as the stored size fits 64 bits |
| ChunkFormat.DecryptedSizeByChunks | src/davs/encrypted_streamer.rs:260-272 | for every size, malformed ones included, `decrypted_size` takes one tag for each chunk off what is left without the nonce, in 64-bit arithmetic |
| ChunkFormat.DecryptedSizeExact | src/davs/encrypted_streamer.rs:260-277 | `encrypted_offset` undoes `decrypted_size` on exactly the sizes the writer can produce |
| ChunkFormat.EncryptedOffsetIncreasing | src/davs/encrypted_streamer.rs:274-277 | `encrypted_offset` is strictly increasing |
| ChunkFormat.PositionMatchesWriter | src/davs/encrypted_streamer.rs:286-300 | for every offset in a file, the computed position does not overflow, its counter fits 32 bits, and the stored bytes from there on are what the writer emitted for the plaintext from that chunk on under that counter |
| ChunkFormat.DecryptUndoesEncrypt | src/davs/encrypted_streamer.rs:136-175 | sequential round trip for every accepted plaintext, with one buffer per chunk and a clean end |
| ChunkFormat.TruncationYieldsPrefix | src/davs/encrypted_streamer.rs:136-175 | a file cut anywhere after the nonce yields exactly its whole chunks; the stream fails exactly when the cut is not on a chunk boundary |
| ChunkFormat.RangeIsSlice | src/davs/encrypted_streamer.rs:178-251 | for every start up to the end of the plaintext and every length, random access yields exactly that slice and ends cleanly |
| ChunkFormat.RangePastEnd | src/davs/encrypted_streamer.rs:187-246 | past the end of the plaintext random access yields nothing: it panics exactly when the start lies in the span of the last chunk, fails exactly when the seek is refused, and ends cleanly otherwise |
| ChunkFormat.CutRangeIsSlice | src/davs/encrypted_streamer.rs:178-251 | for a file cut anywhere after the nonce, random access from every start and for every length yields exactly the slice of its whole chunks and never panics; it fails exactly when it asks for something, does not start behind the chunk that was cut, gets past the whole chunks, and the cut is inside a chunk, or when the seek is refused |
| StoredChunks.StoredChunk | src/davs/encrypted_streamer.rs:50-82 | a stored file is the nonce, then the contents sealed chunk by chunk, each chunk under the counter that is its number, and only the shorter one at the end flagged as the last |
| StoredChunks.DecryptByChunks | src/davs/encrypted_streamer.rs:136-175 | from any stored bytes, damaged ones included, the sequential reader yields exactly what the chunks in front of the first one that does not open under its own counter and flag opened to, and ends cleanly exactly when there is no such chunk |
| StoredChunks.RangeByChunks | src/davs/encrypted_streamer.rs:178-251 | from any stored bytes, random access yields exactly the bytes asked for as far as the chunks in front of the first one that does not open hold them; it fails exactly when bytes are still missing there, and panics exactly when the first chunk is too short for what is to be dropped from it |
| ByteStreams.Wrap64IsModulo | src/davs/encrypted_streamer.rs:260-277 | the arithmetic of sizes keeps every number modulo 2^64 |
| ByteStreams.AsU32IsModulo | src/davs/encrypted_streamer.rs:204-232 | the cast of a chunk counter to 32 bits keeps it modulo 2^32 |
| StoredChunks.LeadingTexts | src/davs/encrypted_streamer.rs:136-175 | every file has such leading texts, so neither result is vacuous |
| Streamers.Streamer.IntoStream | src/davs/streamer.rs:23-38 | everything left in the file, in non-empty buffers, whatever the sizes of the reads |
| Streamers.Streamer.IntoStreamSized | src/davs/streamer.rs:40-67 | exactly the next bytes up to the length asked for or the end, in non-empty buffers, whatever the sizes of the reads; the remaining count never goes below zero |
| Ranges.ParseClosedRange | src/davs/webdav_server.rs:1116-1138 | a printed range with both ends is read back, exactly when both numbers fit 64 bits |
| Ranges.ParseOpenRange | src/davs/webdav_server.rs:1116-1138 | a printed range without an end is read back, exactly when its start fits 64 bits |
| Ranges.ParseSplit | src/davs/webdav_server.rs:1119-1134 | the range of a bytes header is split at its first dash, and both parts must be numbers, except that the second may be empty |
| Ranges.StartAlone | src/davs/webdav_server.rs:1125-1133 | a start without a dash is a range without an end |
| Ranges.ParseUnsplit | src/davs/webdav_server.rs:1119-1133 | without a dash, all behind the equals sign must be a number, the start |
| Ranges.ParseU64Spells | src/davs/webdav_server.rs:1125-1130 | a string is read as the decimal number it spells, after an optional plus sign, exactly when it spells one that fits 64 bits |
| Ranges.NoEqualsNoRange | src/davs/webdav_server.rs:1119-1124 | a header without an equals sign is no range |
| Ranges.OtherUnitsNoRange | src/davs/webdav_server.rs:1119-1137 | a header in other units than bytes is no range |
| Ranges.NoStartNoRange | src/davs/webdav_server.rs:1116-1138 | a range without a start is no range |
| Ranges.ListIsNoRange | src/davs/webdav_server.rs:1116-1138 | a header with a comma anywhere is no range |
| Texts.Utf8Exact | src/davs/webdav_server.rs:1179-1183 | the check of a decoded path accepts exactly the encodings of sequences of code points, surrogates excluded, after section 3 of RFC 3629 |
| Uris.DecodeUndoesEncode | src/davs/webdav_server.rs:1174-1183 | decoding undoes encoding on exactly the byte strings that are the UTF-8 encoding of a sequence of code points; the others are refused |
| Uris.DecodedIsText | src/davs/webdav_server.rs:1179-1183 | what is decoded is always a text, and is refused exactly when it would be none |
| Uris.EncodedSum | src/davs/webdav_server.rs:1174-1177 | a string is encoded byte by byte |
| Uris.EncodedByte | src/davs/webdav_server.rs:1174-1177 | unreserved characters, as section 2.3 of RFC 3986 lists them, and slashes stand for themselves; every other byte becomes a percent sign and two upper-case hexadecimal digits |
| Uris.DecodedTriple | src/davs/webdav_server.rs:1179-1183 | a percent sign and two hexadecimal digits of either case are decoded to the byte they spell |
| Uris.DecodedOther | src/davs/webdav_server.rs:1179-1183 | any other byte stands for itself, a percent sign without two digits behind it too |
| Uris.ComponentsByPart | src/davs/webdav_server.rs:674-679 | the components of a path are the parts between its slashes, without the empty ones and single dots |
| Uris.DotDotAnywhere | src/davs/webdav_server.rs:665-667 | a path is refused for two dots in a row anywhere in it |
| Uris.RequestedPath | src/davs/webdav_server.rs:664-680 | the request for an encoded text leads to its components below the dav directory, or in place of it when the text starts with a slash, and is refused when the text has two dots in a row |
| Uris.HrefSpells | src/davs/webdav_server.rs:963-968 | an href spells a slash, the name and, for a collection, a slash at the end that is not doubled |
| Uris.SeparatorsMatch | src/davs/webdav_server.rs:1174-1177 | the parts between the slashes of an encoded path are the encodings of the parts of the path, one for one |
| Uris.HrefDots | src/davs/webdav_server.rs:963-968 | an href contains two dots in a row exactly when the name does |
| Uris.ListedItemsResolve | src/davs/webdav_server.rs:664-680 | the href of every listed item, collection or file, resolves to that very item, except that one with two dots in a row in its name is refused |
| Servers.Server.DoCopy | src/davs/webdav_server.rs:849-936 | the recursive copy ends, with the tree and result of `CopyResult`, in whatever order directories are listed, while it writes to the tree it lists |
| Copying.WalkGoesOn | src/davs/webdav_server.rs:913-931 | each recursive call has strictly fewer nodes in reach, leaves the directory being listed as it was, and adds exactly one child to the copy, or none when the destination could not be made |
| Copying.WalkEnds | src/davs/webdav_server.rs:913-934 | the children copied one by one add up to the whole copy, and the result is an error exactly when a file could not be copied |
| Copying.CopyResultKeeps | src/davs/webdav_server.rs:849-936 | a copy leaves every stored path's parent a directory |
| Servers.Server.RenamePath | src/davs/webdav_server.rs:843 | the tree and result of renaming |
| Servers.Server.HandleCopyMove | src/davs/webdav_server.rs:759-847 | the tree and status of `CopyMove`, for every depth, destination and overwrite flag |
| Requests.CopyMoveFits | src/davs/webdav_server.rs:819-836 | after the checks and the removal of the old destination, the copy never starts above its own source and finds its destination free or a file |
| CopyMeaning.CopyOfCollection | src/davs/webdav_server.rs:808-841 | COPY of a collection means what section 9.8.3 and 9.8.4 of RFC 4918 say, path by path, with a destination inside the source allowed, exactly when the destination's parent is a collection and the destination is neither a file nor the source or above it |
| CopyMeaning.CopyOfFile | src/davs/webdav_server.rs:871-897 | COPY of a file means what RFC 4918 says exactly when the destination is an existing file |
| CopyMeaning.CopyOfFileNests | src/davs/webdav_server.rs:871-881 | COPY of a file to a free place makes a collection there with the file inside under its old name |
| CopyMeaning.DeepCopyAnswers | src/davs/webdav_server.rs:808-841 | past the checks and not from below the destination, COPY of a collection in depth is answered 201 or 204 where it can be made; onto a file, or below one, it changes nothing and is answered the same if there is no file to copy, else 500 |
| CopyMeaning.ShallowCopyResult | src/davs/webdav_server.rs:834-901 | past the checks, COPY of a collection with Depth 0 makes the collection if its place is free and in a collection, changes nothing otherwise, and is answered 201 or 204 either way |
| CopyMeaning.CopyAnswers | src/davs/webdav_server.rs:768-841 | COPY of a collection is answered 201, or 204 if something stood at the destination, exactly when its depth is 0 or infinity, the overwrite flag allows it, the destination's parent exists, the two paths differ and, for infinity, the destination is not above the source and either the copy can be made or there is no file to copy; with Depth 0 the collection alone is then made if the destination is free and its parent a collection, and nothing changes otherwise; with Depth infinity an answer 201 or 204 means that the copy was made exactly when the destination's parent is a collection and the destination is no file, and that nothing changed otherwise |
| CopyMeaning.FileCopyAnswers | src/davs/webdav_server.rs:768-897 | COPY of a file is answered 201 or 204 exactly when its depth is not 1, the overwrite flag allows it, the paths differ, the destination's parent is a collection, and the destination is a file or holds no collection of the file's name; it then leaves the file there, or inside the collection there or made there, and any error leaves the tree as it was |
| CopyMeaning.CheckAnswers | src/davs/webdav_server.rs:768-822 | 400, 403, 409 and 412 each exactly when the depth, the destination, its parent, the overwrite flag or the equality of both paths is what fails first, and then nothing changes |
| CopyMeaning.CopyCounts | src/davs/webdav_server.rs:825-841 | COPY of a collection adds as many nodes as it copies and loses those of the old destination |
| CopyMeaning.ShallowCopy | src/davs/webdav_server.rs:826-836 | COPY of a collection with Depth 0 means what section 9.8.3 of RFC 4918 says exactly when the destination's parent is a collection and the destination is free or a collection without members |
| CopyMeaning.MoveAnswers | src/davs/webdav_server.rs:768-845 | MOVE is answered 201 exactly when its depth is missing or infinity, the overwrite flag allows it and it can be carried out; 400 for any other depth, and 412 when the flag forbids it |
| CopyMeaning.DestroysDestination | src/davs/webdav_server.rs:825-845 | COPY or MOVE of a collection onto a collection above it, and MOVE into a collection inside it, with overwriting allowed, remove all that stood at or below the destination and are answered 500 |
| CopyMeaning.ErrorsKeepTree | src/davs/webdav_server.rs:759-847 | COPY and MOVE answered with an error leave the tree as it was, exactly when they are none of those requests |
| CopyMeaning.MoveOfAnything | src/davs/webdav_server.rs:825-845 | MOVE means what section 9.9 of RFC 4918 says, path by path, exactly when the destination's parent is a collection, neither path is above the other, and the destination is not of the other kind |
| CopyMeaning.MoveIsCopyThenDelete | src/davs/webdav_server.rs:825-845 | MOVE of a collection leaves the tree of COPY followed by DELETE of the source, exactly when the overwrite flag allows it, the destination's parent is a collection, and the destination is neither inside the source nor a file |
| CopyMeaning.MoveCounts | src/davs/webdav_server.rs:825-845 | MOVE of a collection conserves nodes except those of the old destination |
| Servers.Server.HandleUpload | src/davs/webdav_server.rs:279-313 | the tree and status of `Upload`, through the encrypting writer for a dav with a key |
| Servers.Server.HandleDelete | src/davs/webdav_server.rs:315-323 | exactly what lies at or below the path is removed, and the status is 204 if something stood at the path |
| Servers.Server.HandleMkcol | src/davs/webdav_server.rs:595-606 | 201 exactly when the path is free and its parent is a collection, and then just that collection is added; otherwise 409 and an unchanged tree |
| Servers.Server.HandleSendFile | src/davs/webdav_server.rs:441-524 | status, length, range and body of `SendFile`, whatever the sizes of the reads; `Answers.FileAnswers` says which they are |
| Servers.Server.HandlePropfind | src/davs/webdav_server.rs:526-593 | the items and sizes of `PropfindResponse`, in whatever order the directory is listed; `Answers.PropfindAnswers` says which they are |
| Servers.Server.Handle | src/davs/webdav_server.rs:108-277 | every request leaves the tree and gives the response of `Serve`; `Answers` and `Effects` say for each request which they are |
| Answers.Forbidden | src/davs/webdav_server.rs:117-255 | a request whose path is refused, and any writing request to a read-only dav, is answered 403 and changes nothing |
| Answers.WriteAnswers | src/davs/webdav_server.rs:176-255 | writing requests are answered with a status alone, 404 exactly when what is to be removed, copied or moved does not exist |
| Answers.GetAnswers | src/davs/webdav_server.rs:149-175 | GET and HEAD change nothing; 404 for what does not exist, 200 without a body for a collection |
| Answers.FileAnswers | src/davs/webdav_server.rs:441-524 | GET and HEAD of a file, from either storage: without a range 200 and all of it; 206 and exactly the slice for a range that starts in it and does not end before it starts; 416 for one that ends before it starts, or is open and starts past it |
| Answers.ClosedRangeAnswers | src/davs/webdav_server.rs:441-524 | the same for every header with two printed numbers, those that do not fit 64 bits included |
| Answers.OpenRangeAnswers | src/davs/webdav_server.rs:441-524 | the same for every header with a printed start alone |
| Answers.AnyFileAnswers | src/davs/webdav_server.rs:510-522 | GET of any stored bytes in a dav with a key: the size computed from the stored size, the contents of the chunks in front of the first one that does not open, and an error there |
| Answers.AnyRangeAnswers | src/davs/webdav_server.rs:472-501 | the same for a range that starts in the file, going by the size computed, and does not end before it starts: 206 with that size, the bytes asked for as far as the chunks open, and an error or a panic exactly when random access ends with one |
| Answers.PropfindAnswers | src/davs/webdav_server.rs:526-593 | 404 exactly for what does not exist, 400 exactly for a collection with a depth that is no number; otherwise 207 and a listing of just the path itself and, for a collection with another depth than 0, what stands directly in it, each file with its size |
| Answers.PutStores | src/davs/webdav_server.rs:279-313 | PUT answered 201 leaves a file that holds the body, collections on the way to it, and all else as it was |
| Answers.PutFails | src/davs/webdav_server.rs:279-313 | the other answers to PUT in a writable dav: 403 exactly for the dav directory, a collection, and below a file; 500 exactly when a file stands further up or the body does not fit the chunk counter |
| Answers.MoveServed | src/davs/webdav_server.rs:246-255 | MOVE is answered 201 exactly when the dav is writable, the source exists, depth and overwrite flag allow it, and it can be carried out, and then means what section 9.9 of RFC 4918 says; in a writable dav 404 is for a missing source alone |
| Answers.CopyServed | src/davs/webdav_server.rs:236-245 | the same for COPY and 201 or 204, with what each kind of copy has then done: a copy of a collection in depth that can be made is what sections 9.8.3 and 9.8.4 of RFC 4918 say |
| Answers.CopyMoveRefusals | src/davs/webdav_server.rs:236-255 | which of 400, 403, 409 and 412 a COPY or MOVE gets that does not pass the checks, and that it gets one of them exactly then |
| Transparency.SatisfiableRange | src/davs/webdav_server.rs:472-501 | from either storage, a range that starts in the file and does not end before it starts is answered 206 with its end clamped to the last byte, the right length, and exactly that slice; `RangeAtOrPastEnd` gives the other answers of 206 |
| Transparency.RangeAtOrPastEnd | src/davs/webdav_server.rs:472-501 | from either storage, a range with an explicit end that starts at or past the end of the file is answered 206 with an empty body, the last byte announced as its end, and the length 0 or one that has wrapped around; an empty file has all that was asked for announced; how the body ends is given for both storages |
| Transparency.PartHonest | src/davs/webdav_server.rs:472-508 | from either storage, a range is answered 206 with the bytes it announces, from inside the file, exactly when it starts in the file and does not end before it starts |
| Transparency.FileHonest | src/davs/webdav_server.rs:441-522 | for every Range header, a GET answered 206 carries the bytes it announces exactly when the range starts in the file |
| Transparency.EndBeforeStart | src/davs/webdav_server.rs:472-501 | `bytes=3-9` of a file of three bytes is answered 206 with range 3 to 2 and length 0 |
| Transparency.BytesOfNothing | src/davs/webdav_server.rs:472-501 | `bytes=0-5` of an empty file is answered 206 with range 0 to 5, length 6 and an empty body |
| Transparency.HeadIsGet | src/davs/webdav_server.rs:441-522 | HEAD is answered as GET is, without the body, exactly when the answer is not to an admitted range of a plain file from a position that cannot be seeked to; there GET is answered 500 and HEAD 206 |
| Transparency.UnsatisfiableRange | src/davs/webdav_server.rs:502-508 | from either storage, a range that ends before it starts, or an open one past the end, is answered 416 with the size |
| Transparency.PartTransparent | src/davs/webdav_server.rs:472-508 | the answers to a range from the encrypted and from the plain file are the same exactly when the range is not one with an explicit end that starts past the end of the file, in the span of the last chunk or where no file can be read |
| Transparency.FileTransparent | src/davs/webdav_server.rs:441-522 | GET and HEAD on the encrypted and on the plain file get the same status, length, range and body, for every Range header, with exactly that exception |
| Transparency.PrintedHazard | src/davs/webdav_server.rs:472-501 | the headers with two printed ends that are exceptions to this: those whose numbers fit 64 bits, do not end before they start, and start past the end in the span of the last chunk or where no file can be read |
| Transparency.HazardExists | src/davs/webdav_server.rs:472-501 | `bytes=5-9` is one for a file of three bytes |
| Transparency.UploadPair | src/davs/webdav_server.rs:279-313 | PUT keeps an encrypted tree and its plain counterpart in step and is answered alike, exactly when it writes nothing or the chunk counter suffices |
| Transparency.CopyMovePair | src/davs/webdav_server.rs:759-847 | COPY and MOVE keep an encrypted tree and its plain counterpart in step and are answered alike, unless a file is copied onto itself |
| Transparency.SelfCopyBreaks | src/davs/webdav_server.rs:876-888 | COPY of a file to the collection it is in empties it, and an empty file is no encryption of anything |
| Transparency.ServePair | src/davs/webdav_server.rs:108-277 | one request on an encrypted tree and on its plain counterpart: same answer and trees still in step, exactly when the request is not a telling one |
| Runs.RunTransparent | src/davs/webdav_server.rs:108-277 | over every run, a dav with a key and one without give the same answers and stay in step, exactly when no request is a telling one |
| Runs.RunKeepsWellFormed | src/davs/webdav_server.rs:108-277 | over every run, error answers included, every stored path's parent is a directory |
| Runs.LongPutSpoils | src/davs/webdav_server.rs:304-306 | a PUT that is too long for the chunk counter leaves a file that is no complete encryption |
| Runs.ServeKeepsEncrypted | src/davs/webdav_server.rs:176-255 | one request on a dav with a key keeps every file a complete encryption, exactly when it is not a PUT that is too long or a file copied onto itself |
| Runs.RunKeepsEncrypted | src/davs/webdav_server.rs:176-255 | over every run of a dav with a key, every file is a complete encryption at every moment, exactly when no request is one of those two |
| Runs.ListedSizeIsPlaintextLength | src/davs/webdav_server.rs:742-749 | the size PROPFIND shows for every complete encrypted file, asked for itself or listed in its collection, is its plaintext length, without underflow |
| Runs.PutThenGet | src/davs/webdav_server.rs:279-313 | what a PUT answered 201 stored is what a GET returns, whole and with its length, with or without a key |
| Effects.ServeFrames | src/davs/webdav_server.rs:149-275 | whatever it is answered, a request changes nothing but the paths at or below its targets, and for PUT the way to its file |
| Effects.PutSucceeds | src/davs/webdav_server.rs:279-313 | PUT is answered 201 exactly when the dav is writable, the target is neither the dav directory nor a collection, no file is in the way, and the body fits the chunk counter of a dav with a key |
| Effects.ErrorsChangeNothing | src/davs/webdav_server.rs:149-275 | a request answered 400 or more, and any request to a read-only dav, leaves the tree as it was, except for the damaging ones (a PUT too long for the chunk counter, and the COPY and MOVE requests of `DestroysDestination`): they are answered 500, with the tree they leave given, and the COPY and MOVE among them always change it |
| Effects.DeleteAnswers | src/davs/webdav_server.rs:183-191 | DELETE is answered 204 exactly for what exists in a writable dav and takes away exactly what lies at or below the path; otherwise it changes nothing and is answered 404 or 403 |
| Effects.MkcolAnswers | src/davs/webdav_server.rs:224-235 | section 9.3 of RFC 4918: MKCOL is answered 201 exactly for a free path in a writable dav, without a body, under a collection, and adds just that collection, which DELETE undoes; otherwise nothing changes; 405 is for what exists, 415 for a body, 409 for a missing parent |

## Left out

- ChunkFormat.RangePastEnd: starts just below 2^64, where the position of the chunk wraps around 64 bits and an encrypted file is read from another place under a counter that was not used there; the laws of the cipher do not say what comes out.
- ChunkFormat.CutRangeIsSlice: the same starts, for the same reason.
- StoredChunks.RangeByChunks: the same starts; there the reader begins in the middle of some chunk.
- Transparency.RangeAtOrPastEnd: the same starts in an encrypted file, for the same reason; a plain file is answered 500 from 2^63 on (`HeadIsGet`).
- The cipher itself, key derivation and randomness: only the laws of sealing and opening matter here.
- Builds with overflow checks, in which the wrapping subtraction of an admitted range past the end of the file panics in both storages, at src/davs/webdav_server.rs:478-482.
- Failing disks and interrupted uploads: a broken body leaves a partial file, because the upload writes in place. System calls are atomic, and requests are served one after the other.
- Symbolic links and the check that a path stays inside the dav directory: the tree has no links.
- Decoded paths that are absolute or contain `..` components: `ExtractPath` returns them, but the tree is only asked for paths below the dav directory.
- File names that are not UTF-8: the server lists them under an empty name.
- Trailing slashes of request paths in the tree model: to the system they matter only for files and for what does not exist.
- ETag, If-Range, If-None-Match, If-Modified-Since, content types and content disposition: they come from libraries, and the ETag depends on the stored size.
- Error texts in bodies, XML and JSON rendering, timestamps and logging: formatting without a deep property.
- OPTIONS, LOCK, UNLOCK and PROPPATCH, which change nothing; the zip archive and the search of a directory.
- Windows path separators.
- Users, roles, the reverse proxy, configuration, TLS and routing, and the frontend: unrelated to the two parts modelled here.
