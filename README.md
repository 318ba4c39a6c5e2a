# MicroEMACS line.c in Dafny

This project models `line.c` of MicroEMACS: the text primitives every editing command uses.

The file covers:
- allocating and freeing lines (`lalloc`, `lfree`);
- flagging a change (`lchange`);
- splitting a line (`lnewline`);
- deleting bytes and line ends (`ldelete`, `ldelnewline`);
- inserting text (`linsert`, `insertwithnl`);
- the kill buffer (`kdelete`, `kinsert`, `kremove`);
- the UTF-8 helpers (`uputc`, `unslen`, `uoffset`) and the window-ring fixup `adjustforinsert`.

State is kept as the C code keeps it:
- **Lines.** Each line (`Lines.Line`) is a byte buffer of `l_size` bytes, of which the first `l_used` hold text. Lines live in a map from handles to records.
- **Ring.** A buffer's doubly linked ring of lines is the sequence of its handles, header line first (`Ring`).
- **Windows and buffers.** These are records (`Positions.Window`, `Positions.Buffer`) held in sequences.
- **Editor.** The editor's globals (current window, current buffer, lines, ring, windows) are the fields of the class `Editor.Editor`. Its methods update them in place, as the C functions update the globals.
- **Kill buffer.** The kill buffer is the class `KillBuf.KillBuffer` over an `array<byte>`.
- **Memory.** malloc/realloc failures come from a script of answers held by `Memory.Allocator`. `Memory.AllYes` says every answer in the script is yes. The failure clauses of the edits are stated against it: with no refusal, an edit fails only for the reasons the C code names.

Every edit primitive is proved twice:
- **Storage.** It is proved against a value-level function of the old state, such as `JoinResult`, `InsertResult` or `Head`/`Tail`.
- **Text.** That function is then read as an edit of the buffer's **text** (`Document.Doc`), which is the lines joined with a newline after each. Dot is read as a position in that text (`Document.DocPos`):
  - lnewline puts a line end at dot;
  - ldelnewline takes out the line end after the dot line;
  - ldelete takes `removed` bytes out at dot. It also counts `phantom` line ends: at the end of a non-empty last line, ldelnewline answers TRUE and changes nothing. On TRUE, removed and phantom add up to `n`, and with `kflag` the kill buffer gains the removed bytes followed by one newline per phantom. It answers FALSE only when dot has run onto the end of the buffer or a request for memory was refused;
  - linsert splices its bytes in at dot and moves dot past them;
  - insertwithnl splices the string in, line ends included, all of it when it answers TRUE. It answers FALSE only for a read-only buffer or a refused request for memory.

## Model

| member | source | states |
|---|---|---|
| Lines.LineCapacity | line.c:54-56 | the allocation is a whole number of NBLOCK blocks, at least NBLOCK, holds `used` bytes, and is less than one block more than needed unless it is the one-block minimum |
| Lines.LineCapacityLeast | line.c:54-56 | the size lalloc picks is the least multiple of NBLOCK (from NBLOCK up) that holds `used` bytes |
| Lines.Fresh | line.c:57-63 | a fresh line has l_used set to the request and l_size equal to the rounded capacity |
| Editor.Editor.Lalloc | line.c:48-65 | succeeds exactly when the allocator answers yes; then the new line is a handle not in use, holding the fresh record, and nothing else changes; on failure the lines are untouched |
| Memory.Allocator.Request | line.c:57-61 | one malloc answers the next scripted outcome and consumes it |
| Editor.Editor.Lfree | line.c:73-116 | the line leaves the ring and the store. Every window's top line, dot and mark on it move to offset 0 of its successor, and so do the dot and mark of buffers shown in no window. The editor stays well formed |
| Positions.ChangeFlags | line.c:129-135 | the flag becomes WFHARD unless exactly one window shows the buffer, and WFMODE is added on the buffer's first change |
| Editor.Editor.Lchange | line.c:125-143 | the current buffer is marked changed, and every window showing it gets the flag; lines, ring and dot are unchanged |
| Lines.CopyBytes | line.c:166-169 | the byte-by-byte copy loop writes exactly n source bytes at the destination offset and leaves every other byte alone |
| Lines.MoveDown | line.c:170-172 | the copy loop towards the start of the same buffer moves the tail down intact, even though source and destination overlap |
| Lines.Head | line.c:164-169 | lnewline's new line holds the first doto bytes of the dot line, in a block-rounded allocation |
| Lines.Tail | line.c:170-173 | the old line keeps the bytes from doto on, in its own allocation |
| Editor.SplitBytes | line.c:164-173 | the two copy loops of lnewline produce exactly Head and Tail |
| Editor.Editor.SplitInto | line.c:166-198 | with the new line allocated: it is linked before the dot line; the top line moves to it; positions before doto move to it and the rest are pulled back by doto |
| Editor.Editor.Lnewline | line.c:154-200 | the buffer is marked changed with WFHARD. The result is TRUE exactly when the allocation succeeds. On success: the head line is linked in before the dot line, the dot line keeps its tail, and every window follows SplitAll. On failure only the lchange effects remain |
| Editor.NewlineResultDoc | line.c:154-200 | as a text edit, lnewline inserts one line end at dot. Dot stays on the tail line at offset 0, which is one byte further on in the text, and the header stays first |
| Editor.Editor.NewlineText | line.c:154-200 | lnewline on the editor, read in the text: TRUE gives the text with a line end inserted at dot and dot one past it; FALSE leaves text and dot alone, and comes only from a refused allocation |
| Lines.Cut | line.c:246-248 | the scrunch squeezes chunk bytes out at doto in place and keeps the allocation |
| Editor.Editor.Scrunch | line.c:246-265 | the dot line loses chunk bytes at doto. Positions on it at or past doto are pulled back by chunk, never below doto. In the text, chunk bytes at dot leave and dot stays put |
| Editor.KillSave | line.c:238-243 | the kill loop saves a prefix of the bytes, all of them exactly when it reports success; when no allocation is refused it succeeds |
| Editor.Editor.SaveChunk | line.c:236-245 | with kflag, the chunk bytes at dot, read from the text, are appended to the kill buffer, always when no allocation is refused; the text is unchanged |
| Editor.Editor.KillChunk | line.c:236-248 | the chunk is saved first and squeezed out only when saving succeeded; on failure text and dot are unchanged, and failure needs a refused allocation |
| Editor.Editor.DeleteChunk | line.c:233-265 | one in-line step of ldelete: lchange(WFEDIT), then kill and scrunch; without kflag it always succeeds and leaves the kill buffer alone; with kflag it fails only on a refused allocation |
| Editor.Editor.DeleteNewline | line.c:224-231 | one line-end step: ldelnewline and, with kflag, a newline saved. Either the line end after dot leaves the text, or, at the end of a non-empty last line, nothing changes and the step still counts. It fails only on a refused allocation |
| Editor.PassAccount | line.c:215-267 | each pass of ldelete's loop keeps the account: the text is the original minus `removed` bytes at dot, and the kill buffer holds what it held plus those bytes and the phantom line ends |
| Editor.StepKilled | line.c:236-245 | what one pass saves extends the kill buffer's account by exactly the bytes that pass removed, or by one line end |
| Editor.Editor.DeleteLoop | line.c:215-267 | the loop keeps that account until n bytes are counted or it fails; success means all n were counted, and failure happens only with n > 0 and dot on the header line or an allocation refused |
| Editor.Editor.Ldelete | line.c:208-269 | dot stays put and the text loses `removed` bytes at dot. removed + phantom is at most n, and equals n on TRUE. Phantom line ends only happen at the end of the non-empty last line. With kflag and success the kill buffer gains exactly the removed bytes plus one newline per phantom; without kflag it is untouched. FALSE comes only for n > 0, and then either dot has reached the header line (the end of the buffer) or an allocation was refused |
| Lines.Absorb | line.c:294-299 | the easy join appends the next line's text in the spare room of the dot line |
| Lines.Joined | line.c:323-331 | the hard join copies both texts into a fresh line of block-rounded size |
| Editor.AbsorbBytes | line.c:296-299 | the copy loop of the easy join produces Absorb |
| Editor.JoinBytes | line.c:325-331 | the two copy loops of the hard join produce Joined |
| Editor.Editor.JoinAtEnd | line.c:288-293 | before the header, an empty dot line is freed and a non-empty one is left alone |
| Editor.Editor.MergeInPlace | line.c:294-322 | when the next line fits, it is absorbed into the dot line and unlinked. Positions on it move to the dot line, shifted by the old length |
| Editor.Editor.MergeInto | line.c:325-359 | with the joined line allocated, it replaces both lines in the ring and every position and top line on either moves to it |
| Editor.Editor.MergeAlloc | line.c:323-360 | the hard case fails exactly when the allocation fails, leaving everything as it was |
| Editor.Editor.Ldelnewline | line.c:280-360 | the result is FALSE only when a needed allocation fails. The new state is JoinResult, or the old one on failure. Buffers shown in no window follow only when the dot line was freed |
| Editor.JoinResultDoc | line.c:280-360 | as a text edit, ldelnewline removes the line end after the dot line, except at a non-empty last line where nothing changes; dot keeps its place in the text |
| Editor.CutDoc | line.c:246-248 | squeezing chunk bytes out of the dot line removes exactly those bytes at dot from the text |
| KillBuf.KillBuffer.constructor | line.c:38-40 | the kill buffer starts with no storage and nothing held |
| KillBuf.KillBuffer.Delete | line.c:367-376 | kdelete releases the storage and forgets the contents |
| KillBuf.KillBuffer.Insert | line.c:497-516 | kinsert fails only when the buffer is full and the (re)allocation fails, and then nothing changes. Otherwise the low byte of c is appended and the storage grows by KBLOCK exactly when it was full |
| KillBuf.KillBuffer.Remove | line.c:523-529 | kremove gives byte n of the contents, and -1 exactly when n is outside 0..kused-1 |
| KillBuf.KillBuffer.ScanReadsContents | line.c:518-529 | reading from index 0 until kremove answers -1 collects exactly the bytes held |
| Utf8.Encode | line.c:383-434 | each range of c gets the byte count of RFC 2279 section 2 (1 to 6), the lead-byte pattern of that length, and continuation bytes `10xxxxxx`. Anything else is stored as its low byte |
| Utf8.EncodeDecode | line.c:383-434 | for every c from 0 to 0x7FFFFFFF, the lead byte announces the encoding's length, and an independent decoder gives c back |
| Utf8.EncodeExamples | line.c:386-403 | 'A', 'é' and '€' encode to their standard byte sequences |
| Positions.AdjustForInsert | line.c:440-456 | the loop retargets the first m_count ring entries on the old line to the new one, moving only offsets strictly after the insertion by nchars; the rest are unchanged |
| Utf8.UnsLen | line.c:461-473 | unslen is at most the byte count, and zero exactly for the empty string |
| Utf8.WalkUnsLen | line.c:461-473 | the cursor loop of unslen computes UnsLen, even when a last announced length runs past the end |
| Utf8.UOffset | line.c:478-488 | the offset of character n is at least n, and inside the string for every character before the last |
| Utf8.WalkUOffset | line.c:478-488 | the cursor loop of uoffset computes UOffset |
| Utf8.UnsLenUOffset | line.c:461-488 | for any lead-byte length function and any n up to the character count, the bytes up to the offset of character n (cut at the end of the string) are exactly n characters |
| Utf8.UnsLenRepeat | line.c:578-581 | n copies of one encoded character count as n characters when uclen agrees with its lead byte |
| Utf8.UnsLenSingle | line.c:569-570 | for bytes that are each a character, the character count equals the byte count |
| Editor.Inserted | line.c:564-583 | linsert inserts the first n bytes of s, or n copies of uputc(c): n bytes, or n times the encoding's length |
| Editor.InsertedChars | line.c:569-580 | the character count is unslen of those bytes, or n, and never more than n |
| Editor.Editor.Measure | line.c:564-583 | linsert's bookkeeping computes exactly the encoding of c, that character count and that byte count |
| Lines.Fill | line.c:621-627 | the fill loop writes n copies of the encoded character one after another from the offset |
| Editor.PutBytes | line.c:621-629 | fill or copy writes exactly the inserted bytes at the offset |
| Lines.Filled | line.c:592-598 | at the buffer end the new line holds exactly the inserted bytes |
| Lines.Regrown | line.c:600-612 | the reallocated line holds the old text with the bytes spliced in at the offset, in a block-rounded allocation |
| Lines.Opened | line.c:613-619 | in place: the old text with the bytes spliced in at the offset, same allocation |
| Editor.Editor.FixForInsert | line.c:631-644 | the window loop retargets top line, saved line, dot and ring entries from the old line to the new one. The current window's dot always moves by chars; other dots and ring entries move only when strictly after the insertion |
| Editor.Editor.Linsert | line.c:546-646 | a read-only buffer gives FALSE with nothing changed. Otherwise the buffer is marked changed and one undo record is logged. FALSE comes only for a non-zero offset on the header or a failed allocation. The new state is InsertResult, or the old one on failure |
| Editor.InsertResultDoc | line.c:546-646 | as a text edit, linsert splices the bytes in at dot, and dot moves forward by the inserted characters. On the header the bytes become a new last line, followed by its line end, and dot moves onto it |
| Editor.Editor.InsertText | line.c:546-646 | linsert of a run of bytes read in the text, when offsets are byte offsets and each byte is a character: TRUE splices the run in at dot and moves dot past it; FALSE changes nothing and comes only from a read-only buffer or a refused allocation |
| Editor.FindNl | line.c:663 | memchr finds the first newline at or after `from`, or reports that there is none |
| Editor.InsertProgress | line.c:664-676 | after one linsert of the run before the next newline, the text is the original with one more run of s spliced in at the starting point |
| Editor.NewlineProgress | line.c:677-678 | after lnewline at a newline of s, the text is the original with s spliced in up to and including that newline |
| Editor.Editor.InsertPass | line.c:661-680 | one pass of insertwithnl's loop advances past a run and its newline (or to the end) and keeps the splice account; it fails only on a read-only buffer or a refused allocation |
| Editor.Editor.InsertWithNl | line.c:655-682 | TRUE exactly when all of s went in. With byte offsets and one-byte characters, the text is the original with the inserted prefix of s spliced in at dot and dot just past it. A trailing line end follows them exactly when the insertion began at the end of the text and a byte other than a line end went in: that byte started a new last line (an lnewline at the end of the text leaves dot on the header line). FALSE comes only from a read-only buffer or a refused allocation |

## Left out

- I/O: `mlwrite` and `eprintf` messages are not modelled. The "bug: linsert" path is modelled only as its FALSE result.
- saveundo: the undo log is an abstract ghost record list (`undo`), one record per linsert. How the undo storage works is not part of this model.
- checkreadonly, wloffset and uclen come from outside this file. They are parameters: `writable`, a byte-offset function and a lead-byte length function from 1 to 6.
- Memory: malloc, realloc and free are a script of yes/no answers (`Memory.Allocator`). Freed lines leave the map, and handles are never reused. Addresses, struct layout, sizeof(LINE) and pointer aliasing are not modelled.
- Other buffers' line rings are not modelled. lfree in ldelnewline only frees lines of the current buffer. Buffers shown in no window are updated only by lfree, as in the source.
- Integer width: `int` and `unsigned long` are unbounded here, so overflow of l_used, kused, ksize or n is not modelled. uputc's shifts are divisions by powers of two, which agrees with C for the non-negative values that reach them.
- Utf8.UOffset: defined only for n up to unslen of the string. Past that, uoffset in C reads beyond the string, which this model does not represent.
- Utf8.WalkUOffset: requires n to be at most unslen of the string. Past that, uoffset in C reads beyond the string, which this model does not represent.
- Editor.Editor.Linsert: requires the byte offset from wloffset to lie within the dot line. An offset outside the line would make the C code copy outside the buffer.
- Editor.Editor.Ldelete: requires n to be non-negative. A negative n would make the chunk negative, and the C kill loop would then copy out of bounds, which is undefined behaviour.
- Editor.Editor.InsertWithNl: the text-level result is stated only when offsets are byte offsets and every byte of s is a character. Otherwise linsert's byte offset and character count differ, and only well-formedness and the status are stated.
- Editor.Editor.Ldelete: the kill buffer contents after a failed kinsert or ldelnewline are not stated, and neither is the allocator script consumed; only success gives the full account.
- Offsets: ldelete treats doto as a byte offset, and linsert converts it through wloffset and advances positions by characters. The model follows the code for both, so with multi-byte characters dot offsets are character counts in linsert and byte counts in ldelete.
- Mark: the window's mark is its ring's first entry. adjustforinsert is assumed to see at least that entry (m_count of at least 1).
- Header: inserting at the header line appends a new last line, which adds a line end to the text after the inserted bytes. ldelete counts a line end at the end of a non-empty last line as deleted, although nothing changes; such line ends are called phantom in the model.
