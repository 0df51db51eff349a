# SHA-1 transmitter / receiver, modelled in Dafny

The repository holds two Python scripts that benchmark SHA-1 hashing on
small boards (Raspberry Pi 3B+/4B, Jetson Nano).

- **Transmitter** (`Code/SHA-1-Transmitter.py`).
  - It reads `original.txt` in text mode, in 4096-character slices, and
    feeds every non-empty slice into a single running `hashlib.sha1()`
    context. The slices are of the decoded text, with `"\r\n"` and `"\r"`
    already turned into `"\n"`, not of the file's bytes.
  - After each update it pushes the context's hex digest to a list, so the
    digests are cumulative: digest k covers slices 0..k.
  - It then writes the digests to `hashes.txt` and every slice, including
    the final empty read, to `send.txt`. Each entry is written as the entry
    followed by `"\r"`.
- **Receiver** (`Code/SHA-1-Receiver.py`).
  - It checks the IP address typed in and receives the two files over TCP.
  - It reads both files back line by line, in text mode, keeping the part
    of each line before `"\n"`.
  - It maps every hash to its chunk and writes each chunk to a numbered
    scratch file `text-of-hashes-<i+1>.txt`.
  - It runs `sha1sum` on the scratch files and reconciles the reference
    digests with the hash list, using a `matched_hashes` array and a
    `linux_hashes` array.
  - It renders one report line per scratch file into the results list,
    which `write_txt_file` appends to the results file.

## Modules

- `common.dfy` (`Common`): the pieces shared by both scripts.
  - The Python exceptions that matter, as `PyError`, with `Result` and
    `Outcome`.
  - `Frame`, the `line + "\r"` serialisation of `write_txt_file`.
  - The device menu, the upper-cased results header, and `str()` of a
    natural number.
- `chunks.dfy` (`Chunks`): the specification of the transmitter's read
  loop.
  - `ChunkList` is the list of `file.read(4096)` results.
  - `CumulativeDigests` and `Manifest` give the pushed digests.
  - `AsciiBytes` is `bytes(s, "ascii")`.
- `transmitter.dfy` (`Transmitter`): the imperative parts of the
  transmitter.
  - The running SHA-1 context, a class whose state is the bytes absorbed so
    far.
  - The script's global lists and output files, as the fields of `Script`.
  - The chunk loop `HashSource`, proved against `ChunkList` and
    `CumulativeDigests`.
- `text.dfy` (`Text`): `str.split` on one character, universal-newline
  translation, and the line iterator of a text file. `ParseText` states
  what the receiver's read loops produce.
- `receiver.dfy` (`Receiver`): everything else in the receiver.
  - The IP regex.
  - The two receive loops, as a fold over read outcomes.
  - The read-back loops.
  - The mapping loop.
  - The reconciliation loop, with the two arrays.
  - The report.
  - The script state.
- `session.dfy` (`Session`): one transmitter run read back by the
  receiver, taking the receiver's two files to be exactly the
  transmitter's two files.
  - The hash manifest round-trips through `hashes.txt`.
  - `send.txt` round-trips only for sources without line terminators.
  - A source without line terminators of one read reconciles as MATCHING.
  - A source without line terminators of two or more reads always raises
    in the comparison stage.
  - A `"\n"` inside a read shifts the receiver's texts, so a scratch file
    no longer holds the chunk whose digest it is paired with.

SHA-1 is the parameter `sha1: seq<byte> -> string` wherever it is needed.
The `sha1sum` output lines and the `os.listdir` listing are inputs.

## Model

| member | source | states |
|---|---|---|
| Common.DeviceName | Code/SHA-1-Transmitter.py:201-209 | menu choices 1, 2 and 3 give a name and every other number raises; the receiver has the same menu at Code/SHA-1-Receiver.py:258-266 |
| Common.Upper | Code/SHA-1-Transmitter.py:86 | `str.upper` on ASCII keeps the length, maps a-z to A-Z and leaves every other character alone |
| Common.HeaderDeterminesName | Code/SHA-1-Transmitter.py:84-86 | two device names give the same results header exactly when they upper-case alike |
| Common.DeviceHeaders | Code/SHA-1-Receiver.py:87-89 | the three headers read RASPBERRY PI 3B+, RASPBERRY PI 4B and JETSON NANO 4GB, and say RECEIVER SCRIPT on both scripts |
| Common.Decimal | Code/SHA-1-Receiver.py:353 | `str(n)` is a non-empty string of digits with no leading zero |
| Common.DecimalRoundTrip | Code/SHA-1-Transmitter.py:259 | reading `str(n)` back as a decimal gives n |
| Common.DecimalInjective | Code/SHA-1-Receiver.py:353 | different numbers print differently |
| Common.AppendFramed | Code/SHA-1-Transmitter.py:126-131 | the write loop appends `line + "\r"` for every line, in order |
| Common.FrameConcat | Code/SHA-1-Transmitter.py:128-130 | framing a concatenation is concatenating the framings |
| Chunks.ReadChunk | Code/SHA-1-Transmitter.py:249 | `read(4096)` returns a prefix of the unread text, at most 4096 characters, and all of it when fewer remain |
| Chunks.ChunkList | Code/SHA-1-Transmitter.py:248-255 | the chunk list always ends with the empty read, and it is just `[""]` exactly for an empty source |
| Chunks.ChunkSizes | Code/SHA-1-Transmitter.py:249-251 | every chunk before the terminator has 1 to 4096 characters, and every one before the last non-empty chunk has exactly 4096 |
| Chunks.ChunkListReconstructs | Code/SHA-1-Transmitter.py:248-255 | concatenating the chunk list gives back the source text |
| Chunks.ChunkCount | Code/SHA-1-Transmitter.py:250-253 | the number of non-empty chunks, which is the number of digests, is ceil(len(text) / 4096) |
| Chunks.ChunksAscii | Code/SHA-1-Transmitter.py:252 | every chunk is ASCII exactly when the source is |
| Chunks.AsciiBytes | Code/SHA-1-Transmitter.py:252 | `bytes(s, "ascii")` keeps every code point as one byte |
| Chunks.AsciiBytesConcat | Code/SHA-1-Transmitter.py:252 | encoding a concatenation is concatenating the encodings |
| Chunks.CumulativeDigests | Code/SHA-1-Transmitter.py:245-253 | one digest per hashed chunk |
| Chunks.CumulativeDigestAt | Code/SHA-1-Transmitter.py:245-253 | digest k is SHA-1 of chunks 0..k together, because the one context is never reset |
| Chunks.CumulativeSnoc | Code/SHA-1-Transmitter.py:252-253 | one more chunk adds exactly one digest, SHA-1 of everything absorbed so far |
| Chunks.ChunkPrefix | Code/SHA-1-Transmitter.py:248-250 | chunks 0..k make up the first min((k + 1) * 4096, len(text)) characters |
| Chunks.DigestCoversPrefix | Code/SHA-1-Transmitter.py:245-253 | digest k is SHA-1 of the first min((k + 1) * 4096, len(text)) characters |
| Chunks.LastDigestCoversSource | Code/SHA-1-Transmitter.py:245-259 | for a non-empty source there is one digest per chunk before the terminator, and the last digest is SHA-1 of the whole text as read |
| Chunks.SendBlobEndsWithLoneReturn | Code/SHA-1-Transmitter.py:138-143 | `send.txt` gets the framed chunks followed by one lone `"\r"` from the empty terminator chunk |
| Chunks.ReadStep | Code/SHA-1-Transmitter.py:249-250 | one non-empty read moves a chunk from the unread text to the chunk list and shortens what is left |
| Chunks.ReadsEnd | Code/SHA-1-Transmitter.py:249-255 | the empty read ends the loop with the whole chunk list, and the bytes absorbed are the encoded source |
| Chunks.ReadFailsOn | Code/SHA-1-Transmitter.py:250-252 | when the chunks read so far, ending in a non-ASCII one, are a prefix of the chunk list, the source is not ASCII |
| Transmitter.Sha1Context.Update | Code/SHA-1-Transmitter.py:252 | `sha1.update` appends the bytes to what the context has absorbed |
| Transmitter.ConsoleHashLines | Code/SHA-1-Transmitter.py:258-259 | one console line per pushed digest, numbered from 1, each showing the final digest rather than digest i |
| Transmitter.Script.MakeResultsTxtHeader | Code/SHA-1-Transmitter.py:84-86 | appends the header to the results list |
| Transmitter.Script.PushText | Code/SHA-1-Transmitter.py:91-98 | "results" appends only to the results list, "hashes" only to the hashes list, any other type changes neither |
| Transmitter.Script.WriteTxtFile | Code/SHA-1-Transmitter.py:120-145 | appends the framed results list, hashes list or buffer to the named file; any other type raises and writes nothing |
| Transmitter.Script.HashChunk | Code/SHA-1-Transmitter.py:251-253 | an ASCII chunk is absorbed and the new cumulative digest is pushed to the hashes list |
| Transmitter.Script.HashSource | Code/SHA-1-Transmitter.py:244-255 | the loop succeeds exactly when the source is ASCII, with the chunk list equal to `ChunkList`, the cumulative digests pushed and the final digest SHA-1 of the source; otherwise it raises UnicodeEncodeError after the non-ASCII chunk was appended, with only the earlier chunks' digests pushed |
| Transmitter.Script.HashAndStore | Code/SHA-1-Transmitter.py:244-267 | on an ASCII source the hashes list gains the manifest, the console shows the final digest once per digest, `hashes.txt` gains the framed hashes list and `send.txt` the framed chunk list; otherwise it raises UnicodeEncodeError with both files untouched, returning the chunks read up to the non-ASCII one and with only the earlier chunks' cumulative digests pushed |
| Transmitter.Script.StoreFiles | Code/SHA-1-Transmitter.py:262-267 | writes the hashes list to `hashes.txt` and the chunk list to `send.txt` |
| Text.SplitOn | Code/SHA-1-Receiver.py:324 | `split(c)` gives at least one piece and no piece holds the separator |
| Text.JoinSplit | Code/SHA-1-Receiver.py:324 | joining the pieces of a split gives the string back |
| Text.SplitJoin | Code/SHA-1-Receiver.py:324 | splitting a join of separator-free pieces gives the pieces back |
| Text.HeadIsPrefix | Code/SHA-1-Receiver.py:379 | `split(c)[0]` is the prefix of the string up to the first c, or all of it |
| Text.Translate | Code/SHA-1-Receiver.py:319 | universal newlines never lengthen the text and leave no `"\r"` |
| Text.TranslateNoReturns | Code/SHA-1-Receiver.py:319 | text without `"\r"` reads back unchanged |
| Text.TranslateFramedLine | Code/SHA-1-Receiver.py:319-320 | a `line + "\r"` frame reads back as `line + "\n"` when the next frame does not start with `"\n"` |
| Text.LinesShape | Code/SHA-1-Receiver.py:320-322 | every line the file iterator yields is non-empty, so `if not line` never skips, and only its last character can be `"\n"` |
| Text.LinesCover | Code/SHA-1-Receiver.py:320 | the lines together make up the text |
| Text.ParseText | Code/SHA-1-Receiver.py:317-328 | no parsed entry holds `"\n"` |
| Text.LineHeads | Code/SHA-1-Receiver.py:320-324 | there is one line per piece of the text, except an empty piece after a final `"\n"`, and each line's head is its piece |
| Text.TranslateFrame | Code/SHA-1-Transmitter.py:132-137 | framed lines without terminators read back as the lines joined by `"\n"` with a final `"\n"` |
| Text.ParseFrameRoundTrip | Code/SHA-1-Receiver.py:317-328 | parsing the framing of lines without line terminators gives back exactly those lines |
| Text.ChunkBlobDoesNotRoundTrip | Code/SHA-1-Receiver.py:330-342 | a final chunk holding one `"\n"` comes back from `send.txt` as two entries before the empty terminator |
| Receiver.CheckIp | Code/SHA-1-Receiver.py:270-274 | a rejected address raises the illegal-IP exception and no other error; which addresses pass is stated by the six lemmas below |
| Receiver.QuadAccepted | Code/SHA-1-Receiver.py:271-272 | any four dot-separated groups of 1 to 3 digits are accepted |
| Receiver.QuadNewline | Code/SHA-1-Receiver.py:271-272 | any such quad followed by one `"\n"` is accepted too, as `$` matches before a final newline |
| Receiver.AcceptedShape | Code/SHA-1-Receiver.py:271-272 | an accepted address is four such groups, optionally followed by one `"\n"` |
| Receiver.IpNoRangeCheck | Code/SHA-1-Receiver.py:271 | 999.999.999.999 is accepted, so there is no 0-255 range check |
| Receiver.IpTrailingNewline | Code/SHA-1-Receiver.py:271-272 | `$` matches before a final newline, so "192.168.1.10\n" is accepted |
| Receiver.ShortNotAccepted | Code/SHA-1-Receiver.py:271-273 | anything shorter than 7 characters raises |
| Receiver.PhaseEnd | Code/SHA-1-Receiver.py:196-203 | a receive loop stops at the first empty read or timeout |
| Receiver.Phase | Code/SHA-1-Receiver.py:196-201 | only non-empty reads are stored |
| Receiver.TimeoutLikeEmptyRead | Code/SHA-1-Receiver.py:202-203 | a swallowed timeout ends the phase exactly like an empty read |
| Receiver.ReceiveFile | Code/SHA-1-Receiver.py:195-203 | the loop stores the non-empty reads before the first empty read or timeout, and the next phase resumes after it |
| Receiver.WriteBuffers | Code/SHA-1-Receiver.py:229-236 | the stored file is the concatenation of the stored reads |
| Receiver.ReceiveFromTransmitter | Code/SHA-1-Receiver.py:195-236 | `hashes.txt` holds the first phase's reads and `receive.txt` the second's, and the two ACKs go out in fixed order whatever arrived |
| Receiver.PhaseEndAt | Code/SHA-1-Receiver.py:196-203 | a receive loop whose reads are data up to a stopping read ends exactly at that read |
| Receiver.PhasesBetweenStops | Code/SHA-1-Receiver.py:195-236 | the files are cut at the stopping reads only: non-empty reads, a stop, non-empty reads and a stop give `hashes.txt` exactly the first stretch and `receive.txt` exactly the second, wherever the transmitter's file boundary lies |
| Receiver.ReadLines | Code/SHA-1-Receiver.py:317-328 | the read-back loop produces `ParseText` of the file's content |
| Receiver.ScratchNamesDistinct | Code/SHA-1-Receiver.py:353 | different positions get different scratch files |
| Receiver.Pairs | Code/SHA-1-Receiver.py:347-350 | every key of the dictionary is a hash from the list |
| Receiver.PairsKeys | Code/SHA-1-Receiver.py:347-350 | the keys are exactly the hashes recorded |
| Receiver.PairsLastWins | Code/SHA-1-Receiver.py:350 | a hash maps to the text of its last position |
| Receiver.ScratchFilesKeys | Code/SHA-1-Receiver.py:353-355 | there is one scratch file per recorded position, numbered from 1, and no other |
| Receiver.ScratchFilesHold | Code/SHA-1-Receiver.py:353-355 | the scratch file of each recorded position holds that position's chunk, since later positions write other files |
| Receiver.MapHashesToText | Code/SHA-1-Receiver.py:344-359 | for every position below both list lengths the dictionary and the scratch files are updated in order; a position without a chunk raises IndexError, which is caught, and changes nothing |
| Receiver.IndexOf | Code/SHA-1-Receiver.py:381 | `list.index` returns the first position holding the value |
| Receiver.Token | Code/SHA-1-Receiver.py:379 | the token of a reference line holds no space |
| Receiver.Reconcile | Code/SHA-1-Receiver.py:374-386 | the loop completes exactly when there are no reference lines, or a slot exists and every dictionary token's first position is a slot; `matched_hashes` then marks each first position some token hits, and `linux_hashes` holds the last token in the last slot only; otherwise it raises IndexError |
| Receiver.MarkLine | Code/SHA-1-Receiver.py:379-386 | one pass of the comparison loop: the slot arrays become those of the reference lines read so far plus this one |
| Receiver.ReconcileOkSnoc | Code/SHA-1-Receiver.py:380-386 | the loop gets past one more line exactly when it got this far, a slot exists and that line's token, if a key, has a slot |
| Receiver.MatchedSnoc | Code/SHA-1-Receiver.py:380-382 | one more line sets at most its token's first position, and no slot goes back to False |
| Receiver.LinuxSnoc | Code/SHA-1-Receiver.py:386 | every line overwrites the same stale slot `i == n - 1` |
| Receiver.MatchedMeaning | Code/SHA-1-Receiver.py:375-382 | slot k ends up True exactly when k was recorded, k is its hash's first position, and some reference token equals that hash, so a later duplicate never matches |
| Receiver.ReportLine | Code/SHA-1-Receiver.py:390-394 | a matched line succeeds exactly when its slot holds a token and otherwise raises TypeError; an unmatched line succeeds exactly when the position has a hash and otherwise raises IndexError; every line starts with the scratch file's name |
| Receiver.Report | Code/SHA-1-Receiver.py:389-394 | one report line per listed scratch file |
| Receiver.ReportLines | Code/SHA-1-Receiver.py:388-394 | the loop succeeds exactly when every line does and then yields `Report`; when it raises, the error is that of a failing line |
| Receiver.MatchedBeforeLastSlotRaises | Code/SHA-1-Receiver.py:386-392 | a matched slot before the last one raises, because the stale index left it at None |
| Receiver.MismatchLineQuotesBoth | Code/SHA-1-Receiver.py:394 | a mismatch line quotes `"0x" + hash` and `"0x" + str(slot)` verbatim |
| Receiver.Script.MakeResultsTxtHeader | Code/SHA-1-Receiver.py:87-89 | appends the header to the results list |
| Receiver.Script.PushText | Code/SHA-1-Receiver.py:94-101 | "results" appends only to the results list, "hashes" only to the hashes list, any other type changes neither |
| Receiver.Script.WriteTxtFile | Code/SHA-1-Receiver.py:121-140 | appends the framed results list or hashes list to its file; any other type raises and writes nothing |
| Receiver.Script.CompareHashes | Code/SHA-1-Receiver.py:315-399 | both files are parsed; the dictionary and scratch files are built from the common prefix; the stage completes exactly when reconciliation and every report line succeed, and then the results list gains the report and a blank separator; otherwise the results list is unchanged |
| Receiver.Script.PushReport | Code/SHA-1-Receiver.py:397-399 | pushes every report line in order, then `"\n"` |
| Session.ChunksAvoid | Code/SHA-1-Transmitter.py:249-250 | a character missing from the source is missing from every chunk |
| Session.ManifestRoundTrip | Code/SHA-1-Receiver.py:317-328 | if `hashes.txt` is delivered intact, the receiver's hash list is exactly the transmitter's pushed digests |
| Session.ChunkBlobRoundTrip | Code/SHA-1-Receiver.py:330-342 | if `send.txt` is delivered intact as `receive.txt`, for a source without line terminators the receiver's text list is exactly the transmitter's chunk list, terminator included |
| Session.RunRoundTrips | Code/SHA-1-Receiver.py:317-342 | for such a source, both files delivered intact round-trip, and there is one more text than hashes |
| Session.MappingPairsDigestWithChunk | Code/SHA-1-Receiver.py:347-350 | for a source without line terminators every position is recorded, every digest is a key of the dictionary, and a digest that does not recur later maps to the chunk it was taken after |
| Session.ScratchHoldsChunk | Code/SHA-1-Receiver.py:347-355 | for a source without line terminators, scratch file k + 1 holds chunk k |
| Session.ScratchHoldsFirstLine | Code/SHA-1-Receiver.py:330-355 | for the one-read source `x + "\n" + y` the receiver gets the texts `[x, y, ""]` and one hash, the digest of the whole source, while the only scratch file holds `x` |
| Session.EmptySourceRun | Code/SHA-1-Receiver.py:315-399 | an empty source sends an empty `hashes.txt` and a lone `"\r"` as `send.txt`; the receiver gets no hashes and the one text `""`, builds no dictionary entry and no scratch file, and with no listed files and no reference lines the comparison loop completes with an empty report |
| Session.TokenOfSha1sumLine | Code/SHA-1-Receiver.py:369-379 | the token of a `sha1sum` line is the digest |
| Session.FirstHashMarked | Code/SHA-1-Receiver.py:380-382 | a reference token equal to the first hash marks slot 0 |
| Session.SingleChunkRunMatches | Code/SHA-1-Receiver.py:347-392 | a source of 1 to 4096 characters without line terminators comes back as one hash, the source's digest, and one scratch file holding the source; with that file's `sha1sum` line as the reference it reconciles and reports MATCHING with that digest |
| Session.MultiChunkRunRaises | Code/SHA-1-Receiver.py:347-392 | for a source without line terminators and with two or more reads, scratch file 1 holds chunk 0; when a reference line carries that file's `sha1sum`, with as many listed names as digests the comparison loop completes, slot 0 is matched but left at None, and its report line raises |

## Left out

- Sockets are not modelled: bind, listen, accept, connect, `settimeout`,
  `sendfile` and `recv`. The receive loops are folds over a sequence of
  read outcomes (data, empty read, timeout). The transmitter's
  `transfer_data_to_receiver` is not modelled; `main` has its call
  commented out.
- SHA-1 is the parameter `sha1`. The `sha1sum` shell call and
  `os.listdir` are inputs: the reference lines and the listed names. The
  scratch directory is assumed to hold only this run's files.
- The platform inventory (`get_hw_info`, `get_sw_info`) and the result
  lines built from it are not modelled, because they are foreign calls.
- The timing, the CPU-load and RAM lines, and the float power readings are
  not modelled, because they are clocks and floating point.
- `input()` and `int(input())` are not modelled. The device choice arrives
  as an `int` and the IP address as a string.
- `print` is not modelled. That includes the console half of `push_text`,
  except for the digest lines, which `ConsoleHashLines` returns.
- `create_txt_file`, `umask` and `O_CREAT` are not modelled. Every output
  file and list is assumed empty when a script starts; the model does not
  cover the contents an earlier run leaves behind.
- Decoding the received bytes into text is not modelled. `ParseText` and
  `CompareHashes` take the decoded content of `hashes.txt` and
  `receive.txt`.
- Exceptions while opening or reading the two files (the `except` branches
  at Code/SHA-1-Receiver.py:325-328 and 339-342) are not modelled.
- The mapping loop's `finally: file.close()` is not modelled. That branch
  can close an earlier file again.
- Common.Upper: maps only ASCII a-z, because the model's sources are ASCII.
  Python's Unicode case mapping is not modelled.
- Receiver.CheckIp: `\d` matches ASCII digits only, while Python's `re`
  also accepts other Unicode decimal digits in a `str` pattern.
- Receiver.Reconcile: with no listed scratch files and at least one
  reference line, the write through the stale index raises. The model
  reports IndexError. When no earlier loop bound `i`, Python raises
  UnboundLocalError.
- Transmitter.Script.HashSource and Chunks.ChunkList: `text` is
  `original.txt` as a text-mode `read` returns it, decoded, with `"\r\n"`
  and `"\r"` turned into `"\n"`. The slices, the reconstruction and the
  final digest are about that text, not the file's bytes; for a file with
  `"\r"` the final digest is not the `sha1sum` of the file. A decoding
  error from `read` is not modelled.
- Session: the receiver's `hashes.txt` and `receive.txt` are taken to be
  exactly the transmitter's `hashes.txt` and `send.txt`, decoded: the
  first phase's reads concatenate to `hashes.txt` and the second's to
  `send.txt`. The transfer itself is not in the code (its call is
  commented out), and a phase boundary that falls elsewhere, such as a
  stall of more than 5 seconds inside `hashes.txt`, is not covered by the
  Session lemmas (Receiver.PhasesBetweenStops states where the cut falls).
- Session.MultiChunkRunRaises and Session.SingleChunkRunMatches: only
  sources without line terminators are covered. When a read holds `"\n"`
  the scratch files hold lines, not chunks (Session.ScratchHoldsFirstLine),
  and whether any slot matches then depends on SHA-1 values.
- Transmitter.Script.WriteTxtFile and Receiver.Script.WriteTxtFile: the
  default `type="results"` is not modelled; every call passes `type`.
  The transmitter's default `buffer=[None]` is not modelled either: the
  one call that reads `buffer` passes it (Code/SHA-1-Transmitter.py:267).
  The receiver's `write_txt_file` has no `buffer` parameter.
