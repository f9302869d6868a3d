# Verified models of the iteso socket exercises

This project models the hand-written protocol and buffer code of five of the C
programs and proves what they promise their users: that files arrive whole, that
requests are read to the right byte, that replies can be taken apart again, and,
where a promise fails, exactly when it holds.

| file | what it models |
|---|---|
| `CText.dfy`, `CBuffers.dfy`, `Tokens.dfy` | C strings in buffers, decimal printing and `atoi`, the ten-byte size field, `strcat`, `strcpy`, `strtok` |
| `Descriptors.dfy`, `SendLoops.dfy` | `read` and `write` with every possible short result; the accumulating and the assigning write loop |
| `FileTransfer.dfy`, `FileTransferProofs.dfy`, `FileTransferTranscript.dfy` | FT_protocoll: client and server as two processes with two FIFO channels, every interleaving, and the bytes of a whole run |
| `CommandSession.dfy`, `CommandSessionProofs.dfy`, `CommandSessionFailures.dfy`, `CommandLine.dfy` | PRACTICA2: the command session, likewise, runs of it that go wrong, and the command text in its buffers |
| `TransferLoops.dfy` | the byte loops of those two programs, in place on their buffers |
| `EmailMatcher.dfy` | P3: `parseEmail` |
| `HttpsServer.dfy`, `HttpsReplies.dfy` | HTTPS: request scan, dispatch, `doGet`, `sendLine`, and what the replies hold |
| `LineServer.dfy`, `LineServerReplies.dfy` | P1: `readTCPLine4`, `sendTCPLine4`, `clientProccess`, and what the replies hold |

The two protocols are state machines: an action names the process that moves and, for
a read or a file chunk, how many bytes it gets, and a run is any sequence of enabled
actions. The loops are methods over arrays and descriptor objects whose results are
chosen nondeterministically, so that each is verified for every cut of its reads and
writes.

## Assumptions

- Channels are reliable FIFOs and files do not change during a transfer.
- A data read returns any positive number of the available bytes, up to its request.
  Zero bytes mean the end of a file or a closed connection; in the FT_protocoll runs
  the latter is modelled and proved never to happen.
- In the FT_protocoll and PRACTICA2 runs a write is whole, and a control read (2, 3 or
  10 bytes, or a command) returns as much of its request as is in the channel. That it
  then returns exactly its own message is proved, not assumed. Why whole writes are
  needed there is `SendLoops.AssigningLoopEndsIffFirstWriteWhole`.
- C buffers have room for what the surrounding code puts in them, in particular the FT
  client's name buffer for CR, LF and NUL, P1's `html` for the file name, and the typed
  arguments of the PRACTICA2 client.
- A byte is a `char`; nothing depends on how many different ones there are. C integers
  are unbounded, with size limits written out where they matter; `atoi` of digits that
  name no C int is undefined, and leads to a state without successors.

## Where the code differs from its documentation

- PRACTICA2/server.c:337 describes a file part as first byte to last byte. The server
  takes the second number as a count, the client takes it as an end. The two agree
  exactly on parts that begin or end with the file (`PartExcess`, `SessionAtPrompt`;
  an input on which they do not is `InnerPartLeavesAByte`). When the part ends past the
  file both sides wait for ever (`SessionEnds`, `PartBeyondTheEndHangs`), and after a part
  that ends before it begins the client is back at its prompt without an answer.
- The PRACTICA2 client never clears the buffer it reads the size field into, and a size
  of ten digits leaves no room for its NUL, so an old digit behind it makes a number that
  no C `int` holds (`FieldReads`, `FileArrivesIff`, `OldDigitSpoilsSize`).
- P3/sslserver.c:234-237 announces a search for the end of the line. The four
  inequalities are joined by "or", so the loop always runs to the end of the text, and
  the copy includes the byte at `srcSize`.
- HTTPS/README:14-15 speaks of a 404 page for other routes. The status line sent is
  `HTTP/1.1 240 No Content`, followed by that page.
- P1/server.c:132-151 sends the file directly after its header lines, with no blank
  line between them; the model emits the same bytes.

## Model

| member | source | states |
|---|---|---|
| CText.AtoiInvertsDecimal | FT_protocoll/client.c:103 | as a number without bounds, a printed number is read back when no digit follows it, and a digit that follows makes it at least ten times as large |
| CText.DecimalDigits | PRACTICA2/server.c:214 | the last character printed for n is the character n % 10 places behind `0`, and the text before it is what is printed for n / 10 |
| CText.AtoiReads | PRACTICA2/client.c:283-284 | for every text: `atoi` skips blanks, takes a sign or none, and gives the value, by place, of the decimal digits up to the first other character, or 0 where there are none |
| CText.NineCharsFit | PRACTICA2/client.c:92-93 | any text that fits the ten-byte argument buffers reads as a number within the range of a C int |
| CText.DecimalLength | FT_protocoll/server.c:147-148 | a number prints in at most k digits exactly when it is below 10^k, so ten bytes hold every file size |
| CText.SizeFieldRoundTrip | FT_protocoll/server.c:142-154 | for every earlier content of the print buffer and every size a C int can hold, the ten bytes in front of any later bytes decode to the size if it is below 10^9 or no digit comes next; otherwise their digits name at least 10^10, which no C int holds |
| CBuffers.Strcat | PRACTICA2/client.c:198 | in place, the C string in the buffer grows by exactly the text |
| CBuffers.Strcpy | PRACTICA2/server.c:130 | the target holds the source's C string, and bytes past its NUL are kept |
| Tokens.StrtokTakesWord | PRACTICA2/server.c:131 | leading delimiters are skipped, a delimiter-free word is taken whole, one delimiter after it is consumed |
| Tokens.StrtokNothing | PRACTICA2/server.c:131 | where only delimiters are left there is no token, and none later |
| Tokens.TokensOfLines | PRACTICA2/client.c:268-280 | tokenising with CR and LF gives back any list of printed lines, in order |
| Tokens.TokenOfLines | PRACTICA2/server.c:185-196 | on printed lines call number k of strtok returns word number k, and nothing once the words are used up |
| Tokens.Tokenizer.NextToken | PRACTICA2/server.c:185-196 | the in-place tokeniser with its saved position returns what the pure one does, leaves what it will scan next, and changes nothing before its old position |
| SendLoops.SendAccumulating | HTTPS/server.c:207-211 | whatever the partial writes, all bytes go out once and in order |
| SendLoops.SendAssigning | FT_protocoll/server.c:169-174 | with whole writes the assigning loop sends the bytes once |
| SendLoops.PartialStaysPartial | PRACTICA2/server.c:314-319 | after a partial first write every later result is positive and short, for ever |
| SendLoops.AssigningLoopEndsIffFirstWriteWhole | FT_protocoll/server.c:169-174 | the assigning loop ends if and only if its first write is whole, and then has sent the bytes once; otherwise every run of it can go on and none has ended |
| SendLoops.CutReplyRepeats | FT_protocoll/server.c:136-140 | an `Ok` cut after its first byte puts `O` and then `k` for ever on the connection |
| FileTransferProofs.ReaderFollowsLine | FT_protocoll/server.c:103-111 | each byte of name, CR, LF is stored or skipped as the loop does, inside the buffer, and the loop goes on exactly until the LF |
| FileTransferProofs.ReaderFindsName | FT_protocoll/server.c:111-116 | the path buffer, as a C string, is then the name |
| FileTransferProofs.NameStepKeepsInv | FT_protocoll/server.c:103-118 | a name read never meets a closed connection and leads to the right one of the two replies |
| FileTransferProofs.SizeDecodes | FT_protocoll/client.c:98-103 | the field read into a zeroed buffer decodes to the file's size |
| FileTransferProofs.ServerKeepsInv | FT_protocoll/server.c:93-192 | every server step keeps the joint invariant of both processes and channels and never reads end of file |
| FileTransferProofs.ClientKeepsInv | FT_protocoll/client.c:83-137 | so does every client step; the two-byte and ten-byte reads take exactly their message although later bytes may be behind it |
| FileTransferProofs.ServerStepsDown | FT_protocoll/server.c:93-192 | every server step lowers the measure of phases left, bytes unsent and bytes in flight |
| FileTransferProofs.ClientStepsDown | FT_protocoll/client.c:83-137 | every client step lowers the same measure |
| FileTransferProofs.NeverBlocked | FT_protocoll/server.c:103-192 | in every state of a run that is not finished some step is enabled |
| FileTransferProofs.InvHoldsAfter | FT_protocoll/server.c:93-192 | the invariant holds after every schedule, whose length the measure bounds |
| FileTransferProofs.TransferIsSafe | FT_protocoll/client.c:106-136 | in every interleaving saved bytes, bytes in flight and unsent bytes make up the file; the client never counts past the size, stops exactly at it, and no data read takes the server's `Bye` |
| FileTransferProofs.TransferEnds | FT_protocoll/server.c:103-192 | no run deadlocks or goes on for ever: runs have a bounded length, and nothing is left to do exactly when both sides have closed with the file saved, or the missing file refused, and each side has read exactly the other's messages |
| FileTransferProofs.EveryVisitorIsServed | FT_protocoll/server.c:83-193 | over a whole server life, with the print buffer handed from connection to connection, every client gets the file it named or is refused |
| FileTransferTranscript.WholeConversation | FT_protocoll/client.c:80-136 | in every interleaving of a run to its end the client writes exactly the name, CRLF, "Ok" and "Bye", and the server exactly "Ok", the ten bytes that announce the size, the file and "Bye"; for a missing file they write the name with CRLF, and "NO" |
| TransferLoops.ReadFileName | FT_protocoll/server.c:96-111 | the loop over its buffers ends in the reader state and stream position of its byte-by-byte specification, for every stream that does not overrun the path buffer |
| TransferLoops.NameLoopReadsExactlyTheLine | FT_protocoll/server.c:103-113 | for every name of at most 251 bytes without CR, LF and NUL it takes name and CRLF, no later byte, and rebuilds the name |
| TransferLoops.NameLoopEndings | FT_protocoll/server.c:103-111 | a name of at most 250 bytes is rebuilt also when its line ends in a bare LF, in a CR and any other byte, or with the stream, and nothing behind that is taken |
| TransferLoops.SendSizeField | FT_protocoll/server.c:146-154 | the reused buffer is overwritten by digits and NUL and its first ten bytes go out |
| TransferLoops.SendWholeFile | FT_protocoll/server.c:163-175 | for every sequence of short file reads the file goes out once and in order |
| TransferLoops.SkipBytes | PRACTICA2/server.c:300-306 | the skip loop leaves the file at the first byte, or at its end |
| TransferLoops.SendCounted | PRACTICA2/server.c:308-323 | the chunk loop ends and sends at most the count from where the file stands, for any short reads |
| TransferLoops.SendFileWindow | PRACTICA2/server.c:271-325 | `sendFile` emits the size field in mode 0 and then, byte by byte, the file from the first byte on, as many bytes as were asked for or as there are, a count of 0 standing for the size |
| TransferLoops.ReceiveFile | PRACTICA2/client.c:294-305 | saved bytes and bytes left are the bytes that were to come; the loop stops with at least the total, less than one buffer past it, or at the end |
| CommandSessionProofs.PartExcess | PRACTICA2/server.c:189-203 | for a range inside the file, 0 <= lo < hi <= S, the server sends min(lo, S-hi) bytes more than the client stops at, so the ends agree if and only if lo is 0 or hi is S |
| CommandSessionProofs.WantIsSent | PRACTICA2/client.c:283-296 | for any two numbers the client has room for, the second not negative, the server sends as many bytes as the client waits for if and only if the part ends inside the file, or is empty (or, with a negative first byte, the server reads the second number 0 as the whole file and that is enough) |
| CommandSessionFailures.InnerPartLeavesAByte | PRACTICA2/server.c:295-323 | bytes 1 to 3 of "abcd": a run that reaches the prompt with "bc" saved and "d" still on the channel |
| CommandSessionFailures.PartBeyondTheEndHangs | PRACTICA2/client.c:283-296 | bytes 1 to 4 of "ab": a run into a state in which both ends wait for ever |
| CommandSessionProofs.DispatchUndoesPrint | PRACTICA2/server.c:131-217 | for any command that fits the client's buffers, on existing or missing files and with any numbers, the server's tokeniser recovers verb and arguments and takes up exactly that work, spelled out for every branch |
| CommandSessionProofs.PrintedText | PRACTICA2/client.c:195-320 | the bytes of each command: its verb and its arguments, each followed by CR and LF |
| CommandSessionProofs.PartNumbers | PRACTICA2/server.c:199-202 | the two numbers of a part make the server send the window from the first on, as long as both are at most 2147483647; beyond that `atoi` is undefined |
| CommandSessionProofs.UnknownVerb | PRACTICA2/server.c:219-222 | a line with any other verb is ignored |
| CommandSessionProofs.MissingWords | PRACTICA2/server.c:131-217 | a verb without its file name is answered like a missing file; GETFILEPART with fewer than three arguments, or no verb at all, is undefined |
| CommandSessionProofs.MissingFileIsAnswered | PRACTICA2/server.c:207-270 | a command on a missing file puts NO, or FILE NOT FOUND for GETFILESIZE, on the channel, and the server goes back to its commands |
| CommandSessionProofs.CommandArrives | PRACTICA2/server.c:123-130 | one read takes the whole command and nothing else, and the copied C string is the printed text |
| CommandSessionProofs.FieldReads | PRACTICA2/client.c:239-241 | in front of the never-cleared client buffer the field is decoded to the size if it is below 10^9 or the next byte is no digit, and otherwise names at least 10^10, which no C int holds; it is shown as its digits if and only if the size is below 10^9 or the next byte is NUL |
| CommandSessionProofs.ReadFieldStep | PRACTICA2/client.c:239-241 | in every reachable state the ten-byte read takes exactly the size field, although data may be behind it, and the client goes on to receive that many bytes, or, with a ten-digit size and a digit in byte ten of its buffer, is past an undefined `atoi` |
| CommandSessionProofs.MoveKeepsInv | PRACTICA2/server.c:118-224 | every step of either side, in every interleaving, keeps the session invariant |
| CommandSessionProofs.MoveStepsDown | PRACTICA2/client.c:193-326 | every step lowers the session's measure |
| CommandSessionProofs.SomeoneCanMove | PRACTICA2/client.c:193-326 | in every state of a session some side can move, unless the script is done, its last command hangs, or its last size was misread |
| CommandSessionProofs.WhatHangs | PRACTICA2/client.c:294-305 | only a part with fewer bytes than the client waits for can hang |
| CommandSessionProofs.SettledIsClean | PRACTICA2/client.c:294-305 | after a command, everything is right and both channels are empty if and only if the command was not a disagreeing part or a ten-digit size shown with old bytes behind it; an empty part has the right result |
| CommandSessionProofs.InvHoldsAfter | PRACTICA2/server.c:118-224 | the invariant holds after every sequence of moves, whose length the measure bounds |
| CommandSessionProofs.SameRun | PRACTICA2/client.c:193-326 | a run up to the prompt after i commands is a run of those i commands alone, so `SessionAtPrompt` holds in every script up to the prompt after the first command whose ends disagree |
| CommandSessionProofs.SessionAtPrompt | PRACTICA2/client.c:228-320 | for every interleaving of a script in which only the last command may be one whose ends disagree, at each prompt all results are the files, parts and sizes asked for and both channels are empty, exactly when the last command's ends agree; saved bytes, channel and unsent bytes always make up what the server set out to send |
| CommandSessionProofs.SessionEnds | PRACTICA2/client.c:193-326 | no session runs for ever; where it can go no further it is done, hangs at a last part, or has misread the ten-digit size of a last file; unless misread it is done if and only if the last command is not a part the server has too few bytes for |
| CommandSessionProofs.FileArrivesIff | PRACTICA2/client.c:238-261 | from any state in which the client waits for the size of the script's last file, every run that goes on till it can go no further has saved the file, with all results right and nothing left over, if its size has at most nine digits or byte ten of the client's buffer is no digit; otherwise every such run ends past an undefined `atoi` |
| CommandSessionFailures.OldDigitIsLeft | PRACTICA2/client.c:239-254 | from a zeroed buffer, a first file of eleven bytes ending in a digit, read in one piece, leaves that digit in byte ten while the client waits for the second file's size |
| CommandSessionFailures.OldDigitSpoilsSize | PRACTICA2/client.c:239-254 | however that run goes on, a second file of 10^9 bytes or more is misread and a smaller one is saved |
| CommandLine.BuildCommand | PRACTICA2/client.c:195-198 | bzero and the chain of strcat leave the printed command in the 50-byte buffer |
| CommandLine.ParseCommand | PRACTICA2/server.c:129-217 | the copy to `temp` and one strtok call an argument pick the work the specification picks, for every received text |
| EmailMatcher.ScanIsSound | P3/sslserver.c:222-254 | what the matcher reports is a true occurrence: the text there is the key |
| EmailMatcher.AnchoredIffNotHidden | P3/sslserver.c:225-253 | as long as all occurrences were hidden, the matcher starts a fresh attempt exactly at the places that are not hidden: those up to which no proper prefix of the key runs that starts at a place not itself hidden |
| EmailMatcher.FoundIff | P3/sslserver.c:222-254 | the matcher reports a place if and only if it is the first occurrence that is not hidden, a condition on the text alone |
| EmailMatcher.SearchSucceedsIff | P3/sslserver.c:222-254 | the search succeeds if and only if some occurrence of the key is not hidden |
| EmailMatcher.FirstOccurrenceFoundIff | P3/sslserver.c:225-253 | the very first occurrence is found if and only if it is not hidden |
| EmailMatcher.FoundAfterOtherByte | P3/sslserver.c:249-254 | it is found at the start of the text or after any byte that cannot end a partial match |
| EmailMatcher.FoundAtStartOrAfterSlash | P3/sslserver.c:222-254 | the first `emailAddress=` is found at the start of a subject line or behind a slash |
| EmailMatcher.HiddenByOneLetter | P3/sslserver.c:249-253 | an `e` in front of `emailAddress=` makes the search fail although the key is there |
| EmailMatcher.FindKey | P3/sslserver.c:222-233 | the two-cursor loop stops on the last byte of the specified occurrence, or finds nothing exactly when there is none to be found |
| EmailMatcher.CopiedAsCString | P3/sslserver.c:245-247 | on a NUL-terminated text the destination as a C string is everything from 13 bytes behind the start of the first `emailAddress=` that is not hidden |
| EmailMatcher.ParseEmail | P3/sslserver.c:208-258 | 1 exactly when neither pointer is NULL and the text has an `emailAddress=` that is not hidden, and then the destination is the bytes from 13 behind the start of the first such one through `src[srcSize]`, and zeros; on -1 the destination is unchanged |
| HttpsServer.ReadRequest | HTTPS/server.c:40-52 | the byte-at-a-time loop keeps and leaves what its specification says, for every stream |
| HttpsServer.ReadsToFirstBlankLine | HTTPS/server.c:41-52 | with a first blank line at i, exactly the bytes before i are kept and exactly those after it are left |
| HttpsServer.ReadsAllWithoutBlankLine | HTTPS/server.c:41-52 | a stream without one is kept whole |
| HttpsServer.ReadsUpToBlankLine | HTTPS/server.c:40-52 | for every stream, NULs and all: the bytes taken, without their NULs, are the text kept and a blank line, the first there is, whose LF is the last byte taken; or they are the whole stream and have none |
| HttpsServer.GetReceivesRoute | HTTPS/server.c:56-77 | after GET, with any spaces, tabs and backspaces between the words, doGet receives exactly the route unless the third token is exactly HTTP, which is refused |
| HttpsServer.OtherVerbs | HTTPS/server.c:79-82 | any other first word is refused with `Unkown command` and a blank line |
| HttpsServer.MissingRoute | HTTPS/server.c:59-63 | GET with nothing behind it is refused with `ERROR ( Acces Route )` and a blank line |
| HttpsServer.MissingThirdWord | HTTPS/server.c:67-69 | GET with a route and nothing behind it hands NULL to `strcmp` |
| HttpsServer.SendLine | HTTPS/server.c:220-233 | the line goes out once whatever the partial writes, and its length is returned |
| HttpsServer.SendBody | HTTPS/server.c:203-212 | the file goes out once whatever the chunks and partial writes |
| HttpsServer.DoGet | HTTPS/server.c:159-218 | the bytes sent are the response of the specification, for both kinds of route and with or without the file; what that holds is `HttpsReplies.ResponseIsRight` |
| HttpsServer.StartProtocol | HTTPS/server.c:29-88 | a request is answered by the reply to its text, which is `HttpsReplies.ReplyIsRight`, and nothing after it is consumed |
| HttpsReplies.BlankLineEndsHeaders | HTTPS/server.c:171-202 | the first blank line of a response is the one after its last header line |
| HttpsReplies.ResponseIsRight | HTTPS/server.c:171-217 | cut at its first blank line, what is sent for /download is the 200 line, the disposition of test.zip and the length, and then the file; for every other route the 240 line and the content type, and then the page; with the file missing one more line, NOT_FOUND file, and no body (sections 3 and 3.3 of RFC 7230) |
| HttpsReplies.ReplyIsRight | HTTPS/server.c:29-88 | a complaint goes out as it is, and a chosen route gets its right answer |
| HttpsReplies.GetIsRead | HTTPS/server.c:29-88 | a GET for any route with any header lines and a blank line is taken to its last byte and no further, and its route chosen, unless the version is just HTTP and nothing follows it |
| HttpsReplies.GetIsServed | HTTPS/server.c:29-218 | end to end: such a GET, for whatever route, gets the right answer for its route |
| HttpsReplies.LengthIsRightBelow4G | HTTPS/server.c:179-181 | the printed Content-Length is the body's length if and only if that is below 2^32 (section 3.3.2 of RFC 7230) |
| LineServer.ReadTCPLine4 | P1/tcp.c:149-171 | for every stream and limit: the count is of the bytes before the first LF or NUL, or the limit; that byte, or the one at the limit, is taken too; the bytes taken are stored and the rest of the buffer is left alone |
| LineServer.LineInStream | P1/tcp.c:157-168 | a line of at most 253 bytes is stored with its LF, counted without it, and nothing behind it is taken |
| LineServer.SendTCPLine4 | P1/tcp.c:173-185 | it delivers exactly the prefix it counts, and the whole buffer exactly when no write fails |
| LineServer.HeaderLoop | P1/server.c:78-91 | the loop over its buffers ends in the first line and stream position of its specification |
| LineServer.HeaderEndsAtBlankLine | P1/server.c:81-91 | it takes exactly the lines through the first blank one, bare LF or CRLF, and keeps the first line |
| LineServer.HeaderEndsWithStream | P1/server.c:81-91 | a stream that ends without a blank line is taken whole, also with a last line cut short, and its first line is kept |
| LineServer.ExtractName | P1/server.c:98-112 | strcpy, walk and cut in place leave the name between the fifth byte and the next space, or index.html for an empty one |
| LineServer.NameAfterFive | P1/server.c:99-112 | whatever the first five bytes are, the name is what stands between them and the next space, or index.html if that is nothing |
| LineServer.SendBody | P1/server.c:149-151 | when no write fails the body sent is the file, whatever the short reads |
| LineServer.Respond | P1/server.c:117-152 | when no write fails the found or the 404 response goes out whole; what those hold is `LineServerReplies.FoundIsRight` and `LineServerReplies.MissingIsRight` |
| LineServer.ClientProccess | P1/server.c:61-159 | a request is read through its blank line and answered with the answer to it, which is `LineServerReplies.AnswerIsRight` |
| LineServerReplies.FoundIsRight | P1/server.c:132-151 | the reply for a file ends in the whole file, and what precedes it is the 200 line, the disposition with the name, and the length as 32 bits hold it |
| LineServerReplies.HeadersTokenise | P1/server.c:132-144 | for a name without line ends those header lines can be told apart again |
| LineServerReplies.MissingIsRight | P1/server.c:121-128 | the reply for a missing file, cut at its first blank line, is the 404 line and the page |
| LineServerReplies.AnswerIsRight | P1/server.c:98-152 | every request the handler can answer gets the right one of the two for the name in its first line |
| LineServerReplies.GetIsAnswered | P1/server.c:61-159 | end to end: a request with a name between its fifth byte and the next space, any further header lines and a blank line, bare LF or CRLF, meets the demands of the handler, is taken to its last byte and no further, and gets the right reply for that name, or for index.html if it is empty |

## Left out

- Sockets, accept loops, fork, threads, sleeps, TLS and certificates: operating system and library calls.
- PRACTICA2 `PING`, `FILELIST`, host discovery: user interface and directory listing; the dispatch treats those words as unknown.
- PRACTICA2 missing files: their replies are in the state machine, but the session theorem is about existing ones, because "NO" and "FILE NOT FOUND" are not framed like the other replies.
- PRACTICA2 commands on which the C code passes NULL to `strcmp` or `atoi`, or a negative count to `read`: undefined behaviour, one state without successors; so the session theorems ask for parts whose second number is not negative.
- PRACTICA2 files of 2^31 bytes or more: their size does not fit the C `int` it is kept in.
- CommandSessionProofs.SessionAtPrompt: says nothing of the commands after the first one whose ends disagree, whose part is empty or whose size has ten digits; from there on replies and commands can run into each other.
- CommandSessionProofs.SessionEnds: likewise is about scripts in which only the last command may be such a one.
- CommandSessionProofs.FileArrivesIff: says nothing of what follows a misread size, because `atoi` is undefined on it; the model has one state without successors for it.
- FT_protocoll client failing to open its output file: it leaves without a farewell, and the server's next write is a signal.
- FT_protocoll names longer than 251 bytes and P1 lines longer than 253: they overrun the C buffers.
- LineServer.ExtractName: asks for a space from the fifth byte of the first line on, and so does LineServer.ClientProccess; without one the C walk leaves the buffer.
- HTTPS/server.c:134 hands `start_protocol` the plain socket number where it takes an `SSL*`; the model is of `start_protocol` on a proper stream.
- HTTPS requests with too few tokens for `strcmp`, and failing TLS writes: undefined, and an unsigned wrap of the counter.
- LineServer.Respond: says nothing of what a client sees after a failed write, because the code ignores the failure and goes on sending.
- TransferLoops.SendFileWindow: asks for whole writes, because the assigning loop inside does not end otherwise.
- P3 `Servlet` and its client, UDPFileTransfer, Tarea2, File_Transfer: library behaviour, undeclared names, and a weaker form of FT_protocoll.
- Debug output, `gets`, `malloc` sizes.
