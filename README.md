# File-transfer protocol: a verified model

This project models a small Java file-transfer system with two programs and proves
properties of the model.

- **Client** (`Client.java`) sends one request per connection:
  - `READ <name>[ -s<start>][ -e<end>]` downloads a byte range of a file;
  - `WRITE <name>` uploads a file.
- **Server** (`Server.java`) answers with one status line, either `OK` or an
  `ERROR: ...` line.
  - After `OK` on a read, it sends an 8-byte length and then the range in 4096-byte
    chunks, reporting its progress in 10% steps.
  - After `OK` on a write, it reads a length and then receives bytes into a new file.

## Layout

- `prelude.dfy`: `Option`.
- `java_text.dfy` (module `JavaText`) covers the Java library behaviour the protocol
  depends on:
  - ASCII `toLowerCase` and `startsWith`;
  - `String.split(" ")`, including its removal of trailing empty fields;
  - `Long.parseLong`, `Integer.parseInt` and `Long.toString`.
- `transfer.dfy` (module `Transfer`) holds what travels over a connection and the loops
  both programs share:
  - each `DataOutputStream` write is a `Frame` (`Utf`, `Long` or `Raw`);
  - a file's chunking into 4096-byte pieces;
  - the receive loop `ReceiveStream`, with its spec function `Received`;
  - the 8-byte big-endian form of a `long`.
- `server.dfy` (module `FileServer`) models the server:
  - class `Server`, whose `ParseArguments` assigns the `port` and `debug` fields;
  - the range resolution;
  - the send loop with its progress reports;
  - the handling of one connection, `ServeConnection`, with its spec function `Serve`.
- `client.dfy` (module `FileClient`) models the client:
  - class `Client`, whose `ParseArguments` assigns all six fields, and whose `Execute`
    normalises `startByte`, builds the request and reacts to the status line;
  - the `Upload` and `Download` loops.
- `protocol.dfy` (module `Protocol`) proves properties of the two programs together.

### Conventions

- **Files.** A file system is a `map<string, seq<byte>>`, where `byte` is 0..255.
- **Connections.** What a socket delivers is explicit input:
  - the server gets a `Connection`: a request line, an optional length, then the chunks
    that successive socket reads return;
  - the client gets a `Reply`: a status line if one arrives (none when the server closes
    first, so the client's `readUTF` fails), an optional length, then the chunks.
  - A missing length means the stream ended before `readLong` completed.
- **Theorems allow regrouping.** The end-to-end lemmas hold for *any* regrouping of the
  byte stream into socket reads, so they do not depend on how TCP delivers the bytes.

### Behaviour the model keeps as written

- **Short requests.** A request line with fewer than two tokens makes the server throw
  before it writes anything, so that connection gets no answer.
- **Case.** The client lower-cases every bare argument, file names included. The server
  matches `READ` and `WRITE` case-sensitively.
- **Upload check.** The client checks that its upload file exists only after the server has
  answered `OK`. It then sends nothing more, and the server's `readLong` meets the end of
  the stream, so no file is created.
- **Overshoot.** Both receive loops take whole socket reads. The bytes kept can therefore
  overshoot the declared length by less than one buffer (`ReceivedOvershoot`).
- **Empty files.** An empty file can be uploaded but never downloaded: by default its
  range is 0..-1, which the server refuses (`UploadThenDownload`).

## Model

| member | source | states |
|---|---|---|
| FileServer.Server.constructor | Server.java:7-9 | a new server starts with port 7583 and debug off |
| FileServer.Server.ParseArguments | Server.java:19-45 | the verdict and the new `port`/`debug` fields are those of the lower-cased token scan `ScanServerArgs` from the old fields |
| FileServer.ScanServerArgsAppend | Server.java:20-44 | an accepted prefix of the arguments can be scanned first and the rest continued from the fields it left |
| FileServer.ServerArgumentsDefault | Server.java:8-9 | no arguments give port 7583 and debug off |
| FileServer.ServerArgumentsDebug | Server.java:24-25 | a `debug=1` token in any case turns debug on and changes nothing else |
| FileServer.ServerArgumentsPort | Server.java:26-34 | `-p N` sets the port to N when N parses as an int; otherwise the parse fails whatever follows |
| FileServer.ServerArgumentsRejects | Server.java:35-42 | `-p` with nothing after it fails; any token other than `debug=1`/`-p` fails whatever follows |
| FileServer.ResolveByteRange | Server.java:89-112 | the locals' step-by-step updates give exactly `ByteRange`: defaults 0 and size-1, positional `-s`/`-e` tokens, malformed numbers, then the bounds check |
| FileServer.ByteRangeBounds | Server.java:109-123 | an accepted range lies inside the file and sends between 1 and fileSize bytes; a 0-byte file is never served |
| FileServer.TensUpToShape | Server.java:139-148 | the progress list has k entries 10, 20, ..., 10k, strictly increasing |
| FileServer.SendStep | Server.java:134-136 | one read after whole buffers returns a non-empty chunk that stays within the source and the requested count, and extends the chunking by that chunk |
| FileServer.ReportProgress | Server.java:142-148 | the inner loop reports every multiple of 10 passed since the last report, once each, and leaves the last report within 10 below the current percentage |
| FileServer.SendRange | Server.java:127-149 | the chunks sent are the buffer-sized chunking of the first min(bytesToSend, available) source bytes; the progress reported is 10, 20, ... up to the final integer percentage |
| FileServer.SendCountSound | Server.java:134-136 | the bytes sent are a prefix of the source in chunks of at most 4096, never more than asked for, short only when the source ends |
| FileServer.ProgressSound | Server.java:139-148 | every report is a multiple of 10 not above the percentage sent, the reports strictly increase, and a complete send ends with 100 |
| FileServer.SendWholeRange | Server.java:120-125 | after skipping to the start byte the whole range is available, so all of it is sent and progress reaches 100% |
| FileServer.HandleRead | Server.java:83-149 | the frames written and progress reported equal `ReadReply`: FILE_NOT_FOUND, one of the two range errors, or OK, the length, then the chunks |
| FileServer.HandleWrite | Server.java:161-188 | the frames and new files equal `WriteReply`: FILE_EXISTS with no read; otherwise OK, and, if a length arrives, a new file holding what the receive loop takes |
| FileServer.ServeConnection | Server.java:59-70 | the frames, new files and progress equal `Serve`: no answer for fewer than two tokens, then dispatch on READ, WRITE or INVALID_COMMAND |
| FileServer.ErrorLines | Server.java:69 | every error reply starts with `ERROR` and `OK` does not |
| FileServer.ReadReplyWellFormed | Server.java:84-149 | a read reply is either one ERROR line, or OK, a length of at least 1, then raw chunks of 1..4096 bytes whose total is that length; a reply of one line is an ERROR, and a READ changes no file |
| FileServer.ServeReplyShape | Server.java:59-73 | every connection's reply is well formed, only an accepted write changes the files, and the reply is empty exactly when the request has fewer than two tokens |
| FileServer.ServeWriteStores | Server.java:164-188 | a WRITE to a new name with a stream carrying exactly the declared length stores exactly those bytes |
| FileServer.ServeWriteExisting | Server.java:164-167 | a WRITE to an existing name gets FILE_EXISTS whatever follows on the connection, so nothing is read |
| FileServer.ServeInvalidCommand | Server.java:64-70 | any command other than READ/WRITE (case-sensitive) gets exactly INVALID_COMMAND |
| FileClient.Client.constructor | Client.java:7-12 | a new client has no names, read mode, range -1/-1 and port 7583 |
| FileClient.Client.ParseArguments | Client.java:22-93 | the verdict and new fields are those of `ParseClient` from the old fields: fewer than two arguments fail, the flag/name scan, then both names required |
| FileClient.ScanClientArgsAppend | Client.java:30-84 | an accepted prefix of the arguments can be scanned first and the rest continued from the fields it left |
| FileClient.ScanWithWriteFlag | Client.java:35-38 | setting the write flag earlier or later does not change the rest of the scan |
| FileClient.ScanKeepsLowerNames | Client.java:32 | names stored by the scan stay lower case |
| FileClient.ClientArgumentsTooFew | Client.java:23-25 | fewer than two arguments are refused |
| FileClient.ClientArgumentsNames | Client.java:71-76 | two bare tokens become the lower-cased server and file names, with read mode, range -1/-1 and port 7583 |
| FileClient.ClientArgumentsLowerCase | Client.java:74-76 | every accepted server and file name is lower case |
| FileClient.ClientArgumentsWriteFlag | Client.java:35-38 | `-w` in any case at any position between whole options selects write mode and changes nothing else |
| FileClient.ClientArgumentsMissingValue | Client.java:39-69 | `-s`, `-e` or `-p` as the last argument fails the parse |
| FileClient.ClientArgumentsValue | Client.java:39-70 | at any position after an accepted prefix of options, the value after `-s`/`-e` is parsed as a long and after `-p` as an int and sets only that field; one that does not parse fails the whole parse |
| FileClient.ClientArgumentsExtraName | Client.java:77-80 | a third bare token fails the parse whatever follows |
| FileClient.EndFollowsStart | Client.java:104-114 | an end byte always comes with a start byte, so a request with `-e` has exactly four tokens |
| FileClient.EncodeRequestJoinsTokens | Client.java:101-114 | the request line is its tokens (command, name, optional `-s`, optional `-e`) joined by single spaces |
| FileClient.Client.Execute | Client.java:101-131 | start becomes 0 when only an end is given; the frames sent and the local files afterwards equal `ClientSession`: the request, then nothing when no status arrives or it is an ERROR, else upload or download |
| FileClient.Upload | Client.java:138-156 | the frames written are nothing for a missing file, else the file's length and then its 4096-byte chunks |
| FileClient.Download | Client.java:159-171 | the local files keep their content if no length arrives, else the file holds what the receive loop takes |
| Transfer.ReceiveStream | Server.java:183-188 | the bytes written are `Received`: whole socket reads, taken while fewer than the declared length have arrived |
| Transfer.ReceivedIsPrefix | Client.java:164-168 | the received bytes are a prefix of the stream, in order |
| Transfer.ReceivedStops | Client.java:165 | the loop stops only once the declared length is reached or the stream has ended |
| Transfer.ReceivedOvershoot | Server.java:185-187 | with reads of 1..4096 bytes the total kept is less than the declared length plus one buffer |
| Transfer.ReceivedAll | Server.java:185-187 | a stream carrying no more than the declared length is kept entirely, byte for byte |
| Transfer.ChunkedSound | Client.java:151-153 | chunking loses and reorders nothing; chunks hold 1..4096 bytes and all but the last are full |
| Transfer.ChunkedExtend | Client.java:151-152 | one more chunk after whole buffers extends the chunking by that chunk |
| Transfer.PayloadOfRaw | Client.java:152 | the raw bytes of the chunk frames are the chunks' concatenation |
| Transfer.BigEndianRoundTrip | Server.java:125 | decoding the big-endian digits of a value that fits the width gives the value |
| Transfer.LongBytesRoundTrip | Server.java:173 | `readLong` of the 8 bytes `writeLong` produced gives the long back |
| JavaText.ToLower | Client.java:32 | lower-casing keeps the length, leaves no upper-case letter, turns each upper-case letter into the same letter in lower case and keeps every other character |
| JavaText.ToLowerIdempotent | Server.java:22 | lower-casing twice is lower-casing once |
| JavaText.SplitJoin | Server.java:60 | splitting a space-joined list of non-empty, space-free tokens gives the list back |
| JavaText.LongToStringRoundTrip | Client.java:110 | parsing a long's decimal text gives the long back |
| JavaText.LongToStringIsToken | Client.java:113 | a long's decimal text is non-empty and has no space |
| Protocol.FlagToken | Client.java:110-113 | `-s`/`-e` followed by a long's text is one token that starts with the flag, and its suffix is the long's text |
| Protocol.SplitRequest | Server.java:60 | the server's split of a client request line gives the client's tokens |
| Protocol.RequestTokensRange | Server.java:94-101 | the range tokens of a client request parse back as the start and end the client meant; absent ones become the server defaults |
| Protocol.RequestRoundTrip | Client.java:101-114 | for a file name without spaces, the server recovers the command, the file name, and the client's start and end (defaults where absent) |
| Protocol.ClientRangeResolves | Server.java:89-112 | a client-built READ is never malformed; it is resolved exactly when the requested range lies in the file, and invalid otherwise |
| Protocol.ResolvedReadReply | Server.java:114-149 | a resolved range is answered by OK, its length and its bytes in chunks, whose raw payload is exactly the range |
| Protocol.ServeRead | Server.java:61-65 | a READ line is handled by the read handler with its second token as the file name |
| Protocol.ServeWrite | Server.java:59-68 | a WRITE line is handled by the write handler with its second token as the file name |
| Protocol.ReadReplyExpected | Server.java:83-112 | when the range tokens parse to the client's range, the read handler's reply is the client's expected reply |
| Protocol.ReadTokensServed | Server.java:59-65 | a request splitting into the client's READ tokens is answered as the client expects |
| Protocol.ReadReplyToClient | Client.java:101-117 | the server answers a client-built READ as `ExpectedRead`: FILE_NOT_FOUND, INVALID_RANGE, or OK, length and range |
| Protocol.ExpectedReadPayload | Server.java:114-136 | an expected OK carries exactly the range's bytes, and a READ changes no file |
| Protocol.DownloadDeliversRange | Client.java:159-168 | under any regrouping of the server's raw payload into socket reads, a download leaves the client's file holding exactly that payload, which is the requested range |
| Protocol.UploadStoresFile | Client.java:138-153 | an upload sends the request, the file's length and its bytes; under any regrouping the server answers OK and stores exactly that file |
| Protocol.UploadThenDownload | Server.java:109-112 | an uploaded file read back with the default range gives the same bytes, except an empty file, which gets INVALID_RANGE |
| Protocol.UploadMissingLocalFile | Client.java:138-143 | a WRITE whose local file is missing sends only the request, and the server creates no file |
| Protocol.UploadExistingRejected | Server.java:164-167 | a WRITE to an existing name gets FILE_EXISTS, and the client then sends nothing and keeps its files |
| Protocol.DownloadRefusedKeepsLocal | Client.java:120-124 | a READ the server refuses gets a single ERROR line; the client recognises it whatever length and chunks follow, and its files stay as they were |
| Protocol.SingleChunkRead | Server.java:134-135 | a range of at most one buffer is sent as a single raw write |
| Protocol.ReportRequest | Client.java:101-114 | the client's request for `report.txt` bytes 0..9 is `READ report.txt -s0 -e9` |
| Protocol.ReadReportExample | Server.java:59-149 | `READ report.txt -s0 -e9` on a 100-byte file gives OK, length 10, the first ten bytes in one chunk, and progress 10..100 |
| Protocol.RequestErrorExamples | Server.java:59-73 | `DELETE x` gets INVALID_COMMAND; `READ` and `READ ` (one token) get no answer |
| Protocol.EmptyNameUnanswered | Client.java:119-123 | the client accepts an empty file name and sends `READ `; the server closes without a status, and the client sends nothing more and keeps its files |

## Left out

- The server's accept loop and sockets (Server.java:48-57, 74-78) and the client's
  connection setup (Client.java:96-98) are network plumbing. Each connection is modelled
  as explicit input (`Connection`, `Reply`) and output (frames).
- `writeUTF`/`readUTF` framing is not modelled: a status or request line is an abstract
  string, so there is no modified UTF-8 encoding and no 65535-byte limit. `writeLong` is
  an abstract `Long` frame; its 8-byte big-endian form is modelled separately, with its
  round trip.
- Console output is not modelled: usage text, error messages and debug logs. Progress
  is a returned list of percentages instead of printed lines.
- `FileServer.SendRange`: `totalBytesSent * 100` is computed on unbounded integers. Java's
  `long` product would overflow only for ranges above about 9.2 * 10^16 bytes.
- `JavaText.ToLower`, `JavaText.ParseDecimal`: only ASCII case folding and ASCII digits
  are modelled. Java also folds other Unicode letters and accepts other Unicode digits.
- `FileClient.Client.ParseArguments`: a `-s`, `-e` or `-p` value that does not parse
  makes Java throw an uncaught `NumberFormatException` out of the constructor. The model
  treats this as a failed parse (`false`).
- File-system calls are modelled on a map from names to contents:
  - `FileInputStream.skip` is taken to skip exactly `start` bytes;
  - `read` on a regular file returns as many bytes as are asked for and remain, or -1 at
    the end.
- The check-then-create race on WRITE is not modelled: it is a file-system concurrency
  issue, and each connection runs against a fixed map.
- Exceptions other than the ones above are not modelled: I/O errors, a peer closing in
  the middle of a frame, and a server `readUTF` failure.
