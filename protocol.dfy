/** The two programs together: the request line the client builds is the one the server
    reads back, a READ delivers exactly the requested range into the client's file, a
    WRITE stores exactly the client's file on the server, and the error paths leave both
    sides' files as they were. The byte stream between them may be regrouped into any
    sequence of socket reads. */
module Protocol {
  import opened Prelude
  import opened JavaText
  import opened Transfer
  import opened FileServer
  import opened FileClient

  /** The first byte the server is asked for: 0 when no start was given. */
  function RequestedStart(startByte: int, endByte: int): int {
    var start := NormalizedStart(startByte, endByte);
    if start == -1 then 0 else start
  }

  /** The last byte the server is asked for: the file's last byte when no end was given. */
  function RequestedEnd(endByte: int, fileSize: int): int {
    if endByte == -1 then fileSize - 1 else endByte
  }

  lemma FlagToken(flag: string, n: int)
    requires flag == "-s" || flag == "-e"
    ensures IsToken(flag + LongToString(n))
    ensures StartsWith(flag + LongToString(n), flag)
    ensures (flag + LongToString(n))[2..] == LongToString(n)
  {
    var v := LongToString(n);
    var t := flag + v;
    LongToStringIsToken(n);
    forall i | 0 <= i < |t|
      ensures t[i] != ' '
    {
      if i >= 2 {
        assert t[i] == v[i - 2];
      }
    }
    assert t[..2] == flag;
  }

  /** Every token of a request line is a non-empty word without spaces, so the server's
      split gives the tokens back. */
  lemma SplitRequest(isWrite: bool, fileName: string, startByte: int, endByte: int)
    requires IsToken(fileName)
    ensures Split(EncodeRequest(isWrite, fileName, startByte, endByte))
         == RequestTokens(isWrite, fileName, startByte, endByte)
  {
    var start := NormalizedStart(startByte, endByte);
    var tokens := RequestTokens(isWrite, fileName, startByte, endByte);
    FlagToken("-s", start);
    FlagToken("-e", endByte);
    assert IsToken(if isWrite then "WRITE" else "READ");
    assert forall k :: 0 <= k < |tokens| ==> IsToken(tokens[k]);
    EncodeRequestJoinsTokens(isWrite, fileName, startByte, endByte);
    SplitJoin(tokens);
  }

  /** The range tokens of a request read back as the range the client meant. */
  lemma RequestTokensRange(isWrite: bool, fileName: string, startByte: int, endByte: int, fileSize: int)
    requires IsLong(startByte) && IsLong(endByte)
    ensures var tokens := RequestTokens(isWrite, fileName, startByte, endByte);
      && LongOr(StartArgument(tokens), 0) == Some(RequestedStart(startByte, endByte))
      && LongOr(EndArgument(tokens), fileSize - 1) == Some(RequestedEnd(endByte, fileSize))
  {
    var start := NormalizedStart(startByte, endByte);
    var tokens := RequestTokens(isWrite, fileName, startByte, endByte);
    FlagToken("-s", start);
    FlagToken("-e", endByte);
    if start != -1 {
      LongToStringRoundTrip(start);
      assert tokens[2] == "-s" + LongToString(start);
    }
    if endByte != -1 {
      LongToStringRoundTrip(endByte);
      assert tokens[3] == "-e" + LongToString(endByte);
    }
  }

  /** The server splits the client's request line back into the command, the file name
      and the range the client meant; the start and end tokens always parse. This needs
      a file name without spaces, which the server could not tell apart otherwise. */
  lemma RequestRoundTrip(isWrite: bool, fileName: string, startByte: int, endByte: int, fileSize: int)
    requires IsToken(fileName) && IsLong(startByte) && IsLong(endByte)
    ensures var tokens := Split(EncodeRequest(isWrite, fileName, startByte, endByte));
      && tokens == RequestTokens(isWrite, fileName, startByte, endByte)
      && |tokens| >= 2
      && tokens[0] == (if isWrite then "WRITE" else "READ")
      && tokens[1] == fileName
      && LongOr(StartArgument(tokens), 0) == Some(RequestedStart(startByte, endByte))
      && LongOr(EndArgument(tokens), fileSize - 1) == Some(RequestedEnd(endByte, fileSize))
  {
    SplitRequest(isWrite, fileName, startByte, endByte);
    RequestTokensRange(isWrite, fileName, startByte, endByte, fileSize);
  }

  /** A range the client asks for is never malformed on the server: it is served exactly
      when it lies inside the file, and refused as an invalid range otherwise. */
  lemma ClientRangeResolves(fileName: string, startByte: int, endByte: int, fileSize: int)
    requires IsToken(fileName) && IsLong(startByte) && IsLong(endByte)
    ensures var tokens := Split(EncodeRequest(false, fileName, startByte, endByte));
      var s, e := RequestedStart(startByte, endByte), RequestedEnd(endByte, fileSize);
      && |tokens| >= 2 && tokens[0] == "READ" && tokens[1] == fileName
      && ByteRange(tokens, fileSize) == if ValidRange(s, e, fileSize) then Resolved(s, e) else InvalidRange
  {
    RequestRoundTrip(false, fileName, startByte, endByte, fileSize);
  }

  /** An accepted range is answered with OK, its length and its bytes, nothing else. */
  lemma ResolvedReadReply(fileName: string, tokens: seq<string>, files: FileMap, s: int, e: int)
    requires fileName in files && ByteRange(tokens, |files[fileName]|) == Resolved(s, e)
    ensures 0 <= s <= e < |files[fileName]|
    ensures var reply := ReadReply(fileName, tokens, files);
      && reply == Session([Utf(OK), Long(e - s + 1)] + RawFrames(Chunked(files[fileName][s..e + 1])), files, TensUpTo(10))
      && Payload(reply.out[2..]) == files[fileName][s..e + 1]
  {
    var range := files[fileName][s..e + 1];
    var out := ReadReply(fileName, tokens, files).out;
    assert out[2..] == RawFrames(Chunked(range));
    PayloadOfRaw(Chunked(range));
    ChunkedSound(range);
  }

  /** What the client expects back for a READ, read off the request it meant rather than
      the line it sent: FILE_NOT_FOUND for a missing file, INVALID_RANGE for a range
      outside it, and otherwise OK, the range's length and the range in buffer-sized
      chunks, with progress up to 100%. */
  function ExpectedRead(fileName: string, startByte: int, endByte: int, files: FileMap): Session {
    if fileName !in files then Session([Utf(FILE_NOT_FOUND)], files, [])
    else
      var f := files[fileName];
      var s, e := RequestedStart(startByte, endByte), RequestedEnd(endByte, |f|);
      if !ValidRange(s, e, |f|) then Session([Utf(INVALID_RANGE)], files, [])
      else Session([Utf(OK), Long(e - s + 1)] + RawFrames(Chunked(f[s..e + 1])), files, TensUpTo(10))
  }

  /** A request line that splits into the client's tokens is answered as the client
      expects. */
  lemma ReadTokensServed(request: string, fileName: string, startByte: int, endByte: int, files: FileMap)
    requires IsLong(startByte) && IsLong(endByte)
    requires Split(request) == RequestTokens(false, fileName, startByte, endByte)
    ensures Serve(Connection(request, None, []), files) == ExpectedRead(fileName, startByte, endByte, files)
  {
    var tokens := Split(request);
    var size := if fileName in files then |files[fileName]| else 0;
    RequestTokensRange(false, fileName, startByte, endByte, size);
    assert tokens[0] == "READ" && tokens[1] == fileName;
    ServeRead(Connection(request, None, []), files);
    ReadReplyExpected(fileName, tokens, startByte, endByte, files);
  }

  lemma ServeRead(conn: Connection, files: FileMap)
    requires |Split(conn.request)| >= 2 && Split(conn.request)[0] == "READ"
    ensures Serve(conn, files) == ReadReply(Split(conn.request)[1], Split(conn.request), files)
  {
  }

  lemma ServeWrite(conn: Connection, files: FileMap)
    requires |Split(conn.request)| >= 2 && Split(conn.request)[0] == "WRITE"
    ensures Serve(conn, files) == WriteReply(Split(conn.request)[1], conn.length, conn.chunks, files)
  {
  }

  lemma ReadReplyExpected(fileName: string, tokens: seq<string>, startByte: int, endByte: int, files: FileMap)
    requires fileName in files ==>
      && LongOr(StartArgument(tokens), 0) == Some(RequestedStart(startByte, endByte))
      && LongOr(EndArgument(tokens), |files[fileName]| - 1) == Some(RequestedEnd(endByte, |files[fileName]|))
    ensures ReadReply(fileName, tokens, files) == ExpectedRead(fileName, startByte, endByte, files)
  {
  }

  /** The server answers the line the client sent exactly as the client expects. */
  lemma ReadReplyToClient(fileName: string, startByte: int, endByte: int, files: FileMap)
    requires IsToken(fileName) && IsLong(startByte) && IsLong(endByte)
    ensures Serve(Connection(EncodeRequest(false, fileName, startByte, endByte), None, []), files)
         == ExpectedRead(fileName, startByte, endByte, files)
  {
    SplitRequest(false, fileName, startByte, endByte);
    ReadTokensServed(EncodeRequest(false, fileName, startByte, endByte), fileName, startByte, endByte, files);
  }

  /** An expected OK carries exactly the range's bytes, and nothing else changes. */
  lemma ExpectedReadPayload(fileName: string, startByte: int, endByte: int, files: FileMap)
    ensures ExpectedRead(fileName, startByte, endByte, files).files == files
    ensures fileName in files
         && ValidRange(RequestedStart(startByte, endByte), RequestedEnd(endByte, |files[fileName]|), |files[fileName]|)
         ==> var out := ExpectedRead(fileName, startByte, endByte, files).out;
             |out| >= 2 && out[0] == Utf(OK)
             && Payload(out[2..]) == files[fileName][RequestedStart(startByte, endByte)..RequestedEnd(endByte, |files[fileName]|) + 1]
  {
    if fileName in files {
      var f := files[fileName];
      var s, e := RequestedStart(startByte, endByte), RequestedEnd(endByte, |f|);
      if ValidRange(s, e, |f|) {
        var out := ExpectedRead(fileName, startByte, endByte, files).out;
        assert out[2..] == RawFrames(Chunked(f[s..e + 1]));
        PayloadOfRaw(Chunked(f[s..e + 1]));
        ChunkedSound(f[s..e + 1]);
      }
    }
  }

  /** A download: whatever regrouping of the server's bytes the client's socket reads
      see, the client's file ends up holding exactly the requested range, byte for byte. */
  lemma DownloadDeliversRange(fileName: string, startByte: int, endByte: int, files: FileMap,
                              chunks: seq<Bytes>, local: FileMap)
    requires IsToken(fileName) && IsLong(startByte) && IsLong(endByte)
    requires fileName in files
    requires ValidRange(RequestedStart(startByte, endByte), RequestedEnd(endByte, |files[fileName]|), |files[fileName]|)
    requires Flatten(chunks)
          == files[fileName][RequestedStart(startByte, endByte)..RequestedEnd(endByte, |files[fileName]|) + 1]
    ensures var request := EncodeRequest(false, fileName, startByte, endByte);
      var reply := Serve(Connection(request, None, []), files);
      && |reply.out| >= 2 && reply.out[0].Utf? && reply.out[1].Long?
      && Payload(reply.out[2..]) == Flatten(chunks)
      && ClientSession(false, fileName, startByte, endByte,
                       Reply(Some(reply.out[0].text), Some(reply.out[1].value), chunks), local)
         == ([Utf(request)], local[fileName := Flatten(chunks)])
  {
    ReadReplyToClient(fileName, startByte, endByte, files);
    ExpectedReadPayload(fileName, startByte, endByte, files);
    ErrorLines();
    ReceivedAll(chunks, |Flatten(chunks)|);
  }

  /** An upload of an existing local file to a new name: the client sends the request,
      the file's length and then the file; whatever regrouping the server's socket reads
      see, the server answers OK and stores exactly the client's file. */
  lemma UploadStoresFile(fileName: string, startByte: int, endByte: int, local: FileMap,
                         files: FileMap, chunks: seq<Bytes>)
    requires IsToken(fileName) && IsLong(startByte) && IsLong(endByte)
    requires fileName in local && fileName !in files
    requires Flatten(chunks) == local[fileName]
    ensures var request := EncodeRequest(true, fileName, startByte, endByte);
      var reply := Serve(Connection(request, Some(|local[fileName]|), chunks), files);
      var sent := ClientSession(true, fileName, startByte, endByte, Reply(Some(OK), None, []), local);
      && reply == Session([Utf(OK)], files[fileName := local[fileName]], [])
      && sent.1 == local
      && |sent.0| >= 2 && sent.0[0] == Utf(request) && sent.0[1] == Long(|local[fileName]|)
      && Payload(sent.0[2..]) == local[fileName]
  {
    var data := local[fileName];
    SplitRequest(true, fileName, startByte, endByte);
    ServeWrite(Connection(EncodeRequest(true, fileName, startByte, endByte), Some(|data|), chunks), files);
    ErrorLines();
    ReceivedAll(chunks, |data|);
    var sent := ClientSession(true, fileName, startByte, endByte, Reply(Some(OK), None, []), local).0;
    assert sent[2..] == RawFrames(Chunked(data));
    PayloadOfRaw(Chunked(data));
    ChunkedSound(data);
  }

  /** Uploading a file and reading it back by name gives the same bytes, except for an
      empty file: its default range is 0..-1, which the server refuses. */
  lemma UploadThenDownload(fileName: string, data: Bytes, files: FileMap, chunks: seq<Bytes>)
    requires IsToken(fileName) && fileName !in files
    requires Flatten(chunks) == data
    ensures var stored := Serve(Connection(EncodeRequest(true, fileName, -1, -1), Some(|data|), chunks), files);
      var back := Serve(Connection(EncodeRequest(false, fileName, -1, -1), None, []), stored.files);
      && stored.files == files[fileName := data]
      && (|data| > 0 ==>
            |back.out| >= 2 && back.out[0] == Utf(OK) && back.out[1] == Long(|data|)
            && Payload(back.out[2..]) == data)
      && (|data| == 0 ==> back.out == [Utf(INVALID_RANGE)])
  {
    var local := map[fileName := data];
    UploadStoresFile(fileName, -1, -1, local, files, chunks);
    var after := files[fileName := data];
    ReadReplyToClient(fileName, -1, -1, after);
    ExpectedReadPayload(fileName, -1, -1, after);
    assert data[0..|data|] == data;
  }

  /** A WRITE whose local file is missing: the client sends only the request and closes,
      so the server's readLong meets the end of the stream and no file is created. */
  lemma UploadMissingLocalFile(fileName: string, startByte: int, endByte: int, local: FileMap, files: FileMap)
    requires IsToken(fileName) && IsLong(startByte) && IsLong(endByte)
    requires fileName !in local && fileName !in files
    ensures var request := EncodeRequest(true, fileName, startByte, endByte);
      && ClientSession(true, fileName, startByte, endByte, Reply(Some(OK), None, []), local) == ([Utf(request)], local)
      && Serve(Connection(request, None, []), files) == Session([Utf(OK)], files, [])
  {
    RequestRoundTrip(true, fileName, startByte, endByte, 0);
    ErrorLines();
    assert [Utf(EncodeRequest(true, fileName, startByte, endByte))] + [] == [Utf(EncodeRequest(true, fileName, startByte, endByte))];
  }

  /** A WRITE to a name the server already has: the server answers FILE_EXISTS and reads
      nothing, and the client, seeing an ERROR status, sends nothing after its request;
      neither side's files change. */
  lemma UploadExistingRejected(fileName: string, startByte: int, endByte: int, length: Option<int>,
                               chunks: seq<Bytes>, files: FileMap, local: FileMap)
    requires IsToken(fileName) && IsLong(startByte) && IsLong(endByte)
    requires fileName in files
    ensures var request := EncodeRequest(true, fileName, startByte, endByte);
      var reply := Serve(Connection(request, length, chunks), files);
      && reply == Session([Utf(FILE_EXISTS)], files, [])
      && ClientSession(true, fileName, startByte, endByte, Reply(Some(reply.out[0].text), None, []), local)
         == ([Utf(request)], local)
  {
    RequestRoundTrip(true, fileName, startByte, endByte, 0);
    ErrorLines();
  }

  /** A READ the server refuses gets a single ERROR line; the client recognises it and
      leaves its files untouched, whatever else arrives on the connection. */
  lemma DownloadRefusedKeepsLocal(fileName: string, startByte: int, endByte: int, files: FileMap,
                                  length: Option<int>, chunks: seq<Bytes>, local: FileMap)
    requires IsToken(fileName) && IsLong(startByte) && IsLong(endByte)
    requires fileName !in files
          || !ValidRange(RequestedStart(startByte, endByte), RequestedEnd(endByte, |files[fileName]|), |files[fileName]|)
    ensures var request := EncodeRequest(false, fileName, startByte, endByte);
      var reply := Serve(Connection(request, None, []), files);
      && |reply.out| == 1 && reply.out[0].Utf?
      && StartsWith(reply.out[0].text, "ERROR")
      && ClientSession(false, fileName, startByte, endByte, Reply(Some(reply.out[0].text), length, chunks), local)
         == ([Utf(request)], local)
  {
    ReadReplyToClient(fileName, startByte, endByte, files);
    ErrorLines();
  }

  // ---------------------------------------------------------------------------
  // Concrete exchanges

  /** The client's parser accepts an empty file name, and the line it then sends, "READ ",
      splits into one token: the server closes without a status, the client's readUTF
      meets the end of the stream, and nothing is transferred on either side. */
  lemma EmptyNameUnanswered(length: Option<int>, chunks: seq<Bytes>, files: FileMap,
                            received: Option<int>, data: seq<Bytes>, local: FileMap)
    ensures ClientArguments(["srv", ""]) == Some(ClientConfig("srv", "", false, -1, -1, 7583))
    ensures var request := EncodeRequest(false, "", -1, -1);
      && request == "READ "
      && Serve(Connection(request, length, chunks), files) == Session([], files, [])
      && ClientSession(false, "", -1, -1, Reply(None, received, data), local) == ([Utf(request)], local)
  {
    assert ToLower("srv") == "srv";
    assert ToLower("") == "";
    ClientArgumentsNames("srv", "");
    RequestErrorExamples(files, length, chunks);
  }

  lemma ReportRequest()
    ensures EncodeRequest(false, "report.txt", 0, 9) == "READ report.txt -s0 -e9"
  {
    assert LongToString(0) == "0";
    assert LongToString(9) == "9";
    assert NormalizedStart(0, 9) == 0;
    assert ("READ " + "report.txt") + (" -s" + "0") + (" -e" + "9") == "READ report.txt -s0 -e9";
  }

  /** A range of at most one buffer travels as a single raw write. */
  lemma SingleChunkRead(fileName: string, startByte: int, endByte: int, files: FileMap)
    requires IsToken(fileName) && IsLong(startByte) && IsLong(endByte) && fileName in files
    requires var s := RequestedStart(startByte, endByte);
      var e := RequestedEnd(endByte, |files[fileName]|);
      ValidRange(s, e, |files[fileName]|) && e - s + 1 <= BUFFER_SIZE
    ensures var s := RequestedStart(startByte, endByte);
      var e := RequestedEnd(endByte, |files[fileName]|);
      Serve(Connection(EncodeRequest(false, fileName, startByte, endByte), None, []), files)
      == Session([Utf(OK), Long(e - s + 1), Raw(files[fileName][s..e + 1])], files, TensUpTo(10))
  {
    var f := files[fileName];
    var s, e := RequestedStart(startByte, endByte), RequestedEnd(endByte, |f|);
    var tokens := Split(EncodeRequest(false, fileName, startByte, endByte));
    ClientRangeResolves(fileName, startByte, endByte, |f|);
    ResolvedReadReply(fileName, tokens, files, s, e);
    assert Chunked(f[s..e + 1]) == [f[s..e + 1]];
    assert RawFrames([f[s..e + 1]]) == [Raw(f[s..e + 1])];
  }

  /** `READ report.txt -s0 -e9` on a 100-byte file: OK, the length 10, the first ten
      bytes in one chunk, and progress 10, 20, ..., 100. */
  lemma ReadReportExample(f: Bytes)
    requires |f| == 100
    ensures Serve(Connection("READ report.txt -s0 -e9", None, []), map["report.txt" := f])
         == Session([Utf(OK), Long(10), Raw(f[0..10])], map["report.txt" := f],
                    [10, 20, 30, 40, 50, 60, 70, 80, 90, 100])
  {
    var files := map["report.txt" := f];
    var request := EncodeRequest(false, "report.txt", 0, 9);
    assert IsToken("report.txt");
    assert files["report.txt"] == f;
    assert RequestedStart(0, 9) == 0 && RequestedEnd(9, |f|) == 9;
    SingleChunkRead("report.txt", 0, 9, files);
    TensUpToTen();
    var reply := Session([Utf(OK), Long(10), Raw(f[0..10])], files, [10, 20, 30, 40, 50, 60, 70, 80, 90, 100]);
    assert Serve(Connection(request, None, []), files) == reply;
    ReportRequest();
    assert Connection(request, None, []) == Connection("READ report.txt -s0 -e9", None, []);
  }

  lemma TensUpToTen()
    ensures TensUpTo(10) == [10, 20, 30, 40, 50, 60, 70, 80, 90, 100]
  {
    assert TensUpTo(2) == [10, 20];
    assert TensUpTo(4) == [10, 20, 30, 40];
    assert TensUpTo(6) == [10, 20, 30, 40, 50, 60];
    assert TensUpTo(8) == [10, 20, 30, 40, 50, 60, 70, 80];
  }

  lemma SplitDelete()
    ensures Split("DELETE x") == ["DELETE", "x"]
  {
    JoinSpaceSmall("DELETE", "x", "", "");
    assert JoinSpace(["DELETE", "x"]) == "DELETE x";
    assert IsToken("DELETE") && IsToken("x");
    SplitJoin(["DELETE", "x"]);
  }

  lemma SplitTrailingSpace()
    ensures Split("READ ") == ["READ"]
  {
    assert "READ" + " " + "" == "READ ";
    FieldsOfSpaced("READ", "");
    assert ' ' in "READ " by {
      assert "READ "[4] == ' ';
    }
    assert ["READ", ""][..1] == ["READ"];
  }

  /** An unknown command gets INVALID_COMMAND; a request line with fewer than two tokens
      gets no answer at all, since the server fails before writing, and a trailing space
      does not make a second token. */
  lemma RequestErrorExamples(files: FileMap, length: Option<int>, chunks: seq<Bytes>)
    ensures Serve(Connection("DELETE x", length, chunks), files) == Session([Utf(INVALID_COMMAND)], files, [])
    ensures Serve(Connection("READ", length, chunks), files) == Session([], files, [])
    ensures Serve(Connection("READ ", length, chunks), files) == Session([], files, [])
  {
    SplitDelete();
    SplitTrailingSpace();
    assert ' ' !in "READ";
    ServeInvalidCommand(Connection("DELETE x", length, chunks), files);
  }
}
