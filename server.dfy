/** The server side of the protocol (Server.java): the command-line parser that fills the
    `port` and `debug` fields, and the handling of one accepted connection: split the
    request line, dispatch on READ / WRITE, resolve and check the byte range, stream the
    range in buffer-sized chunks while counting progress in 10% steps, or receive an
    upload into a new file. */
module FileServer {
  import opened Prelude
  import opened JavaText
  import opened Transfer

  const DEFAULT_PORT: int := 7583

  const OK: string := "OK"
  const INVALID_COMMAND: string := "ERROR: Invalid command"
  const FILE_NOT_FOUND: string := "ERROR: File not found"
  const INVALID_RANGE_ARGUMENTS: string := "ERROR: Invalid byte range arguments"
  const INVALID_RANGE: string := "ERROR: Invalid byte range"
  const FILE_EXISTS: string := "ERROR: File already exists"

  // ---------------------------------------------------------------------------
  // Command line: [DEBUG=1] [-p PORT]

  datatype ServerConfig = ServerConfig(port: int, debug: bool)

  const DEFAULT_CONFIG: ServerConfig := ServerConfig(DEFAULT_PORT, false)

  /** The verdict and the fields after parseArguments' token loop has run over `args`,
      starting from the fields `cfg`. Tokens are compared lower-cased; a port is read
      with Integer.parseInt from the token after `-p`, exactly as written. */
  function ScanServerArgs(args: seq<string>, cfg: ServerConfig): (bool, ServerConfig)
    decreases |args|
  {
    if args == [] then (true, cfg)
    else
      var arg := ToLower(args[0]);
      if arg == "debug=1" then ScanServerArgs(args[1..], cfg.(debug := true))
      else if arg == "-p" then
        if |args| >= 2 then
          match ParseInt(args[1])
          case None => (false, cfg)
          case Some(p) => ScanServerArgs(args[2..], cfg.(port := p))
        else (false, cfg)
      else (false, cfg)
  }

  /** The configuration the server starts with, or None when it prints its usage instead. */
  function ServerArguments(args: seq<string>): Option<ServerConfig> {
    var (ok, cfg) := ScanServerArgs(args, DEFAULT_CONFIG);
    if ok then Some(cfg) else None
  }

  class Server {
    var port: int
    var debug: bool

    constructor ()
      ensures port == DEFAULT_PORT && !debug
    {
      port := DEFAULT_PORT;
      debug := false;
    }

    function Config(): ServerConfig
      reads this
    {
      ServerConfig(port, debug)
    }

    /** Server.parseArguments: assigns `debug` and `port` token by token and answers
        whether the arguments were acceptable. */
    method ParseArguments(args: seq<string>) returns (ok: bool)
      modifies this
      ensures (ok, Config()) == ScanServerArgs(args, old(Config()))
    {
      var i := 0;
      while i < |args|
        invariant 0 <= i <= |args|
        invariant ScanServerArgs(args[i..], Config()) == ScanServerArgs(args, old(Config()))
      {
        var rest := args[i..];
        var arg := ToLower(args[i]);
        if arg == "debug=1" {
          debug := true;
          assert rest[1..] == args[i + 1..];
        } else if arg == "-p" {
          if i + 1 < |args| {
            i := i + 1;
            match ParseInt(args[i]) {
              case None =>
                return false;
              case Some(p) =>
                port := p;
                assert rest[1] == args[i] && rest[2..] == args[i + 1..];
            }
          } else {
            return false;
          }
        } else {
          return false;
        }
        i := i + 1;
      }
      return true;
    }
  }

  lemma {:induction false} ScanServerArgsAppend(a: seq<string>, b: seq<string>, cfg: ServerConfig)
    requires ScanServerArgs(a, cfg).0
    ensures ScanServerArgs(a + b, cfg) == ScanServerArgs(b, ScanServerArgs(a, cfg).1)
    decreases |a|
  {
    if a == [] {
      assert a + b == b;
    } else {
      var arg := ToLower(a[0]);
      assert (a + b)[0] == a[0];
      if arg == "debug=1" {
        assert (a + b)[1..] == a[1..] + b;
        ScanServerArgsAppend(a[1..], b, cfg.(debug := true));
      } else {
        assert (a + b)[1] == a[1];
        assert (a + b)[2..] == a[2..] + b;
        ScanServerArgsAppend(a[2..], b, cfg.(port := ParseInt(a[1]).value));
      }
    }
  }

  /** With no arguments the server listens on port 7583 without debug output. */
  lemma ServerArgumentsDefault()
    ensures ServerArguments([]) == Some(ServerConfig(7583, false))
  {
  }

  /** `DEBUG=1`, in any letter case, turns debug output on. */
  lemma ServerArgumentsDebug(a: seq<string>, t: string)
    requires ServerArguments(a).Some?
    requires ToLower(t) == "debug=1"
    ensures ServerArguments(a + [t]) == Some(ServerArguments(a).value.(debug := true))
  {
    ScanServerArgsAppend(a, [t], DEFAULT_CONFIG);
  }

  /** `-p N` sets the port to N when N is an int, and rejects the arguments otherwise,
      whatever follows. */
  lemma ServerArgumentsPort(a: seq<string>, t: string, n: string, b: seq<string>)
    requires ServerArguments(a).Some?
    requires ToLower(t) == "-p"
    ensures ParseInt(n).Some? ==>
      ServerArguments(a + [t, n]) == Some(ServerArguments(a).value.(port := ParseInt(n).value))
    ensures ParseInt(n).None? ==> ServerArguments(a + [t, n] + b) == None
  {
    ScanServerArgsAppend(a, [t, n], DEFAULT_CONFIG);
    ScanServerArgsAppend(a, [t, n] + b, DEFAULT_CONFIG);
    assert a + [t, n] + b == a + ([t, n] + b);
  }

  /** A `-p` with nothing after it, or any token other than `debug=1` and `-p`, makes the
      parse fail, whatever follows. */
  lemma ServerArgumentsRejects(a: seq<string>, t: string, b: seq<string>)
    requires ServerArguments(a).Some?
    requires ToLower(t) != "debug=1"
    ensures ToLower(t) == "-p" ==> ServerArguments(a + [t]) == None
    ensures ToLower(t) != "-p" ==> ServerArguments(a + [t] + b) == None
  {
    ScanServerArgsAppend(a, [t], DEFAULT_CONFIG);
    ScanServerArgsAppend(a, [t] + b, DEFAULT_CONFIG);
    assert a + [t] + b == a + ([t] + b);
  }

  // ---------------------------------------------------------------------------
  // Byte range of a READ request

  datatype RangeResolution = Resolved(start: int, end: int) | MalformedArguments | InvalidRange

  /** The text after `-s` when token 2 carries it. */
  function StartArgument(tokens: seq<string>): Option<string> {
    if |tokens| >= 3 && StartsWith(tokens[2], "-s") then Some(tokens[2][2..]) else None
  }

  /** The text after `-e` when token 3 carries it. */
  function EndArgument(tokens: seq<string>): Option<string> {
    if |tokens| >= 4 && StartsWith(tokens[3], "-e") then Some(tokens[3][2..]) else None
  }

  function LongOr(arg: Option<string>, default: int): Option<int> {
    match arg
    case None => Some(default)
    case Some(a) => ParseLong(a)
  }

  /** An inclusive, non-empty range of byte offsets inside a file of `fileSize` bytes. */
  predicate ValidRange(start: int, end: int, fileSize: int) {
    0 <= start <= end < fileSize
  }

  /** The range a READ asks for: start defaults to 0 and end to the last byte; either
      argument present but not a long makes the arguments malformed; a range that does
      not lie inside the file is invalid. */
  function ByteRange(tokens: seq<string>, fileSize: int): RangeResolution {
    var start := LongOr(StartArgument(tokens), 0);
    var end := LongOr(EndArgument(tokens), fileSize - 1);
    if start.None? || end.None? then MalformedArguments
    else if ValidRange(start.value, end.value, fileSize) then Resolved(start.value, end.value)
    else InvalidRange
  }

  /** The range logic of handleReadRequest: defaults, the positional `-s` / `-e` tokens,
      then the bounds check. */
  method ResolveByteRange(tokens: seq<string>, fileSize: int) returns (r: RangeResolution)
    ensures r == ByteRange(tokens, fileSize)
  {
    var startByte := 0;
    var endByte := fileSize - 1;
    if |tokens| >= 3 {
      if StartsWith(tokens[2], "-s") {
        match ParseLong(tokens[2][2..]) {
          case None => return MalformedArguments;
          case Some(v) => startByte := v;
        }
      }
      if |tokens| >= 4 && StartsWith(tokens[3], "-e") {
        match ParseLong(tokens[3][2..]) {
          case None => return MalformedArguments;
          case Some(v) => endByte := v;
        }
      }
    }
    if startByte < 0 || endByte >= fileSize || startByte > endByte {
      return InvalidRange;
    }
    return Resolved(startByte, endByte);
  }

  /** An accepted range sends between 1 and fileSize bytes; so a file of 0 bytes is never
      sent, whatever the request says. */
  lemma ByteRangeBounds(tokens: seq<string>, fileSize: int)
    ensures ByteRange(tokens, fileSize).Resolved? ==>
      var r := ByteRange(tokens, fileSize);
      0 <= r.start && r.end < fileSize && 1 <= r.end - r.start + 1 <= fileSize
    ensures fileSize <= 0 ==> !ByteRange(tokens, fileSize).Resolved?
  {
  }

  // ---------------------------------------------------------------------------
  // Sending a range, with progress in 10% steps

  /** `(sent * 100) / total`, the integer percentage the send loop computes. */
  function Percent(sent: int, total: int): int {
    if total > 0 then (sent * 100) / total else 0
  }

  /** The progress values 10, 20, ..., 10 * k. */
  function TensUpTo(k: nat): seq<int>
    decreases k
  {
    if k == 0 then [] else TensUpTo(k - 1) + [10 * k]
  }

  /** The progress values are the multiples of 10 from 10 up to 10 * k, strictly
      increasing, so none repeats. */
  lemma {:induction false} TensUpToShape(k: nat)
    ensures |TensUpTo(k)| == k
    ensures forall i :: 0 <= i < k ==> TensUpTo(k)[i] == 10 * (i + 1)
    ensures forall i, j :: 0 <= i < j < k ==> TensUpTo(k)[i] < TensUpTo(k)[j]
    decreases k
  {
    if k > 0 {
      TensUpToShape(k - 1);
    }
  }

  lemma MulCancel(d: int, x: int, y: int)
    requires d > 0 && d * x < d * y
    ensures x < y
  {
  }

  lemma DivMonotone(a: int, b: int, d: int)
    requires 0 <= a <= b && d > 0
    ensures a / d <= b / d
  {
    var qa, qb := a / d, b / d;
    assert d * qa <= a;
    assert b < d * qb + d;
    assert d * qb + d == d * (qb + 1);
    MulCancel(d, qa, qb + 1);
  }

  lemma PercentMonotone(a: int, b: int, total: int)
    requires 0 <= a <= b
    ensures Percent(a, total) <= Percent(b, total)
  {
    if total > 0 {
      DivMonotone(a * 100, b * 100, total);
    }
  }

  lemma PercentFull(total: int)
    requires total > 0
    ensures Percent(total, total) == 100
  {
    assert total * 100 == total * 100 + 0;
  }

  lemma SameTen(low: int, p: int)
    requires low % 10 == 0 && low <= p < low + 10
    ensures low / 10 == p / 10
  {
  }

  /** How many bytes the send loop sends: what is asked for, unless the source ends first. */
  function SendCount(source: Bytes, bytesToSend: int): nat {
    if bytesToSend <= 0 then 0 else Min(bytesToSend, |source|)
  }

  /** One pass of the send loop after a whole number of buffers: the read returns the
      next chunk, which extends the chunking, and afterwards either a whole number of
      buffers has been sent or the loop has sent all it will. */
  lemma SendStep(source: Bytes, total: nat, bytesToSend: int)
    requires total < |source| && total < bytesToSend && total % BUFFER_SIZE == 0
    ensures var n := FileRead(source, total, Min(BUFFER_SIZE, bytesToSend - total));
      && 0 < n && total + n <= |source| && total + n <= bytesToSend
      && Chunked(source[..total + n]) == Chunked(source[..total]) + [source[total..total + n]]
      && ((total + n) % BUFFER_SIZE == 0 || total + n == SendCount(source, bytesToSend))
  {
    var n := FileRead(source, total, Min(BUFFER_SIZE, bytesToSend - total));
    assert source[..total + n] == source[..total] + source[total..total + n];
    ChunkedExtend(source[..total], source[total..total + n]);
  }

  /** The progress report after a chunk: every multiple of 10 passed since the last
      report is reported once, in order. */
  method ReportProgress(last: int, current: int, progress: seq<int>) returns (newLast: int, newProgress: seq<int>)
    requires 0 <= last && last % 10 == 0 && last <= current
    requires progress == TensUpTo(last / 10)
    ensures newLast % 10 == 0 && last <= newLast <= current < newLast + 10
    ensures newProgress == TensUpTo(newLast / 10)
  {
    newLast, newProgress := last, progress;
    if current >= newLast + 10 {
      while newLast + 10 <= current
        invariant newLast % 10 == 0
        invariant last <= newLast <= current
        invariant newProgress == TensUpTo(newLast / 10)
      {
        newLast := newLast + 10;
        newProgress := newProgress + [newLast];
      }
    }
  }

  /** The send loop of handleReadRequest, reading from `source` (the file after skipping to
      the start byte). Each read asks for at most min(BUFFER_SIZE, bytesToSend - sent);
      after each chunk the percentage sent is recomputed and every multiple of 10 it has
      passed is reported once. */
  method SendRange(source: Bytes, bytesToSend: int) returns (chunks: seq<Bytes>, progress: seq<int>)
    ensures chunks == Chunked(source[..SendCount(source, bytesToSend)])
    ensures progress == TensUpTo(Percent(SendCount(source, bytesToSend), bytesToSend) / 10)
  {
    chunks, progress := [], [];
    var totalBytesSent := 0;
    var lastReportedPercentage := 0;
    while totalBytesSent < bytesToSend
      invariant 0 <= totalBytesSent <= |source|
      invariant totalBytesSent == 0 || totalBytesSent <= bytesToSend
      invariant totalBytesSent % BUFFER_SIZE == 0 || totalBytesSent == SendCount(source, bytesToSend)
      invariant chunks == Chunked(source[..totalBytesSent])
      invariant 0 <= lastReportedPercentage && lastReportedPercentage % 10 == 0
      invariant lastReportedPercentage <= Percent(totalBytesSent, bytesToSend) < lastReportedPercentage + 10
      invariant progress == TensUpTo(lastReportedPercentage / 10)
      decreases bytesToSend - totalBytesSent
    {
      var bytesRead := FileRead(source, totalBytesSent, Min(BUFFER_SIZE, bytesToSend - totalBytesSent));
      if bytesRead == -1 {
        break;
      }
      SendStep(source, totalBytesSent, bytesToSend);
      chunks := chunks + [source[totalBytesSent..totalBytesSent + bytesRead]];
      var before := totalBytesSent;
      totalBytesSent := totalBytesSent + bytesRead;
      PercentMonotone(before, totalBytesSent, bytesToSend);
      var currentPercentage := (totalBytesSent * 100) / bytesToSend;
      assert currentPercentage == Percent(totalBytesSent, bytesToSend);
      lastReportedPercentage, progress := ReportProgress(lastReportedPercentage, currentPercentage, progress);
    }
    SameTen(lastReportedPercentage, Percent(totalBytesSent, bytesToSend));
  }

  /** What the send loop sends is a prefix of the source, in order, cut into chunks of at
      most one buffer; it never sends more than asked for, and stops short only when the
      source ends. */
  lemma SendCountSound(source: Bytes, bytesToSend: int)
    ensures var n := SendCount(source, bytesToSend);
      && source[..n] <= source
      && (bytesToSend > 0 ==> n <= bytesToSend && (n == bytesToSend || n == |source|))
      && (bytesToSend <= 0 ==> n == 0)
      && Flatten(Chunked(source[..n])) == source[..n]
      && (forall k :: 0 <= k < |Chunked(source[..n])| ==> 0 < |Chunked(source[..n])[k]| <= BUFFER_SIZE)
  {
    ChunkedSound(source[..SendCount(source, bytesToSend)]);
  }

  /** The reported percentages are multiples of 10, strictly increasing, none above the
      percentage actually sent; when everything was sent the last one is 100. */
  lemma ProgressSound(sent: nat, total: int)
    requires sent <= total
    ensures var p := TensUpTo(Percent(sent, total) / 10);
      && (forall i :: 0 <= i < |p| ==> p[i] % 10 == 0 && 10 <= p[i] <= Percent(sent, total))
      && (forall i, j :: 0 <= i < j < |p| ==> p[i] < p[j])
      && (sent == total && total > 0 ==> |p| == 10 && p[9] == 100)
  {
    var pc := Percent(sent, total);
    PercentMonotone(0, sent, total);
    var k := pc / 10;
    assert 10 * k <= pc;
    TensUpToShape(k);
    var p := TensUpTo(k);
    forall i | 0 <= i < |p|
      ensures p[i] % 10 == 0 && 10 <= p[i] <= pc
    {
      assert p[i] == 10 * (i + 1) && i + 1 <= k;
    }
    if sent == total && total > 0 {
      PercentFull(total);
    }
  }

  // ---------------------------------------------------------------------------
  // One connection

  /** What the server's socket delivers on one connection: the request line, then the
      8-byte length if the peer sent one (None: the stream ended first), then the raw
      bytes as successive reads return them. */
  datatype Connection = Connection(request: string, length: Option<int>, chunks: seq<Bytes>)

  /** Everything one connection produces: the frames written back, the server's files
      afterwards and the progress percentages reported. */
  datatype Session = Session(out: seq<Frame>, files: FileMap, progress: seq<int>)

  /** handleReadRequest: a missing file, a malformed or invalid range each give one ERROR
      line; otherwise OK, the length, and the range in buffer-sized chunks, with progress
      reported up to 100%. */
  function ReadReply(fileName: string, tokens: seq<string>, files: FileMap): Session {
    if fileName !in files then Session([Utf(FILE_NOT_FOUND)], files, [])
    else
      match ByteRange(tokens, |files[fileName]|)
      case MalformedArguments => Session([Utf(INVALID_RANGE_ARGUMENTS)], files, [])
      case InvalidRange => Session([Utf(INVALID_RANGE)], files, [])
      case Resolved(s, e) =>
        Session([Utf(OK), Long(e - s + 1)] + RawFrames(Chunked(files[fileName][s..e + 1])), files, TensUpTo(10))
  }

  /** handleWriteRequest: an existing file gives one ERROR line and nothing is read;
      otherwise OK, and when a length arrives the file is created from what the receive
      loop takes. If the stream ends before the length, readLong throws and no file is
      created. */
  function WriteReply(fileName: string, length: Option<int>, chunks: seq<Bytes>, files: FileMap): Session {
    if fileName in files then Session([Utf(FILE_EXISTS)], files, [])
    else
      match length
      case None => Session([Utf(OK)], files, [])
      case Some(n) => Session([Utf(OK)], files[fileName := Received(chunks, n)], [])
  }

  /** The body of the accept loop for one connection: fewer than two tokens throws before
      anything is written; otherwise the command is matched case-sensitively. */
  function Serve(conn: Connection, files: FileMap): Session {
    var tokens := Split(conn.request);
    if |tokens| < 2 then Session([], files, [])
    else if tokens[0] == "READ" then ReadReply(tokens[1], tokens, files)
    else if tokens[0] == "WRITE" then WriteReply(tokens[1], conn.length, conn.chunks, files)
    else Session([Utf(INVALID_COMMAND)], files, [])
  }

  /** After skipping to the start byte the file still holds the whole range, so the send
      loop sends all of it and reports progress up to 100%. */
  lemma SendWholeRange(file: Bytes, startByte: int, endByte: int)
    requires 0 <= startByte <= endByte < |file|
    ensures var bytesToSend := endByte - startByte + 1;
      && SendCount(file[startByte..], bytesToSend) == bytesToSend
      && file[startByte..][..bytesToSend] == file[startByte..endByte + 1]
      && Percent(bytesToSend, bytesToSend) / 10 == 10
  {
    PercentFull(endByte - startByte + 1);
  }

  method HandleRead(fileName: string, tokens: seq<string>, files: FileMap)
    returns (out: seq<Frame>, progress: seq<int>)
    ensures Session(out, files, progress) == ReadReply(fileName, tokens, files)
  {
    progress := [];
    if fileName !in files {
      out := [Utf(FILE_NOT_FOUND)];
      return;
    }
    var file := files[fileName];
    var fileSize := |file|;
    var range := ResolveByteRange(tokens, fileSize);
    match range {
      case MalformedArguments =>
        out := [Utf(INVALID_RANGE_ARGUMENTS)];
      case InvalidRange =>
        out := [Utf(INVALID_RANGE)];
      case Resolved(startByte, endByte) =>
        out := [Utf(OK)];
        var source := file[startByte..];
        var bytesToSend := endByte - startByte + 1;
        out := out + [Long(bytesToSend)];
        var chunks;
        chunks, progress := SendRange(source, bytesToSend);
        SendWholeRange(file, startByte, endByte);
        out := out + RawFrames(chunks);
    }
  }

  method HandleWrite(fileName: string, length: Option<int>, chunks: seq<Bytes>, files: FileMap)
    returns (out: seq<Frame>, newFiles: FileMap)
    ensures Session(out, newFiles, []) == WriteReply(fileName, length, chunks, files)
  {
    if fileName in files {
      out, newFiles := [Utf(FILE_EXISTS)], files;
      return;
    }
    out := [Utf(OK)];
    match length {
      case None =>
        newFiles := files;
      case Some(fileSize) =>
        var data := ReceiveStream(chunks, fileSize);
        newFiles := files[fileName := data];
    }
  }

  /** runServer's handling of one accepted connection (the accept loop around it is not
      modelled). */
  method ServeConnection(conn: Connection, files: FileMap)
    returns (out: seq<Frame>, newFiles: FileMap, progress: seq<int>)
    ensures Session(out, newFiles, progress) == Serve(conn, files)
  {
    var tokens := Split(conn.request);
    out, newFiles, progress := [], files, [];
    if |tokens| < 2 {
      return;
    }
    var command := tokens[0];
    var fileName := tokens[1];
    if command == "READ" {
      out, progress := HandleRead(fileName, tokens, files);
    } else if command == "WRITE" {
      out, newFiles := HandleWrite(fileName, conn.length, conn.chunks, files);
    } else {
      out := [Utf(INVALID_COMMAND)];
    }
  }

  // ---------------------------------------------------------------------------
  // What one connection can produce

  lemma ErrorLines()
    ensures StartsWith(INVALID_COMMAND, "ERROR") && StartsWith(FILE_NOT_FOUND, "ERROR")
    ensures StartsWith(INVALID_RANGE_ARGUMENTS, "ERROR") && StartsWith(INVALID_RANGE, "ERROR")
    ensures StartsWith(FILE_EXISTS, "ERROR") && !StartsWith(OK, "ERROR")
  {
    assert INVALID_COMMAND[..5] == "ERROR";
    assert FILE_NOT_FOUND[..5] == "ERROR";
    assert INVALID_RANGE_ARGUMENTS[..5] == "ERROR";
    assert INVALID_RANGE[..5] == "ERROR";
    assert FILE_EXISTS[..5] == "ERROR";
  }

  /** The frames of a reply are in protocol order: one status line; after an ERROR line
      nothing; after OK on a read, the length and then the raw chunks (each non-empty and
      at most one buffer) carrying exactly that many bytes, with progress up to 100%; after
      OK on a write nothing more. Only an accepted write changes the files. */
  predicate WellFormedReply(s: Session, files: FileMap) {
    && (s.out != [] ==> s.out[0].Utf?)
    && (s.out != [] && s.out[0] != Utf(OK) ==>
          |s.out| == 1 && StartsWith(s.out[0].text, "ERROR") && s.files == files && s.progress == [])
    && (|s.out| > 1 ==>
          s.out[0] == Utf(OK) && s.out[1].Long? && 1 <= s.out[1].value
          && |Payload(s.out[2..])| == s.out[1].value
          && (forall k :: 2 <= k < |s.out| ==> s.out[k].Raw? && 0 < |s.out[k].bytes| <= BUFFER_SIZE)
          && s.files == files && s.progress == TensUpTo(10))
    && (s.files != files ==> s.out == [Utf(OK)] && s.progress == [])
  }

  lemma ReadReplyWellFormed(fileName: string, tokens: seq<string>, files: FileMap)
    ensures WellFormedReply(ReadReply(fileName, tokens, files), files)
    ensures var r := ReadReply(fileName, tokens, files);
      && r.files == files && r.out != [] && r.out[0].Utf?
      && (|r.out| == 1 ==> StartsWith(r.out[0].text, "ERROR"))
      && (r.out[0] == Utf(OK) ==> |r.out| >= 2)
  {
    ErrorLines();
    if fileName in files {
      var f := files[fileName];
      match ByteRange(tokens, |f|)
      case Resolved(st, e) =>
        var range := f[st..e + 1];
        var out := ReadReply(fileName, tokens, files).out;
        ChunkedSound(range);
        PayloadOfRaw(Chunked(range));
        assert out[2..] == RawFrames(Chunked(range));
      case MalformedArguments =>
      case InvalidRange =>
    }
  }

  /** Whatever the request, the reply is well formed, and it is empty exactly when the
      request line has fewer than two tokens. */
  lemma ServeReplyShape(conn: Connection, files: FileMap)
    ensures Serve(conn, files).out == [] <==> |Split(conn.request)| < 2
    ensures WellFormedReply(Serve(conn, files), files)
  {
    ErrorLines();
    var tokens := Split(conn.request);
    if |tokens| >= 2 && tokens[0] == "READ" {
      ReadReplyWellFormed(tokens[1], tokens, files);
    }
  }

  /** A WRITE for a new name answers OK and stores what the receive loop took; when the
      stream carries exactly the declared number of bytes, that is the file, byte for byte. */
  lemma ServeWriteStores(conn: Connection, files: FileMap)
    requires |Split(conn.request)| >= 2 && Split(conn.request)[0] == "WRITE"
    requires Split(conn.request)[1] !in files
    requires conn.length.Some? && |Flatten(conn.chunks)| == conn.length.value
    ensures Serve(conn, files) == Session([Utf(OK)], files[Split(conn.request)[1] := Flatten(conn.chunks)], [])
  {
    ReceivedAll(conn.chunks, conn.length.value);
  }

  /** A WRITE for an existing name is refused with one ERROR line, reads nothing from the
      connection and leaves the file as it was. */
  lemma ServeWriteExisting(conn: Connection, files: FileMap)
    requires |Split(conn.request)| >= 2 && Split(conn.request)[0] == "WRITE"
    requires Split(conn.request)[1] in files
    ensures Serve(conn, files) == Session([Utf(FILE_EXISTS)], files, [])
    ensures forall length, chunks :: Serve(conn.(length := length, chunks := chunks), files) == Serve(conn, files)
  {
  }

  /** Commands are case-sensitive: anything but READ and WRITE gets one ERROR line. */
  lemma ServeInvalidCommand(conn: Connection, files: FileMap)
    requires |Split(conn.request)| >= 2
    requires Split(conn.request)[0] != "READ" && Split(conn.request)[0] != "WRITE"
    ensures Serve(conn, files) == Session([Utf(INVALID_COMMAND)], files, [])
  {
  }
}
