/** The client side of the protocol (Client.java): the command-line parser that fills the
    client's fields, the request line built from them, the reaction to the server's status
    line, and the two transfers: upload (length, then the file in buffer-sized chunks) and
    download (length, then the receive loop into the local file). */
module FileClient {
  import opened Prelude
  import opened JavaText
  import opened Transfer

  const DEFAULT_PORT: int := 7583

  // ---------------------------------------------------------------------------
  // Command line: <server-name> <file-name> [-w] [-s START] [-e END] [-p PORT]

  /** The fields parseArguments assigns; None is a Java null, -1 an absent range end. */
  datatype ClientFields = ClientFields(
    serverName: Option<string>, fileName: Option<string>, isWriteOperation: bool,
    startByte: int, endByte: int, port: int)

  const INITIAL_FIELDS: ClientFields := ClientFields(None, None, false, -1, -1, DEFAULT_PORT)

  predicate IsFlag(arg: string) {
    arg == "-w" || arg == "-s" || arg == "-e" || arg == "-p"
  }

  /** The verdict and the fields after parseArguments' while loop has run over `args`.
      Every token is lower-cased before it is matched, and a bare token is stored in its
      lower-cased form. A number that does not parse ends the parse as a failure. */
  function ScanClientArgs(args: seq<string>, st: ClientFields): (bool, ClientFields)
    decreases |args|
  {
    if args == [] then (true, st)
    else
      var arg := ToLower(args[0]);
      if arg == "-w" then ScanClientArgs(args[1..], st.(isWriteOperation := true))
      else if arg == "-s" then
        if |args| < 2 then (false, st)
        else
          match ParseLong(args[1])
          case None => (false, st)
          case Some(v) => ScanClientArgs(args[2..], st.(startByte := v))
      else if arg == "-e" then
        if |args| < 2 then (false, st)
        else
          match ParseLong(args[1])
          case None => (false, st)
          case Some(v) => ScanClientArgs(args[2..], st.(endByte := v))
      else if arg == "-p" then
        if |args| < 2 then (false, st)
        else
          match ParseInt(args[1])
          case None => (false, st)
          case Some(v) => ScanClientArgs(args[2..], st.(port := v))
      else if st.serverName.None? then ScanClientArgs(args[1..], st.(serverName := Some(arg)))
      else if st.fileName.None? then ScanClientArgs(args[1..], st.(fileName := Some(arg)))
      else (false, st)
  }

  /** parseArguments as a whole: fewer than two arguments fail at once; after the loop
      both names must have been given. */
  function ParseClient(args: seq<string>, st: ClientFields): (bool, ClientFields) {
    if |args| < 2 then (false, st)
    else
      var (ok, fields) := ScanClientArgs(args, st);
      (ok && fields.serverName.Some? && fields.fileName.Some?, fields)
  }

  datatype ClientConfig = ClientConfig(
    serverName: string, fileName: string, isWriteOperation: bool,
    startByte: int, endByte: int, port: int)

  /** The configuration the client runs with, or None when it prints its usage instead. */
  function ClientArguments(args: seq<string>): Option<ClientConfig> {
    var (ok, f) := ParseClient(args, INITIAL_FIELDS);
    if ok then Some(ClientConfig(f.serverName.value, f.fileName.value, f.isWriteOperation, f.startByte, f.endByte, f.port))
    else None
  }

  // ---------------------------------------------------------------------------
  // The request line

  /** Only an end byte given: the start becomes 0, so `-e` always follows a `-s`. */
  function NormalizedStart(startByte: int, endByte: int): int {
    if startByte == -1 && endByte != -1 then 0 else startByte
  }

  /** "READ <name>" or "WRITE <name>", then " -s<start>" unless start is -1, then
      " -e<end>" unless end is -1, after the start has been normalised. */
  function EncodeRequest(isWrite: bool, fileName: string, startByte: int, endByte: int): string {
    var start := NormalizedStart(startByte, endByte);
    (if isWrite then "WRITE " else "READ ") + fileName
      + (if start != -1 then " -s" + LongToString(start) else "")
      + (if endByte != -1 then " -e" + LongToString(endByte) else "")
  }

  /** The tokens of a request line, in order. */
  function RequestTokens(isWrite: bool, fileName: string, startByte: int, endByte: int): seq<string> {
    var start := NormalizedStart(startByte, endByte);
    [if isWrite then "WRITE" else "READ", fileName]
      + (if start != -1 then ["-s" + LongToString(start)] else [])
      + (if endByte != -1 then ["-e" + LongToString(endByte)] else [])
  }

  /** An end byte is always sent after a start byte: `-e` is never the third token. */
  lemma EndFollowsStart(isWrite: bool, fileName: string, startByte: int, endByte: int)
    ensures var tokens := RequestTokens(isWrite, fileName, startByte, endByte);
      endByte != -1 ==>
        && |tokens| == 4
        && tokens[2] == "-s" + LongToString(NormalizedStart(startByte, endByte))
        && tokens[3] == "-e" + LongToString(endByte)
  {
  }

  /** The request line is its tokens joined by single spaces. */
  lemma EncodeRequestJoinsTokens(isWrite: bool, fileName: string, startByte: int, endByte: int)
    ensures EncodeRequest(isWrite, fileName, startByte, endByte)
         == JoinSpace(RequestTokens(isWrite, fileName, startByte, endByte))
  {
    var start := NormalizedStart(startByte, endByte);
    var cmd := if isWrite then "WRITE" else "READ";
    var s := "-s" + LongToString(start);
    var e := "-e" + LongToString(endByte);
    JoinSpaceSmall(cmd, fileName, s, e);
    var request := EncodeRequest(isWrite, fileName, startByte, endByte);
    var tokens := RequestTokens(isWrite, fileName, startByte, endByte);
    assert (if isWrite then "WRITE " else "READ ") == cmd + " ";
    if start != -1 && endByte != -1 {
      assert tokens == [cmd, fileName, s, e];
      SpaceBefore(" -s", "-s", LongToString(start));
      SpaceBefore(" -e", "-e", LongToString(endByte));
      assert request == (cmd + " ") + fileName + (" " + s) + (" " + e);
    } else if start != -1 {
      assert tokens == [cmd, fileName, s];
      SpaceBefore(" -s", "-s", LongToString(start));
      assert request == (cmd + " ") + fileName + (" " + s) + "";
    } else {
      assert tokens == [cmd, fileName];
      assert request == (cmd + " ") + fileName + "" + "";
    }
  }

  lemma SpaceBefore(spaced: string, flag: string, value: string)
    requires spaced == " " + flag
    ensures spaced + value == " " + (flag + value)
  {
  }

  // ---------------------------------------------------------------------------
  // Transfers

  /** What uploadFile writes: nothing when the local file is missing; otherwise the
      length prefix, then the file in buffer-sized chunks. */
  function UploadFrames(fileName: string, local: FileMap): seq<Frame> {
    if fileName in local then [Long(|local[fileName]|)] + RawFrames(Chunked(local[fileName]))
    else []
  }

  /** The local files after downloadFile: when no length arrives, readLong throws before
      the file is opened; otherwise the file is created or overwritten with what the
      receive loop takes. */
  function Downloaded(fileName: string, length: Option<int>, chunks: seq<Bytes>, local: FileMap): FileMap {
    match length
    case None => local
    case Some(n) => local[fileName := Received(chunks, n)]
  }

  /** uploadFile: `while ((bytesRead = fileIn.read(buffer)) > 0) write`. */
  method Upload(fileName: string, local: FileMap) returns (out: seq<Frame>)
    ensures out == UploadFrames(fileName, local)
  {
    if fileName !in local {
      return [];
    }
    var data := local[fileName];
    out := [Long(|data|)];
    var pos := 0;
    var bytesRead := FileRead(data, pos, BUFFER_SIZE);
    while bytesRead > 0
      invariant 0 <= pos <= |data|
      invariant bytesRead == FileRead(data, pos, BUFFER_SIZE)
      invariant pos % BUFFER_SIZE == 0 || pos == |data|
      invariant out == [Long(|data|)] + RawFrames(Chunked(data[..pos]))
      decreases |data| - pos
    {
      var chunk := data[pos..pos + bytesRead];
      assert data[..pos + bytesRead] == data[..pos] + chunk;
      ChunkedExtend(data[..pos], chunk);
      out := out + [Raw(chunk)];
      pos := pos + bytesRead;
      bytesRead := FileRead(data, pos, BUFFER_SIZE);
    }
    assert data[..pos] == data;
  }

  /** downloadFile: read the length, then run the receive loop into the local file. */
  method Download(fileName: string, length: Option<int>, chunks: seq<Bytes>, local: FileMap)
    returns (newLocal: FileMap)
    ensures newLocal == Downloaded(fileName, length, chunks, local)
  {
    match length {
      case None =>
        newLocal := local;
      case Some(fileSize) =>
        var data := ReceiveStream(chunks, fileSize);
        newLocal := local[fileName := data];
    }
  }

  /** What the client's socket delivers after it sent its request: the status line if
      one arrives (None when the server closes first, so readUTF throws), then (for a
      download) the length if one arrives and the raw bytes as successive reads return
      them. */
  datatype Reply = Reply(status: Option<string>, length: Option<int>, chunks: seq<Bytes>)

  /** The frames the client writes and its local files afterwards: the request; then
      nothing more if no status arrives or it starts with "ERROR"; otherwise an upload in write mode
      and a download in read mode. */
  function ClientSession(isWrite: bool, fileName: string, startByte: int, endByte: int, reply: Reply, local: FileMap)
    : (seq<Frame>, FileMap)
  {
    var request := [Utf(EncodeRequest(isWrite, fileName, startByte, endByte))];
    if reply.status.None? || StartsWith(reply.status.value, "ERROR") then (request, local)
    else if isWrite then (request + UploadFrames(fileName, local), local)
    else (request, Downloaded(fileName, reply.length, reply.chunks, local))
  }

  class Client {
    var serverName: Option<string>
    var fileName: Option<string>
    var isWriteOperation: bool
    var startByte: int
    var endByte: int
    var port: int

    constructor ()
      ensures Fields() == INITIAL_FIELDS
    {
      serverName, fileName := None, None;
      isWriteOperation := false;
      startByte, endByte := -1, -1;
      port := DEFAULT_PORT;
    }

    function Fields(): ClientFields
      reads this
    {
      ClientFields(serverName, fileName, isWriteOperation, startByte, endByte, port)
    }

    /** Client.parseArguments: assigns the fields token by token and answers whether the
        arguments were acceptable. */
    method ParseArguments(args: seq<string>) returns (ok: bool)
      modifies this
      ensures (ok, Fields()) == ParseClient(args, old(Fields()))
    {
      if |args| < 2 {
        return false;
      }
      var i := 0;
      while i < |args|
        invariant 0 <= i <= |args|
        invariant ScanClientArgs(args[i..], Fields()) == ScanClientArgs(args, old(Fields()))
      {
        var rest := args[i..];
        var arg := ToLower(args[i]);
        assert rest[0] == args[i];
        if arg == "-w" {
          isWriteOperation := true;
          i := i + 1;
          assert rest[1..] == args[i..];
        } else if arg == "-s" || arg == "-e" || arg == "-p" {
          i := i + 1;
          if i < |args| {
            assert rest[1] == args[i] && rest[2..] == args[i + 1..];
            if arg == "-s" {
              match ParseLong(args[i]) {
                case None => return false;
                case Some(v) => startByte := v;
              }
            } else if arg == "-e" {
              match ParseLong(args[i]) {
                case None => return false;
                case Some(v) => endByte := v;
              }
            } else {
              match ParseInt(args[i]) {
                case None => return false;
                case Some(v) => port := v;
              }
            }
            i := i + 1;
          } else {
            return false;
          }
        } else {
          if serverName == None {
            serverName := Some(arg);
          } else if fileName == None {
            fileName := Some(arg);
          } else {
            return false;
          }
          i := i + 1;
          assert rest[1..] == args[i..];
        }
      }
      if serverName == None || fileName == None {
        return false;
      }
      return true;
    }

    /** Client.execute after the connection is open: build and send the request (making
        the start byte 0 when only an end byte was given), read the status, and upload or
        download unless the status is an ERROR. */
    method Execute(reply: Reply, local: FileMap) returns (out: seq<Frame>, newLocal: FileMap)
      requires fileName.Some?
      modifies this`startByte
      ensures startByte == NormalizedStart(old(startByte), endByte)
      ensures (out, newLocal) == ClientSession(isWriteOperation, fileName.value, old(startByte), endByte, reply, local)
    {
      var request := (if isWriteOperation then "WRITE " else "READ ") + fileName.value;
      if startByte == -1 && endByte != -1 {
        startByte := 0;
      }
      if startByte != -1 {
        request := request + (" -s" + LongToString(startByte));
      }
      if endByte != -1 {
        request := request + (" -e" + LongToString(endByte));
      }
      assert request == EncodeRequest(isWriteOperation, fileName.value, old(startByte), endByte);
      out := [Utf(request)];
      newLocal := local;
      if reply.status.None? || StartsWith(reply.status.value, "ERROR") {
        return;
      }
      if isWriteOperation {
        var frames := Upload(fileName.value, local);
        out := out + frames;
      } else {
        newLocal := Download(fileName.value, reply.length, reply.chunks, local);
      }
    }
  }

  // ---------------------------------------------------------------------------
  // What the argument parser accepts

  lemma {:induction false} ScanClientArgsAppend(a: seq<string>, b: seq<string>, st: ClientFields)
    requires ScanClientArgs(a, st).0
    ensures ScanClientArgs(a + b, st) == ScanClientArgs(b, ScanClientArgs(a, st).1)
    decreases |a|
  {
    if a == [] {
      assert a + b == b;
    } else {
      var arg := ToLower(a[0]);
      assert (a + b)[0] == a[0];
      assert (a + b)[1..] == a[1..] + b;
      if arg == "-w" {
        ScanClientArgsAppend(a[1..], b, st.(isWriteOperation := true));
      } else if arg == "-s" || arg == "-e" || arg == "-p" {
        assert (a + b)[1] == a[1];
        assert (a + b)[2..] == a[2..] + b;
        if arg == "-s" {
          ScanClientArgsAppend(a[2..], b, st.(startByte := ParseLong(a[1]).value));
        } else if arg == "-e" {
          ScanClientArgsAppend(a[2..], b, st.(endByte := ParseLong(a[1]).value));
        } else {
          ScanClientArgsAppend(a[2..], b, st.(port := ParseInt(a[1]).value));
        }
      } else if st.serverName.None? {
        ScanClientArgsAppend(a[1..], b, st.(serverName := Some(arg)));
      } else {
        ScanClientArgsAppend(a[1..], b, st.(fileName := Some(arg)));
      }
    }
  }

  /** Setting the write flag earlier or later makes no difference to the rest of the scan. */
  lemma {:induction false} ScanWithWriteFlag(args: seq<string>, st: ClientFields)
    ensures ScanClientArgs(args, st.(isWriteOperation := true))
         == (ScanClientArgs(args, st).0, ScanClientArgs(args, st).1.(isWriteOperation := true))
    decreases |args|
  {
    if args != [] {
      var arg := ToLower(args[0]);
      if arg == "-w" {
        ScanWithWriteFlag(args[1..], st.(isWriteOperation := true));
      } else if arg == "-s" || arg == "-e" || arg == "-p" {
        if |args| >= 2 {
          if arg == "-s" && ParseLong(args[1]).Some? {
            ScanWithWriteFlag(args[2..], st.(startByte := ParseLong(args[1]).value));
          } else if arg == "-e" && ParseLong(args[1]).Some? {
            ScanWithWriteFlag(args[2..], st.(endByte := ParseLong(args[1]).value));
          } else if arg == "-p" && ParseInt(args[1]).Some? {
            ScanWithWriteFlag(args[2..], st.(port := ParseInt(args[1]).value));
          }
        }
      } else if st.serverName.None? {
        ScanWithWriteFlag(args[1..], st.(serverName := Some(arg)));
      } else if st.fileName.None? {
        ScanWithWriteFlag(args[1..], st.(fileName := Some(arg)));
      }
    }
  }

  predicate LowerNames(st: ClientFields) {
    (st.serverName.Some? ==> ToLower(st.serverName.value) == st.serverName.value)
    && (st.fileName.Some? ==> ToLower(st.fileName.value) == st.fileName.value)
  }

  lemma {:induction false} ScanKeepsLowerNames(args: seq<string>, st: ClientFields)
    requires LowerNames(st)
    ensures LowerNames(ScanClientArgs(args, st).1)
    decreases |args|
  {
    if args != [] {
      var arg := ToLower(args[0]);
      ToLowerIdempotent(args[0]);
      if arg == "-w" {
        ScanKeepsLowerNames(args[1..], st.(isWriteOperation := true));
      } else if arg == "-s" || arg == "-e" || arg == "-p" {
        if |args| >= 2 {
          if arg == "-s" && ParseLong(args[1]).Some? {
            ScanKeepsLowerNames(args[2..], st.(startByte := ParseLong(args[1]).value));
          } else if arg == "-e" && ParseLong(args[1]).Some? {
            ScanKeepsLowerNames(args[2..], st.(endByte := ParseLong(args[1]).value));
          } else if arg == "-p" && ParseInt(args[1]).Some? {
            ScanKeepsLowerNames(args[2..], st.(port := ParseInt(args[1]).value));
          }
        }
      } else if st.serverName.None? {
        ScanKeepsLowerNames(args[1..], st.(serverName := Some(arg)));
      } else if st.fileName.None? {
        ScanKeepsLowerNames(args[1..], st.(fileName := Some(arg)));
      }
    }
  }

  /** Fewer than two arguments are always refused. */
  lemma ClientArgumentsTooFew(args: seq<string>)
    requires |args| < 2
    ensures ClientArguments(args) == None
  {
  }

  /** Two bare tokens are the server name and the file name, lower-cased; the defaults
      are read mode, no range (-1, -1) and port 7583. */
  lemma ClientArgumentsNames(server: string, file: string)
    requires !IsFlag(ToLower(server)) && !IsFlag(ToLower(file))
    ensures ClientArguments([server, file])
         == Some(ClientConfig(ToLower(server), ToLower(file), false, -1, -1, 7583))
  {
    var args := [server, file];
    var named := INITIAL_FIELDS.(serverName := Some(ToLower(server)));
    assert args[1..] == [file];
    assert [file][1..] == [];
    assert ScanClientArgs([file], named) == ScanClientArgs([], named.(fileName := Some(ToLower(file))));
    assert ScanClientArgs(args, INITIAL_FIELDS) == ScanClientArgs([file], named);
  }

  /** Every name the client accepts is in lower case, the file name included. */
  lemma ClientArgumentsLowerCase(args: seq<string>)
    requires ClientArguments(args).Some?
    ensures ToLower(ClientArguments(args).value.serverName) == ClientArguments(args).value.serverName
    ensures ToLower(ClientArguments(args).value.fileName) == ClientArguments(args).value.fileName
  {
    ScanKeepsLowerNames(args, INITIAL_FIELDS);
  }

  /** `-w`, in any letter case and at any position between whole options, selects
      write mode and changes nothing else. */
  lemma ClientArgumentsWriteFlag(a: seq<string>, w: string, b: seq<string>)
    requires ScanClientArgs(a, INITIAL_FIELDS).0
    requires ToLower(w) == "-w"
    requires |a + b| >= 2
    ensures ClientArguments(a + [w] + b)
         == match ClientArguments(a + b)
            case None => None
            case Some(c) => Some(c.(isWriteOperation := true))
  {
    var mid := ScanClientArgs(a, INITIAL_FIELDS).1;
    assert a + [w] + b == a + ([w] + b);
    ScanClientArgsAppend(a, [w] + b, INITIAL_FIELDS);
    ScanClientArgsAppend(a, b, INITIAL_FIELDS);
    assert ([w] + b)[0] == w && ([w] + b)[1..] == b;
    ScanWithWriteFlag(b, mid);
  }

  /** `-s`, `-e` and `-p` take the next argument: with none left the parse fails. */
  lemma ClientArgumentsMissingValue(a: seq<string>, t: string)
    requires ScanClientArgs(a, INITIAL_FIELDS).0
    requires ToLower(t) == "-s" || ToLower(t) == "-e" || ToLower(t) == "-p"
    ensures ClientArguments(a + [t]) == None
  {
    ScanClientArgsAppend(a, [t], INITIAL_FIELDS);
  }

  /** The value after `-s` / `-e` is read as a long, the one after `-p` as an int; a value
      that does not parse fails the whole parse, whatever follows. */
  lemma ClientArgumentsValue(a: seq<string>, t: string, v: string, b: seq<string>)
    requires ScanClientArgs(a, INITIAL_FIELDS).0
    requires ToLower(t) == "-s" || ToLower(t) == "-e" || ToLower(t) == "-p"
    ensures var number := if ToLower(t) == "-p" then ParseInt(v) else ParseLong(v);
      number.None? ==> ClientArguments(a + [t, v] + b) == None
    ensures ToLower(t) == "-s" && ParseLong(v).Some? ==>
      ScanClientArgs(a + [t, v], INITIAL_FIELDS)
      == (true, ScanClientArgs(a, INITIAL_FIELDS).1.(startByte := ParseLong(v).value))
    ensures ToLower(t) == "-e" && ParseLong(v).Some? ==>
      ScanClientArgs(a + [t, v], INITIAL_FIELDS)
      == (true, ScanClientArgs(a, INITIAL_FIELDS).1.(endByte := ParseLong(v).value))
    ensures ToLower(t) == "-p" && ParseInt(v).Some? ==>
      ScanClientArgs(a + [t, v], INITIAL_FIELDS)
      == (true, ScanClientArgs(a, INITIAL_FIELDS).1.(port := ParseInt(v).value))
  {
    assert a + [t, v] + b == a + ([t, v] + b);
    ScanClientArgsAppend(a, [t, v] + b, INITIAL_FIELDS);
    ScanClientArgsAppend(a, [t, v], INITIAL_FIELDS);
    assert ([t, v] + b)[1] == v && ([t, v] + b)[2..] == b;
    assert [t, v][2..] == [];
  }

  /** A third bare token is an error, whatever follows. */
  lemma ClientArgumentsExtraName(a: seq<string>, t: string, b: seq<string>)
    requires ClientArguments(a).Some?
    requires !IsFlag(ToLower(t))
    ensures ClientArguments(a + [t] + b) == None
  {
    assert a + [t] + b == a + ([t] + b);
    ScanClientArgsAppend(a, [t] + b, INITIAL_FIELDS);
  }
}
