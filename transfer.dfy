/** What travels over one connection and the two buffer loops both programs share:
    the frames written by DataOutputStream (writeUTF, writeLong, raw writes), the
    4096-byte chunking of a file being sent, the receive loop that fills a file from
    whatever each socket read returns, and the 8-byte big-endian form of a length. */
module Transfer {
  import opened JavaText

  const BUFFER_SIZE: nat := 4096

  /** A Java byte read as unsigned, the value that travels on the wire. */
  newtype byte = b: int | 0 <= b < 256

  type Bytes = seq<byte>

  /** A file system seen as names mapped to contents; `name in files` is File.exists. */
  type FileMap = map<string, Bytes>

  /** One write to a DataOutputStream: writeUTF, writeLong, or write(buffer, 0, n). */
  datatype Frame = Utf(text: string) | Long(value: int) | Raw(bytes: Bytes)

  function Min(a: int, b: int): int {
    if a <= b then a else b
  }

  /** All chunks, in order, as one byte sequence. */
  function Flatten(chunks: seq<Bytes>): Bytes
    decreases |chunks|
  {
    if chunks == [] then [] else chunks[0] + Flatten(chunks[1..])
  }

  function RawFrames(chunks: seq<Bytes>): (r: seq<Frame>)
    ensures |r| == |chunks|
  {
    seq(|chunks|, i requires 0 <= i < |chunks| => Raw(chunks[i]))
  }

  /** The raw bytes among the frames, in order: what the peer's socket reads deliver. */
  function Payload(frames: seq<Frame>): Bytes
    decreases |frames|
  {
    if frames == [] then []
    else (if frames[0].Raw? then frames[0].bytes else []) + Payload(frames[1..])
  }

  lemma {:induction false} PayloadOfRaw(chunks: seq<Bytes>)
    ensures Payload(RawFrames(chunks)) == Flatten(chunks)
    decreases |chunks|
  {
    if chunks != [] {
      assert RawFrames(chunks)[1..] == RawFrames(chunks[1..]);
      PayloadOfRaw(chunks[1..]);
    }
  }

  // ---------------------------------------------------------------------------
  // Sending a file in buffer-sized chunks

  /** What `FileInputStream.read(buffer, 0, want)` returns as the byte count on a regular
      file whose first `pos` bytes have been consumed: -1 at end of file, otherwise as many
      bytes as are asked for and remain. */
  function FileRead(data: Bytes, pos: nat, want: nat): int {
    if pos >= |data| then -1 else Min(want, |data| - pos)
  }

  /** The contents cut into BUFFER_SIZE pieces, the last one possibly shorter. */
  function Chunked(s: Bytes): seq<Bytes>
    decreases |s|
  {
    if |s| == 0 then []
    else if |s| <= BUFFER_SIZE then [s]
    else [s[..BUFFER_SIZE]] + Chunked(s[BUFFER_SIZE..])
  }

  /** Chunking loses nothing and reorders nothing, and every chunk is non-empty and fits
      one buffer; all but the last are full. */
  lemma {:induction false} ChunkedSound(s: Bytes)
    ensures Flatten(Chunked(s)) == s
    ensures forall k :: 0 <= k < |Chunked(s)| ==> 0 < |Chunked(s)[k]| <= BUFFER_SIZE
    ensures forall k :: 0 <= k < |Chunked(s)| - 1 ==> |Chunked(s)[k]| == BUFFER_SIZE
    decreases |s|
  {
    if |s| > BUFFER_SIZE {
      ChunkedSound(s[BUFFER_SIZE..]);
      var c := Chunked(s);
      assert c[1..] == Chunked(s[BUFFER_SIZE..]);
      assert s[..BUFFER_SIZE] + s[BUFFER_SIZE..] == s;
    } else if |s| > 0 {
      assert Flatten([s]) == s + Flatten([]);
    }
  }

  /** Appending one chunk after a whole number of full buffers extends the chunking by it. */
  lemma {:induction false} ChunkedExtend(p: Bytes, q: Bytes)
    requires |p| % BUFFER_SIZE == 0
    requires 0 < |q| <= BUFFER_SIZE
    ensures Chunked(p + q) == Chunked(p) + [q]
    decreases |p|
  {
    if |p| == 0 {
      assert p + q == q;
    } else {
      var s := p + q;
      assert s[..BUFFER_SIZE] == p[..BUFFER_SIZE];
      assert s[BUFFER_SIZE..] == p[BUFFER_SIZE..] + q;
      ChunkedExtend(p[BUFFER_SIZE..], q);
      if |p| == BUFFER_SIZE {
        assert p[BUFFER_SIZE..] == [];
        assert p[..BUFFER_SIZE] == p;
      }
    }
  }

  // ---------------------------------------------------------------------------
  // Receiving: `while (total < length && (n = in.read(buffer)) != -1) { write; total += n; }`

  /** What the receive loop writes when the successive socket reads return `chunks` and
      `need` bytes are still wanted: whole chunks are taken while fewer than `need` bytes
      have arrived, so the last chunk may carry the total past `need`. */
  function Received(chunks: seq<Bytes>, need: int): Bytes
    decreases |chunks|
  {
    if need <= 0 || chunks == [] then [] else chunks[0] + Received(chunks[1..], need - |chunks[0]|)
  }

  /** Socket reads into a BUFFER_SIZE buffer return between 1 and BUFFER_SIZE bytes. */
  predicate SocketReads(chunks: seq<Bytes>) {
    forall k :: 0 <= k < |chunks| ==> 0 < |chunks[k]| <= BUFFER_SIZE
  }

  /** The bytes written are the stream's bytes in order, a prefix of everything that arrived. */
  lemma {:induction false} ReceivedIsPrefix(chunks: seq<Bytes>, need: int)
    ensures Received(chunks, need) <= Flatten(chunks)
    decreases |chunks|
  {
    if need > 0 && chunks != [] {
      ReceivedIsPrefix(chunks[1..], need - |chunks[0]|);
    }
  }

  /** The loop stops only once the declared length is reached or the stream has ended. */
  lemma {:induction false} ReceivedStops(chunks: seq<Bytes>, need: int)
    ensures |Received(chunks, need)| >= need || Received(chunks, need) == Flatten(chunks)
    decreases |chunks|
  {
    if need > 0 && chunks != [] {
      ReceivedStops(chunks[1..], need - |chunks[0]|);
    }
  }

  /** The overshoot is less than one buffer. */
  lemma {:induction false} ReceivedOvershoot(chunks: seq<Bytes>, need: int)
    requires SocketReads(chunks)
    requires need >= 0
    ensures |Received(chunks, need)| < need + BUFFER_SIZE
    decreases |chunks|
  {
    if need > 0 && chunks != [] {
      var rest := need - |chunks[0]|;
      if rest > 0 {
        ReceivedOvershoot(chunks[1..], rest);
      } else {
        assert Received(chunks[1..], rest) == [];
      }
    }
  }

  /** When the stream carries no more than the declared length, everything it carries is
      written, byte for byte. */
  lemma {:induction false} ReceivedAll(chunks: seq<Bytes>, need: int)
    requires |Flatten(chunks)| <= need
    ensures Received(chunks, need) == Flatten(chunks)
    decreases |chunks|
  {
    if chunks != [] {
      assert Flatten(chunks) == chunks[0] + Flatten(chunks[1..]);
      if |chunks[0]| == 0 {
        ReceivedAll(chunks[1..], need);
        assert need > 0 || Flatten(chunks[1..]) == [];
      }
      ReceivedAll(chunks[1..], need - |chunks[0]|);
      if need <= 0 {
        assert Flatten(chunks) == [];
        ReceivedEmpty(chunks[1..], need - |chunks[0]|);
      }
    }
  }

  lemma {:induction false} ReceivedEmpty(chunks: seq<Bytes>, need: int)
    requires Flatten(chunks) == []
    ensures Received(chunks, need) == []
    decreases |chunks|
  {
    if need > 0 && chunks != [] {
      assert chunks[0] == [];
      ReceivedEmpty(chunks[1..], need);
    }
  }

  /** The receive loop of Server.handleWriteRequest and Client.downloadFile. */
  method ReceiveStream(chunks: seq<Bytes>, length: int) returns (data: Bytes)
    ensures data == Received(chunks, length)
  {
    data := [];
    var totalBytesReceived := 0;
    var i := 0;
    while totalBytesReceived < length && i < |chunks|
      invariant 0 <= i <= |chunks|
      invariant totalBytesReceived == |data|
      invariant data + Received(chunks[i..], length - totalBytesReceived) == Received(chunks, length)
    {
      assert chunks[i..][1..] == chunks[i + 1..];
      data := data + chunks[i];
      totalBytesReceived := totalBytesReceived + |chunks[i]|;
      i := i + 1;
    }
  }

  // ---------------------------------------------------------------------------
  // DataOutputStream.writeLong / DataInputStream.readLong: 8 bytes, big-endian, two's complement

  function Pow256(width: nat): (r: nat)
    ensures r > 0
  {
    if width == 0 then 1 else 256 * Pow256(width - 1)
  }

  function BigEndian(u: nat, width: nat): (r: Bytes)
    ensures |r| == width
    decreases width
  {
    if width == 0 then [] else BigEndian(u / 256, width - 1) + [(u % 256) as byte]
  }

  function FromBigEndian(b: Bytes): nat
    decreases |b|
  {
    if b == [] then 0 else FromBigEndian(b[..|b| - 1]) * 256 + b[|b| - 1] as nat
  }

  /** Decoding the big-endian digits of a value that fits the width gives the value. */
  lemma {:induction false} BigEndianRoundTrip(u: nat, width: nat)
    requires u < Pow256(width)
    ensures FromBigEndian(BigEndian(u, width)) == u
    decreases width
  {
    if width > 0 {
      var high, low := u / 256, u % 256;
      assert high < Pow256(width - 1);
      BigEndianRoundTrip(high, width - 1);
      var b := BigEndian(u, width);
      assert b == BigEndian(high, width - 1) + [low as byte];
      assert b[..|b| - 1] == BigEndian(high, width - 1);
      assert FromBigEndian(b) == high * 256 + low;
    }
  }

  const TWO_TO_64: nat := 0x1_0000_0000_0000_0000

  function LongBytes(n: int): (r: Bytes)
    requires IsLong(n)
    ensures |r| == 8
  {
    BigEndian(if n < 0 then n + TWO_TO_64 else n, 8)
  }

  function LongFromBytes(b: Bytes): int
    requires |b| == 8
  {
    var u := FromBigEndian(b);
    if u > LONG_MAX then u - TWO_TO_64 else u
  }

  /** readLong recovers the value writeLong wrote. */
  lemma LongBytesRoundTrip(n: int)
    requires IsLong(n)
    ensures LongFromBytes(LongBytes(n)) == n
  {
    var u := if n < 0 then n + TWO_TO_64 else n;
    assert Pow256(8) == TWO_TO_64 by {
      assert Pow256(4) == 0x1_0000_0000;
      assert Pow256(8) == 256 * 256 * 256 * 256 * Pow256(4);
    }
    BigEndianRoundTrip(u, 8);
  }
}
