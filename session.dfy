/**
 * The session main() drives once the port is open: a discard read of the fast-init answer, four
 * handshake requests, the switch to 64200 baud, the challenge request with its retries, the key
 * reply, and the dump of the ECU's memory, block by block, into the output file. The output file
 * is the sequence of bytes written to it; every fatal() ends the session with an Err.
 */
module Session {
  import opened Types
  import opened Framing
  import opened Link
  import opened Key
  import opened Dump

  const InitRequest: seq<uint8> := [0x81, 0x10, 0xF1, 0x81]
  const DiagRequest: seq<uint8> := [0x82, 0x10, 0xF1, 0x10, 0x85]
  const InfoRequest: seq<uint8> := [0x82, 0x10, 0xF1, 0x1A, 0x80]
  const Diag2Request: seq<uint8> := [0x84, 0x10, 0x01, 0x10, 0x0C, 0x0C, 0x09]
  const LoginRequest: seq<uint8> := [0x82, 0x10, 0x01, 0x27, 0x01]
  /** The size of main's reply buffer buf. */
  const BufSize: nat := 4096
  /** The baud rate of the session after the handshake. */
  const FastBaud: nat := 64200
  /** The only reply length the challenge loop accepts. */
  const ChallengeLength: nat := 17
  /** Resends of the challenge request after the first one. */
  const MaxRetries: nat := 10

  /** login_response with the key stored big-endian at bytes 5 to 8. */
  function LoginResponse(key: uint32): seq<uint8>
  {
    [0x86, 0x10, 0x01, 0x27, 0x02] + ToBe32(key)
  }

  /** login_response keeps its five fixed bytes, and its last four read back big-endian as the key. */
  lemma LoginResponseLayout(key: uint32)
    ensures |LoginResponse(key)| == 9 && LoginResponse(key)[..5] == [0x86, 0x10, 0x01, 0x27, 0x02]
    ensures Be32(LoginResponse(key)[5..]) == key
  {
    assert LoginResponse(key)[5..] == ToBe32(key);
    Be32OfToBe32(key);
  }

  /** The key main sends for the 17-byte challenge reply: calc_key of the big-endian word at bytes 12 to 15. */
  function KeyFor(challengeReply: seq<uint8>): uint32
    requires |challengeReply| >= 16
  {
    CalcKey(Be32(challengeReply[12..16]))
  }

  function Repeat<T>(x: T, n: nat): seq<T>
  {
    seq(n, _ => x)
  }

  /** The handshake requests, in the order they are sent. */
  function HandshakeRequests(): seq<seq<uint8>>
  {
    [InitRequest, DiagRequest, InfoRequest, Diag2Request]
  }

  /** The handshake frames, in the order they are sent. */
  function HandshakeFrames(): seq<seq<uint8>>
  {
    seq(4, k requires 0 <= k < 4 => Frame(HandshakeRequests()[k]))
  }

  /** The handshake frames as they go on the line, each request followed by its checksum. */
  lemma HandshakeWire()
    ensures HandshakeFrames() == [[0x81, 0x10, 0xF1, 0x81, 0x03], [0x82, 0x10, 0xF1, 0x10, 0x85, 0x18],
                                  [0x82, 0x10, 0xF1, 0x1A, 0x80, 0x1D], [0x84, 0x10, 0x01, 0x10, 0x0C, 0x0C, 0x09, 0xC6]]
  {
    InitWire();
    DiagWire();
    InfoWire();
    Diag2Wire();
  }

  /** The init frame on the line. */
  lemma InitWire()
    ensures Frame(InitRequest) == [0x81, 0x10, 0xF1, 0x81, 0x03]
  {
    SumOf4(InitRequest);
    assert Frame(InitRequest) == InitRequest + [0x03];
  }

  /** The diag frame on the line. */
  lemma DiagWire()
    ensures Frame(DiagRequest) == [0x82, 0x10, 0xF1, 0x10, 0x85, 0x18]
  {
    SumOf4(DiagRequest[..4]);
    SumAppend(DiagRequest[..4], [0x85]);
    assert DiagRequest == DiagRequest[..4] + [0x85];
    assert Frame(DiagRequest) == DiagRequest + [0x18];
  }

  /** The info frame on the line. */
  lemma InfoWire()
    ensures Frame(InfoRequest) == [0x82, 0x10, 0xF1, 0x1A, 0x80, 0x1D]
  {
    SumOf4(InfoRequest[..4]);
    SumAppend(InfoRequest[..4], [0x80]);
    assert InfoRequest == InfoRequest[..4] + [0x80];
    assert Frame(InfoRequest) == InfoRequest + [0x1D];
  }

  /** The diag2 frame on the line. */
  lemma Diag2Wire()
    ensures Frame(Diag2Request) == [0x84, 0x10, 0x01, 0x10, 0x0C, 0x0C, 0x09, 0xC6]
  {
    var head, tail := Diag2Request[..4], Diag2Request[4..];
    SumOf4(head);
    SumOf4(tail + [0]);
    SumAppend(tail, [0]);
    SumAppend(head, tail);
    assert Diag2Request == head + tail;
    assert Frame(Diag2Request) == Diag2Request + [0xC6];
  }

  /** The byte sum of four bytes, written out. */
  lemma SumOf4(s: seq<uint8>)
    requires |s| == 4
    ensures Sum(s) == s[0] as int + s[1] + s[2] + s[3]
  {
    assert s[..3][..2][..1][..0] == [];
    assert Sum(s[..1]) == s[0];
    assert Sum(s[..2]) == s[0] as int + s[1] by { assert s[..2][..1] == s[..1]; }
    assert Sum(s[..3]) == s[0] as int + s[1] + s[2] by { assert s[..3][..2] == s[..2]; }
    assert s[..4] == s;
  }

  /** The bytes of s in a fresh array, as main.c keeps each request in an array of its own. */
  method ToArray(s: seq<uint8>) returns (a: array<uint8>)
    ensures fresh(a) && a[..] == s
  {
    a := new uint8[|s|](k requires 0 <= k < |s| => s[k]);
  }

  /** The last exchange on the line failed with e: its reply was refused, or (for PartialBlock) accepted but under 53 bytes. */
  ghost predicate LastFailedWith(line: Line, e: Error)
    reads line
  {
    |line.sent| > 0 && |line.replies| > 0 &&
    var checked := Validate(|Last(line.sent)|, Last(line.replies));
    if e == PartialBlock then checked.Ok? && |Last(line.replies)| < MinChunkReply else checked == Err(e)
  }

  /**
   * The four handshake exchanges, each through process_message: init, diag and diag2 with a
   * scratch reply buffer, info into buf. Stops at the first exchange that fails; `replies` are
   * the replies read, one per frame sent.
   */
  method Handshake(line: Line, buf: array<uint8>) returns (r: Result<()>, ghost replies: seq<seq<uint8>>)
    requires buf.Length == BufSize
    requires line.Heard()
    modifies line, buf
    ensures line.Heard()
    ensures 1 <= |replies| <= 4
    ensures line.sent == old(line.sent) + HandshakeFrames()[..|replies|]
    ensures line.replies == old(line.replies) + replies
    ensures AllAccepted(HandshakeFrames()[..|replies| - 1], replies[..|replies| - 1])
    ensures r.Ok? <==> |replies| == 4 && AllAccepted(HandshakeFrames(), replies)
    ensures r.Err? ==> (r.error.ShortRead? || r.error.ChecksumFailed?) && LastFailedWith(line, r.error)
    ensures r.Err? ==> HandshakeRefused(replies, r.error)
    ensures line.baud == old(line.baud)
  {
    ghost var s0, r0 := line.sent, line.replies;
    replies := [];
    assert s0 + HandshakeFrames()[..0] == s0 && r0 + [] == r0;

    r, replies := HandshakeStep(line, InitRequest, null, 0, s0, r0, replies);
    if r.Err? {
      return;
    }
    r, replies := HandshakeStep(line, DiagRequest, null, 0, s0, r0, replies);
    if r.Err? {
      return;
    }
    r, replies := HandshakeStep(line, InfoRequest, buf, BufSize, s0, r0, replies);
    if r.Err? {
      return;
    }
    r, replies := HandshakeStep(line, Diag2Request, null, 0, s0, r0, replies);
    assert HandshakeFrames()[..4] == HandshakeFrames();
  }

  /**
   * One handshake exchange: process_message on the next handshake request, after the exchanges
   * answered by `before` since the line carried sent0 and replies0.
   */
  method HandshakeStep(line: Line, request: seq<uint8>, recvBuf: array?<uint8>, recvLen: nat,
                       ghost sent0: seq<seq<uint8>>, ghost replies0: seq<seq<uint8>>, ghost before: seq<seq<uint8>>)
    returns (r: Result<()>, ghost replies: seq<seq<uint8>>)
    requires |before| < 4 && request == HandshakeRequests()[|before|]
    requires recvBuf != null ==> recvLen <= recvBuf.Length
    requires line.sent == sent0 + HandshakeFrames()[..|before|] && line.replies == replies0 + before
    requires AllAccepted(HandshakeFrames()[..|before|], before)
    requires line.Heard()
    modifies line, recvBuf
    ensures line.Heard()
    ensures |replies| == |before| + 1 && replies[..|before|] == before
    ensures line.sent == sent0 + HandshakeFrames()[..|replies|] && line.replies == replies0 + replies
    ensures r.Ok? <==> AllAccepted(HandshakeFrames()[..|replies|], replies)
    ensures r.Err? ==> (r.error.ShortRead? || r.error.ChecksumFailed?) && LastFailedWith(line, r.error)
    ensures r.Err? ==> HandshakeRefused(replies, r.error)
    ensures line.baud == old(line.baud)
  {
    var msg := ToArray(request);
    assert msg[..msg.Length] == msg[..];
    var res := line.ProcessMessage(msg, msg.Length, recvBuf, recvLen);
    ghost var reply := Last(line.replies);
    replies := before + [reply];
    HandshakeLogStep(sent0, replies0, before, reply);
    if res.Ok? {
      AcceptedStep(HandshakeFrames()[..|before|], before, HandshakeFrames()[|before|], reply);
    }
    r := if res.Err? then Err(res.error) else Ok(());
  }

  /** The logs after one more handshake exchange, answered by reply. */
  lemma HandshakeLogStep(sent0: seq<seq<uint8>>, replies0: seq<seq<uint8>>, before: seq<seq<uint8>>, reply: seq<uint8>)
    requires |before| < 4
    ensures HandshakeFrames()[..|before| + 1] == HandshakeFrames()[..|before|] + [HandshakeFrames()[|before|]]
    ensures sent0 + HandshakeFrames()[..|before| + 1] == sent0 + HandshakeFrames()[..|before|] + [HandshakeFrames()[|before|]]
    ensures replies0 + (before + [reply]) == replies0 + before + [reply]
    ensures (before + [reply])[..|before|] == before
  {
    assert HandshakeFrames()[..|before| + 1] == HandshakeFrames()[..|before|] + [HandshakeFrames()[|before|]];
  }

  /**
   * The challenge request: write the login request and read the reply into buf, and repeat
   * while the reply is not exactly 17 bytes long, resending at most 10 times. The replies are
   * read with read_msg alone, without echo or checksum test. The one-second pause before each
   * read is not modelled.
   */
  method RequestChallenge(line: Line, buf: array<uint8>) returns (r: Result<()>, ghost replies: seq<seq<uint8>>)
    requires buf.Length == BufSize
    requires line.Heard()
    modifies line, buf
    ensures line.Heard()
    ensures 1 <= |replies| <= MaxRetries + 1
    ensures line.sent == old(line.sent) + Repeat(Frame(LoginRequest), |replies|)
    ensures line.replies == old(line.replies) + replies
    ensures forall j | 0 <= j < |replies| - 1 :: |replies[j]| != ChallengeLength
    ensures r.Ok? <==> |Last(replies)| == ChallengeLength
    ensures r.Err? ==> r.error == NoChallenge && |replies| == MaxRetries + 1
    ensures r.Ok? ==> buf[..ChallengeLength] == Last(replies)
    ensures line.baud == old(line.baud)
  {
    ghost var s0, r0 := line.sent, line.replies;
    var login := ToArray(LoginRequest);
    assert login[..5] == LoginRequest;
    var i := 0;
    var _ := line.WriteMsg(login, 5);
    var l := line.ReadMsg(buf, BufSize);
    replies := [Last(line.replies)];
    assert Repeat(Frame(LoginRequest), 1) == [Frame(LoginRequest)];
    while l != ChallengeLength
      invariant 0 <= i <= MaxRetries && |replies| == i + 1
      invariant line.sent == s0 + Repeat(Frame(LoginRequest), |replies|)
      invariant line.replies == r0 + replies
      invariant forall j | 0 <= j < |replies| - 1 :: |replies[j]| != ChallengeLength
      invariant l == |Last(replies)| <= buf.Length && buf[..l] == Last(replies)
      invariant login[..5] == LoginRequest
      invariant line.baud == old(line.baud) && line.Heard()
      decreases MaxRetries - i
    {
      if i == MaxRetries {
        return Err(NoChallenge), replies;
      }
      var _ := line.WriteMsg(login, 5);
      l := line.ReadMsg(buf, BufSize);
      assert Repeat(Frame(LoginRequest), |replies| + 1) == Repeat(Frame(LoginRequest), |replies|) + [Frame(LoginRequest)];
      replies := replies + [Last(line.replies)];
      i := i + 1;
    }
    r := Ok(());
  }

  /**
   * The key reply: take the challenge big-endian from bytes 12 to 15 of buf, derive the key, patch
   * it big-endian into login_response at bytes 5 to 8 and exchange that. The login stands when
   * byte 14 of buf is then 0x67; that byte is the reply's own only when the reply has at least 15
   * bytes, otherwise it is left over from the challenge reply.
   */
  method SendKey(line: Line, buf: array<uint8>) returns (r: Result<()>, ghost reply: seq<uint8>)
    requires buf.Length == BufSize
    requires line.Heard()
    modifies line, buf
    ensures line.Heard()
    ensures line.sent == old(line.sent) + [Frame(LoginResponse(KeyFor(old(buf[..16]))))]
    ensures line.replies == old(line.replies) + [reply]
    ensures buf[14] == if |reply| > 14 then reply[14] else old(buf[14])
    ensures var checked := Validate(|Last(line.sent)|, reply);
            (r.Ok? <==> checked.Ok? && buf[14] == 0x67) &&
            (r.Err? ==> r.error == if checked.Err? then checked.error else LoginFailed)
    ensures line.baud == old(line.baud)
  {
    ghost var r0 := line.replies;
    var challenge := Be32(buf[12..16]);
    assert buf[12..16] == buf[..16][12..16];
    var response := CalcKey(challenge);
    var loginResponse := ToArray(LoginResponse(0));
    var ww := ToBe32(response);
    loginResponse[5], loginResponse[6], loginResponse[7], loginResponse[8] := ww[0], ww[1], ww[2], ww[3];
    assert loginResponse[..9] == LoginResponse(response);
    var res := line.ProcessMessage(loginResponse, 9, buf, BufSize);
    reply := Last(line.replies);
    assert line.replies == r0 + [reply];
    if res.Err? {
      return Err(res.error), reply;
    }
    if buf[14] == 0x67 {
      r := Ok(());
    } else {
      r := Err(LoginFailed);
    }
  }

  /**
   * One chunk of the inner dump loop: request the 0x20 bytes at offset, require a reply of at
   * least 53 bytes, and hand back its data bytes 20 up to the checksum for the file.
   */
  method ReadChunk(line: Line, buf: array<uint8>, offset: uint16) returns (r: Result<()>, data: seq<uint8>, ghost reply: seq<uint8>)
    requires buf.Length == BufSize
    requires line.Heard()
    modifies line, buf
    ensures line.Heard()
    ensures line.sent == old(line.sent) + [Frame(ChunkRequest(offset))]
    ensures line.replies == old(line.replies) + [reply]
    ensures r.Ok? <==> Validate(|Frame(ChunkRequest(offset))|, reply).Ok? && |reply| >= MinChunkReply
    ensures r.Err? ==> LastFailedWith(line, r.error)
    ensures data == if r.Ok? then Payload(reply) else []
    ensures line.baud == old(line.baud)
  {
    ghost var r0 := line.replies;
    var g := ChunkRequestArray(offset);
    assert g[..9] == g[..];
    var l := line.ProcessMessage(g, 9, buf, BufSize);
    reply := Last(line.replies);
    assert line.replies == r0 + [reply];
    if l.Err? {
      return Err(l.error), [], reply;
    }
    if l.value < MinChunkReply {
      return Err(PartialBlock), [], reply;
    }
    ghost var got := buf[..l.value];
    assert got == reply && |reply| == l.value;
    data := buf[20..l.value - 1];
    assert data == got[20..l.value - 1] == Payload(reply);
    r := Ok(());
  }

  /** The chunk request in an array of its own, with the offset stored high byte first in bytes 6 and 7. */
  method ChunkRequestArray(offset: uint16) returns (g: array<uint8>)
    ensures fresh(g) && g[..] == ChunkRequest(offset)
  {
    g := ToArray(ChunkRequest(0));
    g[6], g[7] := offset / 0x100, offset % 0x100;
  }

  /**
   * The inner dump loop: the 512 chunks of a block at offsets 0x4000, 0x4020, ..., 0x7FE0, kept
   * in a 16-bit counter that ends at 0x8000 without wrapping. After a failure, data holds the
   * data of the chunks accepted before the one that failed.
   */
  method ReadChunks(line: Line, buf: array<uint8>) returns (r: Result<()>, data: seq<uint8>, ghost replies: seq<seq<uint8>>)
    requires buf.Length == BufSize
    requires line.Heard()
    modifies line, buf
    ensures line.Heard()
    ensures line.replies == old(line.replies) + replies
    ensures r.Ok? ==> line.sent == old(line.sent) + ChunkRequests(ChunksPerBlock)
    ensures r.Ok? ==> ChunkRun(ChunksPerBlock, replies, data)
    ensures r.Err? ==> 0 < |replies| <= ChunksPerBlock && line.sent == old(line.sent) + ChunkRequests(|replies|)
    ensures r.Err? ==> old(line.sent) < line.sent <= old(line.sent) + ChunkRequests(ChunksPerBlock)
    ensures r.Err? ==> ChunkRun(|replies| - 1, replies[..|replies| - 1], data) && LastFailedWith(line, r.error)
    ensures line.baud == old(line.baud)
  {
    ghost var s0, r0 := line.sent, line.replies;
    data, replies := [], [];
    var offset: uint16 := 0x4000;
    ghost var k := 0;
    assert s0 + ChunkRequests(0) == s0 && r0 + [] == r0;
    assert ChunkRun(0, [], []);
    while offset < 0x8000
      invariant k <= ChunksPerBlock && offset == ChunkOffset(k)
      invariant line.sent == s0 + ChunkRequests(k)
      invariant line.replies == r0 + replies
      invariant ChunkRun(k, replies, data)
      invariant line.baud == old(line.baud) && line.Heard()
      decreases 0x8000 - offset
    {
      r, data, replies := NextChunk(line, buf, offset, k, s0, r0, replies, data);
      if r.Err? {
        return;
      }
      offset := offset + 0x20;
      k := k + 1;
    }
    assert k == ChunksPerBlock;
    r := Ok(());
  }

  /**
   * One pass of the chunk loop after the first k chunks of the block, sent and answered since the
   * line carried sent0 and replies0: read chunk k and append its data.
   */
  method NextChunk(line: Line, buf: array<uint8>, offset: uint16, ghost k: nat,
                   ghost sent0: seq<seq<uint8>>, ghost replies0: seq<seq<uint8>>, ghost replies: seq<seq<uint8>>, data: seq<uint8>)
    returns (r: Result<()>, data1: seq<uint8>, ghost replies1: seq<seq<uint8>>)
    requires buf.Length == BufSize && k < ChunksPerBlock && offset == ChunkOffset(k)
    requires line.sent == sent0 + ChunkRequests(k) && line.replies == replies0 + replies
    requires ChunkRun(k, replies, data)
    requires line.Heard()
    modifies line, buf
    ensures line.Heard()
    ensures line.sent == sent0 + ChunkRequests(k + 1) && line.replies == replies0 + replies1
    ensures |replies1| == k + 1 && replies1[..k] == replies
    ensures r.Ok? ==> ChunkRun(k + 1, replies1, data1)
    ensures r.Err? ==> ChunkRun(k, replies1[..k], data1) && LastFailedWith(line, r.error)
    ensures r.Err? ==> sent0 < line.sent <= sent0 + ChunkRequests(ChunksPerBlock)
    ensures line.baud == old(line.baud)
  {
    var chunk;
    ghost var reply;
    r, chunk, reply := ReadChunk(line, buf, offset);
    AppendAfter(replies0, replies, reply);
    NextChunkLogs(sent0, k, replies, data, reply, r.Ok?);
    data1, replies1 := data + chunk, replies + [reply];
  }

  /** The logs after chunk k, answered by reply: accepted with at least 53 bytes (ok) or not. */
  lemma NextChunkLogs(sent0: seq<seq<uint8>>, k: nat, replies: seq<seq<uint8>>, data: seq<uint8>, reply: seq<uint8>, ok: bool)
    requires k < ChunksPerBlock && ChunkRun(k, replies, data)
    requires ok ==> Validate(|Frame(ChunkRequest(ChunkOffset(k) as uint16))|, reply).Ok? && |reply| >= MinChunkReply
    ensures sent0 + ChunkRequests(k + 1) == sent0 + ChunkRequests(k) + [Frame(ChunkRequest(ChunkOffset(k) as uint16))]
    ensures sent0 < sent0 + ChunkRequests(k + 1) <= sent0 + ChunkRequests(ChunksPerBlock)
    ensures |replies + [reply]| == k + 1 && (replies + [reply])[..k] == replies
    ensures ok ==> ChunkRun(k + 1, replies + [reply], data + Payload(reply))
    ensures !ok ==> ChunkRun(k, (replies + [reply])[..k], data + [])
  {
    assert |replies| == k && (replies + [reply])[..k] == replies && data + [] == data;
    ChunkRequestsStep(sent0, k);
    ChunkRequestsPrefix(sent0, k + 1);
    if ok {
      ChunkStep(k, replies, data, reply);
    }
  }

  /**
   * The first k chunks of a block were each accepted with a reply of at least 53 bytes, and
   * data holds their data bytes in order.
   */
  ghost predicate ChunkRun(k: nat, replies: seq<seq<uint8>>, data: seq<uint8>)
  {
    k <= ChunksPerBlock && AllAccepted(ChunkRequests(k), replies) &&
    (forall c | c in replies :: |c| >= MinChunkReply) && data == Payloads(replies)
  }

  /** One more chunk request extends the frames sent for the chunks by that chunk's frame. */
  lemma ChunkRequestsStep(sent0: seq<seq<uint8>>, k: nat)
    requires k < ChunksPerBlock
    ensures ChunkRequests(k + 1) == ChunkRequests(k) + [Frame(ChunkRequest(ChunkOffset(k) as uint16))]
    ensures sent0 + ChunkRequests(k + 1) == sent0 + ChunkRequests(k) + [Frame(ChunkRequest(ChunkOffset(k) as uint16))]
  {
    assert ChunkRequests(k + 1) == ChunkRequests(k) + [Frame(ChunkRequest(ChunkOffset(k) as uint16))];
  }

  /** The frames of the first k chunks, k at least 1, properly extend the log and begin the frames of all 512. */
  lemma ChunkRequestsPrefix(sent0: seq<seq<uint8>>, k: nat)
    requires 0 < k <= ChunksPerBlock
    ensures sent0 < sent0 + ChunkRequests(k) <= sent0 + ChunkRequests(ChunksPerBlock)
  {
    assert ChunkRequests(k) == ChunkRequests(ChunksPerBlock)[..k];
    PrefixAppend(sent0, ChunkRequests(k), ChunkRequests(ChunksPerBlock));
  }

  /** Extending both sides of a prefix by the same front keeps it a prefix; a non-empty tail makes a proper one. */
  lemma PrefixAppend<T>(p: seq<T>, a: seq<T>, b: seq<T>)
    requires a <= b
    ensures p + a <= p + b
    ensures |a| > 0 ==> p < p + a
  {
    assert (p + b)[..|p + a|] == p + a;
    if |a| > 0 {
      assert (p + a)[..|p|] == p;
    }
  }

  /** One more accepted chunk of at least 53 bytes extends the run by its reply and its data. */
  lemma ChunkStep(k: nat, replies: seq<seq<uint8>>, data: seq<uint8>, reply: seq<uint8>)
    requires k < ChunksPerBlock && ChunkRun(k, replies, data)
    requires Validate(|Frame(ChunkRequest(ChunkOffset(k) as uint16))|, reply).Ok? && |reply| >= MinChunkReply
    ensures ChunkRun(k + 1, replies + [reply], data + Payload(reply))
  {
    var frame := Frame(ChunkRequest(ChunkOffset(k) as uint16));
    ChunkRequestsStep([], k);
    AcceptedStep(ChunkRequests(k), replies, frame, reply);
    assert (replies + [reply])[..|replies|] == replies;
  }

  /** One fetched block: the block request, then its 512 chunks. */
  method ReadBlock(line: Line, buf: array<uint8>, block: uint8) returns (r: Result<()>, data: seq<uint8>, ghost replies: seq<seq<uint8>>)
    requires buf.Length == BufSize && !Skipped(block as nat)
    requires line.Heard()
    modifies line, buf
    ensures line.Heard()
    ensures line.replies == old(line.replies) + replies
    ensures r.Ok? ==> line.sent == old(line.sent) + BlockRequests(block)
    ensures r.Ok? ==> |replies| > 0 && Validate(|Frame(BlockRequest(block))|, replies[0]).Ok?
    ensures r.Ok? ==> ChunkRun(ChunksPerBlock, replies[1..], data)
    ensures r.Err? ==> old(line.sent) < line.sent <= old(line.sent) + BlockRequests(block)
    ensures r.Err? ==> LastFailedWith(line, r.error)
    ensures line.baud == old(line.baud)
  {
    ghost var s0, r0 := line.sent, line.replies;
    data := [];
    var requestBlock := ToArray(BlockRequest(block));
    assert requestBlock[..10] == BlockRequest(block);
    var res := line.ProcessMessage(requestBlock, 10, buf, BufSize);
    ghost var reply := Last(line.replies);
    replies := [reply];
    BlockLogs(s0, r0, block, reply, []);
    PrefixAppend(s0, [Frame(BlockRequest(block))], BlockRequests(block));
    if res.Err? {
      return Err(res.error), data, replies;
    }
    ghost var s1 := line.sent;
    ghost var chunks;
    r, data, chunks := ReadChunks(line, buf);
    BlockLogs(s0, r0, block, reply, chunks);
    replies := [reply] + chunks;
    if r.Err? {
      assert s0 < s1 < line.sent;
      assert line.sent <= s1 + ChunkRequests(ChunksPerBlock) == s0 + BlockRequests(block);
    }
  }

  /** The logs after a fetched block: its request frame and reply, then those of its chunks. */
  lemma BlockLogs(sent0: seq<seq<uint8>>, replies0: seq<seq<uint8>>, block: uint8, reply: seq<uint8>, chunks: seq<seq<uint8>>)
    requires !Skipped(block as nat)
    ensures sent0 + [Frame(BlockRequest(block))] + ChunkRequests(ChunksPerBlock) == sent0 + BlockRequests(block)
    ensures replies0 + [reply] + chunks == replies0 + ([reply] + chunks)
    ensures ([reply] + chunks)[1..] == chunks && ([reply] + chunks)[0] == reply
    ensures [Frame(BlockRequest(block))] <= BlockRequests(block)
  {
  }

  /**
   * The first n blocks are done: the log holds their replies, every exchange was accepted, every
   * chunk reply has at least 53 bytes, and the file is their image.
   */
  ghost predicate Dumped(log: seq<seq<uint8>>, n: nat, file: seq<uint8>)
  {
    n <= Blocks && |log| == BlockStart(n) && AllAccepted(DumpRequests(n), log) &&
    ChunksAtLeast(log, n, MinChunkReply) && file == Image(log, n)
  }

  /**
   * The dump that started with the log sent0 stopped in block `done`, a block it reads from the
   * ECU, because the last reply was refused or was a chunk reply under 53 bytes: the frames sent
   * run past those of the finished blocks and at most to the end of block `done`, and the file
   * starts with the image of the finished blocks.
   */
  ghost predicate DumpStopped(line: Line, e: Error, sent0: seq<seq<uint8>>, log: seq<seq<uint8>>, done: nat, file: seq<uint8>)
    reads line
  {
    done < Blocks && !Skipped(done) && LastFailedWith(line, e) &&
    sent0 + DumpRequests(done) < line.sent <= sent0 + DumpRequests(done + 1) &&
    |log| >= BlockStart(done) && Image(log, done) <= file
  }

  /**
   * The block loop: blocks 0 to 19 in an 8-bit counter. `done` counts the blocks finished, and
   * the file always starts with their image.
   */
  method DumpMemory(line: Line, buf: array<uint8>, memblob: array<uint8>)
    returns (r: Result<()>, file: seq<uint8>, ghost log: seq<seq<uint8>>, ghost done: nat)
    requires buf.Length == BufSize && memblob[..] == Filler(BlockSize)
    requires line.Heard()
    modifies line, buf
    ensures line.Heard()
    ensures line.replies == old(line.replies) + log
    ensures done <= Blocks && |log| >= BlockStart(done) && Image(log, done) <= file
    ensures ChunksAtLeast(log, done, MinChunkReply)
    ensures r.Ok? ==> done == Blocks && line.sent == old(line.sent) + DumpRequests(Blocks)
    ensures r.Ok? ==> Dumped(log, Blocks, file) && |file| >= Blocks * BlockSize
    ensures r.Err? ==> DumpStopped(line, r.error, old(line.sent), log, done, file)
    ensures line.baud == old(line.baud)
  {
    ghost var s0, r0 := line.sent, line.replies;
    file, log, done := [], [], 0;
    r := Ok(());
    var block: uint8 := 0;
    while block < 20
      invariant done == block as nat <= Blocks && r.Ok?
      invariant line.sent == s0 + DumpRequests(done) && line.replies == r0 + log
      invariant Dumped(log, done, file)
      invariant line.baud == old(line.baud) && line.Heard()
    {
      r, file, log := DumpBlock(line, buf, memblob, block, s0, r0, log, file);
      if r.Err? {
        return;
      }
      block := block + 1;
      done := done + 1;
    }
    ImageAtLeast(log, Blocks);
  }

  /**
   * One pass of the block loop after `log` and `file` hold the earlier blocks: blocks 2 to 5
   * write the 0x4000 bytes of memblob, the others are read chunk by chunk, each chunk's data
   * written as it arrives.
   */
  method DumpBlock(line: Line, buf: array<uint8>, memblob: array<uint8>, block: uint8,
                   ghost sent0: seq<seq<uint8>>, ghost replies0: seq<seq<uint8>>, ghost log: seq<seq<uint8>>, file: seq<uint8>)
    returns (r: Result<()>, file1: seq<uint8>, ghost log1: seq<seq<uint8>>)
    requires buf.Length == BufSize && memblob[..] == Filler(BlockSize) && block < 20
    requires line.sent == sent0 + DumpRequests(block as nat) && line.replies == replies0 + log
    requires Dumped(log, block as nat, file)
    requires line.Heard()
    modifies line, buf
    ensures line.Heard()
    ensures line.replies == replies0 + log1 && log <= log1 && file <= file1
    ensures r.Ok? ==> line.sent == sent0 + DumpRequests(block as nat + 1) && Dumped(log1, block as nat + 1, file1) &&
                      file1 == file + BlockImage(log1, block as nat)
    ensures r.Err? ==> !Skipped(block as nat) &&
                       sent0 + DumpRequests(block as nat) < line.sent <= sent0 + DumpRequests(block as nat + 1)
    ensures r.Err? ==> |log1| >= BlockStart(block as nat) && Image(log1, block as nat) <= file1
    ensures r.Err? ==> ChunksAtLeast(log1, block as nat, MinChunkReply) && LastFailedWith(line, r.error)
    ensures line.baud == old(line.baud)
  {
    if block > 1 && block < 6 {
      DumpSkipStep(sent0, log, block as nat, file);
      file1, log1 := file + memblob[..], log;
      assert file <= file1;
      return Ok(()), file1, log1;
    }
    var data;
    ghost var replies;
    r, data, replies := ReadBlock(line, buf, block);
    DumpLogsStep(sent0, replies0, log, block as nat, replies);
    file1, log1 := file + data, log + replies;
    assert log <= log1 && file <= file1;
    ImageExtend(log, replies, block as nat);
    if r.Err? {
      return;
    }
    DumpStep(log, block as nat, file, replies, data);
    assert Image(log1, block as nat + 1) == Image(log1, block as nat) + BlockImage(log1, block as nat);
  }

  /** A skipped block sends nothing, reads nothing and adds its filler to the image. */
  lemma DumpSkipStep(sent0: seq<seq<uint8>>, log: seq<seq<uint8>>, block: nat, file: seq<uint8>)
    requires block < Blocks && Skipped(block) && Dumped(log, block, file)
    ensures sent0 + DumpRequests(block + 1) == sent0 + DumpRequests(block)
    ensures Dumped(log, block + 1, file + Filler(BlockSize))
  {
    DumpRequestsStep(block);
    assert DumpRequests(block + 1) == DumpRequests(block);
  }

  /**
   * A fetched block whose request and 512 chunks were accepted, each chunk reply at least 53
   * bytes long, takes the dump one block further with its chunks' data added to the file.
   */
  lemma DumpStep(log: seq<seq<uint8>>, block: nat, file: seq<uint8>, replies: seq<seq<uint8>>, data: seq<uint8>)
    requires block < Blocks && !Skipped(block) && Dumped(log, block, file)
    requires |replies| > 0 && Validate(|Frame(BlockRequest(block as uint8))|, replies[0]).Ok?
    requires ChunkRun(ChunksPerBlock, replies[1..], data)
    ensures Dumped(log + replies, block + 1, file + data)
  {
    DumpAcceptedStep(log, block, replies, data);
    DumpImageStep(log, block, replies, data);
  }

  /** The logs after a fetched block: the block's frames and replies follow the earlier ones. */
  lemma DumpLogsStep(sent0: seq<seq<uint8>>, replies0: seq<seq<uint8>>, log: seq<seq<uint8>>, block: nat, replies: seq<seq<uint8>>)
    requires block < Blocks && !Skipped(block)
    ensures sent0 + DumpRequests(block + 1) == sent0 + DumpRequests(block) + BlockRequests(block as uint8)
    ensures replies0 + (log + replies) == replies0 + log + replies
  {
    DumpRequestsStep(block);
  }

  /**
   * A fetched block whose request and 512 chunks were accepted extends the accepted run by the
   * block's 513 exchanges.
   */
  lemma DumpAcceptedStep(log: seq<seq<uint8>>, block: nat, replies: seq<seq<uint8>>, data: seq<uint8>)
    requires block < Blocks && !Skipped(block) && |log| == BlockStart(block)
    requires AllAccepted(DumpRequests(block), log)
    requires |replies| > 0 && Validate(|Frame(BlockRequest(block as uint8))|, replies[0]).Ok?
    requires ChunkRun(ChunksPerBlock, replies[1..], data)
    ensures |replies| == RepliesPerBlock && |log + replies| == BlockStart(block + 1)
    ensures AllAccepted(DumpRequests(block + 1), log + replies)
  {
    BlockAccepted(block as uint8, replies);
    DumpRequestsStep(block);
    AcceptedJoin(DumpRequests(block), log, BlockRequests(block as uint8), replies);
  }

  /** A fetched block whose request and 512 chunks were accepted: its 513 exchanges were accepted. */
  lemma BlockAccepted(block: uint8, replies: seq<seq<uint8>>)
    requires !Skipped(block as nat)
    requires |replies| > 0 && Validate(|Frame(BlockRequest(block))|, replies[0]).Ok?
    requires AllAccepted(ChunkRequests(ChunksPerBlock), replies[1..])
    ensures |replies| == RepliesPerBlock && AllAccepted(BlockRequests(block), replies)
  {
    var chunks, request := replies[1..], Frame(BlockRequest(block));
    assert replies == [replies[0]] + chunks;
    assert AllAccepted([request], [replies[0]]);
    AcceptedJoin([request], [replies[0]], ChunkRequests(ChunksPerBlock), chunks);
    assert BlockRequests(block) == [request] + ChunkRequests(ChunksPerBlock);
  }

  /**
   * A fetched block whose 512 chunk replies are each at least 53 bytes long keeps every chunk
   * reply of the log at least 53 bytes and adds its chunks' data to the image.
   */
  lemma DumpImageStep(log: seq<seq<uint8>>, block: nat, replies: seq<seq<uint8>>, data: seq<uint8>)
    requires block < Blocks && !Skipped(block) && |log| == BlockStart(block)
    requires ChunksAtLeast(log, block, MinChunkReply)
    requires |replies| == RepliesPerBlock && ChunkRun(ChunksPerBlock, replies[1..], data)
    ensures ChunksAtLeast(log + replies, block + 1, MinChunkReply)
    ensures Image(log + replies, block + 1) == Image(log, block) + data
  {
    ImageExtend(log, replies, block);
    NextBlockChunks(log, block, replies);
  }

  /** The chunk replies of the block whose replies follow the log of the earlier blocks. */
  lemma NextBlockChunks(log: seq<seq<uint8>>, block: nat, replies: seq<seq<uint8>>)
    requires block < Blocks && !Skipped(block) && |log| == BlockStart(block) && |replies| == RepliesPerBlock
    ensures |log + replies| >= BlockStart(block) + RepliesPerBlock
    ensures BlockChunks(log + replies, block) == replies[1..]
  {
    AfterPrefix(log, replies);
  }

  /** Past a prefix, a concatenation holds the rest of the second part. */
  lemma AfterPrefix<T>(a: seq<T>, b: seq<T>)
    requires |b| > 0
    ensures (a + b)[|a| + 1..|a| + |b|] == b[1..]
  {
    assert forall i | 0 <= i < |b| - 1 :: (a + b)[|a| + 1..|a| + |b|][i] == b[1..][i];
  }

  /**
   * The byte main.c tests for a successful login: byte 14 of buf after the key reply is read
   * into it. It is the key reply's own byte when that reply has at least 15 bytes, and otherwise
   * byte 14 of the challenge reply still in buf.
   */
  function LoginByte(keyReply: seq<uint8>, challengeReply: seq<uint8>): uint8
    requires |challengeReply| > 14
  {
    if |keyReply| > 14 then keyReply[14] else challengeReply[14]
  }

  /**
   * The handshake and challenge replies of a login that got its challenge: four accepted
   * handshake replies, then challenge replies of which only the last, at most the 11th, has 17
   * bytes.
   */
  ghost predicate ChallengeRead(handshake: seq<seq<uint8>>, challenges: seq<seq<uint8>>)
  {
    |handshake| == 4 && AllAccepted(HandshakeFrames(), handshake) &&
    1 <= |challenges| <= MaxRetries + 1 && |Last(challenges)| == ChallengeLength &&
    (forall j | 0 <= j < |challenges| - 1 :: |challenges[j]| != ChallengeLength)
  }

  /** The replies of a login whose key reply was accepted, whatever its login byte. */
  ghost predicate KeyAnswered(handshake: seq<seq<uint8>>, challenges: seq<seq<uint8>>, keyReply: seq<uint8>)
  {
    ChallengeRead(handshake, challenges) &&
    Validate(|Frame(LoginResponse(KeyFor(Last(challenges))))|, keyReply).Ok?
  }

  /** The replies of a successful login: an accepted key reply that leaves 0x67 as the login byte. */
  ghost predicate LoggedIn(handshake: seq<seq<uint8>>, challenges: seq<seq<uint8>>, keyReply: seq<uint8>)
  {
    KeyAnswered(handshake, challenges, keyReply) && LoginByte(keyReply, Last(challenges)) == 0x67
  }

  /**
   * The replies of a login that ran out of challenge requests: four accepted handshake replies,
   * then 11 challenge replies none of which has 17 bytes.
   */
  ghost predicate ChallengeMissing(handshake: seq<seq<uint8>>, challenges: seq<seq<uint8>>)
  {
    |handshake| == 4 && AllAccepted(HandshakeFrames(), handshake) &&
    |challenges| == MaxRetries + 1 && forall j | 0 <= j < |challenges| :: |challenges[j]| != ChallengeLength
  }

  /** The frames of a login whose challenge replies were `challenges`. */
  function LoginFrames(challenges: seq<seq<uint8>>): seq<seq<uint8>>
    requires |challenges| > 0 && |Last(challenges)| >= 16
  {
    HandshakeFrames() + Repeat(Frame(LoginRequest), |challenges|) + [Frame(LoginResponse(KeyFor(Last(challenges))))]
  }

  /**
   * The handshake stopped at its last exchange: the replies before the last were accepted and
   * the last was refused with e.
   */
  ghost predicate HandshakeRefused(handshake: seq<seq<uint8>>, e: Error)
  {
    1 <= |handshake| <= 4 &&
    AllAccepted(HandshakeFrames()[..|handshake| - 1], handshake[..|handshake| - 1]) &&
    Validate(|HandshakeFrames()[|handshake| - 1]|, Last(handshake)) == Err(e)
  }

  /** The login got its challenge and the key reply was refused with e. */
  ghost predicate KeyRefused(handshake: seq<seq<uint8>>, challenges: seq<seq<uint8>>, keyReply: seq<uint8>, e: Error)
  {
    ChallengeRead(handshake, challenges) &&
    Validate(|Frame(LoginResponse(KeyFor(Last(challenges))))|, keyReply) == Err(e)
  }

  /**
   * How a login that started with the logs sent0 and replies0 can stop with e, leaving the logs
   * sent and replies: out of challenge requests, on a login byte other than 0x67, or on a refused
   * reply to a handshake request or to the key. It never stops with PartialBlock.
   */
  ghost predicate LoginStopped(e: Error, sent0: seq<seq<uint8>>, replies0: seq<seq<uint8>>,
                               sent: seq<seq<uint8>>, replies: seq<seq<uint8>>,
                               handshake: seq<seq<uint8>>, challenges: seq<seq<uint8>>, keyReply: seq<uint8>)
  {
    match e
    case NoChallenge =>
      ChallengeMissing(handshake, challenges) &&
      sent == sent0 + HandshakeFrames() + Repeat(Frame(LoginRequest), MaxRetries + 1) &&
      replies == replies0 + handshake + challenges
    case LoginFailed =>
      KeyAnswered(handshake, challenges, keyReply) && LoginByte(keyReply, Last(challenges)) != 0x67 &&
      sent == sent0 + LoginFrames(challenges) && replies == replies0 + handshake + challenges + [keyReply]
    case PartialBlock => false
    case _ =>
      (HandshakeRefused(handshake, e) && challenges == [] &&
       sent == sent0 + HandshakeFrames()[..|handshake|] && replies == replies0 + handshake) ||
      (KeyRefused(handshake, challenges, keyReply, e) &&
       sent == sent0 + LoginFrames(challenges) && replies == replies0 + handshake + challenges + [keyReply])
  }

  /**
   * The login after the fast-init answer is read: the handshake, the switch to 64200 baud, the
   * challenge request and the key reply. Succeeds only when each of them does; the replies it
   * read are the handshake's, the challenge requests' and the key reply, in that order. Fails
   * with NoChallenge exactly when the challenge requests run out, with LoginFailed exactly when
   * the accepted key reply leaves another login byte, and otherwise on a refused reply.
   */
  method Login(line: Line, buf: array<uint8>)
    returns (r: Result<()>, ghost handshake: seq<seq<uint8>>, ghost challenges: seq<seq<uint8>>, ghost keyReply: seq<uint8>)
    requires buf.Length == BufSize
    requires line.Heard()
    modifies line, buf
    ensures line.Heard()
    ensures r.Ok? ==> LoggedIn(handshake, challenges, keyReply) && line.sent == old(line.sent) + LoginFrames(challenges)
    ensures r.Ok? ==> line.replies == old(line.replies) + handshake + challenges + [keyReply]
    ensures r.Ok? ==> line.baud == FastBaud
    ensures r.Err? ==> LoginStopped(r.error, old(line.sent), old(line.replies), line.sent, line.replies,
                                    handshake, challenges, keyReply)
  {
    handshake, challenges, keyReply := [], [], [];
    ghost var s0 := line.sent;
    r, handshake := Handshake(line, buf);
    if r.Err? {
      return;
    }
    assert HandshakeFrames()[..|handshake|] == HandshakeFrames();
    line.SetBaud(FastBaud);
    r, challenges := RequestChallenge(line, buf);
    if r.Err? {
      return;
    }
    ghost var challenge := Last(challenges);
    assert challenge[12..16] == buf[..16][12..16];
    assert buf[14] == challenge[14];
    ghost var s2 := line.sent;
    r, keyReply := SendKey(line, buf);
    assert line.sent == s0 + LoginFrames(challenges) by {
      assert s2 == s0 + HandshakeFrames() + Repeat(Frame(LoginRequest), |challenges|);
    }
  }

  /**
   * The whole session after the port is open: the discard read of the fast-init answer into buf,
   * the login and the block loop. Succeeds only when every step does; the file is then the image
   * of the dump's replies, which follow the login's replies on the line. Fails as Login does, or
   * on a refused or short reply of the dump.
   */
  method Run(line: Line) returns (r: Result<()>, file: seq<uint8>, ghost wake: seq<uint8>,
                                  ghost handshake: seq<seq<uint8>>, ghost challenges: seq<seq<uint8>>,
                                  ghost keyReply: seq<uint8>, ghost log: seq<seq<uint8>>, ghost done: nat)
    requires line.Heard()
    modifies line
    ensures line.Heard()
    ensures wake == old(line.inbox)[..Min(BufSize, |old(line.inbox)|)]
    ensures r.Ok? ==> LoggedIn(handshake, challenges, keyReply) &&
                      line.sent == old(line.sent) + LoginFrames(challenges) + DumpRequests(Blocks)
    ensures r.Ok? ==> line.replies == old(line.replies) + [wake] + handshake + challenges + [keyReply] + log
    ensures r.Ok? ==> line.baud == FastBaud && Dumped(log, Blocks, file) && |file| >= Blocks * BlockSize
    ensures r.Err? ==>
              LoginStopped(r.error, old(line.sent), old(line.replies) + [wake], line.sent, line.replies,
                           handshake, challenges, keyReply) ||
              (LoggedIn(handshake, challenges, keyReply) &&
               DumpStopped(line, r.error, old(line.sent) + LoginFrames(challenges), log, done, file) &&
               line.replies == old(line.replies) + [wake] + handshake + challenges + [keyReply] + log)
  {
    file, handshake, challenges, keyReply, log, done := [], [], [], [], [], 0;
    var memblob := new uint8[BlockSize](_ => 0xFF);
    assert memblob[..] == Filler(BlockSize);
    var buf := new uint8[BufSize];
    var _ := line.ReadMsg(buf, BufSize);
    wake := Last(line.replies);
    r, handshake, challenges, keyReply := Login(line, buf);
    if r.Err? {
      return;
    }
    ghost var s1 := line.sent;
    r, file, log, done := DumpMemory(line, buf, memblob);
    assert s1 == old(line.sent) + LoginFrames(challenges);
  }
}
