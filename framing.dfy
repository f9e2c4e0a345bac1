/**
 * Frames on the K-line: a payload followed by one checksum byte, the 8-bit wrap-around sum of
 * the payload (main.c checksum and write_msg), and the test process_message applies to a reply.
 */
module Framing {
  import opened Types

  /** The plain integer sum of the bytes, against which the 8-bit checksum is specified. */
  function Sum(s: seq<uint8>): nat
  {
    if s == [] then 0 else Sum(s[..|s| - 1]) + s[|s| - 1]
  }

  /** The value checksum() computes: the byte sum reduced to eight bits. */
  function Checksum8(s: seq<uint8>): uint8
  {
    Sum(s) % 0x100
  }

  /** checksum(): accumulate into a uint8_t that wraps around after every addition. */
  method Checksum(bytes: seq<uint8>) returns (cs: uint8)
    ensures cs == Checksum8(bytes)
  {
    cs := 0;
    var i := 0;
    while i < |bytes|
      invariant 0 <= i <= |bytes|
      invariant cs == Sum(bytes[..i]) % 0x100
    {
      assert bytes[..i + 1][..i] == bytes[..i];
      assert Sum(bytes[..i + 1]) == Sum(bytes[..i]) + bytes[i];
      WrapAdd(Sum(bytes[..i]), bytes[i]);
      cs := (cs + bytes[i]) % 0x100;
      i := i + 1;
    }
    assert bytes[..i] == bytes;
  }

  /** Reducing before adding a byte wraps the same as reducing after. */
  lemma WrapAdd(a: nat, b: uint8)
    ensures (a % 0x100 + b) % 0x100 == (a + b) % 0x100
  {
    var q := a / 0x100;
    assert a + b == q * 0x100 + (a % 0x100 + b);
  }

  /** The frame write_msg puts on the line for a payload: the payload, then its checksum. */
  function Frame(payload: seq<uint8>): seq<uint8>
  {
    payload + [Checksum8(payload)]
  }

  /**
   * process_message's test of a reply of which the first wlen bytes are the adapter's echo of the
   * frame just written: the reply must be longer than the echo, and its last byte must be the
   * checksum of the ECU bytes between the echo and that last byte. On success the result is the
   * reply length.
   */
  function Validate(wlen: nat, reply: seq<uint8>): (r: Result<nat>)
    ensures r.Ok? ==> r.value == |reply| > wlen
    ensures r.Err? ==> r.error.ShortRead? || r.error.ChecksumFailed?
  {
    if |reply| <= wlen then
      Err(ShortRead)
    else
      var cs := Checksum8(reply[wlen..|reply| - 1]);
      if cs != reply[|reply| - 1] then Err(ChecksumFailed(cs, reply[|reply| - 1])) else Ok(|reply|)
  }

  /** The check that ends process_message, on the rlen bytes read into buf after writing a frame of wlen bytes. */
  method CheckReply(buf: array<uint8>, wlen: nat, rlen: nat) returns (r: Result<nat>)
    requires rlen <= buf.Length
    ensures r == Validate(wlen, buf[..rlen])
  {
    if rlen <= wlen {
      return Err(ShortRead);
    }
    assert buf[wlen..rlen - 1] == buf[..rlen][wlen..rlen - 1];
    var cs := Checksum(buf[wlen..rlen - 1]);
    if cs != buf[rlen - 1] {
      return Err(ChecksumFailed(cs, buf[rlen - 1]));
    }
    r := Ok(rlen);
  }

  /** Summing a concatenation adds the sums of its parts. */
  lemma {:induction false} SumAppend(a: seq<uint8>, b: seq<uint8>)
    ensures Sum(a + b) == Sum(a) + Sum(b)
  {
    if b == [] {
      assert a + b == a;
    } else {
      var b' := b[..|b| - 1];
      assert (a + b)[..|a + b| - 1] == a + b';
      SumAppend(a, b');
    }
  }

  /** The checksum of no bytes is 0, and the checksum of a concatenation is the 8-bit sum of the parts' checksums. */
  lemma ChecksumConcat(a: seq<uint8>, b: seq<uint8>)
    ensures Checksum8([]) == 0
    ensures Checksum8(a + b) == (Checksum8(a) + Checksum8(b)) % 0x100
  {
    SumAppend(a, b);
    ModAdd(Sum(a), Sum(b));
  }

  /** Reducing both addends before adding wraps the same as reducing the sum. */
  lemma ModAdd(x: nat, y: nat)
    ensures (x + y) % 0x100 == (x % 0x100 + y % 0x100) % 0x100
  {
    var qx, qy := x / 0x100, y / 0x100;
    assert x + y == (qx + qy) * 0x100 + (x % 0x100 + y % 0x100);
  }

  /** A frame keeps its payload in front and ends in the payload's checksum. */
  lemma FrameShape(payload: seq<uint8>)
    ensures |Frame(payload)| == |payload| + 1
    ensures Frame(payload)[..|payload|] == payload
    ensures Frame(payload)[|payload|] == Sum(payload) % 0x100
  {
  }

  /** A reply is accepted exactly when, past the echo, it is a well-formed frame of its own. */
  lemma ValidateAcceptsFrames(wlen: nat, reply: seq<uint8>)
    ensures Validate(wlen, reply).Ok? <==> |reply| > wlen && reply[wlen..] == Frame(reply[wlen..|reply| - 1])
  {
    if |reply| > wlen {
      var body := reply[wlen..|reply| - 1];
      assert reply[wlen..] == body + [reply[|reply| - 1]];
    }
  }

  /** Whatever the echo, an echo followed by a frame from the ECU passes, with the whole length. */
  lemma EchoThenFrameAccepted(echo: seq<uint8>, payload: seq<uint8>)
    ensures Validate(|echo|, echo + Frame(payload)) == Ok(|echo| + |payload| + 1)
  {
    var reply := echo + Frame(payload);
    assert reply[|echo|..|reply| - 1] == payload;
  }

  /** Changing one byte of the ECU payload under an unchanged trailer makes the reply fail its checksum. */
  lemma CorruptedPayloadRejected(echo: seq<uint8>, payload: seq<uint8>, i: nat, x: uint8)
    requires i < |payload| && x != payload[i]
    ensures Validate(|echo|, echo + payload[i := x] + [Checksum8(payload)])
         == Err(ChecksumFailed(Checksum8(payload[i := x]), Checksum8(payload)))
  {
    var bad := payload[i := x];
    var reply := echo + bad + [Checksum8(payload)];
    assert reply[|echo|..|reply| - 1] == bad;
    SumReplace(payload, i, x);
  }

  /** Replacing one byte changes the sum by the difference of the two bytes. */
  lemma SumReplace(s: seq<uint8>, i: nat, x: uint8)
    requires i < |s|
    ensures Sum(s[i := x]) == Sum(s) - s[i] + x
  {
    var pre, post := s[..i], s[i + 1..];
    assert s == pre + [s[i]] + post;
    assert s[i := x] == pre + [x] + post;
    SumAppend(pre + [s[i]], post);
    SumAppend(pre + [x], post);
    SumAppend(pre, [s[i]]);
    SumAppend(pre, [x]);
  }
}
