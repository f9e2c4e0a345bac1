/**
 * The serial line to the K-line adapter and the ECU behind it, and main.c's three primitives on
 * it: write_msg, read_msg and process_message.
 *
 * The far end is a function: after every frame written, `respond` gives the bytes that arrive,
 * echo included, as a function of all frames written so far. Bytes that have arrived and are not
 * read yet wait in `inbox`. A read takes what is waiting, up to its limit; this stands for
 * read_msg's poll loop, which reads until the line stays idle for the timeout.
 */
module Link {
  import opened Types
  import opened Framing

  /** Every frame exchanged was answered by a reply that process_message accepts. */
  ghost predicate AllAccepted(frames: seq<seq<uint8>>, replies: seq<seq<uint8>>)
  {
    |frames| == |replies| &&
    forall k | 0 <= k < |frames| :: Validate(|frames[k]|, replies[k]).Ok?
  }

  /** One more accepted exchange extends a run of accepted exchanges. */
  lemma AcceptedStep(frames: seq<seq<uint8>>, replies: seq<seq<uint8>>, frame: seq<uint8>, reply: seq<uint8>)
    requires AllAccepted(frames, replies) && Validate(|frame|, reply).Ok?
    ensures AllAccepted(frames + [frame], replies + [reply])
  {
  }

  /** Two runs of accepted exchanges, one after the other, are one run. */
  lemma AcceptedJoin(frames1: seq<seq<uint8>>, replies1: seq<seq<uint8>>, frames2: seq<seq<uint8>>, replies2: seq<seq<uint8>>)
    requires AllAccepted(frames1, replies1) && AllAccepted(frames2, replies2)
    ensures AllAccepted(frames1 + frames2, replies1 + replies2)
  {
    forall k | |frames1| <= k < |frames1| + |frames2|
      ensures Validate(|(frames1 + frames2)[k]|, (replies1 + replies2)[k]).Ok?
    {
      assert (frames1 + frames2)[k] == frames2[k - |frames1|];
      assert (replies1 + replies2)[k] == replies2[k - |frames1|];
    }
  }

  /** What the far end sent in answer to the first n frames written, in order. */
  ghost function Answers(respond: seq<seq<uint8>> -> seq<uint8>, sent: seq<seq<uint8>>, n: nat): seq<uint8>
    requires n <= |sent|
  {
    if n == 0 then [] else Answers(respond, sent, n - 1) + respond(sent[..n])
  }

  /** The bytes of the first n replies, one after the other. */
  ghost function Flatten(replies: seq<seq<uint8>>, n: nat): seq<uint8>
    requires n <= |replies|
  {
    if n == 0 then [] else Flatten(replies, n - 1) + replies[n - 1]
  }

  /** A later frame does not change the answers to the earlier ones. */
  lemma {:induction false} AnswersExtend(respond: seq<seq<uint8>> -> seq<uint8>, sent: seq<seq<uint8>>, frame: seq<uint8>, n: nat)
    requires n <= |sent|
    ensures Answers(respond, sent + [frame], n) == Answers(respond, sent, n)
  {
    if n > 0 {
      AnswersExtend(respond, sent, frame, n - 1);
      assert (sent + [frame])[..n] == sent[..n];
    }
  }

  /** A later read does not change the bytes of the earlier ones. */
  lemma {:induction false} FlattenExtend(replies: seq<seq<uint8>>, reply: seq<uint8>, n: nat)
    requires n <= |replies|
    ensures Flatten(replies + [reply], n) == Flatten(replies, n)
  {
    if n > 0 {
      FlattenExtend(replies, reply, n - 1);
      assert (replies + [reply])[n - 1] == replies[n - 1];
    }
  }

  /**
   * After one more write, the bytes read and the bytes waiting still add up to all that arrived:
   * the answer to the new frame arrives after everything before it.
   */
  lemma HeardAfterWrite(respond: seq<seq<uint8>> -> seq<uint8>, sent: seq<seq<uint8>>, frame: seq<uint8>,
                        read: seq<uint8>, waiting: seq<uint8>, wake: seq<uint8>)
    requires read + waiting == wake + Answers(respond, sent, |sent|)
    ensures read + (waiting + respond(sent + [frame])) == wake + Answers(respond, sent + [frame], |sent| + 1)
  {
    var sent1 := sent + [frame];
    var before, answer := Answers(respond, sent, |sent|), respond(sent1);
    AnswersExtend(respond, sent, frame, |sent|);
    assert sent1[..|sent| + 1] == sent1;
    assert Answers(respond, sent1, |sent| + 1) == before + answer;
    Assoc(read, waiting, answer);
    Assoc(wake, before, answer);
  }

  /** After a read of the first i waiting bytes, they are the last reply and the rest still waits. */
  lemma HeardAfterRead(replies: seq<seq<uint8>>, waiting: seq<uint8>, i: nat)
    requires i <= |waiting|
    ensures Flatten(replies + [waiting[..i]], |replies| + 1) + waiting[i..] == Flatten(replies, |replies|) + waiting
  {
    var replies1, head, tail := replies + [waiting[..i]], waiting[..i], waiting[i..];
    FlattenExtend(replies, head, |replies|);
    assert replies1[|replies|] == head;
    assert Flatten(replies1, |replies| + 1) == Flatten(replies, |replies|) + head;
    assert head + tail == waiting;
    Assoc(Flatten(replies, |replies|), head, tail);
  }

  class Line {
    /** What arrives after each write, given every frame written so far (the last one included). */
    const respond: seq<seq<uint8>> -> seq<uint8>
    /** The frames written to the line, oldest first. */
    var sent: seq<seq<uint8>>
    /** Bytes that have arrived and are not read yet. */
    var inbox: seq<uint8>
    /** The result of every read, oldest first. */
    ghost var replies: seq<seq<uint8>>
    /** The line's baud rate. */
    var baud: nat
    /** The bytes the ECU sent after the fast-init pulse, before any frame was written. */
    ghost const wake0: seq<uint8>

    /**
     * The line's one invariant: the replies read so far, followed by what is still waiting, are
     * exactly what the far end has sent, so no read hands back a byte that did not arrive.
     */
    ghost predicate Heard()
      reads this
    {
      Flatten(replies, |replies|) + inbox == wake0 + Answers(respond, sent, |sent|)
    }

    /** The device opened and set to 10400 baud, with the bytes it sends after the fast-init pulse waiting. */
    constructor (wake: seq<uint8>, respond: seq<seq<uint8>> -> seq<uint8>)
      ensures this.respond == respond && sent == [] && inbox == wake && replies == [] && baud == 10400
      ensures wake0 == wake && Heard()
    {
      this.respond, wake0 := respond, wake;
      sent, inbox, replies, baud := [], wake, [], 10400;
    }

    /** The baud-rate switch (TCSETS2 with a new speed). */
    method SetBaud(rate: nat)
      requires Heard()
      modifies this
      ensures Heard()
      ensures baud == rate
      ensures sent == old(sent) && inbox == old(inbox) && replies == old(replies)
    {
      baud := rate;
    }

    /**
     * write_msg: copy the first len bytes of msg into a fresh buffer, put their checksum after
     * them and write the len + 1 bytes. The caller's msg is not touched.
     */
    method WriteMsg(msg: array<uint8>, len: nat) returns (n: nat)
      requires len <= msg.Length && Heard()
      modifies this
      ensures Heard()
      ensures sent == old(sent) + [Frame(msg[..len])]
      ensures inbox == old(inbox) + respond(sent)
      ensures replies == old(replies) && baud == old(baud)
      ensures n == len + 1 == |Frame(msg[..len])|
    {
      var buf := new uint8[len + 1];
      forall k | 0 <= k < len {
        buf[k] := msg[k];
      }
      assert buf[..len] == msg[..len];
      buf[len] := Checksum(buf[..len]);
      n := len + 1;
      assert buf[..] == Frame(msg[..len]);
      HeardAfterWrite(respond, sent, buf[..], Flatten(replies, |replies|), inbox, wake0);
      sent := sent + [buf[..]];
      inbox := inbox + respond(sent);
    }

    /**
     * read_msg: store arriving bytes one at a time into buf while the line has data, and stop
     * once len bytes are stored; bytes beyond len stay waiting. Never stores more than len bytes
     * and never touches buf beyond them.
     */
    method ReadMsg(buf: array<uint8>, len: nat) returns (i: nat)
      requires len <= buf.Length && Heard()
      modifies this, buf
      ensures Heard()
      ensures i == Min(len, |old(inbox)|)
      ensures buf[..i] == old(inbox)[..i] && buf[i..] == old(buf[i..])
      ensures inbox == old(inbox)[i..]
      ensures replies == old(replies) + [buf[..i]]
      ensures sent == old(sent) && baud == old(baud)
    {
      i := 0;
      while inbox != []
        invariant i <= len && i <= |old(inbox)|
        invariant inbox == old(inbox)[i..]
        invariant buf[..i] == old(inbox)[..i] && buf[i..] == old(buf[i..])
        invariant replies == old(replies) && sent == old(sent) && baud == old(baud)
        decreases |inbox|
      {
        if i == len {
          break;
        }
        buf[i] := inbox[0];
        inbox := inbox[1..];
        i := i + 1;
      }
      HeardAfterRead(replies, old(inbox), i);
      replies := replies + [buf[..i]];
    }

    /**
     * process_message: write the request as a frame, read the reply into recvBuf (a scratch
     * buffer of 2048 bytes when recvBuf is null), and accept it only as Validate does, with the
     * frame length as the echo length.
     */
    method ProcessMessage(send: array<uint8>, sendLen: nat, recvBuf: array?<uint8>, recvLen: nat)
      returns (r: Result<nat>)
      requires sendLen <= send.Length
      requires recvBuf != null ==> recvLen <= recvBuf.Length
      requires Heard()
      modifies this, recvBuf
      ensures Heard()
      ensures sent == old(sent) + [Frame(old(send[..sendLen]))]
      ensures |replies| > 0 && replies == old(replies) + [Last(replies)]
      ensures var arrived := old(inbox) + respond(sent);
              var n := Min(if recvBuf == null then 2048 else recvLen, |arrived|);
              Last(replies) == arrived[..n] && inbox == arrived[n..]
      ensures r == Validate(|Last(sent)|, Last(replies))
      ensures recvBuf != null ==>
                recvBuf[..|Last(replies)|] == Last(replies) &&
                recvBuf[|Last(replies)|..] == old(recvBuf[..])[|Last(replies)|..]
      ensures baud == old(baud)
    {
      var buf: array<uint8>, cap: nat;
      if recvBuf == null {
        buf := new uint8[2048];
        cap := 2048;
      } else {
        buf, cap := recvBuf, recvLen;
      }
      ghost var before := buf[..];
      var wlen := WriteMsg(send, sendLen);
      var rlen := ReadMsg(buf, cap);
      assert Last(replies) == buf[..rlen] && buf[rlen..] == before[rlen..];
      r := CheckReply(buf, wlen, rlen);
    }
  }
}
