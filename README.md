# 5am_util in Dafny

5am_util downloads the firmware of a Marelli IAW 5AM engine control unit over a KKL (K-line)
adapter. It opens the serial device and wakes the ECU. Then it runs a fixed session:

- a four-request handshake (init, diag, info, diag2);
- the switch from 10400 to 64200 baud;
- a login: request a seed, derive a key from it, send the key back;
- a dump of twenty 0x4000-byte blocks, read 32 bytes at a time, into an output file.

Every frame on the line is a payload followed by an 8-bit wrap-around checksum. The adapter
echoes each frame before the ECU's reply, which ends in its own checksum.

The model covers main.c and the rotation macros of util.h, in these modules:

- `Types`: the fixed-width integers, and the errors main.c raises through `fatal()`. Here a
  `fatal()` is an `Err` result that ends the session.
- `Framing` (`checksum`, the frame `write_msg` builds, `process_message`'s reply test):
  - the checksum is a loop specified by the byte sum mod 256;
  - the reply test is a pure function.
- `Link`: a `Line` class for the serial line, with `write_msg`, `read_msg` and
  `process_message` as methods that change its state. The far end is a function. After every
  write it gives the bytes that arrive, echo included, as a function of every frame written so
  far. Unread bytes wait in `inbox`. Ghost logs record the frames sent and every read's result.
  The class invariant `Heard` ties the logs to the far end: the results of all reads so far,
  followed by the unread bytes, are exactly the wake-up bytes and then the far end's answers to
  the frames sent, in order. Every method on a line keeps it, so every reply in the model is
  bytes that actually arrived.
- `Key`: `calc_key`, and the big-endian byte order of the seed and the key. Its `|`s are
  written as `+`, because the operands occupy disjoint bytes.
- `Dump`: specification functions for the dump. They give the frames the block loop sends and
  the file it writes, as functions of the replies it gets.
- `Session`: `main`'s phases as methods over a `Line`: handshake, challenge retries, key reply,
  the block and chunk loops, and the whole run. Each is proved against the functions above.
- `Util`: `rol8` and `ror8` on bitvectors. They are computed at 32 bits, as C's integer
  promotion does.

Details of the code the model keeps:

- `calc_key` reads the challenge through a `uint16_t *`. On a little-endian host, `q[0]` is
  the low half of the challenge and `q[1]` the high half, and the model fixes that byte order.
  The low half is byte-swapped and divided by 0xA1, and the high half is taken mod 200. So
  challenge 0x0139F7B3 gives key 0x1E716927 (`Key.KeyVector`).
- Login success is decided by `buf[14] == 0x67`. That byte belongs to the key reply only when
  the reply has at least 15 bytes. A shorter reply that passes the checksum leaves byte 14 of
  the challenge reply in place. `Session.SendKey` and `Session.LoginByte` model this as written.

## Model

| member | source | states |
|---|---|---|
| Framing.Checksum | main.c:25-34 | the 8-bit accumulator loop returns the byte sum of the input mod 256 |
| Framing.ChecksumConcat | main.c:25-34 | the checksum of no bytes is 0; the checksum of a concatenation is the sum of the parts' checksums mod 256 |
| Framing.SumAppend | main.c:29-31 | the byte sum the checksum reduces is additive over concatenation |
| Framing.SumReplace | main.c:29-31 | changing one byte changes the byte sum by the difference of the old and new byte |
| Framing.FrameShape | main.c:63-67 | a frame is one byte longer than its payload, starts with the payload and ends in its checksum |
| Framing.Validate | main.c:125-144 | a reply no longer than the echo fails with a short read; otherwise it fails with a checksum error or succeeds with the reply length |
| Framing.ValidateAcceptsFrames | main.c:129-138 | a reply is accepted if and only if it is longer than the echo and, past the echo, is a well-formed frame |
| Framing.EchoThenFrameAccepted | main.c:129-144 | an echo of any length followed by a frame is accepted, with its whole length as the result |
| Framing.CheckReply | main.c:128-144 | on the rlen bytes read into buf after a frame of wlen bytes, the test gives exactly Validate: a short read, the checksum failure with both values, or rlen |
| Framing.CorruptedPayloadRejected | main.c:133-138 | one changed payload byte under the original trailer fails with the changed checksum against the original |
| Link.Line.constructor | main.c:201-209 | the opened line runs at 10400 baud, has sent nothing and holds the wake-up bytes unread; Heard holds, with those bytes as everything that arrived so far |
| Link.Line.SetBaud | main.c:247-256 | the baud switch changes only the baud rate and keeps Heard |
| Link.Line.WriteMsg | main.c:59-82 | exactly the frame of the first len bytes of msg is written, and the far end's answer to it arrives after the bytes already waiting; the result is len + 1; msg is not changed; Heard is kept |
| Link.Line.ReadMsg | main.c:84-110 | never stores more than len bytes: stores the first min(len, bytes waiting) waiting bytes, logs them as the reply, leaves the rest of buf and the unread bytes alone, and keeps Heard |
| Link.Line.ProcessMessage | main.c:114-145 | writes one frame, reads at most recvLen (or 2048) of the bytes waiting after the far end's answer, and accepts the reply exactly as Validate does, with the frame length as the echo length; Heard is kept |
| Link.HeardAfterWrite | main.c:59-82 | after one more frame is written, the bytes read and the bytes waiting still add up to the wake-up bytes and every answer so far, the new answer last |
| Link.HeardAfterRead | main.c:84-110 | after a read of the first i waiting bytes, the replies read, now ending in those bytes, followed by the rest still add up to the same bytes |
| Link.AcceptedJoin | main.c:114-145 | two runs of accepted exchanges one after the other form one run |
| Key.KeyLayout | main.c:47-57 | the key, most significant byte first: byte-swapped low half / 0xA1 (low 8 bits), high half mod 200 (so below 200), 0x69, 0x27 |
| Key.KeyDependsOnHalves | main.c:47-57 | the key depends on the challenge only through those two bytes |
| Key.KeyVector | main.c:47-57 | challenge 0x0139F7B3 gives key 0x1E716927 |
| Key.ByteSwap16Twice | main.c:50 | the 16-bit swap exchanges the two bytes and undoes itself |
| Key.Be32OfToBe32 | main.c:275-281 | writing a word big-endian and reading it back gives the word |
| Key.ToBe32OfBe32 | main.c:275-281 | reading four bytes big-endian and writing them back gives the bytes |
| Session.LoginResponseLayout | main.c:280-281 | login_response keeps its five fixed bytes, and its last four read back big-endian as the key |
| Session.HandshakeWire | main.c:165-168 | the four handshake frames on the line, byte for byte: init, diag, info and diag2, each followed by its checksum (0x03, 0x18, 0x1D, 0xC6) |
| Session.Handshake | main.c:236-245 | sends the four handshake frames in order and stops at the first refused reply; succeeds if and only if all four replies, each the bytes that arrived on the line (Heard), are accepted; on a failure, the replies before the last were accepted and the last was refused with the error returned |
| Session.RequestChallenge | main.c:258-273 | sends the login request at most 11 times, until a reply of exactly 17 bytes arrives on the line (Heard); otherwise fails with NoChallenge after 11 |
| Session.SendKey | main.c:275-288 | sends login_response with calc_key of the big-endian word at bytes 12 to 15; succeeds if and only if the reply that arrives (Heard) is accepted and buf[14] is then 0x67 |
| Session.Login | main.c:236-288 | a successful login sent the handshake, 1 to 11 login requests and the key derived from the last challenge reply, and left the line at 64200 baud; its replies, the bytes that arrived (Heard), are the four accepted handshake replies, challenge replies of which only the last has 17 bytes, and an accepted key reply leaving 0x67 at byte 14 of buf. A failure says which exchange failed and what was sent: NoChallenge after the handshake and exactly 11 login requests with no 17-byte reply; LoginFailed after the whole login when the accepted key reply leaves another byte there; otherwise a refused handshake reply (the earlier ones accepted, no later frame sent) or a refused key reply after the whole login |
| Session.ReadChunk | main.c:314-326 | one chunk request carrying its offset; fails on a refused reply or one under 53 bytes, and otherwise yields bytes 20 up to the checksum of the reply that arrived (Heard) |
| Session.ReadChunks | main.c:313-330 | a successful block sent the 512 chunk requests at offsets 0x4000 to 0x7FE0 in order; every reply, the bytes that arrived (Heard), was accepted and had at least 53 bytes; the data is their payloads in order. After a failure the frames sent are a non-empty prefix of those 512, the replies before the last were accepted with at least 53 bytes and their payloads are the data, and the last reply is the refused or short one |
| Session.ChunkRequestArray | main.c:316-318 | the chunk request buffer holds the request with the offset high byte first in bytes 6 and 7 |
| Session.ChunkStep | main.c:320-326 | one more accepted chunk of at least 53 bytes extends the run by its reply and its data |
| Session.ReadBlock | main.c:306-330 | a fetched block sends the block request and then its 512 chunk requests, and every reply, the bytes that arrived (Heard), is accepted; after a failure the frames sent are a non-empty prefix of the block's frames |
| Session.BlockAccepted | main.c:306-330 | a block whose request and chunks were accepted accounts for exactly 513 accepted exchanges |
| Session.DumpMemory | main.c:297-332 | a successful dump sent exactly the dump's frames in order, every exchange was accepted, and the file is the image of the replies that arrived (Heard), at least 20 * 0x4000 bytes. A failure happens in fetched block `done`: the frames sent are the earlier blocks' and a non-empty prefix of that block's, the last reply is the refused or short one, and the file starts with the image of the blocks before it |
| Session.DumpBlock | main.c:299-331 | the log and the file only grow; blocks 2 to 5 add 0x4000 bytes of 0xFF and send nothing; the others send their 513 frames and add their block image, the chunk data of the replies that arrived (Heard) in order; a failure leaves a non-empty prefix of the block's frames sent |
| Session.DumpStep | main.c:306-331 | a block whose exchanges were all accepted takes the dump one block further, with its chunk data added to the file |
| Session.DumpImageStep | main.c:320-326 | the chunk data of the next block extends the image, and every chunk reply of the log stays at least 53 bytes |
| Session.Run | main.c:229-339 | a successful session read the waiting fast-init answer (at most 4096 bytes), logged in as Login states, sent the dump's frames, and ends at 64200 baud; the dump's replies are the ones that arrived (Heard) after the login's, every one accepted, and the file is their image of at least 20 * 0x4000 bytes. A failure is either a login failure exactly as Login states it, with the fast-init answer read before it, or, after a successful login, a dump failure in block `done` as DumpMemory states it |
| Dump.ChunkRequestOffset | main.c:316-318 | a chunk request carries its offset big-endian in bytes 6 and 7, and its other bytes are fixed |
| Dump.DumpRequestsLayout | main.c:298-318 | the dump's frames go block by block: those of fetched block b start at its position in the log and are its block request, then its chunk requests |
| Dump.DumpRequestsStep | main.c:298-318 | each block appends its frames: none for blocks 2 to 5, 513 for the others |
| Dump.DumpRequestsCount | main.c:298-318 | the first n blocks send 513 frames per fetched block |
| Dump.DumpFrameTotal | main.c:298-318 | the whole dump sends 16 * 513 frames |
| Dump.PayloadsLength | main.c:321-325 | chunk replies of at least 53 bytes give at least 32 data bytes each, and exactly 53 give exactly 32 |
| Dump.ImageAtLeast | main.c:298-332 | with every chunk reply at least 53 bytes, the first n blocks write at least n * 0x4000 bytes |
| Dump.ImageExactly | main.c:298-332 | with every chunk reply exactly 53 bytes, the first n blocks write exactly n * 0x4000 bytes |
| Dump.ImagePrefix | main.c:298-332 | the file only grows: the image of fewer blocks is a prefix of the image of more |
| Dump.ImageExtend | main.c:298-332 | replies read after the first n blocks change neither their image nor their chunks |
| Dump.ImageLayout | main.c:298-332 | with every chunk reply exactly 53 bytes, the file is 20 * 0x4000 bytes, and block b sits at b * 0x4000: 0xFF filler for blocks 2 to 5, the chunk data in order otherwise |
| Dump.ImageBlock | main.c:298-332 | block b is the last 0x4000 bytes of the first b + 1 blocks |
| Util.Rol8Rotates | util.h:44-45 | rol8 stored in a byte is the left rotation by n, for every n from 0 to 8 |
| Util.Ror8Rotates | util.h:46-47 | ror8 stored in a byte is the right rotation by n, for every n from 0 to 8 |
| Util.RolUndoesRor | util.h:44-47 | rol8 undoes ror8 by the same amount when each result is stored in a byte |
| Util.RorUndoesRol | util.h:44-47 | ror8 undoes rol8 by the same amount when each result is stored in a byte |
| Util.Ror8Unmasked | util.h:46-47 | above the rotated byte, ror8 carries b >> n, so its value exceeds 0xFF exactly when b >> n is not 0 |
| Util.Rol8Unmasked | util.h:44-45 | above the rotated byte, rol8 carries the top n bits of b, so its value exceeds 0xFF exactly when they are not all 0 |
| Util.Ror8OfAllOnes | util.h:46-47 | ror8(0xFF, 1) is 0x7FFF, and only its low byte 0xFF is the rotation |

## Left out

- `fast_init`: the break pulse and the `usleep` timing are line I/O. Its effect, the wake-up bytes
  waiting on the line, is the `Line` constructor's `wake` argument.
- termios2 setup: the port settings are OS configuration. Only the baud rate is kept, as a field
  of `Line`. The `ioctl` failure paths are not modelled.
- `open`, `poll`, `read` and `write`: the idle timeout, a failed read, end of file and partial
  writes are not modelled. A read takes every byte waiting, up to its limit. How many bytes
  arrive before the line goes idle is the far end's `respond` function.
- The initial raw `read()` after the fast init: it is modelled as `ReadMsg` with the same limit,
  because both just drain what is waiting.
- `sleep(1)` before each challenge read: timing only.
- The `debug` and `timeout` globals, `getopt` and `help`, `printf`, the colours, the spinner and
  `dump_hex`: option handling and output only. The timeout's effect is inside `respond`.
- The hardware-version string: it is only printed.
- `fopen`, `fwrite`, `fflush` and `fclose`: the output file is the sequence of bytes written to
  it. Failing to open it is not modelled, and the dump's frames here follow the login
  directly.
- `ft_malloc`'s allocation failure: memory is unbounded here.
- The exit status: `fatal()` ends the process with status 0. Here every `fatal()` is an `Err`;
  the status is not modelled.
- fw.h is not part of this model: it declares a structure that no modelled code uses.
- Host byte order: `calc_key`'s pointer cast and the `ntohl`, `htonl` and `htons` loads are
  fixed to a little-endian host. The aliasing itself is not modelled.
- `b1 << 24` on a signed `int` is undefined in C for b1 >= 0x80. The model takes the intended
  32-bit value.
- DumpMemory: after a failure, the file is stated to start with the image of the finished
  blocks. The data of the failed block's chunks accepted before the failure is not stated,
  although main.c has already written it after that image.
- DumpBlock: after a failure, likewise only the image of the earlier blocks is stated.
- ReadBlock: after a failure, the data of the chunks accepted before it is not stated
  (ReadChunks states it).
- Shift amounts above 8 in `rol8` and `ror8`: one of the two shifts would be negative, which
  is undefined in C. The model takes n from 0 to 8.
