# GDB remote stub of the SOF firmware, modelled in Dafny

The firmware's GDB stub (`src/gdb/gdb.c`) speaks the GDB Remote Serial
Protocol over a debug transport. It has four parts:

- `get_packet` waits for `$` and collects the payload into
  `remcom_in_buffer`, keeping an 8-bit running checksum.
  - It restarts on every `$` and stops at `#` or one byte short of
    `GDB_BUFMAX`, then terminates the payload with a NUL.
  - After `#` it reads two checksum digits and acknowledges with `+`
    whether or not the checksum matches.
  - On a match with `:` at index 2 it echoes the two-byte sequence ID and
    returns the request from index 3.
- `put_packet` frames the NUL-terminated string in a buffer as
  `$payload#hh`, zeroing every byte it sends.
  - It sends the frame again until the debugger answers `+`.
- `get_hex` and `hex_to_int` decode hex digits.
  - `hex_to_int` shifts each digit into a 32-bit value, most significant
    first, and stops at the first byte that is not a digit.
- `parse_request` serves packets in a loop.
  - A `c` command stores its optional hex address in the program-counter
    slot of `sregs` and leaves the loop.
  - Because the buffer is never cleared between packets, a short packet can
    meet a `:` left at index 2 by an earlier one; the stub then echoes
    stale bytes and serves the stale request from index 3, which can resume
    the program.
  - Every other command is answered with `remcom_out_buffer`, which nothing
    ever fills, so the answer is the empty packet `$#00`.

The model has six modules:

- `Hex` (`hex.dfy`): byte and word types, the digit tables, `GetHex`, the
  value of a digit run, and `HexToInt` as a loop over an array.
- `Wire` (`wire.dfy`): framing bytes, the checksum and its two-digit
  encoding, and the frame.
- `Receiver` (`receiver.dfy`): `get_packet` as functions of the inbound
  buffer and the input bytes, with lemmas for every way a packet can end.
- `Sender` (`sender.dfy`): `put_packet` as a function of the buffer and the
  answers read, with lemmas on retransmission.
- `Dispatcher` (`dispatcher.dfy`): the request loop over the whole stub
  state as a value, with lemmas on what it changes.
- `Gdb` (`session.dfy`): class `Session`.
  - It holds the two buffers and `sregs` as arrays and the transport as
    `rx`/`tx`.
  - Its methods are the C functions' loops, each proved to compute exactly
    the function of the same step above.

The transport is explicit state:

- `get_debug_char` takes the next byte of `rx`.
- `put_debug_char` appends to `tx`.

A blocking read with no byte left is an outcome of its own: view `None`, or
exit `Drained`. The models prove what the stub does up to that point.

Unsigned-char arithmetic is written with `% 256`. The 32-bit `int`
accumulator of `hex_to_int` is written with `% 0x1_0000_0000`.

## Model

| member | source | states |
|---|---|---|
| Hex.GetHex | src/gdb/gdb.c:127-136 | `get_hex` returns -1 or a nibble value below 16 |
| Hex.GetHexTable | src/gdb/gdb.c:127-136 | `get_hex` gives the table position of a lower- or upper-case hex digit, and -1 exactly for a byte that no position of either table spells |
| Hex.HexCharsDecode | src/gdb/gdb.c:56 | decoding the digit `hex_chars` holds for a nibble gives that nibble back |
| Hex.HexRun | src/gdb/gdb.c:188-191 | the run of hex digits: all bytes before it are digits, and the byte after it (the NUL included) is not |
| Hex.HexRunOfDigits | src/gdb/gdb.c:188-191 | digits followed by a non-digit make a run of exactly that many digits |
| Hex.HexRunMaximal | src/gdb/gdb.c:188-191 | a prefix of digits followed by a non-digit is the whole run |
| Hex.HexValueSnoc | src/gdb/gdb.c:193 | unfolding lemma: one more digit shifts the value one hex place and adds the digit |
| Hex.HexToIntStep | src/gdb/gdb.c:193 | shifting the next digit into the 32-bit value of a run (`v << 4`, then the digit in the low nibble) gives the 32-bit value of the longer run |
| Hex.HexToInt | src/gdb/gdb.c:179-198 | returns the length of the digit run at the cursor and its value modulo 2^32, and stays before the NUL |
| Wire.Sum | src/gdb/gdb.c:92 | the `unsigned char` running checksum equals the plain byte total modulo 256 |
| Wire.SumSnoc | src/gdb/gdb.c:92 | the running checksum of a payload grows by each appended byte modulo 256 |
| Wire.ChecksumDigits | src/gdb/gdb.c:222-223 | the two checksum characters are hex digits and never framing bytes |
| Wire.XmitSum | src/gdb/gdb.c:100-103 | on two hex digits the received checksum is `16 * get_hex(hi) + get_hex(lo)` with no truncation |
| Wire.ChecksumRoundTrip | src/gdb/gdb.c:100-103 | the receiver's `(get_hex(hi) << 4) + get_hex(lo)` on the sender's two digits gives the checksum back |
| Wire.Frame | src/gdb/gdb.c:210-223 | the frame is four bytes longer than the payload, starts with `$`, has `#` right after the payload and ends in the two checksum digits |
| Wire.EmptyFrame | src/gdb/gdb.c:209-223 | the frame of the empty string is `$#00` |
| Receiver.SkipToStart | src/gdb/gdb.c:77-78 | the wait for `$` consumes at least the `$` it stops at |
| Receiver.SkipToStartSplit | src/gdb/gdb.c:77-78 | the wait finds nothing exactly when the input holds no `$`; otherwise it drops exactly the bytes up to and including the first `$` |
| Receiver.SkipNoise | src/gdb/gdb.c:77-78 | noise without `$` before a `$` is skipped |
| Receiver.Collect | src/gdb/gdb.c:85-95 | collecting never writes the last cell, stops at capacity exactly when `count` reaches `GDB_BUFMAX - 1`, and consumes a byte on `#` |
| Receiver.CollectPlain | src/gdb/gdb.c:92-94 | bytes other than `$` and `#` below capacity are stored in order and added to the checksum |
| Receiver.CollectRestart | src/gdb/gdb.c:88-89 | unfolding lemma: a `$` while collecting restarts from index 0 with checksum 0 |
| Receiver.CollectHash | src/gdb/gdb.c:90-91 | unfolding lemma: a `#` while collecting ends the payload |
| Receiver.Conclude | src/gdb/gdb.c:96-123 | the NUL goes after the payload unless input ran out; a `+` is sent exactly when `#` was followed by two more bytes; the rest after those two digits is returned; the view is 3 exactly when the sequence ID is echoed |
| Receiver.Receive | src/gdb/gdb.c:68-124 | `get_packet` keeps the buffer length and its last NUL, NUL-terminates the payload, returns a view at 0 or 3, and writes nothing or a `+` first |
| Receiver.ReceiveFrame | src/gdb/gdb.c:68-124 | a framed payload after noise: stored and NUL-terminated, summed, one `+` whether or not the checksum digits match, and the sequence-ID echo and view 3 only on a match with `:` at index 2 |
| Receiver.ConcludeHash | src/gdb/gdb.c:97-123 | unfolding lemma: after `#`: the NUL goes after the payload, two digits are read, `+` is sent on both outcomes, and the ID is echoed only on a match with `:` at index 2 |
| Receiver.RoundTrip | src/gdb/gdb.c:68-124 | a frame as `put_packet` writes it is received as its payload with a matching checksum |
| Receiver.SequenceIdEcho | src/gdb/gdb.c:115-119 | a payload `id0 id1 : body` is acknowledged with `+ id0 id1` and the request starts at the body |
| Receiver.StaleSequenceEcho | src/gdb/gdb.c:115-119 | after `$#00`, a `:` left at index 2 by an earlier packet makes the stub echo the new NUL and a stale byte and return a view past the payload |
| Receiver.ReceiveTruncated | src/gdb/gdb.c:85-97 | a payload reaching capacity fills all but the last cell, gets a NUL there, and is returned without reading or acknowledging a checksum |
| Receiver.ReceiveResync | src/gdb/gdb.c:79-89 | a `$` inside a packet discards it: the result is that of a packet starting at the second `$` |
| Sender.Payload | src/gdb/gdb.c:214 | the string sent is the NUL-free prefix of the buffer that is followed by its NUL |
| Sender.Cleared | src/gdb/gdb.c:214-216 | clearing keeps the buffer's length and leaves a NUL in it |
| Sender.ClearedBytes | src/gdb/gdb.c:214-216 | unfolding lemma: every byte of the string is zeroed and every byte after it is kept |
| Sender.ClearedEmpty | src/gdb/gdb.c:214-216 | after one pass the buffer holds the empty string, and a second pass zeroes nothing more |
| Sender.Transmit | src/gdb/gdb.c:202-226 | `put_packet` leaves the buffer cleared and never consumes more input than there is |
| Sender.TransmitStep | src/gdb/gdb.c:209-225 | unfolding lemma: one frame, then one byte read: `+` ends the call, anything else sends again from the cleared buffer |
| Sender.TransmitUntilAck | src/gdb/gdb.c:209-225 | with `n` answers before the first `+`, the stub sends the frame of the string, then `n` frames `$#00`, and returns just after the `+` |
| Sender.TransmitUnacked | src/gdb/gdb.c:209-225 | with no `+`, one frame per answer plus one, and the stub is still waiting |
| Sender.TransmitAcked | src/gdb/gdb.c:225 | `put_packet` returns exactly when a `+` arrives |
| Sender.TransmitEmpty | src/gdb/gdb.c:209-225 | an empty string is sent as `$#00` and leaves the buffer as it was |
| Dispatcher.Resume | src/gdb/gdb.c:159-164 | `c` writes only the program-counter slot, with the 32-bit value of the digits after it; with no digit the registers are unchanged |
| Dispatcher.Serve | src/gdb/gdb.c:144-173 | the request loop keeps the stub's shape and buffer sizes and never consumes more input than there is |
| Dispatcher.ServeOnlyTouchesPc | src/gdb/gdb.c:144-173 | the loop writes no saved register but the program counter, and none at all when it ends without a `c` |
| Dispatcher.ServeKeepsOutZero | src/gdb/gdb.c:170-171 | a zeroed outbound buffer stays zeroed through the whole loop |
| Dispatcher.ServeDrained | src/gdb/gdb.c:149-172 | unfolding lemma: running out of input while waiting for a packet or for the `+` of a reply ends the loop with the registers untouched |
| Dispatcher.ServeContinue | src/gdb/gdb.c:155-164 | unfolding lemma: a received `c` stores the argument's value and ends the loop |
| Dispatcher.ServeReply | src/gdb/gdb.c:165-171 | unfolding lemma: any other command is answered and, once acknowledged, the loop serves the rest of the input from the new state |
| Dispatcher.ContinueSetsPc | src/gdb/gdb.c:155-164 | a `c` packet with digits is acknowledged with `+`, stores the digits' 32-bit value in the program-counter slot and resumes |
| Dispatcher.ResumeDigits | src/gdb/gdb.c:160-161 | arguments starting with a digit run set the program counter to the run's value |
| Dispatcher.ReplyIsEmpty | src/gdb/gdb.c:171 | the answer from a zeroed outbound buffer is exactly `$#00` and is done at the first `+` |
| Dispatcher.UnknownCommandReply | src/gdb/gdb.c:165-171 | any command other than `c`, of any length (the empty packet included), whose packet does not leave a `:` at index 2 (one stale from an earlier packet counts when the payload is shorter than 3 bytes) is acknowledged and answered with `$#00`, and once that is acknowledged the next packet is served with the registers and outbound buffer unchanged |
| Dispatcher.ReceiveCommand | src/gdb/gdb.c:68-124 | a packet of any length without `:` at index 2 of the buffer it leaves (stale for payloads shorter than 3 bytes) is returned from index 0 after a single `+` |
| Dispatcher.StaleContinue | src/gdb/gdb.c:115-119 | a one-byte packet after an earlier packet that left `:c` at indexes 2 and 3 is echoed as `+`, the byte and the NUL, and resumes the program from the stale `c` request |
| Dispatcher.ServeStale | src/gdb/gdb.c:155-164 | a view at 3 over a stale `c` resumes with the stale arguments |
| Dispatcher.ReceiveContinue | src/gdb/gdb.c:155-160 | after a received `c` packet the digits follow the `c` and end at the NUL |
| Gdb.Session.constructor | src/gdb/gdb.c:53-59 | both buffers and `sregs` start zeroed, with distinct buffers of the same capacity |
| Gdb.Session.SkipStart | src/gdb/gdb.c:77-78 | the wait loop consumes input exactly as `SkipToStart` |
| Gdb.Session.CollectPayload | src/gdb/gdb.c:79-95 | the collecting loop leaves the buffer, count, checksum and input exactly as `Collect` |
| Gdb.Session.FinishPacket | src/gdb/gdb.c:96-123 | the NUL, checksum reading, acknowledgement and echo leave the state exactly as `Conclude` |
| Gdb.Session.GetPacket | src/gdb/gdb.c:68-124 | `get_packet` on the arrays leaves the buffer, input, output and view exactly as `Receive` |
| Gdb.Session.SendPayload | src/gdb/gdb.c:214-219 | sends the string, zeroes it in place and returns its checksum |
| Gdb.Session.SendFrame | src/gdb/gdb.c:210-223 | one attempt sends exactly the frame of the string and zeroes it |
| Gdb.Session.Attempt | src/gdb/gdb.c:209-225 | one frame and one read; it finishes exactly on `+` or on empty input |
| Gdb.Session.PutPacket | src/gdb/gdb.c:202-226 | `put_packet` on the array leaves the buffer, input and output exactly as `Transmit` |
| Gdb.Session.StoreProgramCounter | src/gdb/gdb.c:160-161 | `hex_to_int` on the arguments then the conditional store leave `sregs` exactly as `Resume` |
| Gdb.Session.ResumeRequest | src/gdb/gdb.c:159-164 | the `c` branch ends the loop in the state `Serve` gives |
| Gdb.Session.AnswerRequest | src/gdb/gdb.c:165-171 | the reply branch ends in, or hands on, the state `Serve` gives |
| Gdb.Session.HandleRequest | src/gdb/gdb.c:150-171 | one round of the loop ends where `Serve` ends, or leaves a state that `Serve` maps to the same outcome with less input |
| Gdb.Session.ParseRequest | src/gdb/gdb.c:144-173 | `parse_request` on the arrays ends in exactly the state and exit that `Serve` gives, and keeps the stub invariant |

## Left out

- `get_debug_char`, `put_debug_char` and `put_exception_char` are the
  transport's byte primitives and are not part of this model. They appear
  as the `rx` and `tx` sequences.
- A read that would block forever on an idle link is modelled as the input
  running out. The models end there with view `None` or exit `Drained`.
- `gdb_debug_info`, `gdb_log_exception` and `gdb_handle_exception` only log
  or forward to `parse_request`. They are left out.
- `gdb_init` and `init_buffers` are left out; `init_buffers` is not part of
  this model. The `Session` constructor starts from zeroed static storage.
- `aregs` is declared but never used by the core, so it is left out.
- `GDB_BUFMAX` is defined outside `gdb.c` and `DEBUG_PC` in the
  architecture headers. Both are parameters:
  - any capacity of at least 4, for the functions and for `Session`;
  - any slot below 256 for the program counter.
- Gdb.Session.StoreProgramCounter: the `NULL == ptr` branch of `hex_to_int`
  is not modelled, because the only caller passes the address of a local.
- Wire.XmitSum: `get_hex` of a non-digit is -1, and `-1 << 4` is read as
  -16 and truncated to an `unsigned char`. The C standard leaves a left
  shift of a negative value undefined.
- Hex.HexToInt: the shift into a signed `int` is modelled as two's
  complement wrap-around modulo 2^32. The C standard leaves signed overflow
  undefined.
- Dispatcher.Serve: the registers other than the program counter are
  never read by the loop, so `sregs` is a sequence of 32-bit words without
  a meaning per slot.
