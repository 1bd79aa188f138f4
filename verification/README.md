# Framing protocol core in Dafny

This project models the framing core of `src/main.c`, a small byte-oriented
protocol. The pieces are:

- **Data model.** `protocol_frame_t` is `Frames.Frame`. `parser_state_t` is
  `Parsing.State`, and `protocol_parser_t` is `Parsing.Parser`.
- **Checksum.** `calculate_checksum` is the XOR fold `Checksum.Fold`, and
  `Checksum.CalculateChecksum` is the loop that computes it.
- **Frame codec.**
  - `mount_frame` is `Frames.MountFrame`.
  - `verify_checksum` is `Frames.VerifyChecksum`.
  - The byte order in which `transmit_to_file` writes a frame is `Frames.Serialize`.
- **Incremental parser.**
  - `init_parser` is `Parsing.InitParser`.
  - `parse_byte` is `Parsing.ParseByte`, a pure step function from a parser and a
    byte to the next parser and the return code (0 incomplete, 1 valid, -1 corrupted).
  - `Parsing.Run` feeds it a byte sequence.

Modules:

- `Bytes` (`bytes.dfy`): `uint8_t` values as integers 0..255. The `^`
  operator is defined one binary digit at a time, and `Bytes.XorNatBits`
  shows that this is bitwise XOR. Its algebra is proved once:
  - commutativity and associativity;
  - 0 is the identity, and `a ^ a == 0`;
  - the result of two bytes is again a byte.

  Every other module works through these lemmas, not through bit-vectors.
- `Checksum` (`checksum.dfy`): the left fold from 0, and an independent
  right fold. It also proves how the fold behaves on concatenation, on a
  single-byte update and on zero buffers.
- `Frames` (`frame.dfy`):
  - the frame record and the bytes the checksum covers, which are id, length
    and `payload[0..length)`;
  - `mount_frame` and `verify_checksum`;
  - the wire order;
  - what the checksum does and does not detect.
- `Parsing` (`parser.dfy`): `parse_byte` exactly as written, and what that
  means for whole byte streams.
- `IntendedParsing` (`intended_parser.dfy`): a separate, corrected step
  function `ParseByteIntended`. It stores payload bytes, has no fall-through,
  and has a zero-length branch. It is proved to round-trip every serialized
  frame. It is the corrected half of the findings below, not a model of
  `parse_byte`.

The model follows the code. The code does not do what its state names and
return-code comments announce, in two ways:

- **The payload byte is never stored.** Line 161 reads `payload[payload_index]`
  and only increments the index.
- **STATE_READ_PAYLOAD falls through** into STATE_VERIFY_CHECKSUM (lines
  160-165). So the byte after the length byte is always taken as the checksum.

Two further details of the code:

- **There is no zero-length branch** in STATE_READ_HEADER. As written this does no
  harm, because the fall-through makes zero-length frames work
  (`Parsing.FreshZeroLengthFrame`, `IntendedParsing.ZeroLengthAgrees`); the
  corrected step, which has the `break`, needs such a branch.
- **The clamp of `mount_frame` (lines 42-44) is dead code.** A `uint8_t` length
  is never above 256 (`Frames.ClampNeverFires`).

Changing only the length of a valid frame is not always detected by an XOR
checksum. `Frames.LengthChangeVerdict` gives
the exact condition, and `Frames.LengthChangeCanGoUnnoticed` gives a concrete
frame where the change goes unnoticed. Detection of a length change does hold when the payload array
is all zero (`Frames.LengthChangeDetectedOnZeroPayload`). Changing one payload
byte inside the window, or the id, is always detected.

## Model

| member | source | states |
|---|---|---|
| Bytes.Xor | src/main.c:35 | `a ^ b` on two bytes is again a byte, and each of its eight bits is set exactly when that bit is set in one operand |
| Bytes.XorNatBits | src/main.c:35 | the digit-wise definition is C's bitwise `^`: bit i of the result is set exactly when bit i is set in exactly one operand |
| Bytes.XorNatComm | src/main.c:35 | the `^` used to accumulate the checksum is commutative |
| Bytes.XorNatAssoc | src/main.c:35 | the `^` used to accumulate the checksum is associative, so the grouping of the fold does not matter |
| Bytes.XorNatSelf | src/main.c:35 | every value XOR-ed with itself gives 0 |
| Bytes.XorNatBelow | src/main.c:35 | the XOR of two values below 2^k is below 2^k, so the `uint8_t` accumulator never overflows |
| Checksum.Fold | src/main.c:32-38 | the value `calculate_checksum` computes: the XOR of every byte, folded left to right from 0; it equals the independently defined right fold, and `FoldConcat`, `FoldUpdate`, `FoldEmpty` and `FoldZeros` characterise it |
| Checksum.CalculateChecksum | src/main.c:32-38 | the loop returns the XOR of every byte of the buffer, starting from 0, and this equals the independently defined right fold |
| Checksum.FoldMatchesRight | src/main.c:32-38 | the left fold from 0 and the right fold agree on every buffer |
| Checksum.FoldConcat | src/main.c:32-38 | the checksum of a concatenation is the XOR of the two parts' checksums |
| Checksum.FoldEmpty | src/main.c:32-38 | the checksum of an empty buffer is 0 |
| Checksum.FoldUpdate | src/main.c:32-38 | replacing one byte `x` by `v` changes the checksum by exactly `x ^ v` |
| Checksum.FoldZeros | src/main.c:32-38 | a buffer of zero bytes has checksum 0 |
| Frames.Covered | src/main.c:104-107 | the bytes `checksum_data` holds: id, length, then `payload[0..length)`; they always fit the buffer of 2 + MAX_PAYLOAD_SIZE bytes |
| Frames.VerifyChecksum | src/main.c:103-110 | `verify_checksum` accepts exactly when the stored checksum equals id ^ length ^ (XOR of `payload[0..length)`); the lemmas below say which single changes it detects |
| Frames.CoveredFold | src/main.c:52-58 | the checksum over `checksum_data` (id, length, payload window) is id ^ length ^ the XOR of the window |
| Frames.MountFrame | src/main.c:40-61 | the mounted frame has start byte 0x55, the given id and length, `payload[0..length) == message[0..length)`, an untouched tail, and checksum id ^ length ^ fold(message[0..length)) |
| Frames.ClampNeverFires | src/main.c:42-44 | no `uint8_t` length exceeds MAX_PAYLOAD_SIZE, so the clamp never changes anything |
| Frames.MountThenVerify | src/main.c:103-110 | every frame built by `mount_frame` passes `verify_checksum` |
| Frames.VerifyIgnoresStartAndTail | src/main.c:103-110 | two frames that agree on id, length, `payload[0..length)` and checksum get the same verdict |
| Frames.VerifyIgnoresTail | src/main.c:103-110 | the start byte and the payload bytes at index `length` and above never affect the verdict |
| Frames.IdChangeDetected | src/main.c:103-110 | changing only the id of a valid frame makes verification fail |
| Frames.PayloadChangeDetected | src/main.c:103-110 | changing only one payload byte inside the window of a valid frame makes verification fail |
| Frames.LengthChangeVerdict | src/main.c:103-110 | after changing only the length of a valid frame, the frame still verifies exactly when the bytes entering or leaving the window XOR to old length ^ new length |
| Frames.LengthChangeDetectedOnZeroPayload | src/main.c:103-110 | with an all-zero payload array, every change of the length makes verification fail |
| Frames.LengthChangeCanGoUnnoticed | src/main.c:103-110 | a concrete valid frame whose length changes from 0 to 1 and still verifies |
| Frames.TwoEqualFlipsCancel | src/main.c:103-110 | XOR-ing the same pattern into two window bytes of a valid frame leaves it valid |
| Frames.Serialize | src/main.c:70-74 | a frame goes on the wire as 4 + length bytes: start byte, then the covered bytes, then the checksum |
| Frames.HiFrame | src/main.c:40-61 | "Hi" with id 7 mounts to checksum 0x24 and serializes to 55 07 02 48 69 24; it verifies, and changing 'H' to 'I' breaks it |
| Parsing.Inc | src/main.c:151 | a `uint8_t` counter's `++` adds one below 255 and wraps 255 to 0 |
| Parsing.InitParser | src/main.c:131-136 | a fresh parser waits for a start byte, both counters are 0 and the frame is all zero |
| Parsing.InitConsistent | src/main.c:131-136 | a fresh parser satisfies the reachable-state invariant and has an all-zero payload |
| Parsing.WaitStartStep | src/main.c:140-146 | in WAIT_START, only 0x55 moves to READ_HEADER (counter 1, start byte stored); any other byte leaves the parser unchanged; both return 0 |
| Parsing.HeaderStep | src/main.c:148-159 | in READ_HEADER, counter 1 stores the id, counter 2 stores the length and resets the payload index, and any other counter value changes nothing; all return 0 |
| Parsing.Finish | src/main.c:165-175 | the checksum state stores the byte as the checksum, always returns to WAIT_START, and returns 1 exactly when the frame then verifies, else -1 |
| Parsing.ParseByte | src/main.c:138-179 | the return code is in {-1, 0, 1}; it is nonzero exactly when the state was READ_PAYLOAD or VERIFY_CHECKSUM, and then the state is WAIT_START; it is 1 exactly when the frame with the byte as checksum verifies; the payload is never written; the reachable-state invariant (payload index at most 1) is preserved |
| Parsing.Run | src/main.c:138-179 | over a byte stream, one code per byte, each in {-1, 0, 1}, with the payload unchanged and the invariant kept |
| Parsing.RunFromInit | src/main.c:138-179 | every parser reachable from `init_parser` has payload index at most 1, so the read at line 161 is in bounds, and keeps an all-zero payload |
| Parsing.RunAppend | src/main.c:138-179 | running over `a + b` is running over `a` and then over `b` from where it stopped |
| Parsing.SkipsNoise | src/main.c:140-146 | while waiting, a stream without 0x55 returns 0 for every byte and leaves the parser unchanged |
| Parsing.ZeroPayloadVerdict | src/main.c:103-110 | a frame whose payload array is all zero verifies exactly when checksum == id ^ length |
| Parsing.FourByteFrame | src/main.c:160-175 | after 0x55, id and length, the very next byte is taken as the checksum whatever the length: codes 0, 0, 0 then 1 if that byte is id ^ length, else -1 |
| Parsing.FreshZeroLengthFrame | src/main.c:138-179 | from a fresh parser, 0x55, id, 0, id ^ 0 gives 0, 0, 0, 1 |
| Parsing.FirstPayloadByteTakenAsChecksum | src/main.c:160-166 | on a serialized frame of nonzero length, the fourth code depends only on whether the first payload byte equals id ^ length |
| Parsing.PayloadByteDropped | src/main.c:161 | on 55 01 01 05 from a fresh parser the fourth code is -1 and the payload stays all zero, while the same frame with 5 stored at `payload[0]` verifies |
| Parsing.HiBytesAsWritten | src/main.c:160-165 | the six wire bytes 55 07 02 48 69 24 give 0, 0, 0, -1, 0, 0 |
| Parsing.HiFrameRejected | src/main.c:160-165 | the valid "Hi" frame gives 0, 0, 0, -1, 0, 0 |
| Parsing.ResyncAsWritten | src/main.c:160-165 | noise, then a one-byte frame 'X' with its correct checksum, is accepted only when id ^ 1 == 'X'; the real checksum byte that follows returns 0 |
| IntendedParsing.ParseByteIntended | src/main.c:138-179 | corrected step: the return code is nonzero exactly in the checksum state; it is 1 exactly when the frame verifies; the payload index stays below the length while reading |
| IntendedParsing.RunIntended | src/main.c:138-179 | over a stream, one code per byte, each in {-1, 0, 1}, with the corrected invariant kept |
| IntendedParsing.PayloadLoop | src/main.c:160-164 | with the store and the `break` in place, the payload bytes are stored in order, each returns 0, and the parser ends in the checksum state |
| IntendedParsing.RoundTrip | src/main.c:138-179 | from any waiting parser, a serialized frame returns 0 on every byte but the last, which returns 1 exactly when `verify_checksum` accepts the frame; id, length, payload window and checksum are reproduced |
| IntendedParsing.HiFrameAccepted | src/main.c:160-165 | the corrected parser accepts the "Hi" frame (0, 0, 0, 0, 0, 1) and reproduces id 7, length 2 and "Hi" |
| IntendedParsing.ResyncIntended | src/main.c:140-146 | noise, then a one-byte frame 'X' with its correct checksum, is skipped and then accepted for every id |
| IntendedParsing.ZeroLengthAgrees | src/main.c:160-165 | from any parser waiting for a start byte, on zero-length frames the as-written and the corrected parser return the same codes |

## Left out

- `transmit_to_file` and `receive_from_file` (src/main.c:63-96): these are stdio file I/O. Only the byte order they write is modelled, as `Frames.Serialize`.
- `print_frame` (src/main.c:121-129): console output only.
- `simulate_corruption` (src/main.c:112-119): it depends on `rand()` and overwrites a byte of the struct through a cast, relying on its memory layout. The byte it overwrites with 0x0F is at offset `2 + rand() % (length + 1)` of the all-`uint8_t` struct: the `length` field or a byte of `payload[0..length)`, never the id; 0x0F may equal the old byte. Overwriting a window byte with a different value is always detected (`Frames.PayloadChangeDetected`). Overwriting the length may go unnoticed; `Frames.LengthChangeVerdict` gives the exact condition and `Frames.LengthChangeCanGoUnnoticed` an example.
- `main` (src/main.c:99-101): an empty driver.
- The uninitialised payload tail in `mount_frame`: the stack frame's bytes past `msg_length` are unspecified in C. They are the parameter `stale` of `Frames.MountFrame`.
- Reading fewer than `msg_length` message bytes: `memcpy` past the end of `message` is undefined behaviour. `Frames.MountFrame` therefore requires `msgLength <= |message|`.
- The read of `payload[payload_index]` at line 161 has no effect, so it is not modelled as an operation. Its index is a byte and always inside the 256-byte array, and `Parsing.RunFromInit` shows it stays at most 1.
- `verify_checksum`'s C `int` result is modelled as a boolean predicate.

## Findings

| source | as written | input that shows it | evidently intended | confidence | as-written member | corrected member |
|---|---|---|---|---|---|---|
| src/main.c:161 | in STATE_READ_PAYLOAD the payload byte is read from the frame and discarded, so it is never stored | 55 01 01 05 (id 1, length 1, payload byte 5) from a fresh parser: `payload[0]` stays 0, so 1 ^ 1 ^ 0 != 5 and the fourth code is -1; with the byte stored, 1 ^ 1 ^ 5 == 5 verifies | store the incoming byte at `payload[payload_index]` before advancing the index | not executed | Parsing.PayloadByteDropped | IntendedParsing.RoundTrip |
| src/main.c:160-165 | STATE_READ_PAYLOAD has no `break`, so the same byte is stored as the checksum and the frame is closed after one byte whatever the length | any frame of nonzero length: the verdict depends only on whether its first payload byte equals id ^ length; the valid "Hi" frame 55 07 02 48 69 24 gives 0, 0, 0, -1, 0, 0 | return 0 for each payload byte, move to STATE_VERIFY_CHECKSUM after `length` bytes, and go there directly after a zero length | not executed | Parsing.FirstPayloadByteTakenAsChecksum | IntendedParsing.RoundTrip |
