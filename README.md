# ee-logs in Dafny

ee-logs.h is a C header. Its macros generate a logger that keeps a ring of
`RECS` fixed-size records of `REC_SIZE` bytes in EEPROM, starting at
`START_ADDR`.

- Record `r` lives at `START_ADDR + r*REC_SIZE`.
- Bit 7 of a record's last byte is a service flag. The writer stores the
  current flag there, and the flag is inverted each time the ring wraps.
  After a restart, `Log_InitLog` is meant to read the flags back to find
  where the writer stopped. As written it probes the wrong bytes (see
  Findings).
- Readers move a "current record" around the ring with `Log_ReadFirst`,
  `Log_ReadLast`, `Log_ReadNext` and `Log_ReadPrev`, and `Log_ReadCur`
  reads it again.
- The write cursor is a sentinel that is never read, so `RECS-1` records
  are readable.
- `Log_NoblockingWrite` is a resumable state machine. Each call issues at
  most one EEPROM byte write. The call that writes a record's last byte
  also advances the write cursor.

The project has these modules:

- `Ring` (ring.dfy): the geometry, record addresses, and the unsigned-char
  cursor steps.
  - `if (r -= recs-1) r += recs` is `StepUp`.
  - `if (r) --r; else r = recs-1` is `StepDown`.
  - The writer's own `(i == recs-1) ? 0 : i+1` is `WrapInc`.
- `SlotCodec` (slot_codec.dfy): the flag bit (`LOG_FLAG_MASK`,
  `Log_ReadFlag`). It also covers what `Log_ReadRec` copies out of a record
  and the bytes the writer leaves in one.
- `Recovery` (recovery.dfy): the scan of `Log_InitLog`, both as written and
  with its probes on the flag bytes (see Findings).
- `Traversal` (traversal.dfy): the read-cursor moves as functions. It also
  describes what walking the ring with them visits.
- `Writer` (writer.dfy): one call of `Log_NoblockingWrite` as a step
  function on the logger's state. `Run` describes a sequence of ready
  calls. The round-trip and recovery theorems are stated over runs.
- `EeLogs` (ee_logs.dfy): class `Log`, one logger instance.
  - Its fields are the statics `Log_CurRec`, `Log_CurFlag`,
    `Log_CurReadRec` and `Log_RecBuf`, the writer's statics `a` and `i`,
    and the EEPROM as an array.
  - Each function of the instance is a method with loops where the C code
    has them. Its contract ties it to the functions above.

## Model

| member | source | states |
|---|---|---|
| Ring.Address | ee-logs.h:168 | Record r starts at `start_addr + r*rec_size`, and all its bytes lie inside the ring. |
| Ring.SpanIsProduct | ee-logs.h:168 | The repeated addition that stands for `r*rec_size` equals the product. |
| Ring.SlotsDisjoint | ee-logs.h:168 | Two different records occupy disjoint byte ranges. |
| Ring.MinusLast | ee-logs.h:188 | The unsigned-char value of `r -= recs-1` is zero exactly when r is the last record. |
| Ring.StepUp | ee-logs.h:203 | `if (r -= recs-1) r += recs` gives r+1, or 0 after the last record. The result fits an unsigned char. |
| Ring.StepDown | ee-logs.h:212-213 | `if (r) --r; else r = recs-1` stays below recs, and StepUp undoes it. |
| Ring.WrapInc | ee-logs.h:261-262 | The writer's `(i == recs-1) ? 0 : i+1` agrees with StepUp. |
| Ring.StepUpIsSuccessor | ee-logs.h:203 | StepUp is (r+1) mod recs for every r < recs. |
| Ring.StepDownIsPredecessor | ee-logs.h:212-213 | StepDown is (r-1) mod recs for every r < recs. |
| SlotCodec.ReadFlag | ee-logs.h:151 | `LOG_FLAG_MASK & byte` is 0x00 or 0x80. |
| SlotCodec.Unflag | ee-logs.h:173 | `~LOG_FLAG_MASK & byte` is below 0x80. Or-ing the flag back restores the byte. |
| SlotCodec.PackLast | ee-logs.h:254-256 | In the last byte the writer stores, the flag bit is the current flag. Its other seven bits are the payload's. |
| SlotCodec.Masked | ee-logs.h:169-173 | A record as read keeps its first REC_SIZE-1 bytes. Its last byte has bit 7 cleared. |
| SlotCodec.Encode | ee-logs.h:254-256 | The writer leaves the payload's first REC_SIZE-1 bytes as they are, followed by the packed last byte. |
| SlotCodec.ReadBack | ee-logs.h:165-174 | Reading back a record written with payload s and flag f gives s with bit 7 of its last byte cleared. The record's flag is f, and every other record keeps its bytes. |
| Recovery.Probe | ee-logs.h:185 | Each probe of the scan reads a flag value from the byte at `first + rec_size*cr`. |
| Recovery.FirstDiff | ee-logs.h:183-193 | Returns the first step at or after cr whose probe differs from the reference, or recs if none does. All probes before it equal the reference. |
| Recovery.ScanFrom | ee-logs.h:179-197 | The recovered write and read cursors are below recs and differ. The read cursor is the record after the write cursor, and the flag is 0x00 or 0x80. |
| Recovery.ScanFollowsFirstMismatch | ee-logs.h:183-196 | If probe k is the first of 1..recs-1 to differ from probe 0, the write cursor is k and the flag is probe 0. If none differs, the write cursor is 0, the read cursor is 1, and the flag is probe 0 inverted. |
| Recovery.ScanAsWritten | ee-logs.h:179-197 | `Log_InitLog` as written, probing from `start_addr + rec_size`. It gives cursors in range and the read cursor after the write cursor. |
| Recovery.Scan | ee-logs.h:179-197 | `Log_InitLog` probing the flag bytes of records 0..recs-1. It gives the same ranges. |
| Recovery.ProbeIsFlag | ee-logs.h:179-185 | With the corrected start, probe cr reads the flag of record cr. |
| Recovery.ScanRecoversLayout | ee-logs.h:177-197 | On memory whose flags are `flag` before record rec and inverted from rec on, the scan returns write cursor rec, flag `flag`, and read cursor rec+1 mod recs. |
| Recovery.FirstDiffSeesOnlyProbes | ee-logs.h:183-193 | Memories that agree on the probed bytes give the same first mismatch. |
| Recovery.ScanSeesOnlyFlags | ee-logs.h:180-185 | The corrected scan depends on nothing but the records' flags. |
| Recovery.ZeroMemoryLayout | ee-logs.h:254-259 | All-zero memory carries the flag layout of write cursor 0 with flag 0x80: no record holds a flag yet. |
| Recovery.AsWrittenOnZeroByteProbes | ee-logs.h:179-193 | On 3 records of 2 bytes at address 0, the scan as written reads bytes 2, 4 and 6. When they are zero it gives write cursor 0, flag 0x80, read cursor 1. |
| Traversal.NextFromPos | ee-logs.h:221-223 | From the t-th readable record, a ReadNext reaches the (t+1)-th, or fails when that one is the write cursor. |
| Traversal.PrevFromPos | ee-logs.h:232-235 | From the (t+1)-th readable record, a ReadPrev reaches the t-th. |
| Traversal.ForwardFrom | ee-logs.h:218-227 | n ReadNext calls from position t visit positions t+1..t+n. They fail exactly when t+n reaches the write cursor. |
| Traversal.ForwardWindow | ee-logs.h:200-227 | After ReadFirst, the first recs-2 ReadNext calls succeed, the n-th reaching the n-th readable record. The next call fails. |
| Traversal.BackwardFrom | ee-logs.h:229-239 | n ReadPrev calls from position t visit positions t-1..t-n. They fail exactly when they would step onto the write cursor. |
| Traversal.BackwardWindow | ee-logs.h:208-239 | After ReadLast, recs-2 ReadPrev calls succeed and visit the records newest to oldest. The next call fails. |
| Traversal.WindowIsAllButWriteCursor | ee-logs.h:218-227 | The readable positions are distinct. They cover every record except the write cursor. |
| Writer.Commit | ee-logs.h:257-264 | After the last byte the write cursor moves to the next record, and the flag flips exactly when it wraps to 0. The read cursor moves one further only if the write cursor landed on it. The two cursors end up different. |
| Writer.WriteStep | ee-logs.h:242-284 | One call keeps the state valid and writes only inside the ring: at or above `start_addr` and below its end. It preserves "read cursor differs from write cursor". |
| Writer.BusyIsNoop | ee-logs.h:247 | When isEEfree() is 0, the call returns 0, issues nothing and changes nothing. |
| Writer.IdlePollIsNoop | ee-logs.h:271 | An idle call with a null source returns 1 without writing or changing state. |
| Writer.InFlightIgnoresSource | ee-logs.h:248-270 | While bytes of a record remain, a ready call returns 0, issues one write, and does not depend on src. |
| Writer.DoneActsAsIdle | ee-logs.h:250 | Once a record is done, the next ready call clears `a` and acts exactly as an idle call. |
| Writer.RunExists | ee-logs.h:242-284 | From any valid state, any sequence of sources of REC_SIZE bytes can be fed to the writer. |
| Writer.StepFirst | ee-logs.h:271-283 | Accepting a record writes byte 0 to the write cursor's record and stages 1 followed by the rest of src. It returns 1. |
| Writer.StepMid | ee-logs.h:265-268 | A middle call writes byte t of the record to its address + t and advances `a` and `i`. |
| Writer.StepLast | ee-logs.h:251-264 | The call on the last byte writes the packed last byte and commits the cursors. |
| Writer.RunPrefix | ee-logs.h:265-283 | The first n < REC_SIZE calls of a record return 1, then 0s. Call k writes byte k to the record's address + k. |
| Writer.RunWhole | ee-logs.h:251-283 | REC_SIZE calls write the whole record byte by byte in order and then commit. |
| Writer.WriteRoundTrip | ee-logs.h:251-256 | A whole record returns 1, then 0s. It leaves Encode(s, flag) in the slot and nothing else changed. Reading it back gives s with bit 7 of its last byte cleared. The writer's final state is the whole committed state. |
| Writer.LayoutAdvance | ee-logs.h:257-259 | Setting the flag of the write cursor's record moves the flag layout one record on. Past the last record it starts again at 0 with the flag inverted. |
| Writer.WriteKeepsLayout | ee-logs.h:254-264 | A completed record carries the flag layout from the old write cursor to the committed one. |
| Writer.RecoverAfterWrite | ee-logs.h:257-264 | After a completed record, the corrected recovery finds the write cursor and flag the writer moved on to. |
| Writer.PartialWriteKeepsFlags | ee-logs.h:266-267 | The first n < REC_SIZE byte writes of a record leave every record's flag unchanged. |
| Writer.PartialWriteRecovers | ee-logs.h:266-267 | After those writes, recovery still finds the write cursor and flag of before. |
| Writer.AsWrittenMissesNewestRecord | ee-logs.h:179-185 | On 3 records of 2 bytes and zero memory, the scan as written starts the writer at record 0. Writing one record stores 0x80, 0x80 there and commits write cursor 1. The corrected scan then finds 1, but the scan as written finds 0 again. |
| Writer.InterruptedWriteRecovers | ee-logs.h:265-283 | If power is lost after n < REC_SIZE calls of a record, recovery finds the writer's cursor and flag as they were before the record. |
| EeLogs.Log.constructor | ee-logs.h:157-162 | A fresh logger has all statics zero and a well-formed state. |
| EeLogs.Log.ReadRec | ee-logs.h:165-174 | Copies record r into the first REC_SIZE bytes of dst, the last byte with bit 7 cleared. The rest of dst is unchanged, and nothing is written to the EEPROM. |
| EeLogs.Log.Rescan | ee-logs.h:179-197 | The loop of `Log_InitLog` from a given probe address sets the cursors and flag to ScanFrom. It leaves `a` and `i` unchanged and establishes read ≠ write. |
| EeLogs.Log.InitLog | ee-logs.h:177-197 | The corrected `Log_InitLog` sets the cursors and flag to Scan of the EEPROM. |
| EeLogs.Log.InitLogAsWritten | ee-logs.h:177-197 | `Log_InitLog` as written sets them to ScanAsWritten. |
| EeLogs.Log.ReadFirst | ee-logs.h:199-206 | The read cursor becomes write+1 mod recs, that record is copied to dst, and nothing else changes. |
| EeLogs.Log.ReadLast | ee-logs.h:208-216 | The read cursor becomes write-1 mod recs, that record is copied to dst, and nothing else changes. |
| EeLogs.Log.ReadNext | ee-logs.h:218-227 | Returns 1 and moves to and reads the next record exactly when that record is not the write cursor. Otherwise it returns 0 and leaves the cursor and dst untouched. |
| EeLogs.Log.ReadPrev | ee-logs.h:229-239 | The same for the previous record. |
| EeLogs.Log.ReadCur | ee-logs.h:130-136 | Copies the current record to dst and leaves the cursors unchanged. |
| EeLogs.Log.WriteLastByte | ee-logs.h:251-264 | Stores the packed last byte at `a` and commits the cursors as Writer.Commit. |
| EeLogs.Log.CommitCursors | ee-logs.h:257-264 | The cursor and flag update equals Writer.Commit. |
| EeLogs.Log.WriteNextByte | ee-logs.h:265-268 | Stores staging byte `i` at `a`, then increments `a` and `i`. |
| EeLogs.Log.StartRecord | ee-logs.h:271-283 | Stores src[0] at the write cursor's record and stages 1 followed by the rest of src. Then `a` = address + 1 and `i` = 1. |
| EeLogs.Log.NoblockingWrite | ee-logs.h:241-284 | The new state and result are exactly Writer.WriteStep. The EEPROM changes only by the one write the step issues. Read ≠ write is preserved. |

## Left out

- The EEPROM driver (`ReadEE`, `WriteEE`, `isEEfree`) is not part of this
  model.
  - The EEPROM is an array in `EeLogs.Log` and a byte sequence in `Writer`.
  - `WriteEE` is an immediate store, and `isEEfree()` is a boolean
    parameter.
  - Write latency, asynchrony and polling schedules are not modelled.
- The preprocessor layer is not modelled: the token pasting of
  `DECLARE_LOGGER` / `LOGGER` and the wrapper macros. One `Log` object
  stands for one expanded instance.
  - The `Log_ReadCur` wrapper at ee-logs.h:146 names its parameter `dsc`
    but expands `dst`. This is a macro defect, not logic.
- Several loggers sharing one EEPROM, possibly with overlapping rings, are
  not modelled.
- Physical power loss is modelled only between calls: an interrupted record
  is the prefix of its byte writes. Partially programmed bytes are not
  modelled.
- 16-bit `unsigned int` addresses: `ValidGeometry` requires the ring to end
  at or below 0x10000, so no address computed by the logger wraps. Rings
  that would wrap are excluded rather than modelled.
- The `r*rec_size` address multiplication is written as repeated addition
  (`Span`). `Ring.SpanIsProduct` proves the two equal.
- Aliasing: the `dst`/`src` arrays of the methods must differ from the
  EEPROM and the staging buffer. The C code does not forbid a caller from
  passing `Log_RecBuf`.
- Writer.Apply: a store to an address outside the memory image is dropped.
  `WriteStep` never issues one, by its contract.
- EeLogs.Log.InitLogAsWritten: requires the byte just past the ring to exist
  and to lie below 0x10000, because the scan as written reads it.
- Writer.WriteRoundTrip: covers a record started from an idle writer or one
  whose previous record is done. It does not cover a call that arrives while
  a record is still in flight; that case is covered separately by
  Writer.InFlightIgnoresSource.
- There is no theorem that the scan as written restores the writer's cursor,
  because it does not (see Findings). The theorem is proved for the
  corrected scan instead.

## Findings

| source | as written | input that shows it | evidently intended | confidence | as-written member | corrected member |
|---|---|---|---|---|---|---|
| ee-logs.h:179 | The scan starts at `start_addr + rec_size`, so its probes read byte 0 of records 1..recs (the last one past the ring) instead of the flag bytes the writer sets in each record's last byte. | 3 records of 2 bytes at address 0, memory all zero. The scan gives write cursor 0. Writing the record [0x80, 0x00] moves the writer to record 1, but after a restart the scan as written gives write cursor 0 again, and the next write overwrites the newest record. | Start one byte lower, at `start_addr + rec_size - 1`, so that probe cr reads the flag of record cr. Then recovery returns the writer's cursor and flag. | not executed | Writer.AsWrittenMissesNewestRecord | Recovery.ScanRecoversLayout |
