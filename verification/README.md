# Nanoshield_EEPROM driver model

A Dafny model of the Nanoshield_EEPROM Arduino driver for I2C serial EEPROM
chips. The model covers the driver class `Nanoshield_EEPROM`:

- the constructor, which picks the 7-bit bus address from the strap pins A0..A2;
- `isReady` and `startReading`, which probe the chip with a dummy write
  carrying only the memory address;
- `write` of one byte, with its bounded busy-retry loop;
- `write` of a fill byte `count` times, and of a buffer. Both are page writes.
- `pageWrite`, the loop behind them. It cuts `[addr, addr + len)` into
  chunks that never cross a page and never carry more than 30 data bytes.
  Each chunk is preceded by a retrying readiness poll, and the loop stops at
  the first failure.

The files:

- `transport.dfy` (module `Transport`) stands in for the Arduino `Wire`
  library and `delayMicroseconds`. A `Bus` object has three parts:
  - an acknowledgement oracle `ack: nat -> bool`, fixed when the object is
    made, where `ack(k)` is what the k-th `endTransmission` reports;
  - the log of every closed transaction (device, bytes, acknowledged);
  - the log of every busy-wait.
- `chunking.dfy` (module `Chunking`) holds the arithmetic of the page-write
  loop: chunk lengths, pages, coverage, minimality, and the 16-bit findings
  below.
- `eeprom_spec.dfy` (module `EepromSpec`) describes, as functions of the
  oracle, the transactions and waits each operation leaves on the bus.
  - `Retried` is the busy-retry loop.
  - `PageWriteRun` and `Plan` describe the page-write loop.
  - `PageWriteOutcome` describes a whole page write.

  Its lemmas state what those functions amount to.
- `eeprom.dfy` (module `Eeprom`) is the driver itself: class
  `NanoshieldEeprom`, whose methods keep the source's loops and early
  returns. Each method is proved to leave exactly what the matching
  `EepromSpec` function describes on the bus log, the wait log and its
  result.

The global `Wire` object becomes a `wire: Bus` parameter of every method.
Data buffers are `seq<byte>`, which the driver only reads. `unsigned int`
quantities are unbounded naturals; see "Left out" and "Findings".

## Model

| member | source | states |
|---|---|---|
| EepromSpec.StrapAddress | Nanoshield_EEPROM.cpp:19-22 | the address is 0x50..0x57; bit 0 is set iff A0, bit 1 iff A1, bit 2 iff A2 |
| Eeprom.NanoshieldEeprom.constructor | Nanoshield_EEPROM.cpp:17-29 | ORing the bits into 0x50 gives StrapAddress of the non-zero strap arguments; page size and addressing mode are stored unchanged |
| EepromSpec.AddressBytes | Nanoshield_EEPROM.cpp:50-53 | the memory address takes two bytes, or one in single-byte mode |
| EepromSpec.AddressBytesValue | Nanoshield_EEPROM.cpp:50-53 | the address bytes, read big-endian, are addr mod 65536 (two bytes) or addr mod 256 (one byte) |
| EepromSpec.ByteOpsAreDivMod | Nanoshield_EEPROM.cpp:51-53 | `x & 0xff` is x mod 256 and `x >> 8` is x div 256 |
| Eeprom.NanoshieldEeprom.BeginAt | Nanoshield_EEPROM.cpp:49-53 | opens a transaction to the chip with exactly AddressBytes queued; nothing is logged or waited |
| Eeprom.NanoshieldEeprom.Transmit | Nanoshield_EEPROM.cpp:49-55 | one transaction, the address bytes followed by the extra bytes; the result is that transaction's acknowledgement |
| Eeprom.NanoshieldEeprom.SendRetrying | Nanoshield_EEPROM.cpp:48-58 | the retry loop's transactions, waits and result are exactly `Retried` from the current transaction number |
| EepromSpec.RetriedStep | Nanoshield_EEPROM.cpp:55-57 | a failed attempt ends the loop when not retrying; otherwise it is followed by one DELAY_US wait and the rest of the loop |
| EepromSpec.RetriedFacts | Nanoshield_EEPROM.cpp:48-58 | 1 to RETRIES+1 attempts, exactly one without retry; all RETRIES+1 attempts when retrying fails; the result is the last attempt's acknowledgement; with retry, waits = failed attempts, otherwise none; every wait is DELAY_US |
| EepromSpec.RetriedAttempts | Nanoshield_EEPROM.cpp:48-58 | attempt k is transaction t+k with the same bytes to the same device; every attempt before the last failed (stop at first success) |
| EepromSpec.RetriedOkIffAcked | Nanoshield_EEPROM.cpp:48-58 | the loop reports success iff some attempt's endTransmission returned 0 |
| EepromSpec.RetryAfterThreeFailures | Nanoshield_EEPROM.cpp:48-58 | three failures then an answer: four attempts, three waits, success |
| EepromSpec.RetryExhausted | Nanoshield_EEPROM.cpp:48-61 | a chip that never answers: RETRIES+1 = 9 attempts, 9 waits, failure |
| Eeprom.NanoshieldEeprom.StartReading | Nanoshield_EEPROM.cpp:69-86 | transactions, waits and result are `Retried` over the address bytes alone, with the caller's retry flag |
| Eeprom.NanoshieldEeprom.IsReady | Nanoshield_EEPROM.cpp:37-40 | exactly one transaction carrying AddressBytes(0), no wait, result = its acknowledgement |
| Eeprom.NanoshieldEeprom.Write | Nanoshield_EEPROM.cpp:42-62 | count > 1: the page write of `count` copies of the byte, whose polls retry whatever `retry` says; count <= 1 (0 included): `Retried` over the address bytes plus the one data byte, returning 1 on success and 0 otherwise |
| Eeprom.NanoshieldEeprom.WriteBuffer | Nanoshield_EEPROM.cpp:64-67 | the page write of the buffer's first len bytes |
| Eeprom.NanoshieldEeprom.PageWrite | Nanoshield_EEPROM.cpp:94-133 | bus log, wait log and result are exactly PageWriteOutcome; loop invariant addr == addr0 + i, i <= len |
| Eeprom.NanoshieldEeprom.WriteChunk | Nanoshield_EEPROM.cpp:102-129 | one loop pass. On failure a and i are unchanged and the pass's traffic is the whole rest of the page write. On success a and i advance by the same amount, within end, and the rest is the page write from there |
| Eeprom.NanoshieldEeprom.ChunkSize | Nanoshield_EEPROM.cpp:103-107 | the three statements compute ChunkLength |
| Eeprom.NanoshieldEeprom.SendChunk | Nanoshield_EEPROM.cpp:113-125 | one transaction: address bytes then n copies of data[0] (fill) or data[i..i+n] (buffer); result is its acknowledgement |
| Chunking.PageOffsetIsMod | Nanoshield_EEPROM.cpp:103 | the page offset is addr % pageSize |
| Chunking.PageEndBoundary | Nanoshield_EEPROM.cpp:103 | the end of addr's page is the next multiple of pageSize |
| Chunking.PageEndLeast | Nanoshield_EEPROM.cpp:103 | no page boundary lies strictly between addr and its page end |
| Chunking.SamePage | Nanoshield_EEPROM.cpp:103 | every address of a page has the same page end |
| Chunking.ChunkLength | Nanoshield_EEPROM.cpp:103-107 | 1 <= n <= 30, the chunk stays within addr's page, and addr + n <= end |
| Chunking.ChunkLengthLongest | Nanoshield_EEPROM.cpp:103-107 | no longer chunk fits at addr without passing end |
| Chunking.ChunksSum | Nanoshield_EEPROM.cpp:101-130 | the chunk lengths add up to end - addr (0 for an empty range) |
| Chunking.ChunksCover | Nanoshield_EEPROM.cpp:101-130 | successive chunks are contiguous and each fits at its start |
| Chunking.ChunksPositive | Nanoshield_EEPROM.cpp:101-107 | no chunk is empty |
| Chunking.ChunksMinimal | Nanoshield_EEPROM.cpp:101-130 | no way of cutting the range into fitting chunks uses fewer chunks |
| Chunking.ChunkCountMonotone | Nanoshield_EEPROM.cpp:101-130 | starting later never needs more chunks |
| Chunking.OnePageChunkCount | Nanoshield_EEPROM.cpp:101-130 | a range inside one page takes ceil(length / 30) chunks |
| Chunking.WholePageChunkCount | Nanoshield_EEPROM.cpp:101-130 | a whole page from its boundary takes ceil(pageSize / 30) chunks, one when pageSize <= 30 |
| Chunking.StraddlingWriteChunks | Nanoshield_EEPROM.cpp:101-130 | 10 bytes from 60 with 64-byte pages are cut as 4 then 6 |
| EepromSpec.Payload | Nanoshield_EEPROM.cpp:118-124 | a chunk carries exactly n data bytes |
| EepromSpec.PayloadAppend | Nanoshield_EEPROM.cpp:118-128 | consecutive payloads join into one |
| EepromSpec.PlanIsPlanOf | Nanoshield_EEPROM.cpp:101-130 | the chunks the loop sends are those of lengths Chunks(addr, end), each at the address and data offset where the previous ended |
| EepromSpec.PlanOfAt | Nanoshield_EEPROM.cpp:115-129 | chunk k is addressed at addr plus the earlier lengths and carries the source bytes that follow theirs |
| EepromSpec.PlanOfDataAll | Nanoshield_EEPROM.cpp:118-129 | the chunks' data, in order, is the source's next Sum(cs) bytes |
| EepromSpec.PollChunkSplit | Nanoshield_EEPROM.cpp:109-129 | a pass is the retrying readiness poll, then (if it answered) one transaction numbered right after, and the loop goes on only if that one was acknowledged |
| EepromSpec.PageWriteUnready | Nanoshield_EEPROM.cpp:110 | a poll that never answers ends the page write with its traffic only, nothing written |
| EepromSpec.PageWriteRejected | Nanoshield_EEPROM.cpp:113-125 | a rejected chunk transaction ends the page write; nothing more is sent |
| EepromSpec.PageWriteAccepted | Nanoshield_EEPROM.cpp:109-129 | an accepted chunk adds its n bytes and the loop goes on from addr + n, i + n |
| EepromSpec.PageWriteRunStops | Nanoshield_EEPROM.cpp:101-132 | something is sent iff there is a chunk; every chunk completes iff the last transaction was acknowledged |
| EepromSpec.PageWriteRunProgress | Nanoshield_EEPROM.cpp:125-132 | the result is the total data length of the chunks completed before the first failure |
| EepromSpec.PageWriteRunData | Nanoshield_EEPROM.cpp:113-129 | the acknowledged data is exactly the completed chunks' data, in order |
| EepromSpec.PageWriteRunTraffic | Nanoshield_EEPROM.cpp:109-129 | every transaction is a poll or a write of one of the chunks; every wait is DELAY_US |
| EepromSpec.PageWriteWritten | Nanoshield_EEPROM.cpp:94-133 | the result is the sum of the chunk lengths before the first failed chunk and at most len; nothing is sent iff len = 0; the result is len iff the last transaction was acknowledged |
| EepromSpec.PageWriteData | Nanoshield_EEPROM.cpp:118-129 | the data the chip acknowledged is exactly the source's first `written` bytes: fill copies, or the buffer prefix in order |
| EepromSpec.PageWriteTraffic | Nanoshield_EEPROM.cpp:109-125 | every transaction goes to the chip and is, for one chunk of the range, its address alone or its address followed by its data; every wait is DELAY_US |
| EepromSpec.PageWriteChunkFits | Nanoshield_EEPROM.cpp:101-107 | chunk k lies within one page, is 1..30 bytes, and ends within [addr, addr + len) |
| EepromSpec.FillBytes | Nanoshield_EEPROM.cpp:118-121 | in fill mode every data byte of a chunk transaction equals the fill value |
| Chunking.ChunkLength16 | Nanoshield_EEPROM.cpp:103-107 | the chunk length as computed with a 16-bit `addr + n`; still 1..30 |
| Chunking.ChunkOverrunOn16Bit | Nanoshield_EEPROM.cpp:104 | at addr 0xFFFA, end 0xFFFD, 64-byte pages, the 16-bit loop picks 6 bytes where 3 remain |
| Chunking.PageWriteEnd16 | Nanoshield_EEPROM.cpp:96 | the 16-bit `addr + len` equals the true end unless it reaches 65536 |
| Chunking.LastByteSkippedOn16Bit | Nanoshield_EEPROM.cpp:96-101 | writing 1 byte at 0xFFFF gives end 0 with 16-bit arithmetic, so no chunk is sent where one was meant |

## Left out

- `begin()` (Nanoshield_EEPROM.cpp:31-35) and `read()` (Nanoshield_EEPROM.cpp:88-92) only forward to the Wire library; there is nothing to model.
- The Wire library is modelled as the `Bus` acknowledgement oracle and logs.
  - Its buffer limit, bus arbitration and the distinct non-zero error codes of `endTransmission` are not modelled. Any non-zero status is a failure.
  - Reading (`requestFrom`, `read`) is not modelled.
- `delayMicroseconds` is a busy-wait. The model logs each wait's length and does not model time.
- `unsigned int` is modelled as unbounded. The model does not wrap `addr + len`, `addr + n` or the returned count at 16 bits. The consequences on a 16-bit platform are shown under "Findings".
- `pageSize` is a signed `int`, and the source divides by it. The page-write operations (`Eeprom.NanoshieldEeprom.Write` with count > 1, `WriteBuffer`, `PageWrite`) require `pageSize > 0` whenever there is something to write. The behaviour for a zero or negative page size is not modelled.
- `i2cAddress` is an `int8_t` in the source. The model keeps it as an integer. Every value the constructor can produce (0x50..0x57) fits in it.
- Eeprom.NanoshieldEeprom.SendRetrying is the retry loop that the source repeats inline in `write` (lines 48-58) and `startReading` (lines 73-82). The two copies differ only in the extra data byte, which becomes the `extra` parameter.
- Transmit, BeginAt, SendChunk and WriteChunk are named pieces of the inline code at the cited lines. They add no behaviour.

## Findings

| source | as written | input that shows it | evidently intended | confidence | as-written member | corrected member |
|---|---|---|---|---|---|---|
| Nanoshield_EEPROM.cpp:104 | with a 16-bit `unsigned int`, `addr + n` wraps to a small value, so the clamp to the end of the range is skipped | addr 0xFFFA, len 3, 64-byte pages: n stays 6 and the chunk runs 3 bytes past the range, reading past a 3-byte buffer | every chunk ends at or before `end` | not executed | Chunking.ChunkOverrunOn16Bit | Chunking.ChunkLength |
| Nanoshield_EEPROM.cpp:96 | with a 16-bit `unsigned int`, `end = addr + len` wraps, so a write that reaches the top of a 64 KiB chip has `end <= addr` and sends nothing | addr 0xFFFF, len 1: end is 0, no chunk is sent and 0 is returned | the chunks cover exactly `[addr, addr + len)` | not executed | Chunking.LastByteSkippedOn16Bit | Chunking.ChunksSum |
