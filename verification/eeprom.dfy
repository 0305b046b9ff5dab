/** The driver object: its bus address and addressing settings, fixed at
    construction, and the operations that talk to the chip through the bus.
    Every operation is proved to leave on the bus exactly what the matching
    function of EepromSpec describes. */
module Eeprom {
  import opened Transport
  import opened Chunking
  import opened EepromSpec

  class NanoshieldEeprom {
    /** The 7-bit bus address: 0x50 with the strap bits A0..A2. */
    const i2cAddress: int
    /** Bytes per page of the chip; a page write never crosses a page. */
    const pageSize: int
    /** Whether memory addresses are sent as one byte instead of two. */
    const singleByteAddr: bool

    function Config(): Settings
    {
      Settings(i2cAddress, pageSize, singleByteAddr)
    }

    /** A strap argument that is not 0 sets its bit of the bus address. */
    constructor (a0: byte := 0, a1: byte := 0, a2: byte := 0, sba: bool := false, pgSize: int := 64)
      ensures i2cAddress == StrapAddress(a0 != 0, a1 != 0, a2 != 0)
      ensures pageSize == pgSize && singleByteAddr == sba
    {
      var address: bv8 := EEPROM_I2C_ADDRESS as bv8;
      if a0 != 0 {
        address := address | 0x01;
      }
      if a1 != 0 {
        address := address | 0x02;
      }
      if a2 != 0 {
        address := address | 0x04;
      }
      i2cAddress := address as int;
      pageSize := pgSize;
      singleByteAddr := sba;
    }

    /** One readiness probe at memory address 0, with no retry: a single
        transaction carrying only the address, and no wait. */
    method IsReady(wire: Bus) returns (ready: bool)
      requires wire.Valid() && wire.pending == Idle
      modifies wire
      ensures wire.Valid() && wire.pending == Idle
      ensures wire.log == old(wire.log) + [Transaction(i2cAddress, AddressBytes(0, singleByteAddr), ready)]
      ensures wire.delays == old(wire.delays)
      ensures ready == wire.ack(|old(wire.log)|)
    {
      ready := StartReading(wire, 0, false);
    }

    /** The dummy write that sets the chip's address pointer, retried after
        a DELAY_US wait up to RETRIES more times when `retry` is set; it
        reports whether the chip acknowledged. */
    method StartReading(wire: Bus, addr: nat, retry: bool := true) returns (ready: bool)
      requires wire.Valid() && wire.pending == Idle
      modifies wire
      ensures wire.Valid() && wire.pending == Idle
      ensures var o := Retried(wire.ack, |old(wire.log)|, |old(wire.log)| + RETRIES, retry, i2cAddress, AddressBytes(addr, singleByteAddr));
        wire.log == old(wire.log) + o.log && wire.delays == old(wire.delays) + o.delays && ready == o.ok
    {
      ready := SendRetrying(wire, addr, [], retry);
      assert AddressBytes(addr, singleByteAddr) + [] == AddressBytes(addr, singleByteAddr);
    }

    /** Writes the byte `data` at memory address addr. With count > 1 it
        fills count bytes from addr with it by page writes (whose readiness
        polls always retry) and returns how many were written; otherwise it
        sends the address and the byte, retried like StartReading, and
        returns 1 when the chip acknowledged and 0 when it did not. */
    method Write(wire: Bus, addr: nat, data: byte, count: nat := 1, retry: bool := true) returns (written: nat)
      requires wire.Valid() && wire.pending == Idle
      requires count > 1 ==> pageSize > 0
      modifies wire
      ensures wire.Valid() && wire.pending == Idle
      ensures count > 1 ==>
        var o := PageWriteOutcome(wire.ack, |old(wire.log)|, Config(), addr, count, [data], true);
        wire.log == old(wire.log) + o.log && wire.delays == old(wire.delays) + o.delays && written == o.written
      ensures count <= 1 ==>
        var o := Retried(wire.ack, |old(wire.log)|, |old(wire.log)| + RETRIES, retry, i2cAddress, AddressBytes(addr, singleByteAddr) + [data]);
        wire.log == old(wire.log) + o.log && wire.delays == old(wire.delays) + o.delays && written == (if o.ok then 1 else 0)
    {
      if count > 1 {
        written := PageWrite(wire, addr, [data], count, true);
        return;
      }
      var acked := SendRetrying(wire, addr, [data], retry);
      written := if acked then 1 else 0;
    }

    /** The retry loop shared by the single-byte write and StartReading: one
        transaction with the memory address followed by `extra`, repeated
        after a DELAY_US wait until the chip acknowledges, at most RETRIES
        more times, and never repeated when `retry` is off. */
    method SendRetrying(wire: Bus, addr: nat, extra: seq<byte>, retry: bool) returns (acked: bool)
      requires wire.Valid() && wire.pending == Idle
      modifies wire
      ensures wire.Valid() && wire.pending == Idle
      ensures var o := Retried(wire.ack, |old(wire.log)|, |old(wire.log)| + RETRIES, retry, i2cAddress, AddressBytes(addr, singleByteAddr) + extra);
        wire.log == old(wire.log) + o.log && wire.delays == old(wire.delays) + o.delays && acked == o.ok
    {
      ghost var t0, log0, delays0 := |wire.log|, wire.log, wire.delays;
      ghost var bytes := AddressBytes(addr, singleByteAddr) + extra;
      ghost var whole := Retried(wire.ack, t0, t0 + RETRIES, retry, i2cAddress, bytes);
      ghost var togo := whole;
      for i := 0 to RETRIES + 1
        invariant wire.Valid() && wire.pending == Idle
        invariant |wire.log| == t0 + i
        invariant togo == RetriedFrom(wire.ack, t0 + i, t0 + RETRIES, retry, i2cAddress, bytes)
        invariant wire.log + togo.log == log0 + whole.log
        invariant wire.delays + togo.delays == delays0 + whole.delays
        invariant togo.ok == whole.ok
      {
        ghost var logBefore, delaysBefore := wire.log, wire.delays;
        var ok := Transmit(wire, addr, extra);
        if ok {
          return true;
        }
        ghost var tx := Transaction(i2cAddress, bytes, false);
        RetriedStep(wire.ack, t0 + i, t0 + RETRIES, retry, i2cAddress, bytes);
        if !retry {
          togo := Attempted([], [], false);
          break;
        }
        wire.DelayMicroseconds(DELAY_US);
        togo := RetriedFrom(wire.ack, t0 + i + 1, t0 + RETRIES, retry, i2cAddress, bytes);
        AppendAssoc(logBefore, [tx], togo.log);
        AppendAssoc(delaysBefore, [DELAY_US], togo.delays);
      }
      return false;
    }

    /** Writes the first len bytes of the buffer data from memory address
        addr by page writes, and returns how many were written. */
    method WriteBuffer(wire: Bus, addr: nat, data: seq<byte>, len: nat) returns (written: nat)
      requires wire.Valid() && wire.pending == Idle
      requires len > 0 ==> pageSize > 0
      requires len <= |data|
      modifies wire
      ensures wire.Valid() && wire.pending == Idle
      ensures var o := PageWriteOutcome(wire.ack, |old(wire.log)|, Config(), addr, len, data, false);
        wire.log == old(wire.log) + o.log && wire.delays == old(wire.delays) + o.delays && written == o.written
    {
      written := PageWrite(wire, addr, data, len, false);
    }

    /** The page-write loop: cuts [addr, addr + len) into chunks that stay
        within a page and within MAX_I2C_DATA bytes; for each, waits for the
        chip with a retrying StartReading and sends the chunk's address and
        data (copies of data[0] when singleByte, the buffer's next bytes
        otherwise); stops at the first failure. It returns the number of
        data bytes of the chunks that were acknowledged. */
    method PageWrite(wire: Bus, addr: nat, data: seq<byte>, len: nat, singleByte: bool) returns (i: nat)
      requires wire.Valid() && wire.pending == Idle
      requires len > 0 ==> pageSize > 0
      requires Readable(data, 0, len, singleByte)
      modifies wire
      ensures wire.Valid() && wire.pending == Idle
      ensures var o := PageWriteOutcome(wire.ack, |old(wire.log)|, Config(), addr, len, data, singleByte);
        wire.log == old(wire.log) + o.log && wire.delays == old(wire.delays) + o.delays && i == o.written
    {
      var end := addr + len;
      var a := addr;
      i := 0;
      ghost var log0, delays0 := wire.log, wire.delays;
      ghost var whole := PageWriteOutcome(wire.ack, |wire.log|, Config(), addr, len, data, singleByte);
      ghost var togo := whole;
      while a < end
        invariant a == addr + i && i <= len
        invariant Readable(data, i, end - a, singleByte)
        invariant wire.Valid() && wire.pending == Idle
        invariant togo == PageWriteRun(wire.ack, |wire.log|, i2cAddress, Plan(Config(), a, end, data, i, singleByte))
        invariant wire.log + togo.log == log0 + whole.log
        invariant wire.delays + togo.delays == delays0 + whole.delays
        invariant i + togo.written == whole.written
        decreases end - a
      {
        var ok;
        ok, a, i := WriteChunk(wire, a, end, data, i, singleByte);
        if !ok {
          return;
        }
        togo := PageWriteRun(wire.ack, |wire.log|, i2cAddress, Plan(Config(), a, end, data, i, singleByte));
      }
    }

    /** One pass of the page-write loop at memory address a and buffer
        offset i: it sizes the chunk, waits for the chip with a retrying
        StartReading and, once the chip answers, sends the chunk. When both
        are acknowledged it advances a and i past the chunk and reports that
        the loop goes on; the bus then holds the pass's traffic and what the
        page write still does is the page write from the new a and i. */
    method WriteChunk(wire: Bus, a: nat, end: nat, data: seq<byte>, i: nat, singleByte: bool) returns (ok: bool, a': nat, i': nat)
      requires wire.Valid() && wire.pending == Idle
      requires pageSize > 0 && a < end
      requires Readable(data, i, end - a, singleByte)
      modifies wire
      ensures wire.Valid() && wire.pending == Idle
      ensures var r := PageWriteRun(wire.ack, |old(wire.log)|, i2cAddress, Plan(Config(), a, end, data, i, singleByte));
        !ok ==> a' == a && i' == i && r.written == 0
                && wire.log == old(wire.log) + r.log && wire.delays == old(wire.delays) + r.delays
      ensures ok ==> a < a' <= end && a' - a == i' - i && Readable(data, i', end - a', singleByte)
      ensures ok ==>
        var r := PageWriteRun(wire.ack, |old(wire.log)|, i2cAddress, Plan(Config(), a, end, data, i, singleByte));
        var rest := PageWriteRun(wire.ack, |wire.log|, i2cAddress, Plan(Config(), a', end, data, i', singleByte));
        old(wire.log) + r.log == wire.log + rest.log && old(wire.delays) + r.delays == wire.delays + rest.delays
        && r.written == i' - i + rest.written
    {
      a', i' := a, i;
      var n := ChunkSize(a, end);
      ghost var ack, cfg := wire.ack, Config();
      ghost var logHead, delaysHead, t := wire.log, wire.delays, |wire.log|;
      ghost var poll := Retried(ack, t, t + RETRIES, true, i2cAddress, AddressBytes(a, singleByteAddr));
      ghost var r := PageWriteRun(ack, t, i2cAddress, Plan(cfg, a, end, data, i, singleByte));
      var ready := StartReading(wire, a);
      if !ready {
        assert r == PageOutcome(poll.log, poll.delays, 0, 0) by {
          PageWriteUnready(ack, t, cfg, a, end, data, i, n, singleByte);
        }
        return false, a', i';
      }
      ghost var u := |wire.log|;
      ok := SendChunk(wire, a, data, i, n, singleByte);
      ghost var tx := Transaction(i2cAddress, AddressBytes(a, singleByteAddr) + Payload(data, i, n, singleByte), ok);
      AppendAssoc(logHead, poll.log, [tx]);
      if !ok {
        assert r == PageOutcome(poll.log + [tx], poll.delays, 0, 0) by {
          PageWriteRejected(ack, t, u, cfg, a, end, data, i, n, singleByte);
        }
        return;
      }
      i' := i + n;
      a' := a + n;
      ghost var v := |wire.log|;
      ghost var rest := PageWriteRun(ack, v, i2cAddress, Plan(cfg, a', end, data, i', singleByte));
      assert r == PageOutcome(poll.log + [tx] + rest.log, poll.delays + rest.delays, n + rest.written, rest.chunks + 1) by {
        PageWriteAccepted(ack, t, u, v, cfg, a, end, data, i, n, a', i', singleByte);
      }
      AppendAssoc(logHead, poll.log + [tx], rest.log);
      AppendAssoc(delaysHead, poll.delays, rest.delays);
    }

    /** The length of the chunk at memory address a: the rest of a's page,
        cut at end and then at MAX_I2C_DATA. */
    method ChunkSize(a: nat, end: nat) returns (n: nat)
      requires pageSize > 0 && a < end
      ensures n == ChunkLength(a, end, pageSize)
    {
      n := pageSize - a % pageSize;
      if a + n > end {
        n := end - a;
      }
      if n > MAX_I2C_DATA {
        n := MAX_I2C_DATA;
      }
      PageOffsetIsMod(a, pageSize);
    }

    /** One transaction: the memory address followed by `extra`; it reports
        whether the chip acknowledged. */
    method Transmit(wire: Bus, addr: nat, extra: seq<byte>) returns (ok: bool)
      requires wire.Valid() && wire.pending == Idle
      modifies wire
      ensures wire.Valid() && wire.pending == Idle
      ensures wire.log == old(wire.log) + [Transaction(i2cAddress, AddressBytes(addr, singleByteAddr) + extra, ok)]
      ensures ok == wire.ack(|old(wire.log)|) && wire.delays == old(wire.delays)
    {
      BeginAt(wire, addr);
      wire.WriteBytes(extra);
      ok := wire.EndTransmission();
    }

    /** Opens a transaction to the chip and queues the memory address:
        high byte then low byte, or the low byte alone in single-byte mode. */
    method BeginAt(wire: Bus, addr: nat)
      modifies wire
      ensures wire.pending == Open(i2cAddress, AddressBytes(addr, singleByteAddr))
      ensures wire.log == old(wire.log) && wire.delays == old(wire.delays)
    {
      ByteOpsAreDivMod(addr);
      ByteOpsAreDivMod(addr / 0x100);
      wire.BeginTransmission(i2cAddress);
      if !singleByteAddr {
        wire.Write(addr / 0x100 % 0x100);
      }
      wire.Write(addr % 0x100);
    }

    /** One page-write transaction: the memory address a, then the chunk's
        n data bytes (n copies of data[0] when singleByte, the buffer's bytes
        from offset i otherwise); it reports whether the chip acknowledged. */
    method SendChunk(wire: Bus, a: nat, data: seq<byte>, i: nat, n: nat, singleByte: bool) returns (ok: bool)
      requires wire.Valid() && wire.pending == Idle
      requires Readable(data, i, n, singleByte)
      modifies wire
      ensures wire.Valid() && wire.pending == Idle
      ensures wire.log == old(wire.log) + [Transaction(i2cAddress, AddressBytes(a, singleByteAddr) + Payload(data, i, n, singleByte), ok)]
      ensures ok == wire.ack(|old(wire.log)|) && wire.delays == old(wire.delays)
    {
      BeginAt(wire, a);
      ghost var log0, delays0 := wire.log, wire.delays;
      if singleByte {
        for j := 0 to n
          invariant wire.pending == Open(i2cAddress, AddressBytes(a, singleByteAddr) + Repeat(data[0], j))
          invariant wire.log == log0 && wire.delays == delays0
        {
          wire.Write(data[0]);
        }
      } else {
        wire.WriteBytes(data[i..i + n]);
      }
      ok := wire.EndTransmission();
    }
  }

  /** Concatenation is associative. */
  lemma AppendAssoc<T>(a: seq<T>, b: seq<T>, c: seq<T>)
    ensures (a + b) + c == a + (b + c)
  {
  }
}
