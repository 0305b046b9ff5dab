/** The bus transport the driver talks through: the Arduino `Wire` master
    calls it uses (beginTransmission, write, endTransmission) and the
    `delayMicroseconds` busy-wait. Nothing here reaches hardware: whether a
    transaction is acknowledged comes from an oracle fixed at construction,
    every closed transaction is appended to a log, and every busy-wait is
    appended to a delay log. */
module Transport {

  /** An 8-bit value, as Arduino's `byte`. */
  type byte = x: int | 0 <= x < 256

  /** One closed transaction: the 7-bit device address, the bytes queued
      between beginTransmission and endTransmission, and whether
      endTransmission returned 0 (success). */
  datatype Transaction = Transaction(device: int, bytes: seq<byte>, acked: bool)

  /** The transaction being assembled, if any. */
  datatype Pending = Idle | Open(device: int, buffer: seq<byte>)

  class Bus {
    /** ack(k) is what the k-th endTransmission of this bus reports. */
    const ack: nat -> bool
    /** Every transaction closed so far, oldest first. */
    var log: seq<Transaction>
    /** Every busy-wait so far, in microseconds. */
    var delays: seq<nat>
    var pending: Pending

    /** The log agrees with the oracle: transaction k was acknowledged exactly
        when ack(k) says so. */
    ghost predicate Valid()
      reads this
    {
      forall k :: 0 <= k < |log| ==> log[k].acked == ack(k)
    }

    constructor (ack: nat -> bool)
      ensures Valid()
      ensures this.ack == ack && log == [] && delays == [] && pending == Idle
    {
      this.ack := ack;
      log := [];
      delays := [];
      pending := Idle;
    }

    method BeginTransmission(device: int)
      modifies this
      ensures pending == Open(device, [])
      ensures log == old(log) && delays == old(delays)
    {
      pending := Open(device, []);
    }

    method Write(b: byte)
      requires pending.Open?
      modifies this
      ensures pending == Open(old(pending).device, old(pending).buffer + [b])
      ensures log == old(log) && delays == old(delays)
    {
      pending := Open(pending.device, pending.buffer + [b]);
    }

    /** Wire.write(buffer, n): queues the bytes in order. */
    method WriteBytes(bs: seq<byte>)
      requires pending.Open?
      modifies this
      ensures pending == Open(old(pending).device, old(pending).buffer + bs)
      ensures log == old(log) && delays == old(delays)
    {
      pending := Open(pending.device, pending.buffer + bs);
    }

    /** Sends the queued transaction; `ok` stands for a status of 0. */
    method EndTransmission() returns (ok: bool)
      requires Valid() && pending.Open?
      modifies this
      ensures Valid()
      ensures ok == ack(|old(log)|)
      ensures log == old(log) + [Transaction(old(pending).device, old(pending).buffer, ok)]
      ensures pending == Idle && delays == old(delays)
    {
      ok := ack(|log|);
      log := log + [Transaction(pending.device, pending.buffer, ok)];
      pending := Idle;
    }

    method DelayMicroseconds(us: nat)
      modifies this
      ensures delays == old(delays) + [us]
      ensures log == old(log) && pending == old(pending)
    {
      delays := delays + [us];
    }
  }
}
