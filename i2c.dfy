/**
 * An abstract blocking I2C bus standing in for the embedded-hal `Write` and `WriteRead`
 * capabilities. It records every transaction in a ghost trace; whether the i-th
 * transaction succeeds, and the j-th byte it delivers, are fixed by two oracle functions
 * given at construction.
 */
module I2c {
  import opened Wrappers

  /** One bus transaction: a write of `bytes`, or a write of `bytes` followed by a read of `len` bytes. */
  datatype Transaction =
    | Write(addr: bv8, bytes: seq<bv8>)
    | WriteRead(addr: bv8, bytes: seq<bv8>, len: nat)

  class Bus<E> {
    /** reply(i): the outcome of the i-th transaction. */
    const reply: nat -> Result<(), E>
    /** incoming(i, j): byte j read by the i-th transaction when it succeeds. */
    const incoming: (nat, nat) -> bv8
    /** Number of transactions issued so far. */
    var count: nat
    ghost var trace: seq<Transaction>

    ghost predicate Valid()
      reads this
    {
      count == |trace|
    }

    /** The n bytes the i-th transaction reads when it succeeds. */
    function Delivered(i: nat, n: nat): seq<bv8>
    {
      seq(n, (j: int) requires 0 <= j => incoming(i, j))
    }

    constructor (reply: nat -> Result<(), E>, incoming: (nat, nat) -> bv8)
      ensures Valid() && trace == []
      ensures this.reply == reply && this.incoming == incoming
    {
      this.reply := reply;
      this.incoming := incoming;
      count := 0;
      trace := [];
    }

    /** Send `bytes` to the device at `addr`. */
    method Write(addr: bv8, bytes: seq<bv8>) returns (r: Result<(), E>)
      requires Valid()
      modifies this
      ensures Valid()
      ensures trace == old(trace) + [Transaction.Write(addr, bytes)]
      ensures r == reply(old(count))
    {
      r := reply(count);
      trace := trace + [Transaction.Write(addr, bytes)];
      count := count + 1;
    }

    /** Send `bytes` to the device at `addr`, then fill `buf` from it, as one transaction. */
    method WriteRead(addr: bv8, bytes: seq<bv8>, buf: array<bv8>) returns (r: Result<(), E>)
      requires Valid()
      modifies this, buf
      ensures Valid()
      ensures trace == old(trace) + [Transaction.WriteRead(addr, bytes, buf.Length)]
      ensures r == reply(old(count))
      ensures r.Ok? ==> buf[..] == Delivered(old(count), buf.Length)
    {
      r := reply(count);
      if r.Ok? {
        forall j | 0 <= j < buf.Length {
          buf[j] := incoming(count, j);
        }
      }
      trace := trace + [Transaction.WriteRead(addr, bytes, buf.Length)];
      count := count + 1;
    }
  }
}
