/** The collaborators a serial connection talks to, reduced to what the framing logic observes:
    a low-level serial device and a clock. */
module Environment {
  import opened Framing

  /** The low-level serial device. What it will hand over is a script: the fragment each
      successive read returns and the answer each successive send gives (a byte count, or
      `None`). A call past the end of its script never answers. The device also records what it
      was asked: the size of every read and the bytes of every send. */
  class Transport {
    var incoming: seq<Bytes>
    var replies: seq<Option<nat>>
    var requests: seq<nat>
    var written: seq<Bytes>
    /** The per-read poll timeout the connection sets; `None` is a blocking read. */
    var timeout: Option<int>

    constructor (incoming: seq<Bytes>, replies: seq<Option<nat>>)
      ensures this.incoming == incoming && this.replies == replies
      ensures requests == [] && written == [] && timeout == None
    {
      this.incoming := incoming;
      this.replies := replies;
      requests := [];
      written := [];
      timeout := None;
    }

    /** One read of at most `maxBytes` bytes (the device is not obliged to honour the bound). */
    method Recv(maxBytes: nat) returns (r: Poll<Bytes>)
      modifies this
      ensures old(incoming) == [] ==> r == Blocked && incoming == old(incoming) && requests == old(requests)
      ensures old(incoming) != [] ==>
                r == Ready(old(incoming)[0]) && incoming == old(incoming)[1..] &&
                requests == old(requests) + [maxBytes]
      ensures replies == old(replies) && written == old(written) && timeout == old(timeout)
    {
      if incoming == [] {
        r := Blocked;
      } else {
        r := Ready(incoming[0]);
        incoming := incoming[1..];
        requests := requests + [maxBytes];
      }
    }

    /** One write of `data`; the answer says how many bytes went out, if anything is said. */
    method Send(data: Bytes) returns (r: Poll<Option<nat>>)
      modifies this
      ensures old(replies) == [] ==> r == Blocked && replies == old(replies) && written == old(written)
      ensures old(replies) != [] ==>
                r == Ready(old(replies)[0]) && replies == old(replies)[1..] &&
                written == old(written) + [data]
      ensures incoming == old(incoming) && requests == old(requests) && timeout == old(timeout)
    {
      if replies == [] {
        r := Blocked;
      } else {
        r := Ready(replies[0]);
        replies := replies[1..];
        written := written + [data];
      }
    }
  }

  /** A clock: the k-th reading ever taken is `reading(k)`. */
  class Clock {
    const reading: nat -> int
    var ticks: nat

    constructor (reading: nat -> int)
      ensures this.reading == reading && ticks == 0
    {
      this.reading := reading;
      ticks := 0;
    }

    method Now() returns (t: int)
      modifies this
      ensures t == reading(old(ticks)) && ticks == old(ticks) + 1
    {
      t := reading(ticks);
      ticks := ticks + 1;
    }
  }
}
