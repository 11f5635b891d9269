# Serial connection framing, modelled in Dafny

A serial port hands over a byte stream with no message boundaries. The `SerialConnection`
class of boofuzz (`sulley/serial_connection.py`) adds framing on top of a low-level serial
device. Its `recv(max_bytes)` call works as follows:

- It starts from the bytes the previous call kept back (`_leftover_bytes`).
- It reads fragments from the device until the buffer holds `max_bytes` bytes.
- It stops earlier in three cases:
  - a user-supplied content checker reports that the first `n` bytes are a message; the rest is
    kept for the next call;
  - a hard timeout has passed since the call began;
  - the separator ("silence") time has passed since `last_byte_time`.

Its `send(data)` call retries with the unsent suffix until the device has accepted everything.

The project has three modules:

- `Framing` (`framing.dfy`) holds one receive call and one send call as pure functions of what
  the device delivers and what the clock reads:
  - `Iteration` is one pass of the receive loop;
  - `Loop` and `Resume` run the loop from any state;
  - `RecvSpec` is a whole receive call;
  - `SendLoop` and `SendSpec` are the send loop and a whole send call.

  The lemmas about these functions state what the code promises.
- `Environment` (`environment.dfy`) holds the collaborators:
  - a scripted device (`Transport`), which hands out a fixed sequence of read fragments and
    send answers and records every read size and every buffer it was sent;
  - a clock (`Clock`), whose k-th reading is `reading(k)`.
- `Serial` (`serial_connection.dfy`) holds the class `SerialConnection`:
  - its fields: the connection, the clock, `timeout`, `messageSeparatorTime`, `contentChecker`
    and the carry-over buffer `leftover`;
  - the imperative `Recv` and `Send` loops, each proved to produce exactly what `RecvSpec` and
    `SendSpec` describe.

  The body of the receive loop is a method of its own, `RecvIteration`, specified by `Iteration`.

Modelling choices:

- **Finite script.** The device's script is finite. A read or send past its end stands for a
  device that never answers. The call then never returns: the receive model stops with exit
  `Hung`, and the send model with `complete == false`. This is how both loops are modelled
  without assuming they terminate.
- **Time.**
  - Times are integers in microseconds, so the poll floor `.001` s is `1000`.
  - Every `time.time()` call takes the next clock reading.
  - No property assumes the clock is monotone, unless a lemma says otherwise.
- **Poll interval.** The code sets the device's poll interval to
  `min(.001, message_separator_time, timeout)` under Python 2, where `None` orders below every
  number. The interval is therefore `None`, a blocking read, as soon as either setting is
  unset, and otherwise the least of the floor and the two settings. See `PollTimeout`.
- **Checker answers.** A checker answer is any integer. Only `n > 0` is a match, so a negative
  answer means "not yet", like `0`.
- **Read before checking.** The device read comes before the checker call in every iteration,
  so a message already complete in the leftover still costs one read.

### Where the code differs from its docstring

The class's docstring (sulley/serial_connection.py:14-18, 41-43) promises that `recv` returns
once `message_separator_time` seconds pass *without receiving any more data*. The code
refreshes `last_byte_time` at the top of *every* iteration that starts with a non-empty buffer,
whether or not the last read added anything. The separator time is therefore measured from the
reading just before the current read, not from the arrival of the last byte. The model follows
the code; `RecvSilence` and `RecvSilenceNeedsEmptyBuffer` state the consequence.

## Model

| member | source | states |
|---|---|---|
| Framing.Prefix | sulley/serial_connection.py:105 | `data[0:n]` for `n > 0` is a prefix of `data` of length `min(n, len(data))` |
| Framing.Suffix | sulley/serial_connection.py:104 | `data[n:]` completes `data[0:n]` back to `data`, and is empty exactly when `n >= len(data)` |
| Framing.PollTimeout | sulley/serial_connection.py:84 | the poll interval is absent (a blocking read) exactly when either setting is absent; otherwise it is one of the floor and the two settings and at most each of them |
| Framing.Iteration | sulley/serial_connection.py:92-112 | an iteration after which the loop goes on has read one fragment and appended it whole to the buffer |
| Framing.RecvSpec | sulley/serial_connection.py:86-91 | a receive call reads each scripted fragment at most once; a leftover already holding `max_bytes` bytes or more is returned whole, possibly longer than `max_bytes`, with no device read, no checker call, an empty leftover and one clock reading |
| Framing.LoopConserves | sulley/serial_connection.py:88-114 | no byte is lost or duplicated: message followed by new leftover equals the starting buffer followed by every fragment read; the leftover is non-empty only after a checker match, and then message and leftover are `data[0:n]` and `data[n:]` of the whole buffer with `n` the checker's positive answer; a loop exit means at least `max_bytes` bytes; a hang means the script is used up |
| Framing.LoopRequests | sulley/serial_connection.py:91-97 | the i-th device read asks for `max_bytes` minus the buffer length at the top of iteration i, and that number is positive |
| Framing.LoopChecks | sulley/serial_connection.py:101-105 | a set checker is called once after every read, never before the first one, and always on the whole buffer: the i-th call sees the starting buffer followed by the first i+1 fragments; every answer but a final match is `<= 0`; an unset checker is never called |
| Framing.LoopClock | sulley/serial_connection.py:86-108 | every read except one ended by a checker match is followed by one timeout check; each check takes its own clock reading, at strictly increasing reading indices within the call |
| Framing.LoopMark | sulley/serial_connection.py:86-94 | at the i-th timeout check `last_byte_time` is the call's start if the buffer was empty at the top of that iteration, otherwise the reading taken just before that iteration's read |
| Framing.LoopDeadlines | sulley/serial_connection.py:108-112 | the call ends at the first timeout check where the hard timeout or the separator time has passed; the hard timeout wins when both have; every earlier check found neither |
| Framing.RecvConserves | sulley/serial_connection.py:86-114 | over a whole receive call, no byte is lost or duplicated: message followed by new leftover equals the old leftover followed by every fragment read; the new leftover is non-empty only after a checker match, and then message and leftover are `data[0:n]` and `data[n:]` of the whole buffer with `n` the checker's positive answer; a loop exit returns at least `max_bytes` bytes |
| Framing.RecvBound | sulley/serial_connection.py:91-114 | if the leftover is shorter than `max_bytes` and the device never hands over more than asked, the result has at most `max_bytes` bytes, and exactly `max_bytes` when the loop ends by filling up |
| Framing.RecvSilence | sulley/serial_connection.py:93-112 | a call that ends by silence has a separator time set; the silence it saw is either the time since the call's start (empty buffer at the top of the last iteration) or the gap between two consecutive clock readings |
| Framing.RecvSilenceNeedsEmptyBuffer | sulley/serial_connection.py:93-112 | on a clock whose consecutive readings are always closer together than the separator time, a call ends by silence only if its buffer was empty at the top of its last iteration |
| Framing.SendSpec | sulley/serial_connection.py:124-129 | a send of nothing returns 0 without calling the device; a send makes at most one device call per scripted answer |
| Framing.SendLoopAccounting | sulley/serial_connection.py:124-129 | each device call gets `data[bytes_sent:]`, never empty; the count is the sum of the answers, `None` counting 0; the loop ends exactly when the count reaches `len(data)` (or the device stops answering) |
| Framing.SendRetriesAfterNone | sulley/serial_connection.py:126-128 | after a `None` answer the next device call is handed the same suffix again |
| Framing.SendExact | sulley/serial_connection.py:125-129 | if the device never reports more than it was handed, the count never passes `len(data)`, and a send that returns has sent exactly `len(data)` bytes |
| Serial.SerialConnection.constructor | sulley/serial_connection.py:33-56 | the connection and the three framing settings are stored as given, and the leftover starts empty |
| Serial.SerialConnection.Recv | sulley/serial_connection.py:74-114 | returns `RecvSpec`'s message and stores its leftover; consumes exactly the fragments that `RecvSpec` reads, asks the device for exactly its read sizes, takes exactly its clock readings; sets the poll interval to `PollTimeout`; leaves the send side untouched |
| Serial.SerialConnection.RecvIteration | sulley/serial_connection.py:92-112 | one pass of the receive loop does what `Iteration` decides: the call ends exactly when `Iteration` stops, with its message, leftover and readings; otherwise the loop goes on with its buffer and `last_byte_time`, having made its one device read |
| Serial.SerialConnection.Send | sulley/serial_connection.py:116-129 | returns `SendSpec`'s count; hands the device exactly `SendSpec`'s suffixes, in order, using one scripted answer each; leaves the receive side untouched |

## Left out

- `open` and `close` (sulley/serial_connection.py:58-72) only delegate to the device and are not modelled.
- `set_logger` and the `_logger` field (sulley/serial_connection.py:51, 131-140) do not affect framing and are not modelled.
- The low-level device and its interfaces are not part of this model. The device is a finite script; its per-read poll timeout is recorded but has no effect on what it delivers. How long a read takes shows only in the clock readings around it.
- Real time and floating point: clock readings and durations are integers in microseconds.
- Exceptions from the device or from the content checker are not modelled. The checker is a pure function from bytes to an integer.
- Send answers are modelled as a natural number or `None`. A negative or non-integer count from the device is not modelled.
- The two loops may run forever on a device that never answers or never makes progress. The model stops them at the end of the script instead. It does not model the waiting itself.
- Framing.Iteration: its own contract only states what an iteration that goes on has done. The full outcome of each branch is stated by the loop lemmas (LoopConserves, LoopChecks, LoopClock, LoopMark, LoopDeadlines).
