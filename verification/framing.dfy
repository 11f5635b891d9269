/** What one receive call and one send call of a serial connection do, as pure functions of
    what the device delivers and what the clock reads.

    The receive call frames messages over a byte stream that has no delimiters. It starts from
    the bytes a previous call kept back (the leftover), reads fragments from the device until the
    buffer holds `maxBytes` bytes, and may stop earlier: when a user-supplied content checker
    reports a complete message, when a hard timeout has passed since the call began, or when the
    separator ("silence") time has passed since `last_byte_time`.

    The device is a finite script of fragments. A read past the end of the script stands for a
    device that never answers: the call then never returns, and the model stops with exit `Hung`.
    The clock is any function from the number of readings taken so far to a reading. Durations
    and readings are integers in microseconds. */
module Framing {

  type Byte = bv8
  type Bytes = seq<Byte>

  datatype Option<+T> = None | Some(value: T) {
    function GetOr(default: T): T {
      match this
      case Some(v) => v
      case None => default
    }
  }

  /** The answer of one device call: a value, or no answer ever (the script is used up). */
  datatype Poll<+T> = Ready(value: T) | Blocked

  /** All fragments, in order, as one byte string. */
  function Flatten(fragments: seq<Bytes>): Bytes {
    if fragments == [] then [] else fragments[0] + Flatten(fragments[1..])
  }

  /** The buffer at the top of iteration `i` of a loop that started with `data` and reads
      `incoming`: the start followed by the first `i` fragments. */
  function Top(data: Bytes, incoming: seq<Bytes>, i: nat): Bytes
    requires i <= |incoming|
  {
    data + Flatten(incoming[..i])
  }

  /** Reading one more fragment moves the start of the loop along. */
  lemma TopShift(data: Bytes, incoming: seq<Bytes>, i: nat)
    requires i < |incoming|
    ensures Top(data, incoming, i + 1) == Top(data + incoming[0], incoming[1..], i)
  {
    assert incoming[..i + 1][1..] == incoming[1..][..i];
  }

  lemma TopZero(data: Bytes, incoming: seq<Bytes>)
    ensures Top(data, incoming, 0) == data
  {
    assert incoming[..0] == [];
  }

  // ---------------------------------------------------------------------------------------
  // Python slices with a positive bound

  /** `data[0:n]` for `n > 0`: the first `n` bytes, or all of `data` when it is shorter. */
  function Prefix(data: Bytes, n: int): (r: Bytes)
    requires n > 0
    ensures r <= data
    ensures |r| == if n < |data| then n else |data|
  {
    if n < |data| then data[..n] else data
  }

  /** `data[n:]` for `n > 0`: what follows the first `n` bytes, empty when `n` reaches the end. */
  function Suffix(data: Bytes, n: int): (r: Bytes)
    requires n > 0
    ensures Prefix(data, n) + r == data
    ensures n >= |data| <==> r == []
  {
    if n < |data| then data[n..] else []
  }

  // ---------------------------------------------------------------------------------------
  // The poll interval handed to the device

  /** 0.001 seconds, in microseconds. */
  const PollFloor: int := 1000

  /** Python 2's `a < b` on optional numbers: `None` orders below every number. */
  predicate PyLess(a: Option<int>, b: Option<int>) {
    (a.None? && b.Some?) || (a.Some? && b.Some? && a.value < b.value)
  }

  /** Python's `min` of two values: the first one unless the second is strictly smaller. */
  function PyMin(a: Option<int>, b: Option<int>): Option<int> {
    if PyLess(b, a) then b else a
  }

  /** `min(.001, message_separator_time, timeout)` under Python 2: no poll timeout at all (a
      blocking read) as soon as either setting is absent, otherwise the least of the three. */
  function PollTimeout(separatorTime: Option<int>, timeout: Option<int>): (r: Option<int>)
    ensures r.None? <==> separatorTime.None? || timeout.None?
    ensures r.Some? ==> r.value <= PollFloor && r.value <= separatorTime.value && r.value <= timeout.value
    ensures r.Some? ==> r.value == PollFloor || r.value == separatorTime.value || r.value == timeout.value
  {
    PyMin(PyMin(Some(PollFloor), separatorTime), timeout)
  }

  // ---------------------------------------------------------------------------------------
  // One receive call

  /** The framing settings of a connection; a checker answers 0 (or less) for "not yet" and
      n > 0 for "the first n bytes are a message". */
  datatype Config = Config(timeout: Option<int>, separatorTime: Option<int>, checker: Option<Bytes -> int>)

  /** Why a receive call ended. */
  datatype Exit =
    | Matched   // the content checker found a message
    | TimedOut  // the hard timeout since the start of the call
    | Silent    // the separator time since last_byte_time
    | Filled    // the buffer holds maxBytes bytes (or more)
    | Hung      // the device never answers the next read; the call does not return

  /** One iteration that got as far as the timeout checks: `last_byte_time` there (`mark`), and the
      clock reading taken for the checks (`now`, the reading with index `at`). */
  datatype Pass = Pass(mark: int, at: nat, now: int)

  /** What a call did on the way: the size asked of each device read, the buffer given to each
      checker call, and the timing of each iteration that reached the timeout checks. */
  datatype Trace = Trace(requests: seq<nat>, checked: seq<Bytes>, passes: seq<Pass>)

  /** The outcome of a call: the bytes returned, the new leftover, why it ended, what it did and
      how many clock readings had been taken in all when it ended. */
  datatype Received = Received(message: Bytes, leftover: Bytes, exit: Exit, trace: Trace, ticks: nat)

  function Concat(a: Trace, b: Trace): Trace {
    Trace(a.requests + b.requests, a.checked + b.checked, a.passes + b.passes)
  }

  lemma Reassociate<T>(a: seq<T>, b: seq<T>, c: seq<T>)
    ensures (a + b) + c == a + (b + c)
  {
  }

  /** `rest`, preceded by what happened before it. */
  function Prepend(first: Trace, rest: Received): Received {
    rest.(trace := Concat(first, rest.trace))
  }

  lemma PrependTwice(a: Trace, b: Trace, rest: Received)
    ensures Prepend(a, Prepend(b, rest)) == Prepend(Concat(a, b), rest)
  {
    assert a.requests + (b.requests + rest.trace.requests) == (a.requests + b.requests) + rest.trace.requests;
    assert a.checked + (b.checked + rest.trace.checked) == (a.checked + b.checked) + rest.trace.checked;
    assert a.passes + (b.passes + rest.trace.passes) == (a.passes + b.passes) + rest.trace.passes;
  }

  lemma PrependToNothing(first: Trace, rest: Received)
    requires rest.trace == Trace([], [], [])
    ensures Prepend(first, rest) == rest.(trace := first)
  {
    assert first.requests + [] == first.requests;
    assert first.checked + [] == first.checked;
    assert first.passes + [] == first.passes;
  }

  /** The checker's answer for `data`, 0 when no checker is set. */
  function Verdict(cfg: Config, data: Bytes): int {
    if cfg.checker.Some? then cfg.checker.value(data) else 0
  }

  predicate HardExpired(cfg: Config, start: int, p: Pass) {
    cfg.timeout.Some? && p.now - start >= cfg.timeout.value
  }

  predicate SilenceExpired(cfg: Config, p: Pass) {
    cfg.separatorTime.Some? && p.now - p.mark >= cfg.separatorTime.value
  }

  /** The buffers a checker is given in one iteration: the whole buffer, if a checker is set. */
  function Checked(cfg: Config, data: Bytes): seq<Bytes> {
    if cfg.checker.Some? then [data] else []
  }

  /** What one iteration of the receive loop decides: the call ends with `result`, or it goes on
      with `trace` recorded, `mark` as `last_byte_time`, `data` in the buffer and `tick` clock
      readings taken. */
  datatype Step = Stop(result: Received) | Continue(trace: Trace, mark: int, data: Bytes, tick: nat)

  /** One iteration of the receive loop, entered with fewer than `maxBytes` bytes in the buffer
      (`data`), `mark` as `last_byte_time`, the fragments the device will deliver in `incoming` and
      `tick` clock readings taken so far. */
  function Iteration(cfg: Config, maxBytes: int, start: int, mark: int, data: Bytes,
                     incoming: seq<Bytes>, reading: nat -> int, tick: nat): (r: Step)
    requires |data| < maxBytes
    ensures r.Continue? ==> incoming != [] && r.data == data + incoming[0]
  {
    // last_byte_time is refreshed whenever the buffer is non-empty, grown or not
    var mark' := if |data| > 0 then reading(tick) else mark;
    var tick' := if |data| > 0 then tick + 1 else tick;
    if incoming == [] then
      Stop(Received(data, [], Hung, Trace([], [], []), tick'))
    else
      var request: nat := maxBytes - |data|;
      var data' := data + incoming[0];
      var n := Verdict(cfg, data');
      if n > 0 then
        Stop(Received(Prefix(data', n), Suffix(data', n), Matched, Trace([request], [data'], []), tick'))
      else
        var pass := Pass(mark', tick', reading(tick'));
        var trace := Trace([request], Checked(cfg, data'), [pass]);
        if HardExpired(cfg, start, pass) || SilenceExpired(cfg, pass) then
          // the hard timeout is checked first
          Stop(Received(data', [], if HardExpired(cfg, start, pass) then TimedOut else Silent, trace, tick' + 1))
        else
          Continue(trace, mark', data', tick' + 1)
  }

  /** The receive loop from the top of an iteration on. */
  function Loop(cfg: Config, maxBytes: int, start: int, mark: int, data: Bytes,
                incoming: seq<Bytes>, reading: nat -> int, tick: nat): Received
    decreases |incoming|, 1
  {
    if |data| >= maxBytes then
      Received(data, [], Filled, Trace([], [], []), tick)
    else
      Resume(cfg, maxBytes, start, incoming, reading, Iteration(cfg, maxBytes, start, mark, data, incoming, reading, tick))
  }

  /** The rest of the receive loop after an iteration that decided `step`. */
  function Resume(cfg: Config, maxBytes: int, start: int, incoming: seq<Bytes>, reading: nat -> int,
                  step: Step): Received
    requires step.Continue? ==> incoming != []
    decreases |incoming|, 0
  {
    match step
    case Stop(result) => result
    case Continue(trace, mark, data, tick) =>
      Prepend(trace, Loop(cfg, maxBytes, start, mark, data, incoming[1..], reading, tick))
  }

  /** An iteration that ends the call, seen from a caller that has recorded what happened so far
      in `done` and expects `spec` in the end. */
  lemma LoopStops(cfg: Config, maxBytes: int, start: int, mark: int, data: Bytes,
                  incoming: seq<Bytes>, reading: nat -> int, tick: nat, done: Trace, spec: Received)
    requires spec == Prepend(done, Loop(cfg, maxBytes, start, mark, data, incoming, reading, tick))
    requires |data| < maxBytes && Iteration(cfg, maxBytes, start, mark, data, incoming, reading, tick).Stop?
    ensures spec == Prepend(done, Iteration(cfg, maxBytes, start, mark, data, incoming, reading, tick).result)
  {
  }

  /** An iteration after which the loop goes on. */
  lemma LoopGoesOn(cfg: Config, maxBytes: int, start: int, mark: int, data: Bytes,
                   incoming: seq<Bytes>, reading: nat -> int, tick: nat, done: Trace, spec: Received)
    requires spec == Prepend(done, Loop(cfg, maxBytes, start, mark, data, incoming, reading, tick))
    requires |data| < maxBytes && Iteration(cfg, maxBytes, start, mark, data, incoming, reading, tick).Continue?
    ensures var step := Iteration(cfg, maxBytes, start, mark, data, incoming, reading, tick);
            spec == Prepend(Concat(done, step.trace),
                            Loop(cfg, maxBytes, start, step.mark, step.data, incoming[1..], reading, step.tick))
  {
    var step := Iteration(cfg, maxBytes, start, mark, data, incoming, reading, tick);
    PrependTwice(done, step.trace, Loop(cfg, maxBytes, start, step.mark, step.data, incoming[1..], reading, step.tick));
  }

  /** A whole receive call: the first clock reading is both `start_time` and `last_byte_time`, and
      the buffer starts as the leftover of the previous call. */
  function RecvSpec(cfg: Config, leftover: Bytes, maxBytes: int, incoming: seq<Bytes>,
                    reading: nat -> int, tick: nat): (r: Received)
    ensures |r.trace.requests| <= |incoming|
    ensures |leftover| >= maxBytes ==> r == Received(leftover, [], Filled, Trace([], [], []), tick + 1)
  {
    var start := reading(tick);
    var r := Loop(cfg, maxBytes, start, start, leftover, incoming, reading, tick + 1);
    LoopLength(cfg, maxBytes, start, start, leftover, incoming, reading, tick + 1, r);
    r
  }

  /** The loop reads each fragment of the script at most once. */
  lemma {:induction false} LoopLength(cfg: Config, maxBytes: int, start: int, mark: int, data: Bytes,
                                      incoming: seq<Bytes>, reading: nat -> int, tick: nat, o: Received)
    requires o == Loop(cfg, maxBytes, start, mark, data, incoming, reading, tick)
    ensures |o.trace.requests| <= |incoming|
    decreases |incoming|
  {
    if |data| < maxBytes {
      var step := Iteration(cfg, maxBytes, start, mark, data, incoming, reading, tick);
      if step.Continue? {
        LoopLength(cfg, maxBytes, start, step.mark, step.data, incoming[1..], reading, step.tick,
                   Loop(cfg, maxBytes, start, step.mark, step.data, incoming[1..], reading, step.tick));
      }
    }
  }

  /** No byte is lost or duplicated: the message followed by the new leftover is exactly the old
      buffer followed by every fragment read. Only a checker match keeps a leftover, and then the
      message is the checker's prefix of the whole buffer. */
  lemma {:induction false} LoopConserves(cfg: Config, maxBytes: int, start: int, mark: int, data: Bytes,
                                         incoming: seq<Bytes>, reading: nat -> int, tick: nat, o: Received)
    requires o == Loop(cfg, maxBytes, start, mark, data, incoming, reading, tick)
    ensures |o.trace.requests| <= |incoming|
    ensures o.message + o.leftover == Top(data, incoming, |o.trace.requests|)
    ensures o.exit != Matched ==> o.leftover == [] && o.message == Top(data, incoming, |o.trace.requests|)
    ensures o.exit == Matched ==>
              var whole := Top(data, incoming, |o.trace.requests|);
              |o.trace.requests| > 0 && cfg.checker.Some? && Verdict(cfg, whole) > 0 &&
              o.message == Prefix(whole, Verdict(cfg, whole)) && o.leftover == Suffix(whole, Verdict(cfg, whole))
    ensures o.exit == Filled ==> |o.message| >= maxBytes
    ensures o.exit == Hung ==> |o.trace.requests| == |incoming|
    decreases |incoming|
  {
    LoopLength(cfg, maxBytes, start, mark, data, incoming, reading, tick, o);
    TopZero(data, incoming);
    if |data| < maxBytes && incoming != [] {
      var step := Iteration(cfg, maxBytes, start, mark, data, incoming, reading, tick);
      var data' := data + incoming[0];
      TopShift(data, incoming, 0);
      TopZero(data', incoming[1..]);
      if step.Continue? {
        var rest := Loop(cfg, maxBytes, start, step.mark, data', incoming[1..], reading, step.tick);
        LoopConserves(cfg, maxBytes, start, step.mark, data', incoming[1..], reading, step.tick, rest);
        TopShift(data, incoming, |rest.trace.requests|);
      }
    }
  }

  /** Every device read asks for the room left in the buffer, `maxBytes` less what it holds, and
      that room is positive. */
  lemma {:induction false} LoopRequests(cfg: Config, maxBytes: int, start: int, mark: int, data: Bytes,
                                        incoming: seq<Bytes>, reading: nat -> int, tick: nat, o: Received)
    requires o == Loop(cfg, maxBytes, start, mark, data, incoming, reading, tick)
    ensures |o.trace.requests| <= |incoming|
    ensures forall i :: 0 <= i < |o.trace.requests| ==>
              |Top(data, incoming, i)| < maxBytes && o.trace.requests[i] == maxBytes - |Top(data, incoming, i)|
    decreases |incoming|
  {
    LoopLength(cfg, maxBytes, start, mark, data, incoming, reading, tick, o);
    TopZero(data, incoming);
    if |data| < maxBytes {
      var step := Iteration(cfg, maxBytes, start, mark, data, incoming, reading, tick);
      if step.Continue? {
        var rest := Loop(cfg, maxBytes, start, step.mark, step.data, incoming[1..], reading, step.tick);
        LoopRequests(cfg, maxBytes, start, step.mark, step.data, incoming[1..], reading, step.tick, rest);
        forall i | 1 <= i < |o.trace.requests|
          ensures |Top(data, incoming, i)| < maxBytes && o.trace.requests[i] == maxBytes - |Top(data, incoming, i)|
        {
          assert o.trace.requests[i] == rest.trace.requests[i - 1];
          TopShift(data, incoming, i - 1);
        }
      }
    }
  }

  /** The checker, when set, is consulted once after every read and always sees the whole buffer
      accumulated so far; every answer but a final match is "not yet". */
  lemma {:induction false} LoopChecks(cfg: Config, maxBytes: int, start: int, mark: int, data: Bytes,
                                      incoming: seq<Bytes>, reading: nat -> int, tick: nat, o: Received)
    requires o == Loop(cfg, maxBytes, start, mark, data, incoming, reading, tick)
    ensures |o.trace.requests| <= |incoming|
    ensures |o.trace.checked| == if cfg.checker.Some? then |o.trace.requests| else 0
    ensures forall i :: 0 <= i < |o.trace.checked| ==> o.trace.checked[i] == Top(data, incoming, i + 1)
    ensures forall i :: 0 <= i < |o.trace.checked| && (i < |o.trace.checked| - 1 || o.exit != Matched) ==>
              Verdict(cfg, o.trace.checked[i]) <= 0
    decreases |incoming|
  {
    LoopLength(cfg, maxBytes, start, mark, data, incoming, reading, tick, o);
    if |data| < maxBytes && incoming != [] {
      var step := Iteration(cfg, maxBytes, start, mark, data, incoming, reading, tick);
      var data' := data + incoming[0];
      TopShift(data, incoming, 0);
      TopZero(data', incoming[1..]);
      if step.Continue? {
        var rest := Loop(cfg, maxBytes, start, step.mark, data', incoming[1..], reading, step.tick);
        LoopChecks(cfg, maxBytes, start, step.mark, data', incoming[1..], reading, step.tick, rest);
        forall i | 1 <= i < |o.trace.checked|
          ensures o.trace.checked[i] == Top(data, incoming, i + 1)
        {
          assert o.trace.checked[i] == rest.trace.checked[i - 1];
          TopShift(data, incoming, i);
        }
      }
    }
  }

  /** The clock readings of the loop. Every read but a final checker match is followed by one
      reading for the timeout checks, at strictly increasing indices. */
  lemma {:induction false} LoopClock(cfg: Config, maxBytes: int, start: int, mark: int, data: Bytes,
                                     incoming: seq<Bytes>, reading: nat -> int, tick: nat, o: Received)
    requires o == Loop(cfg, maxBytes, start, mark, data, incoming, reading, tick)
    ensures o.ticks >= tick
    ensures |o.trace.passes| == if o.exit == Matched then |o.trace.requests| - 1 else |o.trace.requests|
    ensures forall i :: 0 <= i < |o.trace.passes| ==>
              tick <= o.trace.passes[i].at < o.ticks && o.trace.passes[i].now == reading(o.trace.passes[i].at)
    ensures forall i, j :: 0 <= i < j < |o.trace.passes| ==> o.trace.passes[i].at < o.trace.passes[j].at
    decreases |incoming|
  {
    if |data| < maxBytes {
      var step := Iteration(cfg, maxBytes, start, mark, data, incoming, reading, tick);
      if step.Continue? {
        var rest := Loop(cfg, maxBytes, start, step.mark, step.data, incoming[1..], reading, step.tick);
        LoopClock(cfg, maxBytes, start, step.mark, step.data, incoming[1..], reading, step.tick, rest);
        assert o.trace.passes == step.trace.passes + rest.trace.passes;
      }
    }
  }

  /** `last_byte_time` at the `i`-th timeout check: the call's start while the buffer was empty at
      the top of that iteration, and otherwise the reading taken just before that iteration's read,
      whether or not the buffer grew. */
  lemma {:induction false} LoopMark(cfg: Config, maxBytes: int, start: int, mark: int, data: Bytes,
                                    incoming: seq<Bytes>, reading: nat -> int, tick: nat, o: Received, i: nat)
    requires o == Loop(cfg, maxBytes, start, mark, data, incoming, reading, tick)
    requires i < |o.trace.passes|
    ensures i < |incoming|
    ensures if |Top(data, incoming, i)| == 0 then o.trace.passes[i].mark == mark
            else tick < o.trace.passes[i].at && o.trace.passes[i].mark == reading(o.trace.passes[i].at - 1)
    decreases |incoming|
  {
    LoopLength(cfg, maxBytes, start, mark, data, incoming, reading, tick, o);
    LoopClock(cfg, maxBytes, start, mark, data, incoming, reading, tick, o);
    TopZero(data, incoming);
    var step := Iteration(cfg, maxBytes, start, mark, data, incoming, reading, tick);
    if i > 0 {
      var rest := Loop(cfg, maxBytes, start, step.mark, step.data, incoming[1..], reading, step.tick);
      assert o.trace.passes == step.trace.passes + rest.trace.passes;
      LoopClock(cfg, maxBytes, start, step.mark, step.data, incoming[1..], reading, step.tick, rest);
      LoopMark(cfg, maxBytes, start, step.mark, step.data, incoming[1..], reading, step.tick, rest, i - 1);
      TopShift(data, incoming, i - 1);
      if |Top(data, incoming, i)| == 0 {
        assert |data| == 0;
      }
    }
  }

  /** The call ends at the first timeout check at which the hard timeout or the separator time
      has passed, the hard timeout taking precedence; every earlier check found neither. */
  lemma {:induction false} LoopDeadlines(cfg: Config, maxBytes: int, start: int, mark: int, data: Bytes,
                                         incoming: seq<Bytes>, reading: nat -> int, tick: nat, o: Received)
    requires o == Loop(cfg, maxBytes, start, mark, data, incoming, reading, tick)
    ensures forall i :: 0 <= i < |o.trace.passes| && (i < |o.trace.passes| - 1 || (o.exit != TimedOut && o.exit != Silent)) ==>
              !HardExpired(cfg, start, o.trace.passes[i]) && !SilenceExpired(cfg, o.trace.passes[i])
    ensures o.exit == TimedOut ==>
              |o.trace.passes| > 0 && HardExpired(cfg, start, o.trace.passes[|o.trace.passes| - 1])
    ensures o.exit == Silent ==>
              (|o.trace.passes| > 0 &&
               !HardExpired(cfg, start, o.trace.passes[|o.trace.passes| - 1]) &&
               SilenceExpired(cfg, o.trace.passes[|o.trace.passes| - 1]))
    decreases |incoming|
  {
    if |data| < maxBytes {
      var step := Iteration(cfg, maxBytes, start, mark, data, incoming, reading, tick);
      if step.Continue? {
        var rest := Loop(cfg, maxBytes, start, step.mark, step.data, incoming[1..], reading, step.tick);
        LoopDeadlines(cfg, maxBytes, start, step.mark, step.data, incoming[1..], reading, step.tick, rest);
        assert o.trace.passes == step.trace.passes + rest.trace.passes;
      }
    }
  }

  /** With a device that never hands over more than it was asked for, a call that starts below
      `maxBytes` returns at most `maxBytes` bytes, and returns by filling up only with exactly
      `maxBytes`. */
  lemma {:induction false} LoopBound(cfg: Config, maxBytes: int, start: int, mark: int, data: Bytes,
                                     incoming: seq<Bytes>, reading: nat -> int, tick: nat, o: Received)
    requires o == Loop(cfg, maxBytes, start, mark, data, incoming, reading, tick)
    requires |data| < maxBytes
    requires |o.trace.requests| <= |incoming|
    requires forall i :: 0 <= i < |o.trace.requests| ==> |incoming[i]| <= o.trace.requests[i]
    ensures |o.message| <= maxBytes
    ensures o.exit == Filled ==> |o.message| == maxBytes
    decreases |incoming|
  {
    var step := Iteration(cfg, maxBytes, start, mark, data, incoming, reading, tick);
    if incoming != [] {
      assert o.trace.requests[0] == maxBytes - |data|;
      if step.Continue? {
        var rest := Loop(cfg, maxBytes, start, step.mark, step.data, incoming[1..], reading, step.tick);
        assert o == Prepend(step.trace, rest);
        if |step.data| < maxBytes {
          LoopLength(cfg, maxBytes, start, step.mark, step.data, incoming[1..], reading, step.tick, rest);
          forall i | 0 <= i < |rest.trace.requests|
            ensures |incoming[1..][i]| <= rest.trace.requests[i]
          {
            assert rest.trace.requests[i] == o.trace.requests[i + 1];
          }
          LoopBound(cfg, maxBytes, start, step.mark, step.data, incoming[1..], reading, step.tick, rest);
        }
      }
    }
  }

  /** With a device that never hands over more than it was asked for, a call whose leftover is
      shorter than `maxBytes` returns at most `maxBytes` bytes, and exactly `maxBytes` when it
      ends by filling up. */
  lemma RecvBound(cfg: Config, leftover: Bytes, maxBytes: int, incoming: seq<Bytes>,
                  reading: nat -> int, tick: nat, o: Received)
    requires o == RecvSpec(cfg, leftover, maxBytes, incoming, reading, tick)
    requires |leftover| < maxBytes
    requires forall i :: 0 <= i < |o.trace.requests| ==> |incoming[i]| <= o.trace.requests[i]
    ensures |o.message| <= maxBytes
    ensures o.exit == Filled ==> |o.message| == maxBytes
  {
    var start := reading(tick);
    LoopBound(cfg, maxBytes, start, start, leftover, incoming, reading, tick + 1, o);
  }

  /** No byte is lost or duplicated by a receive call: the message followed by the new leftover
      is the old leftover followed by every fragment read. Only a checker match keeps bytes back,
      and then the message and the leftover split the whole buffer at the checker's answer. */
  lemma RecvConserves(cfg: Config, leftover: Bytes, maxBytes: int, incoming: seq<Bytes>,
                      reading: nat -> int, tick: nat, o: Received)
    requires o == RecvSpec(cfg, leftover, maxBytes, incoming, reading, tick)
    ensures |o.trace.requests| <= |incoming|
    ensures o.message + o.leftover == leftover + Flatten(incoming[..|o.trace.requests|])
    ensures o.exit != Matched ==> o.leftover == []
    ensures o.exit == Matched ==>
              var whole := leftover + Flatten(incoming[..|o.trace.requests|]);
              cfg.checker.Some? && Verdict(cfg, whole) > 0 &&
              o.message == Prefix(whole, Verdict(cfg, whole)) && o.leftover == Suffix(whole, Verdict(cfg, whole))
    ensures o.exit == Filled ==> |o.message| >= maxBytes
  {
    var start := reading(tick);
    LoopConserves(cfg, maxBytes, start, start, leftover, incoming, reading, tick + 1, o);
  }

  /** The separator time as the code measures it. A call that ends by silence saw nothing at the
      top of its last iteration and measured from the start of the call, or else measured only
      from the reading taken just before that iteration's read: the time of one device read and
      one checker call, not the time since the last byte arrived. */
  lemma RecvSilence(cfg: Config, leftover: Bytes, maxBytes: int, incoming: seq<Bytes>,
                    reading: nat -> int, tick: nat, o: Received)
    requires o == RecvSpec(cfg, leftover, maxBytes, incoming, reading, tick)
    requires o.exit == Silent
    ensures cfg.separatorTime.Some? && 0 < |o.trace.passes| == |o.trace.requests|
    ensures var last := o.trace.passes[|o.trace.passes| - 1];
            var top := Top(leftover, incoming, |o.trace.passes| - 1);
            (|top| == 0 ==> last.now - reading(tick) >= cfg.separatorTime.value) &&
            (|top| > 0 ==> last.at > 0 && reading(last.at) - reading(last.at - 1) >= cfg.separatorTime.value)
  {
    var start := reading(tick);
    assert o == Loop(cfg, maxBytes, start, start, leftover, incoming, reading, tick + 1);
    LoopDeadlines(cfg, maxBytes, start, start, leftover, incoming, reading, tick + 1, o);
    LoopClock(cfg, maxBytes, start, start, leftover, incoming, reading, tick + 1, o);
    LoopMark(cfg, maxBytes, start, start, leftover, incoming, reading, tick + 1, o, |o.trace.passes| - 1);
  }

  /** Consequently, on a clock whose consecutive readings are always closer together than the
      separator time, a call ends by silence only if nothing at all had arrived before its last
      read: once a byte is buffered, silence never ends the call. */
  lemma RecvSilenceNeedsEmptyBuffer(cfg: Config, leftover: Bytes, maxBytes: int, incoming: seq<Bytes>,
                                    reading: nat -> int, tick: nat, o: Received)
    requires o == RecvSpec(cfg, leftover, maxBytes, incoming, reading, tick)
    requires cfg.separatorTime.Some?
    requires forall t: nat :: reading(t + 1) - reading(t) < cfg.separatorTime.value
    requires o.exit == Silent
    ensures 0 < |o.trace.requests| && |Top(leftover, incoming, |o.trace.requests| - 1)| == 0
  {
    RecvSilence(cfg, leftover, maxBytes, incoming, reading, tick, o);
  }

  // ---------------------------------------------------------------------------------------
  // One send call

  /** The outcome of a send call: the count it returns, the suffix handed to each device send,
      and whether it returned at all (false: the device stopped answering). */
  datatype Sent = Sent(count: nat, attempts: seq<Bytes>, complete: bool)

  /** The bytes credited by a run of device answers; an absent answer counts as zero. */
  function Credited(replies: seq<Option<nat>>): nat {
    if replies == [] then 0 else replies[0].GetOr(0) + Credited(replies[1..])
  }

  lemma {:induction false} CreditedSnoc(replies: seq<Option<nat>>, k: nat)
    requires k < |replies|
    ensures Credited(replies[..k + 1]) == Credited(replies[..k]) + replies[k].GetOr(0)
  {
    if k == 0 {
      assert replies[..1][1..] == [];
      assert replies[..0] == [];
    } else {
      assert replies[..k + 1][1..] == replies[1..][..k];
      assert replies[..k][1..] == replies[1..][..k - 1];
      CreditedSnoc(replies[1..], k - 1);
    }
  }

  /** The send loop with `sent` bytes credited so far and the device's answers in `replies`. */
  function SendLoop(data: Bytes, sent: nat, replies: seq<Option<nat>>): Sent
    decreases |replies|
  {
    if sent >= |data| then
      Sent(sent, [], true)
    else if replies == [] then
      Sent(sent, [], false)
    else
      var rest := SendLoop(data, sent + replies[0].GetOr(0), replies[1..]);
      rest.(attempts := [data[sent..]] + rest.attempts)
  }

  /** The outcome `s` of the rest of a send loop, after the device sends in `attempts`. */
  function After(attempts: seq<Bytes>, s: Sent): Sent {
    s.(attempts := attempts + s.attempts)
  }

  /** One more round of the send loop moves a suffix from the rest of the loop to what is done. */
  lemma SendGoesOn(data: Bytes, sent: nat, replies: seq<Option<nat>>, attempts: seq<Bytes>, spec: Sent)
    requires sent < |data| && replies != []
    requires spec == After(attempts, SendLoop(data, sent, replies))
    ensures spec == After(attempts + [data[sent..]], SendLoop(data, sent + replies[0].GetOr(0), replies[1..]))
  {
    var rest := SendLoop(data, sent + replies[0].GetOr(0), replies[1..]);
    Reassociate(attempts, [data[sent..]], rest.attempts);
  }

  /** A send loop with nothing left to send, or no answer left, ends where it is. */
  lemma SendStops(data: Bytes, sent: nat, replies: seq<Option<nat>>, attempts: seq<Bytes>, spec: Sent)
    requires sent >= |data| || replies == []
    requires spec == After(attempts, SendLoop(data, sent, replies))
    ensures spec == Sent(sent, attempts, sent >= |data|)
  {
    assert attempts + [] == attempts;
  }

  function SendSpec(data: Bytes, replies: seq<Option<nat>>): (r: Sent)
    ensures |r.attempts| <= |replies|
    ensures |data| == 0 ==> r == Sent(0, [], true)
  {
    var r := SendLoop(data, 0, replies);
    SendLoopAccounting(data, 0, replies, r);
    r
  }

  /** Each device send gets the suffix not yet credited, which is never empty; the count is what
      the device's answers credit; the loop stops exactly when that count reaches the length. */
  lemma {:induction false} SendLoopAccounting(data: Bytes, sent: nat, replies: seq<Option<nat>>, o: Sent)
    requires o == SendLoop(data, sent, replies)
    ensures |o.attempts| <= |replies|
    ensures o.count == sent + Credited(replies[..|o.attempts|])
    ensures o.complete <==> o.count >= |data|
    ensures !o.complete ==> |o.attempts| == |replies|
    ensures forall i :: 0 <= i < |o.attempts| ==>
              sent + Credited(replies[..i]) < |data| && o.attempts[i] == data[sent + Credited(replies[..i])..]
    decreases |replies|
  {
    assert replies[..0] == [];
    if sent < |data| && replies != [] {
      var sent' := sent + replies[0].GetOr(0);
      var rest := SendLoop(data, sent', replies[1..]);
      SendLoopAccounting(data, sent', replies[1..], rest);
      assert replies[..|o.attempts|][1..] == replies[1..][..|rest.attempts|];
      forall i | 1 <= i < |o.attempts|
        ensures sent + Credited(replies[..i]) < |data| && o.attempts[i] == data[sent + Credited(replies[..i])..]
      {
        assert replies[..i][1..] == replies[1..][..i - 1];
      }
    }
  }

  /** An absent answer credits nothing, so the next device send repeats the same suffix. */
  lemma SendRetriesAfterNone(data: Bytes, replies: seq<Option<nat>>, o: Sent, i: nat)
    requires o == SendSpec(data, replies)
    requires i + 1 < |o.attempts| && replies[i].None?
    ensures o.attempts[i + 1] == o.attempts[i]
  {
    SendLoopAccounting(data, 0, replies, o);
    CreditedSnoc(replies, i);
  }

  /** With a device that never reports more than it was handed, the count never passes the
      length, so a send that returns has sent exactly `|data|` bytes. */
  lemma {:induction false} SendLoopExact(data: Bytes, sent: nat, replies: seq<Option<nat>>, o: Sent)
    requires o == SendLoop(data, sent, replies)
    requires sent <= |data| && |o.attempts| <= |replies|
    requires forall i :: 0 <= i < |o.attempts| ==> replies[i].GetOr(0) <= |o.attempts[i]|
    ensures o.count <= |data|
    ensures o.complete ==> o.count == |data|
    decreases |replies|
  {
    if sent < |data| && replies != [] {
      var sent' := sent + replies[0].GetOr(0);
      var rest := SendLoop(data, sent', replies[1..]);
      SendLoopAccounting(data, sent', replies[1..], rest);
      assert o.attempts[0] == data[sent..];
      forall i | 0 <= i < |rest.attempts|
        ensures replies[1..][i].GetOr(0) <= |rest.attempts[i]|
      {
        assert o.attempts[i + 1] == rest.attempts[i];
      }
      SendLoopExact(data, sent', replies[1..], rest);
    }
  }

  /** With a device that never reports more than it was handed, a send that returns has sent
      exactly `|data|` bytes, and one that runs out of answers has sent fewer. */
  lemma SendExact(data: Bytes, replies: seq<Option<nat>>, o: Sent)
    requires o == SendSpec(data, replies)
    requires forall i :: 0 <= i < |o.attempts| ==> replies[i].GetOr(0) <= |o.attempts[i]|
    ensures o.count <= |data|
    ensures o.complete <==> o.count == |data|
  {
    SendLoopExact(data, 0, replies, o);
    SendLoopAccounting(data, 0, replies, o);
  }
}
