/** A connection to a target over a serial port, which provides no message boundaries of its own.
    `Recv` frames messages by a hard timeout, a separator ("silence") time and a user-supplied
    content checker, and keeps the bytes that follow a checked message for the next call. */
module Serial {
  import opened Framing
  import opened Environment

  class SerialConnection {
    const connection: Transport
    const clock: Clock
    var timeout: Option<int>
    var messageSeparatorTime: Option<int>
    var contentChecker: Option<Bytes -> int>
    /** Bytes received after the end of the last checked message, not yet returned. */
    var leftover: Bytes

    constructor (connection: Transport, clock: Clock, timeout: Option<int>,
                 messageSeparatorTime: Option<int>, contentChecker: Option<Bytes -> int>)
      ensures this.connection == connection && this.clock == clock
      ensures this.timeout == timeout && this.messageSeparatorTime == messageSeparatorTime
      ensures this.contentChecker == contentChecker
      ensures leftover == []
    {
      this.connection := connection;
      this.clock := clock;
      this.timeout := timeout;
      this.messageSeparatorTime := messageSeparatorTime;
      this.contentChecker := contentChecker;
      leftover := [];
    }

    /** Receive up to `maxBytes` bytes. The outcome is the one `RecvSpec` describes for the
        leftover, the device's script and the clock as they were when the call began. */
    method Recv(maxBytes: int) returns (data: Bytes)
      modifies this`leftover, connection, clock
      ensures var o := RecvSpec(Config(timeout, messageSeparatorTime, contentChecker), old(leftover), maxBytes,
                                old(connection.incoming), clock.reading, old(clock.ticks));
              data == o.message && leftover == o.leftover &&
              connection.incoming == old(connection.incoming)[|o.trace.requests|..] &&
              connection.requests == old(connection.requests) + o.trace.requests &&
              clock.ticks == o.ticks
      ensures connection.timeout == PollTimeout(messageSeparatorTime, timeout)
      ensures connection.replies == old(connection.replies) && connection.written == old(connection.written)
    {
      connection.timeout := PollTimeout(messageSeparatorTime, timeout);
      var startTime := clock.Now();
      var lastByteTime := startTime;
      data := leftover;
      leftover := [];

      ghost var cfg := Config(timeout, messageSeparatorTime, contentChecker);
      ghost var reading, tick, incoming := clock.reading, clock.ticks, connection.incoming;
      ghost var spec := RecvSpec(cfg, old(leftover), maxBytes, incoming, reading, old(clock.ticks));
      ghost var done := Trace([], [], []);
      assert spec == Prepend(done, spec);
      while |data| < maxBytes
        invariant clock.reading == reading && clock.ticks == tick && connection.incoming == incoming
        invariant spec == Prepend(done, Loop(cfg, maxBytes, startTime, lastByteTime, data, incoming, reading, tick))
        invariant |done.requests| <= |old(connection.incoming)| && incoming == old(connection.incoming)[|done.requests|..]
        invariant connection.requests == old(connection.requests) + done.requests
        invariant leftover == []
        invariant connection.timeout == PollTimeout(messageSeparatorTime, timeout)
        invariant connection.replies == old(connection.replies) && connection.written == old(connection.written)
        decreases |incoming|
      {
        ghost var step := Iteration(cfg, maxBytes, startTime, lastByteTime, data, incoming, reading, tick);
        ghost var data0, mark0 := data, lastByteTime;
        var finished;
        finished, data, lastByteTime := RecvIteration(maxBytes, startTime, lastByteTime, data);
        if finished {
          LoopStops(cfg, maxBytes, startTime, mark0, data0, incoming, reading, tick, done, spec);
          Reassociate(old(connection.requests), done.requests, step.result.trace.requests);
          assert connection.incoming == old(connection.incoming)[|done.requests + step.result.trace.requests|..];
          return;
        }
        LoopGoesOn(cfg, maxBytes, startTime, mark0, data0, incoming, reading, tick, done, spec);
        Reassociate(old(connection.requests), done.requests, step.trace.requests);
        done := Concat(done, step.trace);
        incoming, tick := connection.incoming, clock.ticks;
      }
      PrependToNothing(done, Received(data, [], Filled, Trace([], [], []), tick));
    }

    /** One pass of the loop in `Recv`, entered with `data` in the buffer (fewer than `maxBytes`
        bytes) and `lastByteTime` as `last_byte_time`: the pass `Iteration` describes. It answers
        whether the call ends here, and the buffer (or, if the call ends, the bytes it returns) and
        `last_byte_time` after it. */
    method RecvIteration(maxBytes: int, startTime: int, lastByteTime: int, data: Bytes)
      returns (finished: bool, data': Bytes, lastByteTime': int)
      requires |data| < maxBytes && leftover == []
      modifies this`leftover, connection, clock
      ensures var step := Iteration(Config(timeout, messageSeparatorTime, contentChecker), maxBytes, startTime,
                                    lastByteTime, data, old(connection.incoming), clock.reading, old(clock.ticks));
              var trace := if step.Stop? then step.result.trace else step.trace;
              finished == step.Stop? &&
              (step.Stop? ==> data' == step.result.message && leftover == step.result.leftover &&
                              clock.ticks == step.result.ticks) &&
              (step.Continue? ==> data' == step.data && lastByteTime' == step.mark && leftover == [] &&
                                  clock.ticks == step.tick) &&
              connection.requests == old(connection.requests) + trace.requests &&
              |trace.requests| <= |old(connection.incoming)| &&
              connection.incoming == old(connection.incoming)[|trace.requests|..]
      ensures connection.timeout == old(connection.timeout)
      ensures connection.replies == old(connection.replies) && connection.written == old(connection.written)
    {
      data' := data;
      lastByteTime' := lastByteTime;
      // last_byte_time follows the clock whenever the buffer holds anything
      if |data'| > 0 {
        lastByteTime' := clock.Now();
      }
      var fragment := connection.Recv(maxBytes - |data'|);
      if fragment.Blocked? {
        // the device never answers; in the source the call never returns
        return true, data', lastByteTime';
      }
      data' := data' + fragment.value;
      if contentChecker.Some? {
        var numValidBytes := contentChecker.value(data');
        if numValidBytes > 0 {
          leftover := Suffix(data', numValidBytes);
          return true, Prefix(data', numValidBytes), lastByteTime';
        }
      }
      var curTime := clock.Now();
      if timeout.Some? && curTime - startTime >= timeout.value {
        return true, data', lastByteTime';
      }
      if messageSeparatorTime.Some? && curTime - lastByteTime' >= messageSeparatorTime.value {
        return true, data', lastByteTime';
      }
      finished := false;
    }

    /** Send all of `data`, retrying with the unsent suffix; an answer of `None` counts as zero.
        The outcome is the one `SendSpec` describes for the device's answers. */
    method Send(data: Bytes) returns (bytesSent: nat)
      modifies connection
      ensures var o := SendSpec(data, old(connection.replies));
              bytesSent == o.count &&
              connection.replies == old(connection.replies)[|o.attempts|..] &&
              connection.written == old(connection.written) + o.attempts
      ensures connection.incoming == old(connection.incoming) && connection.requests == old(connection.requests)
      ensures connection.timeout == old(connection.timeout)
    {
      bytesSent := 0;
      ghost var replies := connection.replies;
      ghost var spec := SendSpec(data, replies);
      ghost var attempts: seq<Bytes> := [];
      assert spec == After(attempts, spec);
      while bytesSent < |data|
        invariant connection.replies == replies
        invariant spec == After(attempts, SendLoop(data, bytesSent, replies))
        invariant |attempts| <= |old(connection.replies)| && replies == old(connection.replies)[|attempts|..]
        invariant connection.written == old(connection.written) + attempts
        invariant connection.incoming == old(connection.incoming) && connection.requests == old(connection.requests)
        invariant connection.timeout == old(connection.timeout)
        decreases |replies|
      {
        var sentThisRound := connection.Send(data[bytesSent..]);
        if sentThisRound.Blocked? {
          SendStops(data, bytesSent, replies, attempts, spec);
          return;
        }
        SendGoesOn(data, bytesSent, replies, attempts, spec);
        attempts := attempts + [data[bytesSent..]];
        if sentThisRound.value.Some? {
          bytesSent := bytesSent + sentThisRound.value.value;
        }
        replies := connection.replies;
      }
      SendStops(data, bytesSent, replies, attempts, spec);
    }
  }
}
