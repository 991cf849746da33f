/**
 * The client object `DogStatsd`: its send strategy, buffer and buffer size
 * are fields updated in place, and every write to the stream is recorded in
 * the ghost field `log`. Each method is proved to change the fields exactly
 * as the matching function of `Batching` changes a `Batching.Client`, so the
 * lemmas proved there hold of the object.
 */
module Statsd {
  import opened Wrappers
  import opened Strings
  import opened Protocol
  import Batching

  class DogStatsd {
    /** `_send`: which of `_send_to_server` and `_send_to_buffer` is in use. */
    var mode: Batching.Mode
    /** Whether the attribute `buffer` exists yet; `open_buffer` creates it. */
    var hasBuffer: bool
    var buffer: seq<string>
    var maxBufferSize: int
    /** Every write handed to the stream, in order. */
    ghost var log: seq<Batching.Write>

    /** The object's state as a value. */
    ghost function Model(): Batching.Client
      reads this
    {
      Batching.Client(mode, hasBuffer, buffer, maxBufferSize, log)
    }

    ghost predicate Valid()
      reads this
    {
      Batching.Inv(Model())
    }

    /** `__init__`, without the connection to the server. */
    constructor (size: int)
      ensures Valid() && Model() == Batching.Create(size)
    {
      mode := Batching.Immediate;
      hasBuffer := false;
      buffer := [];
      maxBufferSize := size;
      log := [];
    }

    /** `__enter__`. */
    method Enter()
      requires Valid()
      modifies this
      ensures Valid() && Model() == Batching.Enter(old(Model()))
    {
      OpenBuffer(maxBufferSize);
    }

    /** `__exit__`; `raised` says whether `close_buffer` raised. */
    method Exit() returns (raised: bool)
      requires Valid()
      modifies this
      ensures Valid() && Model() == Batching.Exit(old(Model()))
      ensures raised == Batching.CloseBufferRaises(old(Model()))
    {
      raised := CloseBuffer();
    }

    /** `open_buffer`. */
    method OpenBuffer(size: int)
      requires Valid()
      modifies this
      ensures Valid() && Model() == Batching.OpenBuffer(old(Model()), size)
    {
      maxBufferSize := size;
      buffer := [];
      hasBuffer := true;
      mode := Batching.Buffered;
    }

    /**
     * `close_buffer`: switches to immediate mode, then flushes; `raised` is
     * the failure of a client whose buffer was never opened.
     */
    method CloseBuffer() returns (raised: bool)
      requires Valid()
      modifies this
      ensures Valid() && Model() == Batching.CloseBuffer(old(Model()))
      ensures raised == Batching.CloseBufferRaises(old(Model()))
    {
      mode := Batching.Immediate;
      raised := !hasBuffer;
      if !raised {
        FlushBuffer();
      }
    }

    /** `_send_to_server`: `packet`, the given lines joined by newlines, goes to the stream. */
    method SendToServer(packet: string, ghost lines: seq<string>)
      requires packet == Join("\n", lines)
      modifies this
      ensures Model() == Batching.SendToServer(old(Model()), lines)
    {
      log := log + [Batching.MetricWrite(lines)];
    }

    /** `_flush_buffer`. */
    method FlushBuffer()
      requires hasBuffer
      modifies this
      ensures Model() == Batching.FlushBuffer(old(Model()))
    {
      SendToServer(Join("\n", buffer), buffer);
      buffer := [];
    }

    /** `_send_to_buffer`. */
    method SendToBuffer(packet: string)
      requires hasBuffer
      modifies this
      ensures Model() == Batching.SendToBuffer(old(Model()), packet)
    {
      buffer := buffer + [packet];
      if |buffer| >= maxBufferSize {
        FlushBuffer();
      }
    }

    /** `self._send(packet)`. */
    method Send(packet: string)
      requires Valid()
      modifies this
      ensures Valid() && Model() == Batching.Send(old(Model()), packet)
    {
      if mode == Batching.Buffered {
        SendToBuffer(packet);
      } else {
        SendToServer(packet, [packet]);
      }
    }

    /** `_report`; `draw` is the value `random()` returned. */
    method Report(name: string, t: MetricType, value: int, tags: seq<string>, rate: SampleRate, draw: real)
      requires Valid()
      modifies this
      ensures Valid() && Model() == Batching.Report(old(Model()), name, t, value, tags, rate, draw)
    {
      if !IsOne(rate) && draw > rate.value {
        return;
      }
      var encoded := EncodeMetric(name, t, value, tags, rate);
      Send(encoded);
    }

    /** `gauge`. */
    method Gauge(name: string, value: int, tags: seq<string>, rate: SampleRate, draw: real)
      requires Valid()
      modifies this
      ensures Valid() && Model() == Batching.Gauge(old(Model()), name, value, tags, rate, draw)
    {
      Report(name, MetricType.Gauge, value, tags, rate, draw);
    }

    /** `increment`. */
    method Increment(name: string, value: int, tags: seq<string>, rate: SampleRate, draw: real)
      requires Valid()
      modifies this
      ensures Valid() && Model() == Batching.Increment(old(Model()), name, value, tags, rate, draw)
    {
      Report(name, Counter, value, tags, rate, draw);
    }

    /** `decrement`. */
    method Decrement(name: string, value: int, tags: seq<string>, rate: SampleRate, draw: real)
      requires Valid()
      modifies this
      ensures Valid() && Model() == Batching.Decrement(old(Model()), name, value, tags, rate, draw)
    {
      Report(name, Counter, -value, tags, rate, draw);
    }

    /** `histogram`. */
    method Histogram(name: string, value: int, tags: seq<string>, rate: SampleRate, draw: real)
      requires Valid()
      modifies this
      ensures Valid() && Model() == Batching.Histogram(old(Model()), name, value, tags, rate, draw)
    {
      Report(name, MetricType.Histogram, value, tags, rate, draw);
    }

    /** `timing`. */
    method Timing(name: string, value: int, tags: seq<string>, rate: SampleRate, draw: real)
      requires Valid()
      modifies this
      ensures Valid() && Model() == Batching.Timing(old(Model()), name, value, tags, rate, draw)
    {
      Report(name, MetricType.Timing, value, tags, rate, draw);
    }

    /** `set`. */
    method SetSample(name: string, value: int, tags: seq<string>, rate: SampleRate, draw: real)
      requires Valid()
      modifies this
      ensures Valid() && Model() == Batching.SetSample(old(Model()), name, value, tags, rate, draw)
    {
      Report(name, MetricType.Set, value, tags, rate, draw);
    }

    /**
     * `event`: the payload is written straight to the stream, or the method
     * fails with the oversized-payload error and writes nothing.
     */
    method Event(e: Protocol.Event) returns (outcome: Outcome<EventError>)
      requires Valid()
      modifies this
      ensures Valid()
      ensures Batching.SendEvent(old(Model()), e).Success? ==>
                outcome == Pass && Model() == Batching.SendEvent(old(Model()), e).value
      ensures Batching.SendEvent(old(Model()), e).Failure? ==>
                outcome == Fail(Batching.SendEvent(old(Model()), e).error) && Model() == old(Model())
    {
      var payload := EncodeEvent(e);
      if |payload| > MAX_EVENT_SIZE {
        return Fail(PayloadTooBig(Escape(e.title)));
      }
      log := log + [Batching.EventWrite(payload)];
      outcome := Pass;
    }
  }
}
