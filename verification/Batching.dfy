/**
 * The send strategy of the client as a state machine on values.
 *
 * A client is either in immediate mode, where every metric line goes to the
 * server as its own datagram, or in buffered mode, where lines collect in a
 * buffer that goes out as one newline-joined datagram once it holds
 * `max_buffer_size` lines, and again when the buffer is closed. Events always
 * go straight to the server. Every write to the stream is recorded in `log`.
 *
 * The class `Statsd.DogStatsd` updates its fields in place; its methods are
 * proved to move its state exactly as the functions here do.
 */
module Batching {
  import opened Wrappers
  import opened Strings
  import opened Protocol

  /** Which of `_send_to_server` and `_send_to_buffer` the attribute `_send` currently holds. */
  datatype Mode = Immediate | Buffered

  /** One write to the stream: metric lines joined by newlines into one datagram, or an event payload. */
  datatype Write = MetricWrite(lines: seq<string>) | EventWrite(payload: string)

  /** The text written to the stream. */
  function Datagram(w: Write): string
  {
    match w
    case MetricWrite(lines) => Join("\n", lines)
    case EventWrite(payload) => payload
  }

  /**
   * The client's state. `hasBuffer` records whether the attribute `buffer`
   * exists yet: it is first created by `open_buffer`.
   */
  datatype Client = Client(mode: Mode, hasBuffer: bool, buffer: seq<string>, maxBufferSize: int, log: seq<Write>)

  /** The default `max_buffer_size` of the constructor and of `open_buffer`. */
  const DEFAULT_MAX_BUFFER_SIZE := 50

  /**
   * The buffer length at which a send flushes: `len(buffer) >= max_buffer_size`
   * holds after any append once `max_buffer_size` is below 1.
   */
  function Threshold(maxBufferSize: int): (t: int)
    ensures t >= 1 && t >= maxBufferSize
    ensures maxBufferSize >= 1 ==> t == maxBufferSize
  {
    if maxBufferSize < 1 then 1 else maxBufferSize
  }

  /**
   * The invariant every operation keeps: a buffered client has a buffer, the
   * buffer is empty unless the client is buffering, and a buffer never holds
   * a full batch between calls.
   */
  predicate Inv(c: Client)
  {
    && (c.mode == Buffered ==> c.hasBuffer)
    && (c.mode == Immediate ==> c.buffer == [])
    && |c.buffer| < Threshold(c.maxBufferSize)
  }

  /** The metric lines a write carries, in order. */
  function LinesOf(w: Write): seq<string>
  {
    if w.MetricWrite? then w.lines else []
  }

  /** Every metric line handed to the stream so far, in the order written. */
  function MetricLines(log: seq<Write>): seq<string>
  {
    if log == [] then [] else MetricLines(log[..|log| - 1]) + LinesOf(log[|log| - 1])
  }

  lemma MetricLinesAppend(log: seq<Write>, w: Write)
    ensures MetricLines(log + [w]) == MetricLines(log) + LinesOf(w)
  {
    assert (log + [w])[..|log|] == log;
  }

  /** What is sent or still waiting to be sent: the lines written and then the buffer. */
  function Accepted(c: Client): seq<string>
  {
    MetricLines(c.log) + c.buffer
  }

  // ------------------------------------------------------------- operations

  /** `__init__`: immediate mode, no buffer yet, nothing written. */
  function Create(maxBufferSize: int): (r: Client)
    ensures Inv(r) && r.mode == Immediate && !r.hasBuffer
    ensures r.maxBufferSize == maxBufferSize && r.buffer == []
    ensures r.log == [] && Accepted(r) == []
  {
    Client(Immediate, false, [], maxBufferSize, [])
  }

  /** `_send_to_server`: one datagram of the given lines goes to the stream. */
  function SendToServer(c: Client, lines: seq<string>): (r: Client)
    ensures r == c.(log := c.log + [MetricWrite(lines)])
    ensures |r.log| == |c.log| + 1 && r.log[..|c.log|] == c.log
    ensures Datagram(r.log[|c.log|]) == Join("\n", lines)
    ensures Accepted(r) == MetricLines(c.log) + lines + c.buffer
  {
    var r := c.(log := c.log + [MetricWrite(lines)]);
    MetricLinesAppend(c.log, MetricWrite(lines));
    r
  }

  /** `_flush_buffer`: the buffer goes out as one datagram, even when empty, and is cleared. */
  function FlushBuffer(c: Client): (r: Client)
    requires c.hasBuffer
    ensures r.buffer == [] && r.mode == c.mode && r.hasBuffer && r.maxBufferSize == c.maxBufferSize
    ensures |r.log| == |c.log| + 1 && r.log[..|c.log|] == c.log
    ensures Datagram(r.log[|c.log|]) == Join("\n", c.buffer)
    ensures Accepted(r) == Accepted(c)
  {
    SendToServer(c, c.buffer).(buffer := [])
  }

  /** `_send_to_buffer`: append, and flush once the buffer holds `max_buffer_size` lines. */
  function SendToBuffer(c: Client, line: string): (r: Client)
    requires c.hasBuffer
    ensures Accepted(r) == Accepted(c) + [line]
    ensures r.mode == c.mode && r.hasBuffer && r.maxBufferSize == c.maxBufferSize
    ensures |c.buffer| + 1 >= c.maxBufferSize ==> r.buffer == [] && r.log == c.log + [MetricWrite(c.buffer + [line])]
    ensures |c.buffer| + 1 < c.maxBufferSize ==> r.buffer == c.buffer + [line] && r.log == c.log
  {
    var appended := c.(buffer := c.buffer + [line]);
    if |appended.buffer| >= c.maxBufferSize then FlushBuffer(appended) else appended
  }

  /** `self._send(line)`: the strategy the mode selects. */
  function Send(c: Client, line: string): (r: Client)
    requires Inv(c)
    ensures Inv(r) && r.mode == c.mode && r.maxBufferSize == c.maxBufferSize
    ensures Accepted(r) == Accepted(c) + [line]
    ensures c.mode == Immediate ==> r == c.(log := c.log + [MetricWrite([line])])
  {
    if c.mode == Buffered then SendToBuffer(c, line) else SendToServer(c, [line])
  }

  /** `open_buffer(n)`: an empty buffer of size `n` and buffered mode; a pending buffer is discarded. */
  function OpenBuffer(c: Client, maxBufferSize: int): (r: Client)
    requires Inv(c)
    ensures Inv(r) && r.mode == Buffered && r.buffer == [] && r.maxBufferSize == maxBufferSize
    ensures r.log == c.log && Accepted(r) == MetricLines(c.log)
  {
    Client(Buffered, true, [], maxBufferSize, c.log)
  }

  /** Whether `close_buffer` raises: the buffer attribute does not exist before the first `open_buffer`. */
  predicate CloseBufferRaises(c: Client)
  {
    !c.hasBuffer
  }

  /**
   * `close_buffer`: back to immediate mode, then the buffer is flushed
   * unconditionally. When it raises, the mode has already switched and
   * nothing is written.
   */
  function CloseBuffer(c: Client): (r: Client)
    requires Inv(c)
    ensures Inv(r) && r.mode == Immediate && r.buffer == [] && r.maxBufferSize == c.maxBufferSize
    ensures MetricLines(r.log) == Accepted(c)
    ensures CloseBufferRaises(c) ==> r.log == c.log
    ensures !CloseBufferRaises(c) ==> r.log == c.log + [MetricWrite(c.buffer)]
  {
    var switched := c.(mode := Immediate);
    if switched.hasBuffer then FlushBuffer(switched) else switched
  }

  /** `__enter__`: opens a buffer of the client's own `max_buffer_size`. */
  function Enter(c: Client): (r: Client)
    requires Inv(c)
    ensures Inv(r) && r.mode == Buffered && r.buffer == [] && r.log == c.log
    ensures r.maxBufferSize == c.maxBufferSize
  {
    OpenBuffer(c, c.maxBufferSize)
  }

  /** `__exit__`: closes the buffer. */
  function Exit(c: Client): (r: Client)
    requires Inv(c)
    ensures Inv(r) && r.mode == Immediate && MetricLines(r.log) == Accepted(c)
  {
    CloseBuffer(c)
  }

  /**
   * `_report`: a sample that is not dropped is encoded and handed to the
   * current strategy; a dropped one changes nothing.
   */
  function Report(c: Client, name: string, t: MetricType, value: int, tags: seq<string>, rate: SampleRate, draw: real)
    : (r: Client)
    requires Inv(c)
    ensures Inv(r) && r.mode == c.mode && r.maxBufferSize == c.maxBufferSize
    ensures Dropped(rate, draw) ==> r == c
    ensures !Dropped(rate, draw) ==> Accepted(r) == Accepted(c) + [EncodeMetric(name, t, value, tags, rate)]
  {
    match Sample(name, t, value, tags, rate, draw)
    case None => c
    case Some(line) => Send(c, line)
  }

  /** `gauge`. */
  function Gauge(c: Client, name: string, value: int, tags: seq<string>, rate: SampleRate, draw: real): (r: Client)
    requires Inv(c)
    ensures Inv(r) && (Dropped(rate, draw) ==> r == c)
    ensures !Dropped(rate, draw) ==> Accepted(r) == Accepted(c) + [EncodeMetric(name, MetricType.Gauge, value, tags, rate)]
  {
    Report(c, name, MetricType.Gauge, value, tags, rate, draw)
  }

  /** `increment`. */
  function Increment(c: Client, name: string, value: int, tags: seq<string>, rate: SampleRate, draw: real): (r: Client)
    requires Inv(c)
    ensures Inv(r) && (Dropped(rate, draw) ==> r == c)
    ensures !Dropped(rate, draw) ==> Accepted(r) == Accepted(c) + [EncodeMetric(name, Counter, value, tags, rate)]
  {
    Report(c, name, Counter, value, tags, rate, draw)
  }

  /** `decrement`: a counter sample of the negated value. */
  function Decrement(c: Client, name: string, value: int, tags: seq<string>, rate: SampleRate, draw: real): (r: Client)
    requires Inv(c)
    ensures Inv(r) && (Dropped(rate, draw) ==> r == c)
    ensures !Dropped(rate, draw) ==> Accepted(r) == Accepted(c) + [EncodeMetric(name, Counter, -value, tags, rate)]
  {
    Report(c, name, Counter, -value, tags, rate, draw)
  }

  /** `histogram`. */
  function Histogram(c: Client, name: string, value: int, tags: seq<string>, rate: SampleRate, draw: real): (r: Client)
    requires Inv(c)
    ensures Inv(r) && (Dropped(rate, draw) ==> r == c)
    ensures !Dropped(rate, draw) ==> Accepted(r) == Accepted(c) + [EncodeMetric(name, MetricType.Histogram, value, tags, rate)]
  {
    Report(c, name, MetricType.Histogram, value, tags, rate, draw)
  }

  /** `timing`. */
  function Timing(c: Client, name: string, value: int, tags: seq<string>, rate: SampleRate, draw: real): (r: Client)
    requires Inv(c)
    ensures Inv(r) && (Dropped(rate, draw) ==> r == c)
    ensures !Dropped(rate, draw) ==> Accepted(r) == Accepted(c) + [EncodeMetric(name, MetricType.Timing, value, tags, rate)]
  {
    Report(c, name, MetricType.Timing, value, tags, rate, draw)
  }

  /** `set`. */
  function SetSample(c: Client, name: string, value: int, tags: seq<string>, rate: SampleRate, draw: real): (r: Client)
    requires Inv(c)
    ensures Inv(r) && (Dropped(rate, draw) ==> r == c)
    ensures !Dropped(rate, draw) ==> Accepted(r) == Accepted(c) + [EncodeMetric(name, MetricType.Set, value, tags, rate)]
  {
    Report(c, name, MetricType.Set, value, tags, rate, draw)
  }

  /**
   * `event`: an event that fits is written to the stream at once, past the
   * buffer; an oversized one raises and writes nothing.
   */
  function SendEvent(c: Client, e: Event): (r: Result<Client, EventError>)
    requires Inv(c)
    ensures r.Success? ==> r.value == c.(log := c.log + [EventWrite(EncodeEvent(e))]) && Inv(r.value)
    ensures r.Success? ==> Accepted(r.value) == Accepted(c) && |EncodeEvent(e)| <= MAX_EVENT_SIZE
    ensures r.Failure? <==> |EncodeEvent(e)| > MAX_EVENT_SIZE
    ensures r.Failure? ==> r.error == PayloadTooBig(Escape(e.title))
  {
    match EventPayload(e)
    case Failure(err) => Failure(err)
    case Success(payload) =>
      EventWriteKeepsAccepted(c, payload);
      Success(c.(log := c.log + [EventWrite(payload)]))
  }

  /** An event write carries no metric line: what is accepted stays the same. */
  lemma EventWriteKeepsAccepted(c: Client, payload: string)
    ensures Accepted(c.(log := c.log + [EventWrite(payload)])) == Accepted(c)
  {
    MetricLinesAppend(c.log, EventWrite(payload));
    assert LinesOf(EventWrite(payload)) == [];
    assert MetricLines(c.log) + [] == MetricLines(c.log);
  }

  // ---------------------------------------------------------------- batches

  /** Successive `_send` calls, one per line. */
  function SendAll(c: Client, lines: seq<string>): (r: Client)
    requires Inv(c)
    ensures Inv(r) && r.mode == c.mode && r.maxBufferSize == c.maxBufferSize
    ensures Accepted(r) == Accepted(c) + lines
    decreases |lines|
  {
    if lines == [] then c
    else
      var r := SendAll(Send(c, lines[0]), lines[1..]);
      assert [lines[0]] + lines[1..] == lines;
      r
  }

  lemma SendAllStep(c: Client, lines: seq<string>)
    requires Inv(c) && lines != []
    ensures SendAll(c, lines) == SendAll(Send(c, lines[0]), lines[1..])
  {
  }

  /** The consecutive groups of `size` lines that fill the buffer, in order. */
  function Batches(lines: seq<string>, size: nat): (batches: seq<seq<string>>)
    requires size >= 1
    ensures forall i :: 0 <= i < |batches| ==> |batches[i]| == size
    decreases |lines|
  {
    if |lines| < size then [] else [lines[..size]] + Batches(lines[size..], size)
  }

  /** The lines after the last full group, which stay in the buffer. */
  function Leftover(lines: seq<string>, size: nat): (rest: seq<string>)
    requires size >= 1
    ensures |rest| < size
    decreases |lines|
  {
    if |lines| < size then lines else Leftover(lines[size..], size)
  }

  function Concat(batches: seq<seq<string>>): seq<string>
  {
    if batches == [] then [] else batches[0] + Concat(batches[1..])
  }

  /** The full groups and the leftover are the lines, in order: nothing is lost, duplicated or reordered. */
  lemma {:induction false} BatchesPartition(lines: seq<string>, size: nat)
    requires size >= 1
    ensures Concat(Batches(lines, size)) + Leftover(lines, size) == lines
    decreases |lines|
  {
    if |lines| >= size {
      var batches := Batches(lines, size);
      BatchesPartition(lines[size..], size);
      assert batches[1..] == Batches(lines[size..], size);
      assert lines[..size] + lines[size..] == lines;
    }
  }

  /** One datagram per group. */
  function MetricWrites(batches: seq<seq<string>>): (writes: seq<Write>)
    ensures |writes| == |batches|
  {
    seq(|batches|, i requires 0 <= i < |batches| => MetricWrite(batches[i]))
  }

  lemma MetricWritesCons(batch: seq<string>, rest: seq<seq<string>>)
    ensures MetricWrites([batch] + rest) == [MetricWrite(batch)] + MetricWrites(rest)
  {
  }

  /** A buffer one short of a group, plus one line, is a full group; the rest is grouped on its own. */
  lemma {:induction false} BatchesAfterFull(buffer: seq<string>, line: string, rest: seq<string>, size: nat)
    requires size >= 1 && |buffer| + 1 == size
    ensures Batches(buffer + ([line] + rest), size) == [buffer + [line]] + Batches(rest, size)
    ensures Leftover(buffer + ([line] + rest), size) == Leftover(rest, size)
  {
    var all := buffer + ([line] + rest);
    assert all[..size] == buffer + [line];
    assert all[size..] == rest;
  }

  /** The step of a send in buffered mode, in terms of the groups of everything still to be written. */
  lemma BufferedSendStep(c: Client, line: string, rest: seq<string>)
    requires Inv(c) && c.mode == Buffered
    ensures var next := Send(c, line);
      var t := Threshold(c.maxBufferSize);
      && next.log + MetricWrites(Batches(next.buffer + rest, t)) == c.log + MetricWrites(Batches(c.buffer + ([line] + rest), t))
      && Leftover(next.buffer + rest, t) == Leftover(c.buffer + ([line] + rest), t)
  {
    var t := Threshold(c.maxBufferSize);
    var next := Send(c, line);
    if |c.buffer| + 1 >= c.maxBufferSize {
      var batch := MetricWrite(c.buffer + [line]);
      assert |c.buffer| + 1 == t;
      assert next.buffer == [] && next.log == c.log + [batch];
      BatchesAfterFull(c.buffer, line, rest, t);
      assert next.buffer + rest == rest;
      MetricWritesCons(c.buffer + [line], Batches(rest, t));
      ConcatAssoc(c.log, [batch], MetricWrites(Batches(rest, t)));
    } else {
      assert next.buffer == c.buffer + [line] && next.log == c.log;
      ConcatAssoc(c.buffer, [line], rest);
    }
  }

  /**
   * In buffered mode, a run of sends writes one datagram for every full
   * group of the buffer followed by the new lines, and keeps the rest in the
   * buffer.
   */
  lemma {:induction false} BufferedSendAll(c: Client, lines: seq<string>)
    requires Inv(c) && c.mode == Buffered
    ensures SendAll(c, lines).log == c.log + MetricWrites(Batches(c.buffer + lines, Threshold(c.maxBufferSize)))
    ensures SendAll(c, lines).buffer == Leftover(c.buffer + lines, Threshold(c.maxBufferSize))
    decreases |lines|
  {
    if lines == [] {
      assert c.buffer + lines == c.buffer;
      assert MetricWrites(Batches(c.buffer, Threshold(c.maxBufferSize))) == [];
      assert c.log + [] == c.log;
    } else {
      SendAllStep(c, lines);
      BufferedSendAll(Send(c, lines[0]), lines[1..]);
      BufferedSendStep(c, lines[0], lines[1..]);
      assert [lines[0]] + lines[1..] == lines;
    }
  }

  /** Each line as a group of its own. */
  function Singles(lines: seq<string>): seq<seq<string>>
  {
    if lines == [] then [] else [[lines[0]]] + Singles(lines[1..])
  }

  /** In immediate mode every line is its own datagram. */
  lemma {:induction false} ImmediateSendAll(c: Client, lines: seq<string>)
    requires Inv(c) && c.mode == Immediate
    ensures SendAll(c, lines).log == c.log + MetricWrites(Singles(lines))
    decreases |lines|
  {
    if lines == [] {
      assert c.log + [] == c.log;
    } else {
      var next := Send(c, lines[0]);
      var rest := MetricWrites(Singles(lines[1..]));
      SendAllStep(c, lines);
      ImmediateSendAll(next, lines[1..]);
      MetricWritesCons([lines[0]], Singles(lines[1..]));
      assert MetricWrites(Singles(lines)) == [MetricWrite([lines[0]])] + rest;
      ConcatAssoc(c.log, [MetricWrite([lines[0]])], rest);
    }
  }

  /**
   * A `with` block: the lines go out as one datagram per full group of
   * `max_buffer_size`, and the leftover as one last datagram on exit.
   */
  lemma BufferedSession(c: Client, lines: seq<string>)
    requires Inv(c)
    ensures Exit(SendAll(Enter(c), lines)).log
         == c.log + MetricWrites(Batches(lines, Threshold(c.maxBufferSize))) + [MetricWrite(Leftover(lines, Threshold(c.maxBufferSize)))]
  {
    var started := Enter(c);
    assert started.buffer + lines == lines;
    BufferedSendAll(started, lines);
  }

  lemma {:induction false} LeftoverOfMultiple(lines: seq<string>, size: nat, k: nat)
    requires size >= 1 && |lines| == k * size
    ensures Leftover(lines, size) == []
    decreases k
  {
    if k > 0 {
      LeftoverOfMultiple(lines[size..], size, k - 1);
    }
  }

  /**
   * When the lines of a `with` block fill whole groups, the flush on exit
   * still writes a datagram, and it is empty.
   */
  lemma SessionOfFullGroupsEndsEmpty(c: Client, lines: seq<string>, k: nat)
    requires Inv(c) && |lines| == k * Threshold(c.maxBufferSize)
    ensures var log := Exit(SendAll(Enter(c), lines)).log;
      |log| >= 1 && log[|log| - 1] == MetricWrite([]) && Datagram(log[|log| - 1]) == ""
  {
    BufferedSession(c, lines);
    LeftoverOfMultiple(lines, Threshold(c.maxBufferSize), k);
  }

  /**
   * The example of `open_buffer`'s documentation: two gauges in a `with`
   * block of the default size go out together in one datagram on exit.
   */
  lemma TwoGaugesOneDatagram(name1: string, value1: int, name2: string, value2: int, draw1: real, draw2: real)
    ensures var c := Gauge(Gauge(Enter(Create(DEFAULT_MAX_BUFFER_SIZE)), name1, value1, [], DEFAULT_RATE, draw1),
                           name2, value2, [], DEFAULT_RATE, draw2);
      Exit(c).log == [MetricWrite([EncodeMetric(name1, MetricType.Gauge, value1, [], DEFAULT_RATE),
                                   EncodeMetric(name2, MetricType.Gauge, value2, [], DEFAULT_RATE)])]
  {
    var line1 := EncodeMetric(name1, MetricType.Gauge, value1, [], DEFAULT_RATE);
    var line2 := EncodeMetric(name2, MetricType.Gauge, value2, [], DEFAULT_RATE);
    var started := Enter(Create(DEFAULT_MAX_BUFFER_SIZE));
    var c1 := Gauge(started, name1, value1, [], DEFAULT_RATE, draw1);
    assert c1 == started.(buffer := [line1]);
    var c2 := Gauge(c1, name2, value2, [], DEFAULT_RATE, draw2);
    assert c2 == started.(buffer := [line1, line2]);
  }

  /**
   * With a buffer of size 3, three gauges at rate 1 go out as exactly one
   * datagram, the three lines in call order, and leave the buffer empty.
   */
  lemma ThreeGaugesOneFlush(c: Client, names: seq<string>, values: seq<int>, draws: seq<real>)
    requires Inv(c) && |names| == 3 && |values| == 3 && |draws| == 3
    ensures var r := Gauge(Gauge(Gauge(OpenBuffer(c, 3), names[0], values[0], [], DEFAULT_RATE, draws[0]),
                                 names[1], values[1], [], DEFAULT_RATE, draws[1]),
                           names[2], values[2], [], DEFAULT_RATE, draws[2]);
      && r.buffer == []
      && r.log == c.log + [MetricWrite([EncodeMetric(names[0], MetricType.Gauge, values[0], [], DEFAULT_RATE),
                                        EncodeMetric(names[1], MetricType.Gauge, values[1], [], DEFAULT_RATE),
                                        EncodeMetric(names[2], MetricType.Gauge, values[2], [], DEFAULT_RATE)])]
  {
    var lines := seq(3, i requires 0 <= i < 3 => EncodeMetric(names[i], MetricType.Gauge, values[i], [], DEFAULT_RATE));
    var c0 := OpenBuffer(c, 3);
    var c1 := Gauge(c0, names[0], values[0], [], DEFAULT_RATE, draws[0]);
    assert c1 == c0.(buffer := [lines[0]]) by { BufferedGauge(c0, names[0], values[0], draws[0]); }
    var c2 := Gauge(c1, names[1], values[1], [], DEFAULT_RATE, draws[1]);
    assert c2 == c0.(buffer := [lines[0], lines[1]]) by { BufferedGauge(c1, names[1], values[1], draws[1]); }
    var c3 := Gauge(c2, names[2], values[2], [], DEFAULT_RATE, draws[2]);
    assert c3 == SendToBuffer(c2, lines[2]) by { BufferedGauge(c2, names[2], values[2], draws[2]); }
    assert [lines[0], lines[1]] + [lines[2]] == [lines[0], lines[1], lines[2]];
  }

  /** In buffered mode a gauge at rate 1 goes to the buffer. */
  lemma BufferedGauge(c: Client, name: string, value: int, draw: real)
    requires Inv(c) && c.mode == Buffered
    ensures Gauge(c, name, value, [], DEFAULT_RATE, draw) == SendToBuffer(c, EncodeMetric(name, MetricType.Gauge, value, [], DEFAULT_RATE))
  {
  }

  /** `decrement(m, v)` sends exactly what `increment(m, -v)` sends. */
  lemma DecrementIsNegatedIncrement(c: Client, name: string, value: int, tags: seq<string>, rate: SampleRate, draw: real)
    requires Inv(c)
    ensures Decrement(c, name, value, tags, rate, draw) == Increment(c, name, -value, tags, rate, draw)
  {
  }

  /**
   * Splitting a batch datagram at newlines gives back each metric
   * line, provided no line contains a newline itself.
   */
  lemma BatchReadBack(lines: seq<string>)
    requires |lines| >= 1
    requires forall i :: 0 <= i < |lines| ==> '\n' !in lines[i]
    ensures Split(Datagram(MetricWrite(lines)), '\n') == lines
  {
    SplitJoin(lines, '\n');
  }

  /**
   * In immediate mode a reported sample is one datagram that the reference
   * decoder reads back as the metric: name, type, value, rate text when the
   * rate is not 1, and the tags in order.
   */
  lemma ImmediateReportReadBack(c: Client, name: string, t: MetricType, value: int, tags: seq<string>,
                                rate: SampleRate, draw: real)
    requires Inv(c) && c.mode == Immediate && !Dropped(rate, draw)
    requires ValidName(name) && ValidTags(tags) && ValidRate(rate)
    ensures var r := Report(c, name, t, value, tags, rate, draw);
      |r.log| == |c.log| + 1 && r.log[..|c.log|] == c.log
      && DecodeMetric(Datagram(r.log[|c.log|])) == Some(MetricLine(name, t, value, if IsOne(rate) then None else Some(rate.text), tags))
  {
    var line := EncodeMetric(name, t, value, tags, rate);
    DecodeEncodeMetric(name, t, value, tags, rate);
    assert Report(c, name, t, value, tags, rate, draw) == c.(log := c.log + [MetricWrite([line])]);
    assert Join("\n", [line]) == line;
  }
}
