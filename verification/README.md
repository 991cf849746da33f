# DogStatsd client (Tornado variant) in Dafny

This project models the core of the DogStatsd Python client `statsd_tornado.py`. It has two parts:

- **The wire encoder.**
  - `_report` turns a metric sample into the DogStatsD line `name:value|type[|@rate][|#tag1,tag2]`.
  - The typed wrappers `gauge`, `increment`, `decrement`, `histogram`, `timing` and `set` fix the type letter.
  - `event` builds `_e{titleLength,textLength}:title|text`, appends its optional fields in a fixed order, escapes newlines and refuses payloads over 8 * 1024 characters.
- **The send strategy.**
  - The client sends each metric line at once, or it collects lines in a buffer opened by `open_buffer` or a `with` block.
  - The buffer goes out as one newline-joined datagram once it holds `max_buffer_size` lines, and again on `close_buffer`.
  - Events always go straight to the stream.

Modules:

- `Wrappers`: `Option`, `Result` and `Outcome`.
- `Strings`: Python's `sep.join`, `s.split(c)` and `str(int)`, with the parsers and lemmas the round trips need.
- `Protocol`:
  - The metric and event encoders.
  - Reference decoders for the protocol as this client writes it. They are the partners the encoders are proved against; they make no claim about how a server parses lines.
  - Lemmas on event sizes.
- `Batching`:
  - The client's send strategy as a state machine on values (`Client`).
  - Each operation is a function with its contract.
  - Every write to the stream goes into a log of `Write`s.
  - Lemmas cover a run of sends, a whole `with` block and reading the datagrams back.
- `Statsd`:
  - The class `DogStatsd`, whose fields the methods update in place, plus a ghost `log` of the writes.
  - Each method ensures `Model() == Batching.F(old(Model()), ...)`, so the `Batching` lemmas hold of the object.

Behaviour of the code that the model keeps as written:

- **Size limit.** The event limit is checked on `len(string)` (statsd_tornado.py:226), which counts characters.
- **Header lengths.** The header lengths are those of the escaped title and text. In `event("Title", "line1\nline2")` the escaped newline counts as two characters, so the text length is 12 and the line is `_e{5,12}:Title|line1\nline2` (`Protocol.PlainEventExample`).
- **Closing the buffer.** `close_buffer` switches to immediate mode first and flushes afterwards (statsd_tornado.py:69-70). The flush is unconditional, so an empty buffer still produces an empty datagram (`Batching.SessionOfFullGroupsEndsEmpty`).
- **Closing an unopened buffer.** On a client whose buffer was never opened, `close_buffer` raises: the attribute `buffer` does not exist yet. The raise comes after the switch to immediate mode (`Batching.CloseBufferRaises`).
- **Reopening.** `open_buffer` discards a pending buffer without sending it (`Batching.OpenBuffer`).
- **Buffer sizes below 1.** With `max_buffer_size` below 1, every buffered send flushes at once. The buffer bound is `Batching.Threshold`, not `max_buffer_size` itself.

## Model

| member | source | states |
|---|---|---|
| `Strings.IntToString` | statsd_tornado.py:176 | `str` of an integer is in canonical decimal form: a leading minus exactly when the integer is negative, then at least one digit, with no leading zero except for `0` itself |
| `Strings.ParseIntToString` | statsd_tornado.py:176 | the decimal rendering of an integer reads back as that integer |
| `Protocol.TypeCode` | statsd_tornado.py:90-164 | the type letters `g`, `c`, `h`, `ms`, `s` read back as their metric kind, and contain no `|` or newline |
| `Protocol.Sample` | statsd_tornado.py:166-177 | a sample is dropped exactly when the rate is not 1 and the draw exceeds it; at rate 1 it is never dropped; otherwise the line is the encoded metric |
| `Protocol.EncodeMetric` | statsd_tornado.py:170-176 | the line starts with `name:value|type`; with tags it ends with `|#` and the tags comma-joined in the given order; with no tags and a rate other than 1 it ends with `|@` and the rate; at rate 1 without tags it is exactly `name:value|type` |
| `Protocol.DecodeEncodeMetric` | statsd_tornado.py:170-176 | the reference decoder reads back the name, type and value; the rate text appears only when the rate is not 1; the tags come back in the given order, neither sorted nor deduplicated |
| `Protocol.NoNewlineInMetric` | statsd_tornado.py:170-176 | a metric line built from newline-free parts has no newline, so batches can be split apart |
| `Protocol.Escape` | statsd_tornado.py:195-196 | the escaped text has no newline and is one character longer per newline |
| `Protocol.EscapeIsReplace` | statsd_tornado.py:195-196 | escaping is `replace('\n', '\\n')`: split at newlines, joined with backslash-n |
| `Protocol.EscapeUnchanged` | statsd_tornado.py:195-196 | text without newlines is unchanged |
| `Protocol.EncodeEventPieces` | statsd_tornado.py:208-224 | the event line is the header of the escaped title and text, followed by `|` and each truthy optional field in the order `d:`, `h:`, `k:`, `p:`, `s:`, `t:`, `#` |
| `Protocol.EncodeEvent` | statsd_tornado.py:208-224 | the line starts with the header of the escaped title and text, and, when there are tags, ends with `|#` and the tags comma-joined in the given order |
| `Protocol.DecodeEncodeEvent` | statsd_tornado.py:208-224 | the reference decoder, which takes the optional fields in the order the client appends them, reads back the escaped title and text (the header lengths match them) and every optional field |
| `Protocol.BareEvent` | statsd_tornado.py:210-224 | an event with no truthy optional field is exactly its header |
| `Protocol.PlainEventExample` | statsd_tornado.py:208-210 | `event("Title", "line1\nline2")` is `_e{5,12}:Title|line1\nline2`; the escaped newline counts as two characters |
| `Protocol.EventPayload` | statsd_tornado.py:226-228 | a payload within 8 * 1024 characters is the encoded event; a longer one fails with the error naming the escaped title |
| `Protocol.EventLength` | statsd_tornado.py:208-224 | an event line is at least its escaped title and text plus nine characters, and escaping never shortens |
| `Protocol.OversizedEventRejected` | statsd_tornado.py:226-228 | an event whose title and text alone exceed the limit is always refused, whatever its fields |
| `Batching.Threshold` | statsd_tornado.py:188 | the effective flush size is at least 1, and is `max_buffer_size` whenever that is at least 1 |
| `Batching.Create` | statsd_tornado.py:23-40 | a new client is in immediate mode, stores the given `max_buffer_size`, has no buffer attribute and an empty buffer, and has written nothing |
| `Batching.SendToServer` | statsd_tornado.py:179-184 | exactly one datagram, the lines joined by newlines, is appended to the stream log; earlier writes are kept and nothing else about the client changes |
| `Batching.FlushBuffer` | statsd_tornado.py:191-193 | the buffer goes out as one newline-joined datagram, even when empty, and is cleared; no line is lost or added |
| `Batching.SendToBuffer` | statsd_tornado.py:186-189 | the line is appended; once the buffer reaches `max_buffer_size` (`>=`), exactly one datagram of the whole buffer in call order is written and the buffer is emptied |
| `Batching.Send` | statsd_tornado.py:177-189 | the invariant is kept and the line is accepted; in immediate mode it is its own datagram |
| `Batching.OpenBuffer` | statsd_tornado.py:50-63 | buffered mode with an empty buffer of the new size; nothing is written; a pending buffer is discarded |
| `Batching.CloseBuffer` | statsd_tornado.py:65-70 | immediate mode and an empty buffer; every accepted line has been written; one datagram of the old buffer is written, or, when no buffer was ever opened, it raises and nothing is written |
| `Batching.Enter` | statsd_tornado.py:43-45 | opens an empty buffer of the client's own size and writes nothing |
| `Batching.Exit` | statsd_tornado.py:47-48 | back in immediate mode with every accepted line written |
| `Batching.Report` | statsd_tornado.py:166-177 | a dropped sample leaves the client unchanged; otherwise exactly its encoded line is accepted, and the invariant holds |
| `Batching.Gauge` | statsd_tornado.py:82-90 | accepts the line of type `g` for the value, unless dropped |
| `Batching.Increment` | statsd_tornado.py:92-100 | accepts the line of type `c` for the value, unless dropped |
| `Batching.Decrement` | statsd_tornado.py:102-110 | accepts the line of type `c` for the negated value, unless dropped |
| `Batching.Histogram` | statsd_tornado.py:112-119 | accepts the line of type `h` for the value, unless dropped |
| `Batching.Timing` | statsd_tornado.py:121-127 | accepts the line of type `ms` for the value, unless dropped |
| `Batching.SetSample` | statsd_tornado.py:158-164 | accepts the line of type `s` for the value, unless dropped |
| `Batching.SendEvent` | statsd_tornado.py:198-233 | an event that fits is one write straight to the stream, bypassing the buffer, which is unchanged; an oversized one fails with the error naming the escaped title and writes nothing |
| `Batching.SendAll` | statsd_tornado.py:177-189 | successive sends keep the invariant and accept the lines in order |
| `Batching.BatchesPartition` | statsd_tornado.py:186-193 | the full groups and the leftover make up the lines in order |
| `Batching.BufferedSendAll` | statsd_tornado.py:186-193 | in buffered mode, a run of sends writes one datagram per full group of the buffer and the new lines, and leaves the rest in the buffer |
| `Batching.ImmediateSendAll` | statsd_tornado.py:177-184 | in immediate mode every line is written as its own datagram, in order |
| `Batching.BufferedSession` | statsd_tornado.py:43-70 | a `with` block writes one datagram per full group of `max_buffer_size` lines, then the leftover as one datagram on exit |
| `Batching.SessionOfFullGroupsEndsEmpty` | statsd_tornado.py:65-70 | when the lines fill whole groups, exit still writes a datagram, and it is empty |
| `Batching.TwoGaugesOneDatagram` | statsd_tornado.py:56-58 | two gauges in a `with` block of the default size are written together as one datagram on exit |
| `Batching.ThreeGaugesOneFlush` | statsd_tornado.py:186-193 | after `open_buffer(3)`, three gauges flush exactly once, as one datagram of the three lines in call order |
| `Batching.DecrementIsNegatedIncrement` | statsd_tornado.py:100-110 | `decrement(m, v)` does exactly what `increment(m, -v)` does |
| `Batching.BatchReadBack` | statsd_tornado.py:192 | splitting a batch datagram at newlines gives back its lines |
| `Batching.ImmediateReportReadBack` | statsd_tornado.py:166-184 | in immediate mode, a sample that is not dropped becomes one datagram that the reference decoder reads back as that metric |
| `Statsd.DogStatsd.constructor` | statsd_tornado.py:23-40 | the new object is `Batching.Create` of its buffer size |
| `Statsd.DogStatsd.Enter` | statsd_tornado.py:43-45 | moves the object's state as `Batching.Enter` |
| `Statsd.DogStatsd.Exit` | statsd_tornado.py:47-48 | moves the state as `Batching.Exit`, and reports whether `close_buffer` raised |
| `Statsd.DogStatsd.OpenBuffer` | statsd_tornado.py:50-63 | moves the state as `Batching.OpenBuffer` |
| `Statsd.DogStatsd.CloseBuffer` | statsd_tornado.py:65-70 | moves the state as `Batching.CloseBuffer`, and reports the raise of a never-opened buffer |
| `Statsd.DogStatsd.SendToServer` | statsd_tornado.py:179-184 | records the written packet, the newline-join of its lines, as `Batching.SendToServer` |
| `Statsd.DogStatsd.FlushBuffer` | statsd_tornado.py:191-193 | moves the state as `Batching.FlushBuffer` |
| `Statsd.DogStatsd.SendToBuffer` | statsd_tornado.py:186-189 | moves the state as `Batching.SendToBuffer` |
| `Statsd.DogStatsd.Send` | statsd_tornado.py:177-189 | moves the state as `Batching.Send` and keeps the invariant |
| `Statsd.DogStatsd.Report` | statsd_tornado.py:166-177 | moves the state as `Batching.Report` |
| `Statsd.DogStatsd.Gauge` | statsd_tornado.py:82-90 | moves the state as `Batching.Gauge` |
| `Statsd.DogStatsd.Increment` | statsd_tornado.py:92-100 | moves the state as `Batching.Increment` |
| `Statsd.DogStatsd.Decrement` | statsd_tornado.py:102-110 | moves the state as `Batching.Decrement` |
| `Statsd.DogStatsd.Histogram` | statsd_tornado.py:112-119 | moves the state as `Batching.Histogram` |
| `Statsd.DogStatsd.Timing` | statsd_tornado.py:121-127 | moves the state as `Batching.Timing` |
| `Statsd.DogStatsd.SetSample` | statsd_tornado.py:158-164 | moves the state as `Batching.SetSample` |
| `Statsd.DogStatsd.Event` | statsd_tornado.py:198-233 | writes the payload straight to the stream as `Batching.SendEvent`; when oversized, fails with its error and leaves the object unchanged |

## Left out

- The connection and I/O are not modelled: `connect`, the socket, the Tornado `IOStream` and the `.encode(self.encoding)` byte conversion (statsd_tornado.py:33-39, 72-80, 182, 231). A write to the stream is an entry appended to the ghost `log`. The constructor's `host` and `port` are therefore not parameters.
- Write errors are not modelled. `_send_to_server` and `event` catch and log them, and the `print` in `_send_to_server` only writes to the console (statsd_tornado.py:180, 183-184, 232-233). The model treats every write as succeeding.
- `timed` (statsd_tornado.py:129-156) is not modelled. It wraps arbitrary callables and reads the wall clock.
- `random()` is not modelled (statsd_tornado.py:167). Its value is the parameter `draw`.
- Floating-point values are not modelled.
  - Metric values are integers, rendered by `str` on integers.
  - For a sample rate, the model takes its numeric value and its rendering `str(sample_rate)` as given (`SampleRate.text`).
- String metric values are not modelled, such as the ids `set` counts. `str(value)` of a string is the string itself and may contain `|` or `:`.
- The module-level instance `statsd = DogStatsd()` (statsd_tornado.py:236) is not modelled: it is construction-time I/O.
- Python's `None` for an optional event field is not modelled separately. `event` tests each field for truthiness, so `None` and `""`, `0` or `[]` behave the same and are all modelled as the falsy value.
- The exception raised by `close_buffer` before any `open_buffer` is not modelled as an exception. It becomes the result `raised`. A `with` block whose body raises, after which Python still calls `__exit__`, is also left out: the model has no exceptions in the caller's code.
- Statsd.DogStatsd.SendToServer: the packet's bytes are not recorded, only the lines it joins. Its precondition ties the packet to those lines.
- Names, tags and rate texts that contain the separators `:`, `|`, `,` or a newline are sent unescaped, as in the code. The read-back lemmas require them to be free of separators; the encoders do not.
- `setup.py` is not part of this model; it only describes the package.
