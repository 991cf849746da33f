/**
 * The DogStatsD line protocol as the client writes it.
 *
 * A metric is one line `name:value|type[|@rate][|#tag1,tag2,...]`; an event is
 * `_e{titleLength,textLength}:title|text` followed by its optional fields. The
 * decoders here are reference decoders for the protocol as this client writes
 * it (metric fields in the order name, type, rate, tags; event fields in the
 * order the client appends them); they are the partners against which the
 * encoders are proved. They make no claim about how a server parses lines.
 */
module Protocol {
  import opened Wrappers
  import opened Strings

  // ---------------------------------------------------------------- metrics

  /** The five metric kinds of the protocol. */
  datatype MetricType = Gauge | Counter | Histogram | Timing | Set

  /** The wire type letter of a metric kind; each one reads back unambiguously. */
  function TypeCode(t: MetricType): (code: string)
    ensures ParseTypeCode(code) == Some(t)
    ensures '|' !in code && '\n' !in code
  {
    match t
    case Gauge => "g"
    case Counter => "c"
    case Histogram => "h"
    case Timing => "ms"
    case Set => "s"
  }

  function ParseTypeCode(code: string): Option<MetricType>
  {
    if code == "g" then Some(Gauge)
    else if code == "c" then Some(Counter)
    else if code == "h" then Some(Histogram)
    else if code == "ms" then Some(Timing)
    else if code == "s" then Some(Set)
    else None
  }

  /**
   * A sample rate: the number the random draw is compared against, and its
   * rendering `str(sample_rate)`, which the caller supplies (floating-point
   * formatting is not modelled).
   */
  datatype SampleRate = SampleRate(value: real, text: string)

  /** The default `sample_rate=1` of every metric operation. */
  const DEFAULT_RATE := SampleRate(1.0, "1")

  /** `sample_rate == 1`: the metric is never sampled out and carries no `|@` suffix. */
  predicate IsOne(rate: SampleRate)
  {
    rate.value == 1.0
  }

  /** The sampling rule: a metric at a rate other than 1 is dropped when the draw exceeds the rate. */
  predicate Dropped(rate: SampleRate, draw: real)
  {
    !IsOne(rate) && draw > rate.value
  }

  /**
   * The wire line of one metric sample, as `_report` assembles it: it starts
   * with `name:value|type`, ends with the tags in the order given when there
   * are any, and has nothing after the type at rate 1 without tags.
   */
  function EncodeMetric(name: string, t: MetricType, value: int, tags: seq<string>, rate: SampleRate): (line: string)
    ensures name + ":" + IntToString(value) + "|" + TypeCode(t) <= line
    ensures tags != [] ==> EndsWith(line, "|#" + Join(",", tags))
    ensures !IsOne(rate) && tags == [] ==> EndsWith(line, "|@" + rate.text)
    ensures IsOne(rate) && tags == [] ==> line == name + ":" + IntToString(value) + "|" + TypeCode(t)
  {
    var base := name + ":" + IntToString(value) + "|" + TypeCode(t);
    var withRate := base + (if !IsOne(rate) then "|@" + rate.text else "");
    var line := withRate + (if tags != [] then "|#" + Join(",", tags) else "");
    assert base <= withRate && withRate <= line;
    line
  }

  /**
   * `_report` before it hands the line on: `None` when the sample is dropped,
   * otherwise the encoded line. `draw` stands for the value of `random()`.
   */
  function Sample(name: string, t: MetricType, value: int, tags: seq<string>, rate: SampleRate, draw: real)
    : (line: Option<string>)
    ensures line.None? <==> Dropped(rate, draw)
    ensures IsOne(rate) ==> line == Some(EncodeMetric(name, t, value, tags, rate))
    ensures line.Some? ==> line.value == EncodeMetric(name, t, value, tags, rate)
  {
    if Dropped(rate, draw) then None else Some(EncodeMetric(name, t, value, tags, rate))
  }

  /** A metric line as the reference decoder reads it. */
  datatype MetricLine = MetricLine(name: string, metricType: MetricType, value: int,
                                   rateText: Option<string>, tags: seq<string>)

  predicate IsField(field: string, marker: char)
  {
    |field| >= 1 && field[0] == marker
  }

  /** Reads the optional `@rate` and `#tags` fields, in that order. */
  function DecodeSuffix(fields: seq<string>): Option<(Option<string>, seq<string>)>
  {
    if |fields| == 0 then Some((None, []))
    else if |fields| == 1 && IsField(fields[0], '@') then Some((Some(fields[0][1..]), []))
    else if |fields| == 1 && IsField(fields[0], '#') then Some((None, Split(fields[0][1..], ',')))
    else if |fields| == 2 && IsField(fields[0], '@') && IsField(fields[1], '#') then
      Some((Some(fields[0][1..]), Split(fields[1][1..], ',')))
    else None
  }

  function DecodeMetric(line: string): Option<MetricLine>
  {
    var fields := Split(line, '|');
    var head := Split(fields[0], ':');
    if |fields| < 2 || |head| != 2 then None
    else
      match (ParseInt(head[1]), ParseTypeCode(fields[1]), DecodeSuffix(fields[2..]))
      case (Some(value), Some(t), Some((rateText, tags))) => Some(MetricLine(head[0], t, value, rateText, tags))
      case _ => None
  }

  /** Names the protocol can carry: no `:` and no `|`. */
  predicate ValidName(name: string)
  {
    ':' !in name && '|' !in name
  }

  /** Tags the protocol can carry: no `,` and no `|`. */
  predicate ValidTags(tags: seq<string>)
  {
    forall i :: 0 <= i < |tags| ==> ',' !in tags[i] && '|' !in tags[i]
  }

  /** A rate that is written out must not contain `|`. */
  predicate ValidRate(rate: SampleRate)
  {
    IsOne(rate) || '|' !in rate.text
  }

  /** The `|`-separated fields of an encoded metric line. */
  function MetricFields(name: string, t: MetricType, value: int, tags: seq<string>, rate: SampleRate): seq<string>
  {
    [name + ":" + IntToString(value), TypeCode(t)]
    + (if !IsOne(rate) then ["@" + rate.text] else [])
    + (if tags != [] then ["#" + Join(",", tags)] else [])
  }

  /** An optional last part adds the separator and the part to the join, or nothing. */
  lemma JoinOptional(sep: string, parts: seq<string>, present: bool, x: string)
    requires |parts| >= 1
    ensures Join(sep, parts + (if present then [x] else [])) == Join(sep, parts) + (if present then sep + x else "")
  {
    if present {
      JoinAppend(sep, parts, x);
    } else {
      assert parts + [] == parts;
    }
  }

  /** The metric line is the head, the type code and the two optional suffixes, in that order. */
  lemma EncodeMetricParts(name: string, t: MetricType, value: int, tags: seq<string>, rate: SampleRate)
    ensures EncodeMetric(name, t, value, tags, rate)
            == name + ":" + IntToString(value) + "|" + TypeCode(t)
               + (if !IsOne(rate) then "|@" + rate.text else "")
               + (if tags != [] then "|#" + Join(",", tags) else "")
  {
  }

  lemma EncodeMetricFields(name: string, t: MetricType, value: int, tags: seq<string>, rate: SampleRate)
    ensures EncodeMetric(name, t, value, tags, rate) == Join("|", MetricFields(name, t, value, tags, rate))
  {
    var head := name + ":" + IntToString(value);
    var base := [head, TypeCode(t)];
    var rateOpt := if !IsOne(rate) then ["@" + rate.text] else [];
    var tagsOpt := if tags != [] then ["#" + Join(",", tags)] else [];
    var rateSuffix := if !IsOne(rate) then "|@" + rate.text else "";
    var tagsSuffix := if tags != [] then "|#" + Join(",", tags) else "";
    assert Join("|", base) == head + "|" + TypeCode(t) by {
      assert base[1..] == [TypeCode(t)];
    }
    assert Join("|", base + rateOpt) == Join("|", base) + rateSuffix by {
      JoinOptional("|", base, !IsOne(rate), "@" + rate.text);
    }
    assert Join("|", base + rateOpt + tagsOpt) == Join("|", base + rateOpt) + tagsSuffix by {
      JoinOptional("|", base + rateOpt, tags != [], "#" + Join(",", tags));
    }
    assert MetricFields(name, t, value, tags, rate) == base + rateOpt + tagsOpt;
    assert EncodeMetric(name, t, value, tags, rate) == head + "|" + TypeCode(t) + rateSuffix + tagsSuffix by {
      EncodeMetricParts(name, t, value, tags, rate);
    }
  }

  /** The fields of a metric line with well-formed parts split back apart at `|`. */
  lemma SplitMetricFields(name: string, t: MetricType, value: int, tags: seq<string>, rate: SampleRate)
    requires ValidName(name) && ValidTags(tags) && ValidRate(rate)
    ensures Split(EncodeMetric(name, t, value, tags, rate), '|') == MetricFields(name, t, value, tags, rate)
  {
    var fields := MetricFields(name, t, value, tags, rate);
    EncodeMetricFields(name, t, value, tags, rate);
    NotInIntToString(value, '|');
    if tags != [] {
      NotInJoin(",", tags, '|');
    }
    var head := name + ":" + IntToString(value);
    assert '|' !in head;
    assert forall i :: 0 <= i < |fields| ==> '|' !in fields[i];
    SplitJoin(fields, '|');
  }

  lemma SplitMetricHead(name: string, value: int)
    requires ValidName(name)
    ensures Split(name + ":" + IntToString(value), ':') == [name, IntToString(value)]
  {
    var v := IntToString(value);
    NotInIntToString(value, ':');
    SplitAppend(name, v, ':');
    SplitNone(v, ':');
  }

  /** The optional fields read back as the rate text, when written, and the tags in order. */
  lemma DecodeSuffixOf(tags: seq<string>, rate: SampleRate)
    requires ValidTags(tags)
    ensures DecodeSuffix((if !IsOne(rate) then ["@" + rate.text] else []) + (if tags != [] then ["#" + Join(",", tags)] else []))
         == Some((if IsOne(rate) then None else Some(rate.text), tags))
  {
    var joined := Join(",", tags);
    if tags != [] {
      SplitJoin(tags, ',');
      assert ("#" + joined)[1..] == joined;
    }
    if !IsOne(rate) {
      assert ("@" + rate.text)[1..] == rate.text;
    }
  }

  /** Each field of a metric line with well-formed parts reads back as the part it carries. */
  lemma MetricFieldsRead(name: string, t: MetricType, value: int, tags: seq<string>, rate: SampleRate)
    requires ValidName(name) && ValidTags(tags)
    ensures var fields := MetricFields(name, t, value, tags, rate);
      && |fields| >= 2
      && Split(fields[0], ':') == [name, IntToString(value)]
      && ParseTypeCode(fields[1]) == Some(t)
      && DecodeSuffix(fields[2..]) == Some((if IsOne(rate) then None else Some(rate.text), tags))
  {
    var fields := MetricFields(name, t, value, tags, rate);
    SplitMetricHead(name, value);
    DecodeSuffixOf(tags, rate);
    assert fields[2..] == (if !IsOne(rate) then ["@" + rate.text] else []) + (if tags != [] then ["#" + Join(",", tags)] else []);
  }

  /** A line whose fields and head read back as given decodes to those parts. */
  lemma DecodeMetricOfFields(line: string, fields: seq<string>, name: string, valueText: string, t: MetricType,
                             value: int, rateText: Option<string>, tags: seq<string>)
    requires Split(line, '|') == fields && |fields| >= 2
    requires Split(fields[0], ':') == [name, valueText] && ParseInt(valueText) == Some(value)
    requires ParseTypeCode(fields[1]) == Some(t)
    requires DecodeSuffix(fields[2..]) == Some((rateText, tags))
    ensures DecodeMetric(line) == Some(MetricLine(name, t, value, rateText, tags))
  {
  }

  /**
   * Round trip: the reference decoder reads back exactly the name, type and value, the
   * rate text only when the rate is not 1, and the tags in the order given.
   */
  lemma DecodeEncodeMetric(name: string, t: MetricType, value: int, tags: seq<string>, rate: SampleRate)
    requires ValidName(name) && ValidTags(tags) && ValidRate(rate)
    ensures DecodeMetric(EncodeMetric(name, t, value, tags, rate))
         == Some(MetricLine(name, t, value, if IsOne(rate) then None else Some(rate.text), tags))
  {
    var line := EncodeMetric(name, t, value, tags, rate);
    var fields := MetricFields(name, t, value, tags, rate);
    SplitMetricFields(name, t, value, tags, rate);
    MetricFieldsRead(name, t, value, tags, rate);
    ParseIntToString(value);
    DecodeMetricOfFields(line, fields, name, IntToString(value), t, value,
                         if IsOne(rate) then None else Some(rate.text), tags);
  }

  /** A line whose parts contain no newline contains none, so a batch of lines splits back apart. */
  lemma NoNewlineInMetric(name: string, t: MetricType, value: int, tags: seq<string>, rate: SampleRate)
    requires '\n' !in name
    requires forall i :: 0 <= i < |tags| ==> '\n' !in tags[i]
    requires IsOne(rate) || '\n' !in rate.text
    ensures '\n' !in EncodeMetric(name, t, value, tags, rate)
  {
    NotInIntToString(value, '\n');
    NotInJoin(",", tags, '\n');
  }

  // ----------------------------------------------------------------- events

  /**
   * An event. An absent optional field is `""`, `0` or `[]`: the client tests
   * each one for truthiness, so `None` and these values behave alike.
   */
  datatype Event = Event(title: string, text: string, alertType: string, aggregationKey: string,
                         sourceTypeName: string, dateHappened: int, priority: string,
                         tags: seq<string>, hostname: string)

  /** The largest event payload, in characters, the client will send. */
  const MAX_EVENT_SIZE := 8 * 1024

  /** The exception raised for an oversized event; it names the escaped title. */
  datatype EventError = PayloadTooBig(title: string)

  /** `_escape_event_content`: every newline becomes the two characters `\` and `n`. */
  function Escape(s: string): (escaped: string)
    ensures '\n' !in escaped
    ensures |escaped| == |s| + Count(s, '\n')
  {
    if s == [] then ""
    else (if s[0] == '\n' then "\\n" else [s[0]]) + Escape(s[1..])
  }

  /** Escaping is Python's `replace`: split at the newlines and join with the escape. */
  lemma {:induction false} EscapeIsReplace(s: string)
    ensures Escape(s) == Join("\\n", Split(s, '\n'))
  {
    if s != [] {
      EscapeIsReplace(s[1..]);
      var rest := Split(s[1..], '\n');
      if s[0] == '\n' {
        assert ([""] + rest)[1..] == rest;
      } else {
        JoinCons("\\n", s[0], rest[0], rest[1..]);
        assert [rest[0]] + rest[1..] == rest;
      }
    }
  }

  /** Text without newlines is sent as it is. */
  lemma {:induction false} EscapeUnchanged(s: string)
    requires '\n' !in s
    ensures Escape(s) == s
  {
    if s != [] {
      EscapeUnchanged(s[1..]);
      assert [s[0]] + s[1..] == s;
    }
  }

  lemma {:induction false} EscapeAppend(a: string, b: string)
    ensures Escape(a + b) == Escape(a) + Escape(b)
  {
    if a != [] {
      var h := if a[0] == '\n' then "\\n" else [a[0]];
      assert (a + b)[0] == a[0] && (a + b)[1..] == a[1..] + b;
      assert Escape(a + b) == h + Escape(a[1..] + b);
      EscapeAppend(a[1..], b);
      ConcatAssoc(h, Escape(a[1..]), Escape(b));
    } else {
      assert a + b == b;
    }
  }

  /** `_e{titleLength,textLength}:title|text`, of already escaped title and text. */
  function EventHeader(title: string, text: string): string
  {
    "_e{" + IntToString(|title|) + "," + IntToString(|text|) + "}:" + title + "|" + text
  }

  /** One step of `string = '%s|<field>' % string` guarded by the field's truthiness. */
  function AppendIf(s: string, present: bool, field: string): string
  {
    if present then s + "|" + field else s
  }

  /** An optional event field: its key, whether `event` writes it (the value is truthy), and its text. */
  datatype OptionalField = OptionalField(key: string, present: bool, value: string)

  /** The optional fields of an event, in the order `event` appends them. */
  function EventFields(e: Event): seq<OptionalField>
  {
    [ OptionalField("d:", e.dateHappened != 0, IntToString(e.dateHappened)),
      OptionalField("h:", e.hostname != "", e.hostname),
      OptionalField("k:", e.aggregationKey != "", e.aggregationKey),
      OptionalField("p:", e.priority != "", e.priority),
      OptionalField("s:", e.sourceTypeName != "", e.sourceTypeName),
      OptionalField("t:", e.alertType != "", e.alertType),
      OptionalField("#", e.tags != [], Join(",", e.tags)) ]
  }

  /** Appends each optional field that is present, in order, as `|` followed by its piece. */
  function AppendFields(s: string, fields: seq<OptionalField>): string
    decreases |fields|
  {
    if fields == [] then s
    else AppendFields(AppendIf(s, fields[0].present, fields[0].key + fields[0].value), fields[1..])
  }

  /**
   * The event payload as `event` assembles it, before the size check: the
   * header of the escaped title and text comes first, and the tags, when
   * there are any, come last.
   */
  function EncodeEvent(e: Event): (payload: string)
    ensures EventHeader(Escape(e.title), Escape(e.text)) <= payload
    ensures e.tags != [] ==> EndsWith(payload, "|#" + Join(",", e.tags))
  {
    var header := EventHeader(Escape(e.title), Escape(e.text));
    var fields := EventFields(e);
    HeaderThenTags(header, fields, e.tags);
    AppendFields(header, fields)
  }

  /** The size check of `event`: the payload, or the error raised when it is over the limit. */
  function EventPayload(e: Event): (r: Result<string, EventError>)
    ensures r.Success? ==> r.value == EncodeEvent(e) && |r.value| <= MAX_EVENT_SIZE
    ensures r.Failure? ==> |EncodeEvent(e)| > MAX_EVENT_SIZE && r.error == PayloadTooBig(Escape(e.title))
  {
    var payload := EncodeEvent(e);
    if |payload| > MAX_EVENT_SIZE then Failure(PayloadTooBig(Escape(e.title))) else Success(payload)
  }

  /** Reads a decimal length terminated by `sep`, and what follows the terminator. */
  function ReadLength(s: string, sep: char): Option<(nat, string)>
  {
    match Find(s, sep)
    case None => None
    case Some(i) =>
      match ParseNat(s[..i])
      case None => None
      case Some(n) => Some((n, s[i + 1..]))
  }

  /** Cuts `:title|text` of the announced lengths off the front of `content`. */
  function CutContent(content: string, n: nat, m: nat): Option<(string, string, string)>
  {
    if |content| < n + m + 2 || content[0] != ':' || content[n + 1] != '|' then None
    else Some((content[1..n + 1], content[n + 2..n + 2 + m], content[n + 2 + m..]))
  }

  /** Reads the header of an event line: the title and text it announces, and what follows. */
  function DecodeEventHeader(s: string): Option<(string, string, string)>
  {
    if |s| < 3 || s[..3] != "_e{" then None
    else
      match ReadLength(s[3..], ',')
      case None => None
      case Some((n, afterComma)) =>
        match ReadLength(afterComma, '}')
        case None => None
        case Some((m, content)) => CutContent(content, n, m)
  }

  /** The keys of the optional event fields, in protocol order. */
  const EVENT_KEYS: seq<string> := ["d:", "h:", "k:", "p:", "s:", "t:", "#"]

  function Keys(fields: seq<OptionalField>): seq<string>
  {
    if fields == [] then [] else [fields[0].key] + Keys(fields[1..])
  }

  /** What the decoder should read for each field: its value when it is written, nothing otherwise. */
  function Values(fields: seq<OptionalField>): seq<Option<string>>
  {
    if fields == [] then []
    else [if fields[0].present then Some(fields[0].value) else None] + Values(fields[1..])
  }

  lemma {:induction false} KeysValuesAt(fields: seq<OptionalField>)
    ensures |Keys(fields)| == |fields| && |Values(fields)| == |fields|
    ensures forall i :: 0 <= i < |fields| ==> Keys(fields)[i] == fields[i].key
    ensures forall i :: 0 <= i < |fields| ==>
              Values(fields)[i] == (if fields[i].present then Some(fields[i].value) else None)
  {
    if fields != [] {
      KeysValuesAt(fields[1..]);
    }
  }

  /** The text of a field on the line, `key` followed by the value, when it is written at all. */
  function Piece(field: OptionalField): seq<string>
  {
    if field.present then [field.key + field.value] else []
  }

  function Pieces(fields: seq<OptionalField>): seq<string>
  {
    if fields == [] then [] else Piece(fields[0]) + Pieces(fields[1..])
  }

  /** Takes the next field when it starts with `key`. */
  function TakeField(pieces: seq<string>, key: string): (Option<string>, seq<string>)
  {
    if |pieces| > 0 && |key| <= |pieces[0]| && pieces[0][..|key|] == key
    then (Some(pieces[0][|key|..]), pieces[1..])
    else (None, pieces)
  }

  /** Takes the fields of the given keys in that order, each one if it is there. */
  function TakeFields(pieces: seq<string>, keys: seq<string>): (taken: (seq<Option<string>>, seq<string>))
    ensures |taken.0| == |keys|
  {
    if keys == [] then ([], pieces)
    else
      var first := TakeField(pieces, keys[0]);
      var others := TakeFields(first.1, keys[1..]);
      ([first.0] + others.0, others.1)
  }

  function StringField(field: Option<string>): string
  {
    if field.Some? then field.value else ""
  }

  /**
   * Reads the optional fields of an event line. They must come in the order
   * `d`, `h`, `k`, `p`, `s`, `t`, `#`; anything else is rejected.
   */
  function DecodeEventFields(title: string, text: string, pieces: seq<string>): Option<Event>
  {
    var taken := TakeFields(pieces, EVENT_KEYS);
    var v := taken.0;
    var date := if v[0].None? then Some(0) else ParseInt(v[0].value);
    if taken.1 != [] || date.None? then None
    else Some(Event(title, text, StringField(v[5]), StringField(v[2]), StringField(v[4]), date.value,
                    StringField(v[3]), if v[6].None? then [] else Split(v[6].value, ','), StringField(v[1])))
  }

  /** Reads an event line: its header, then its `|`-separated optional fields. */
  function DecodeEvent(s: string): Option<Event>
  {
    match DecodeEventHeader(s)
    case None => None
    case Some((title, text, rest)) =>
      var fields := Split(rest, '|');
      if fields[0] != "" then None else DecodeEventFields(title, text, fields[1..])
  }

  /** Optional event fields the protocol can carry: no `|` in them, no `,` or `|` in a tag. */
  predicate ValidEventFields(e: Event)
  {
    && '|' !in e.alertType && '|' !in e.aggregationKey && '|' !in e.sourceTypeName
    && '|' !in e.priority && '|' !in e.hostname && ValidTags(e.tags)
  }

  lemma HeaderContent(title: string, text: string, rest: string)
    ensures CutContent(":" + title + "|" + text + rest, |title|, |text|) == Some((title, text, rest))
  {
    var content := ":" + title + "|" + text + rest;
    assert content[1..|title| + 1] == title;
    assert content[|title| + 2..|title| + 2 + |text|] == text;
    assert content[|title| + 2 + |text|..] == rest;
  }

  lemma HeaderLength(n: nat, tail: string, sep: char)
    requires !IsNumeral(sep)
    ensures ReadLength(IntToString(n) + [sep] + tail, sep) == Some((n, tail))
  {
    var digits := IntToString(n);
    NotInIntToString(n, sep);
    FindAppend(digits, tail, sep);
    var s := digits + [sep] + tail;
    assert s[..|digits|] == digits;
    assert s[|digits| + 1..] == tail;
    ParseNatToString(n);
  }

  /** An event line regrouped the way the decoder reads it: prefix, title length, text length, content. */
  lemma HeaderShape(title: string, text: string, rest: string)
    ensures EventHeader(title, text) + rest
         == "_e{" + (IntToString(|title|) + "," + (IntToString(|text|) + "}" + (":" + title + "|" + text + rest)))
  {
    var a, b := IntToString(|title|), IntToString(|text|);
    assert "}:" == "}" + ":";
    assert EventHeader(title, text) == "_e{" + a + "," + b + "}:" + title + "|" + text;
  }

  /** The lengths in the header let the decoder cut title and text out whatever they contain. */
  lemma DecodeEventHeaderOf(title: string, text: string, rest: string)
    ensures DecodeEventHeader(EventHeader(title, text) + rest) == Some((title, text, rest))
  {
    var content := ":" + title + "|" + text + rest;
    var afterComma := IntToString(|text|) + "}" + content;
    var body := IntToString(|title|) + "," + afterComma;
    var s := EventHeader(title, text) + rest;
    HeaderShape(title, text, rest);
    assert s[..3] == "_e{" && s[3..] == body;
    HeaderLength(|title|, afterComma, ',');
    HeaderLength(|text|, content, '}');
    HeaderContent(title, text, rest);
  }

  /** `|p1|p2...`: the optional fields as they follow the header. */
  function Marked(pieces: seq<string>): string
  {
    if pieces == [] then ""
    else Marked(pieces[..|pieces| - 1]) + "|" + pieces[|pieces| - 1]
  }

  lemma {:induction false} MarkedIsJoin(pieces: seq<string>)
    ensures Marked(pieces) == Join("|", [""] + pieces)
  {
    if pieces != [] {
      var init := pieces[..|pieces| - 1];
      MarkedIsJoin(init);
      assert [""] + pieces == ([""] + init) + [pieces[|pieces| - 1]];
      JoinAppend("|", [""] + init, pieces[|pieces| - 1]);
    }
  }

  lemma {:induction false} AppendFieldsMarked(header: string, done: seq<string>, fields: seq<OptionalField>)
    ensures AppendFields(header + Marked(done), fields) == header + Marked(done + Pieces(fields))
    decreases |fields|
  {
    if fields == [] {
      assert done + [] == done;
    } else {
      var f := fields[0];
      var next := done + Piece(f);
      if f.present {
        assert next[..|next| - 1] == done;
        assert Marked(next) == Marked(done) + "|" + (f.key + f.value);
        assert AppendIf(header + Marked(done), true, f.key + f.value) == header + Marked(next);
      } else {
        assert next == done;
      }
      AppendFieldsMarked(header, next, fields[1..]);
      ConcatAssoc(done, Piece(f), Pieces(fields[1..]));
    }
  }

  /** The line `event` builds is its header followed by the written optional fields, in order. */
  lemma EncodeEventPieces(e: Event)
    ensures EncodeEvent(e) == EventHeader(Escape(e.title), Escape(e.text)) + Marked(Pieces(EventFields(e)))
  {
    var header := EventHeader(Escape(e.title), Escape(e.text));
    AppendFieldsMarked(header, [], EventFields(e));
    assert header + Marked([]) == header;
    assert [] + Pieces(EventFields(e)) == Pieces(EventFields(e));
  }

  /** Every key is non-empty and no two keys start with the same character. */
  predicate WellKeyed(fields: seq<OptionalField>)
  {
    && (forall i :: 0 <= i < |fields| ==> |fields[i].key| >= 1)
    && (forall i, j :: 0 <= i < j < |fields| ==> fields[i].key[0] != fields[j].key[0])
  }

  lemma WellKeyedTail(fields: seq<OptionalField>)
    requires WellKeyed(fields) && fields != []
    ensures WellKeyed(fields[1..])
    ensures forall i :: 0 <= i < |fields[1..]| ==> |fields[1..][i].key| >= 1 && fields[1..][i].key[0] != fields[0].key[0]
  {
    var rest := fields[1..];
    forall i, j | 0 <= i < j < |rest|
      ensures rest[i].key[0] != rest[j].key[0]
    {
      assert rest[i] == fields[i + 1] && rest[j] == fields[j + 1];
    }
    forall i | 0 <= i < |rest|
      ensures |rest[i].key| >= 1 && rest[i].key[0] != fields[0].key[0]
    {
      assert rest[i] == fields[i + 1];
    }
  }

  lemma {:induction false} PiecesHead(fields: seq<OptionalField>, c: char)
    requires forall i :: 0 <= i < |fields| ==> |fields[i].key| >= 1 && fields[i].key[0] != c
    ensures Pieces(fields) == [] || (|Pieces(fields)[0]| >= 1 && Pieces(fields)[0][0] != c)
  {
    if fields != [] && !fields[0].present {
      PiecesHead(fields[1..], c);
    }
  }

  lemma TakePiece(field: OptionalField, rest: seq<string>)
    requires |field.key| >= 1
    requires rest == [] || (|rest[0]| >= 1 && rest[0][0] != field.key[0])
    ensures TakeField(Piece(field) + rest, field.key) == (if field.present then Some(field.value) else None, rest)
  {
    var key := field.key;
    var pieces := Piece(field) + rest;
    if field.present {
      assert pieces[0] == key + field.value;
      assert pieces[0][..|key|] == key;
      assert pieces[0][|key|..] == field.value;
      assert pieces[1..] == rest;
    } else {
      assert pieces == rest;
      if rest != [] && |key| <= |rest[0]| {
        assert rest[0][..|key|][0] != key[0];
      }
    }
  }

  /** Taking the keys in order recovers every field, present or not, and nothing is left over. */
  lemma {:induction false} TakeFieldsOfPieces(fields: seq<OptionalField>)
    requires WellKeyed(fields)
    ensures TakeFields(Pieces(fields), Keys(fields)) == (Values(fields), [])
  {
    if fields != [] {
      var rest := fields[1..];
      WellKeyedTail(fields);
      PiecesHead(rest, fields[0].key[0]);
      TakePiece(fields[0], Pieces(rest));
      TakeFieldsOfPieces(rest);
      assert Keys(fields)[1..] == Keys(rest);
    }
  }

  lemma {:induction false} PiecesAvoid(fields: seq<OptionalField>, c: char)
    requires forall i :: 0 <= i < |fields| ==> c !in fields[i].key && c !in fields[i].value
    ensures forall i :: 0 <= i < |Pieces(fields)| ==> c !in Pieces(fields)[i]
  {
    if fields != [] {
      PiecesAvoid(fields[1..], c);
    }
  }

  /** With well-formed fields, no key or value of an event's optional fields contains `|`. */
  lemma EventFieldsAvoidBar(e: Event)
    requires ValidEventFields(e)
    ensures forall i :: 0 <= i < |EventFields(e)| ==> '|' !in EventFields(e)[i].key && '|' !in EventFields(e)[i].value
  {
    var fields := EventFields(e);
    NotInIntToString(e.dateHappened, '|');
    NotInJoin(",", e.tags, '|');
    forall i | 0 <= i < |fields|
      ensures '|' !in fields[i].key && '|' !in fields[i].value
    {
      if i == 0 {
        assert fields[0].value == IntToString(e.dateHappened);
      } else if i == 6 {
        assert fields[6].value == Join(",", e.tags);
      }
    }
  }

  /** The keys of an event's optional fields are the protocol's, and no two start alike. */
  lemma EventFieldsKeyed(e: Event)
    ensures WellKeyed(EventFields(e)) && Keys(EventFields(e)) == EVENT_KEYS
  {
    var fields := EventFields(e);
    KeysValuesAt(fields);
    forall i, j | 0 <= i < j < |fields|
      ensures fields[i].key[0] != fields[j].key[0]
    {
      assert fields[i].key[0] == "dhkpst#"[i] && fields[j].key[0] == "dhkpst#"[j];
    }
  }

  lemma EventFieldsValues(e: Event)
    ensures var v := Values(EventFields(e));
      && |v| == 7
      && v[0] == (if e.dateHappened != 0 then Some(IntToString(e.dateHappened)) else None)
      && v[1] == (if e.hostname != "" then Some(e.hostname) else None)
      && v[2] == (if e.aggregationKey != "" then Some(e.aggregationKey) else None)
      && v[3] == (if e.priority != "" then Some(e.priority) else None)
      && v[4] == (if e.sourceTypeName != "" then Some(e.sourceTypeName) else None)
      && v[5] == (if e.alertType != "" then Some(e.alertType) else None)
      && v[6] == (if e.tags != [] then Some(Join(",", e.tags)) else None)
  {
    KeysValuesAt(EventFields(e));
  }

  lemma DecodeEventFieldsOf(e: Event)
    requires ValidTags(e.tags)
    ensures DecodeEventFields(e.title, e.text, Pieces(EventFields(e))) == Some(e)
  {
    var fields := EventFields(e);
    EventFieldsKeyed(e);
    TakeFieldsOfPieces(fields);
    EventFieldsValues(e);
    ParseIntToString(e.dateHappened);
    if e.tags != [] {
      SplitJoin(e.tags, ',');
    }
  }

  /** Splitting the fields part of an event line at `|` gives back its pieces after an empty head. */
  lemma SplitMarked(pieces: seq<string>)
    requires forall i :: 0 <= i < |pieces| ==> '|' !in pieces[i]
    ensures Split(Marked(pieces), '|') == [""] + pieces
  {
    MarkedIsJoin(pieces);
    var parts := [""] + pieces;
    assert forall i :: 1 <= i < |parts| ==> parts[i] == pieces[i - 1];
    SplitJoin(parts, '|');
  }

  /** After the header, the decoder reads the `|`-separated pieces that follow it. */
  lemma DecodeHeaderThenPieces(title: string, text: string, pieces: seq<string>)
    requires forall i :: 0 <= i < |pieces| ==> '|' !in pieces[i]
    ensures DecodeEvent(EventHeader(title, text) + Marked(pieces)) == DecodeEventFields(title, text, pieces)
  {
    DecodeEventHeaderOf(title, text, Marked(pieces));
    SplitMarked(pieces);
    assert ([""] + pieces)[1..] == pieces;
  }

  /**
   * Round trip: the reference decoder, which takes the optional fields in the
   * order the client appends them, reads back the escaped title and text
   * (the header lengths match them) and every optional field.
   */
  lemma {:induction false} DecodeEncodeEvent(e: Event)
    requires ValidEventFields(e)
    ensures DecodeEvent(EncodeEvent(e)) == Some(e.(title := Escape(e.title), text := Escape(e.text)))
  {
    var fields := EventFields(e);
    var pieces := Pieces(fields);
    var escaped := e.(title := Escape(e.title), text := Escape(e.text));
    EncodeEventPieces(e);
    EventFieldsAvoidBar(e);
    PiecesAvoid(fields, '|');
    DecodeHeaderThenPieces(escaped.title, escaped.text, pieces);
    assert EventFields(escaped) == fields;
    DecodeEventFieldsOf(escaped);
  }

  // ----------------------------------------------------------- event sizes

  lemma {:induction false} AppendFieldsGrows(s: string, fields: seq<OptionalField>)
    ensures |AppendFields(s, fields)| >= |s|
    ensures s == AppendFields(s, fields)[..|s|]
    decreases |fields|
  {
    if fields != [] {
      var next := AppendIf(s, fields[0].present, fields[0].key + fields[0].value);
      assert next[..|s|] == s;
      AppendFieldsGrows(next, fields[1..]);
    }
  }

  /** When the last field is written, the line ends with it. */
  lemma {:induction false} AppendFieldsEndsWith(s: string, fields: seq<OptionalField>)
    requires fields != [] && fields[|fields| - 1].present
    ensures EndsWith(AppendFields(s, fields), "|" + fields[|fields| - 1].key + fields[|fields| - 1].value)
    decreases |fields|
  {
    var next := AppendIf(s, fields[0].present, fields[0].key + fields[0].value);
    if |fields| == 1 {
      assert AppendFields(s, fields) == next;
      assert next == s + "|" + (fields[0].key + fields[0].value);
    } else {
      assert fields[1..][|fields[1..]| - 1] == fields[|fields| - 1];
      AppendFieldsEndsWith(next, fields[1..]);
    }
  }

  /** Appending fields keeps the header in front, and a last field of tags, when written, ends the line. */
  lemma HeaderThenTags(header: string, fields: seq<OptionalField>, tags: seq<string>)
    requires |fields| >= 1 && fields[|fields| - 1] == OptionalField("#", tags != [], Join(",", tags))
    ensures header <= AppendFields(header, fields)
    ensures tags != [] ==> EndsWith(AppendFields(header, fields), "|#" + Join(",", tags))
  {
    AppendFieldsGrows(header, fields);
    if tags != [] {
      AppendFieldsEndsWith(header, fields);
      assert "|" + fields[|fields| - 1].key + fields[|fields| - 1].value == "|#" + Join(",", tags);
    }
  }

  /**
   * An event line is at least its escaped title and text plus the nine
   * characters of the shortest header frame, `_e{0,0}:|`.
   */
  lemma EventLength(e: Event)
    ensures |EncodeEvent(e)| >= |Escape(e.title)| + |Escape(e.text)| + 9
    ensures |Escape(e.title)| >= |e.title| && |Escape(e.text)| >= |e.text|
  {
    AppendFieldsGrows(EventHeader(Escape(e.title), Escape(e.text)), EventFields(e));
  }

  /** An event whose title and text alone do not fit in the limit is always refused, whatever its fields. */
  lemma OversizedEventRejected(e: Event)
    requires |e.title| + |e.text| + 9 > MAX_EVENT_SIZE
    ensures EventPayload(e) == Failure(PayloadTooBig(Escape(e.title)))
  {
    EventLength(e);
  }

  lemma {:induction false} AppendFieldsAbsent(s: string, fields: seq<OptionalField>)
    requires forall i :: 0 <= i < |fields| ==> !fields[i].present
    ensures AppendFields(s, fields) == s
    decreases |fields|
  {
    if fields != [] {
      AppendFieldsAbsent(s, fields[1..]);
    }
  }

  /** An event without optional fields is exactly its header. */
  lemma BareEvent(e: Event)
    requires e.dateHappened == 0 && e.hostname == "" && e.aggregationKey == "" && e.priority == ""
    requires e.sourceTypeName == "" && e.alertType == "" && e.tags == []
    ensures EncodeEvent(e) == EventHeader(Escape(e.title), Escape(e.text))
  {
    AppendFieldsAbsent(EventHeader(Escape(e.title), Escape(e.text)), EventFields(e));
  }

  /** A single newline between two newline-free strings becomes `\` `n`. */
  lemma EscapeNewlineFirst(y: string)
    ensures Escape("\n" + y) == "\\n" + Escape(y)
  {
    var tail := "\n" + y;
    assert tail[0] == '\n' && tail[1..] == y;
  }

  lemma EscapeNewlineBetween(x: string, y: string)
    requires '\n' !in x && '\n' !in y
    ensures Escape(x + "\n" + y) == x + "\\n" + y
  {
    EscapeNewlineFirst(y);
    EscapeUnchanged(y);
    EscapeAppend(x, "\n" + y);
    EscapeUnchanged(x);
    ConcatAssoc(x, "\n", y);
    ConcatAssoc(x, "\\n", y);
  }

  lemma EscapedExampleText()
    ensures Escape("line1\nline2") == "line1\\nline2"
  {
    EscapeNewlineBetween("line1", "line2");
    assert "line1" + "\n" + "line2" == "line1\nline2";
    assert "line1" + "\\n" + "line2" == "line1\\nline2";
  }

  lemma TwelveText()
    ensures IntToString(12) == "12"
  {
    assert NatToString(1) == "1";
    assert DigitChar(2) == '2';
  }

  lemma FiveText()
    ensures IntToString(5) == "5"
  {
    assert DigitChar(5) == '5';
  }

  lemma ExampleHeader()
    ensures EventHeader("Title", "line1\\nline2") == "_e{5,12}:Title|line1\\nline2"
  {
    TwelveText();
    FiveText();
    assert |"Title"| == 5 && |"line1\\nline2"| == 12;
  }

  /**
   * An event with only a title and text: the header lengths are those of the
   * escaped strings, so the escaped newline counts as two characters.
   */
  lemma PlainEventExample()
    ensures EncodeEvent(Event("Title", "line1\nline2", "", "", "", 0, "", [], "")) == "_e{5,12}:Title|line1\\nline2"
  {
    EscapedExampleText();
    EscapeUnchanged("Title");
    ExampleHeader();
    BareEvent(Event("Title", "line1\nline2", "", "", "", 0, "", [], ""));
  }
}
