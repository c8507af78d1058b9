/**
  The Nagios log formatter of logger/nagios.go: a log entry becomes one line
  "LABEL message key=value ...\n", where the label is the Nagios status word
  for the entry's level. The coloured variant wraps the label and each key in
  a colour sequence and the reset sequence.
 */
module Nagios {

  import Decimal
  import opened Wrappers

  /** The levels of the logging library, in its order. */
  datatype Level = Debug | Trace | Info | Notice | Warn | Error | Panic | Alert | Fatal

  /** The library's own name of a level (Level.String()). */
  function LevelName(l: Level): string
  {
    match l
    case Debug => "DEBUG"
    case Trace => "TRACE"
    case Info => "INFO"
    case Notice => "NOTICE"
    case Warn => "WARN"
    case Error => "ERROR"
    case Panic => "PANIC"
    case Alert => "ALERT"
    case Fatal => "FATAL"
  }

  const OkWord: string := "OK"
  const WarningWord: string := "WARNING"
  const CriticalWord: string := "CRITICAL"
  const UnknownWord: string := "UNKNOWN"

  /** The four levels a Nagios plugin reports with. */
  predicate IsNagiosLevel(l: Level) {
    l == Info || l == Warn || l == Error || l == Alert
  }

  /** The word a line starts with: the Nagios status word, or the level's name. */
  function Label(l: Level): (s: string)
    ensures IsNagiosLevel(l) <==> s in {OkWord, WarningWord, CriticalWord, UnknownWord}
    ensures !IsNagiosLevel(l) ==> s == LevelName(l)
    ensures s == OkWord <==> l == Info
    ensures s == WarningWord <==> l == Warn
    ensures s == CriticalWord <==> l == Error
    ensures s == UnknownWord <==> l == Alert
  {
    match l
    case Info => OkWord
    case Warn => WarningWord
    case Error => CriticalWord
    case Alert => UnknownWord
    case _ => LevelName(l)
  }

  /** The label of a line determines the level it was logged at. */
  lemma LabelInjective(a: Level, b: Level)
    requires Label(a) == Label(b)
    ensures a == b
  {
  }

  /**
    A field value, by its dynamic Go type. `Signed` stands for int and
    int8 to int64, `Unsigned` for uint and uint8 to uint64; `Other` is any
    other type, carrying the text fmt's %v verb gives it.
   */
  datatype Value = Str(s: string) | Signed(i: int) | Unsigned(u: nat) | Boolean(b: bool) | Other(repr: string)

  datatype Field = Field(key: string, value: Value)

  datatype Entry = Entry(level: Level, message: string, fields: seq<Field>)

  /** The text of a field value. */
  function Render(v: Value): (r: string)
    ensures v.Str? ==> r == v.s
    ensures v.Signed? ==> Decimal.ParseInt(r) == Some(v.i)
    ensures v.Unsigned? ==> Decimal.IsCanonical(r) && Decimal.ParseInt(r) == Some(v.u)
    ensures v.Boolean? ==> (r == "true" <==> v.b) && (r == "false" <==> !v.b)
    ensures v.Other? ==> r == v.repr
  {
    match v
    case Str(s) => s
    case Signed(i) => Decimal.IntRoundTrip(i); Decimal.IntToDecimal(i)
    case Unsigned(u) => Decimal.IntRoundTrip(u); Decimal.NatToDecimal(u)
    case Boolean(b) => if b then "true" else "false"
    case Other(repr) => repr
  }

  /** What one field adds to a plain line: a space, the key, '=', the value. */
  function Segment(f: Field): string
  {
    " " + f.key + "=" + Render(f.value)
  }

  /** The segments of the fields, in field order. */
  function FieldsText(fields: seq<Field>): string
    decreases |fields|
  {
    if |fields| == 0 then "" else FieldsText(fields[..|fields| - 1]) + Segment(fields[|fields| - 1])
  }

  /** The plain formatter's line for an entry. */
  function FormatPlain(e: Entry): (line: string)
    ensures |line| >= |Label(e.level)| + 2
    ensures line[..|Label(e.level)|] == Label(e.level) && line[|Label(e.level)|] == ' '
    ensures line[|line| - 1] == '\n'
  {
    Label(e.level) + " " + e.message + FieldsText(e.fields) + "\n"
  }

  /** Rendering a concatenation of field lists renders each list in turn. */
  lemma {:induction false} FieldsTextAppend(a: seq<Field>, b: seq<Field>)
    ensures FieldsText(a + b) == FieldsText(a) + FieldsText(b)
    decreases |b|
  {
    if |b| > 0 {
      var b' := b[..|b| - 1];
      var last := b[|b| - 1];
      assert (a + b)[..|a + b| - 1] == a + b';
      assert (a + b)[|a + b| - 1] == last;
      assert FieldsText(a + b) == FieldsText(a + b') + Segment(last);
      assert FieldsText(b) == FieldsText(b') + Segment(last);
      FieldsTextAppend(a, b');
      AppendAssoc(FieldsText(a), FieldsText(b'), Segment(last));
    } else {
      assert a + b == a;
    }
  }

  /** Each field contributes exactly its own segment, after those of the fields before it. */
  lemma {:induction false} FieldsTextOrder(fields: seq<Field>, i: nat)
    requires i < |fields|
    ensures FieldsText(fields) == FieldsText(fields[..i]) + Segment(fields[i]) + FieldsText(fields[i + 1..])
  {
    var pre := fields[..i];
    var post := fields[i + 1..];
    assert fields == (pre + [fields[i]]) + post;
    FieldsTextAppend(pre + [fields[i]], post);
    FieldsTextAppend(pre, [fields[i]]);
    assert FieldsText([fields[i]]) == Segment(fields[i]) by {
      assert [fields[i]][..0] == [];
    }
  }

  predicate NoNewline(s: string) {
    '\n' !in s
  }

  /** The entry contributes no line break of its own. */
  predicate SingleLine(e: Entry) {
    && NoNewline(e.message)
    && forall i :: 0 <= i < |e.fields| ==> NoNewline(e.fields[i].key) && NoNewline(Render(e.fields[i].value))
  }

  lemma {:induction false} FieldsTextNoNewline(fields: seq<Field>)
    requires forall i :: 0 <= i < |fields| ==> NoNewline(fields[i].key) && NoNewline(Render(fields[i].value))
    ensures NoNewline(FieldsText(fields))
    decreases |fields|
  {
    if |fields| > 0 {
      FieldsTextNoNewline(fields[..|fields| - 1]);
    }
  }

  /**
    A single-line entry gives a line whose only line break is the one
    appended at its end.
   */
  lemma PlainLineHasOneNewline(e: Entry)
    requires SingleLine(e)
    ensures var line := FormatPlain(e);
            forall i :: 0 <= i < |line| ==> (line[i] == '\n' <==> i == |line| - 1)
  {
    FieldsTextNoNewline(e.fields);
    var body := Label(e.level) + " " + e.message + FieldsText(e.fields);
    assert NoNewline(Label(e.level));
    assert NoNewline(body);
    assert FormatPlain(e) == body + "\n";
  }

  /** What one field adds to a coloured line: the key wrapped in colour and reset. */
  function ColorSegment(f: Field, color: string, reset: string): string
  {
    " " + color + f.key + reset + "=" + Render(f.value)
  }

  function ColorFieldsText(fields: seq<Field>, color: string, reset: string): string
    decreases |fields|
  {
    if |fields| == 0 then ""
    else ColorFieldsText(fields[..|fields| - 1], color, reset) + ColorSegment(fields[|fields| - 1], color, reset)
  }

  /** Colouring a concatenation of field lists colours each list in turn. */
  lemma {:induction false} ColorFieldsTextAppend(a: seq<Field>, b: seq<Field>, color: string, reset: string)
    ensures ColorFieldsText(a + b, color, reset) == ColorFieldsText(a, color, reset) + ColorFieldsText(b, color, reset)
    decreases |b|
  {
    if |b| > 0 {
      var b' := b[..|b| - 1];
      var last := b[|b| - 1];
      assert (a + b)[..|a + b| - 1] == a + b';
      assert (a + b)[|a + b| - 1] == last;
      assert ColorFieldsText(a + b, color, reset) == ColorFieldsText(a + b', color, reset) + ColorSegment(last, color, reset);
      assert ColorFieldsText(b, color, reset) == ColorFieldsText(b', color, reset) + ColorSegment(last, color, reset);
      ColorFieldsTextAppend(a, b', color, reset);
      AppendAssoc(ColorFieldsText(a, color, reset), ColorFieldsText(b', color, reset), ColorSegment(last, color, reset));
    } else {
      assert a + b == a;
    }
  }

  /**
    Each field contributes a space, its key wrapped in the colour and the
    reset sequence, '=' and its value, after the fields before it.
   */
  lemma {:induction false} ColorFieldsTextOrder(fields: seq<Field>, i: nat, color: string, reset: string)
    requires i < |fields|
    ensures ColorFieldsText(fields, color, reset)
         == ColorFieldsText(fields[..i], color, reset)
            + (" " + color + fields[i].key + reset + "=" + Render(fields[i].value))
            + ColorFieldsText(fields[i + 1..], color, reset)
  {
    var pre := fields[..i];
    var post := fields[i + 1..];
    assert fields == (pre + [fields[i]]) + post;
    ColorFieldsTextAppend(pre + [fields[i]], post, color, reset);
    ColorFieldsTextAppend(pre, [fields[i]], color, reset);
    assert ColorFieldsText([fields[i]], color, reset) == ColorSegment(fields[i], color, reset) by {
      assert [fields[i]][..0] == [];
    }
  }

  /** Regrouping a concatenation, stated apart so that the proofs using it stay small. */
  lemma AppendAssoc(a: string, b: string, c: string)
    ensures (a + b) + c == a + (b + c)
  {
  }

  /** The coloured formatter's line for an entry, given its level's colour and the reset sequence. */
  function FormatColor(e: Entry, color: string, reset: string): (line: string)
    ensures var head := color + Label(e.level) + reset + " " + e.message;
            |line| >= |head| + 1 && line[..|head|] == head
    ensures line[|line| - 1] == '\n'
  {
    color + Label(e.level) + reset + " " + e.message + ColorFieldsText(e.fields, color, reset) + "\n"
  }

  lemma {:induction false} ColorFieldsWithoutEscapes(fields: seq<Field>)
    ensures ColorFieldsText(fields, "", "") == FieldsText(fields)
    decreases |fields|
  {
    if |fields| > 0 {
      ColorFieldsWithoutEscapes(fields[..|fields| - 1]);
      var f := fields[|fields| - 1];
      assert " " + "" == " ";
      assert " " + f.key + "" == " " + f.key;
      assert ColorSegment(f, "", "") == Segment(f);
    }
  }

  /**
    With empty colour and reset sequences the coloured line is the plain
    line. Where the sequences go around each key is ColorFieldsTextOrder.
   */
  lemma ColorWithoutEscapesIsPlain(e: Entry)
    ensures FormatColor(e, "", "") == FormatPlain(e)
  {
    ColorFieldsWithoutEscapes(e.fields);
    var l := Label(e.level);
    assert "" + l + "" == l;
  }

  /** The field loop of the plain closure: appends one segment per field, in order. */
  method AppendFields(b: string, fields: seq<Field>) returns (b': string)
    ensures b' == b + FieldsText(fields)
  {
    b' := b;
    var i := 0;
    while i < |fields|
      invariant 0 <= i <= |fields|
      invariant b' == b + FieldsText(fields[..i])
    {
      assert fields[..i + 1][..i] == fields[..i];
      assert FieldsText(fields[..i + 1]) == FieldsText(fields[..i]) + Segment(fields[i]);
      AppendAssoc(b, FieldsText(fields[..i]), Segment(fields[i]));
      b' := b' + Segment(fields[i]);
      i := i + 1;
    }
    assert fields[..i] == fields;
  }

  /**
    The plain formatter closure. `buffer` is the byte slice it keeps between
    calls; it is truncated first, so the line depends on the entry alone.
   */
  method FormatPlainInto(buffer: seq<char>, e: Entry) returns (line: string)
    ensures line == FormatPlain(e)
  {
    var b := buffer[0..0];
    var head := Label(e.level) + " " + e.message;
    assert b + head == head;
    b := b + head;
    b := AppendFields(b, e.fields);
    line := b + ['\n'];
  }

  /** The field loop of the coloured closure: each key wrapped in colour and reset. */
  method AppendColorFields(b: string, fields: seq<Field>, color: string, reset: string) returns (b': string)
    ensures b' == b + ColorFieldsText(fields, color, reset)
  {
    b' := b;
    var i := 0;
    while i < |fields|
      invariant 0 <= i <= |fields|
      invariant b' == b + ColorFieldsText(fields[..i], color, reset)
    {
      assert fields[..i + 1][..i] == fields[..i];
      assert ColorFieldsText(fields[..i + 1], color, reset)
          == ColorFieldsText(fields[..i], color, reset) + ColorSegment(fields[i], color, reset);
      AppendAssoc(b, ColorFieldsText(fields[..i], color, reset), ColorSegment(fields[i], color, reset));
      b' := b' + ColorSegment(fields[i], color, reset);
      i := i + 1;
    }
    assert fields[..i] == fields;
  }

  /**
    The coloured formatter closure: `colorOf` is the console's colour for a
    level and `reset` the reset sequence; the buffer is truncated first.
   */
  method FormatColorInto(buffer: seq<char>, e: Entry, colorOf: Level -> string, reset: string)
    returns (line: string)
    ensures line == FormatColor(e, colorOf(e.level), reset)
  {
    var b := buffer[0..0];
    var color := colorOf(e.level);
    var head := color + Label(e.level) + reset + " " + e.message;
    assert b + head == head;
    b := b + head;
    b := AppendColorFields(b, e.fields, color, reset);
    line := b + ['\n'];
  }
}
