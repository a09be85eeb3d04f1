/**
 The feedback log `user_data.jsonl`: the `/feedback` form handler and
 `save_feedback` (app.py) append one JSON record per line, and
 `load_user_feedback` (train.py) reads the `(text, label)` pairs back,
 skipping blank lines, undecodable lines and records with an empty text or
 a label other than 0 or 1.

 The file is a sequence of lines, each without its line terminator. JSON
 encoding and decoding are not modelled: a `Codec` supplies `json.dumps`,
 `json.loads` and Python's `str()` of the values whose text the model does
 not compute.
 */
module Feedback {
  import opened Wrappers
  import opened PyText

  /** A JSON value as `json.loads` returns it. */
  datatype Json =
    | JNull
    | JBool(b: bool)
    | JInt(i: int)
    | JFloat(f: real)
    | JStr(s: string)
    | JArray(items: seq<Json>)
    | JObject(fields: map<string, Json>)

  datatype Codec = Codec(
    /** `json.dumps`. */
    dumps: Json -> string,
    /** `json.loads`, `None` when it raises `JSONDecodeError`. */
    loads: string -> Option<Json>,
    /** `str()` of a float, array or object. */
    strOf: Json -> string)

  /** `v` is encoded as a single non-blank line with no surrounding
      whitespace that decodes back to `v` (`json.dumps` escapes line breaks
      and adds no padding). */
  predicate Encodes(c: Codec, v: Json) {
    var line := c.dumps(v);
    c.loads(line) == Some(v) && |line| > 0 && IsStripped(line) && IsSingleLine(line)
  }

  /** No character of `s` ends a line when the file is read back. */
  predicate IsSingleLine(s: string) {
    forall k :: 0 <= k < |s| ==> s[k] != '\n' && s[k] != '\r'
  }

  /** What the log format relies on: every record `save_feedback` can write,
      with a non-empty stripped text and a label of 0 or 1, is encoded
      faithfully. */
  ghost predicate Faithful(c: Codec) {
    forall text, spamLabel, ts | |text| > 0 && IsStripped(text) && (spamLabel == 0 || spamLabel == 1) ::
      Encodes(c, Record(text, spamLabel, ts))
  }

  /** The feedback file: absent until the first record is appended. */
  datatype LogFile = Missing | Lines(lines: seq<string>)

  /** `str(value)`: a string is itself, `None`, `True` and `False` are
      spelled as Python spells them, and an integer is written in decimal
      notation that denotes it. */
  function PyStr(c: Codec, v: Json): (r: string)
    ensures v.JStr? ==> r == v.s
    ensures v.JNull? ==> r == "None"
    ensures v.JBool? ==> r == (if v.b then "True" else "False")
    ensures v.JInt? && v.i >= 0 ==> IsDigits(r) && DigitsValue(r) == v.i
    ensures v.JInt? && v.i < 0 ==> |r| > 1 && r[0] == '-' && IsDigits(r[1..]) && DigitsValue(r[1..]) == -v.i
  {
    match v
    case JNull => "None"
    case JBool(b) => if b then "True" else "False"
    case JInt(i) => Decimal(i)
    case JStr(s) => s
    case _ => c.strOf(v)
  }

  /** `label in (0, 1)` under Python equality: `False`, `True`, `0.0` and
      `1.0` compare equal to 0 or 1. */
  predicate IsBinaryLabel(v: Json)
    ensures IsBinaryLabel(v) <==>
      v in {JInt(0), JInt(1), JBool(false), JBool(true), JFloat(0.0), JFloat(1.0)}
  {
    match v
    case JBool(_) => true
    case JInt(i) => i == 0 || i == 1
    case JFloat(f) => f == 0.0 || f == 1.0
    case _ => false
  }

  /** `int(label)` for a label that passed `IsBinaryLabel`. */
  function LabelValue(v: Json): (n: int)
    requires IsBinaryLabel(v)
    ensures n == 0 || n == 1
    ensures v == JInt(n) || v == JBool(n == 1) || v == JFloat(n as real)
  {
    match v
    case JBool(b) => if b then 1 else 0
    case JInt(i) => i
    case JFloat(f) => if f == 1.0 then 1 else 0
  }

  /** The record `save_feedback` writes; the timestamp is a parameter. */
  function Record(text: string, spamLabel: int, ts: string): (v: Json)
    ensures v.JObject? && v.fields.Keys == {"text", "label", "ts"}
    ensures RowLabel(v.fields) == JInt(spamLabel)
    ensures IsBinaryLabel(RowLabel(v.fields)) <==> spamLabel == 0 || spamLabel == 1
  {
    JObject(map["text" := JStr(text), "label" := JInt(spamLabel), "ts" := JStr(ts)])
  }

  /** `save_feedback`: appends one encoded record as a new last line,
      creating the file when it is missing. */
  function SaveFeedback(c: Codec, file: LogFile, text: string, spamLabel: int, ts: string): (r: LogFile)
    ensures r.Lines?
    ensures r.lines == (if file.Missing? then [] else file.lines) + [c.dumps(Record(text, spamLabel, ts))]
  {
    match file
    case Missing => Lines([c.dumps(Record(text, spamLabel, ts))])
    case Lines(lines) => Lines(lines + [c.dumps(Record(text, spamLabel, ts))])
  }

  /** The validation of the `/feedback` form: a non-empty stripped text and a
      stripped label of exactly "0" or "1". */
  predicate ValidPost(textField: Option<string>, labelField: Option<string>)
    ensures ValidPost(textField, labelField) <==>
      |Strip(textField.GetOr(""))| > 0 &&
      (Strip(labelField.GetOr("")) == "0" || Strip(labelField.GetOr("")) == "1")
    ensures textField.None? || labelField.None? ==> !ValidPost(textField, labelField)
  {
    |Strip(textField.GetOr(""))| > 0 && Strip(labelField.GetOr("")) in ["0", "1"]
  }

  /** The `/feedback` handler: a valid post is saved, with the label "1"
      read as 1 and "0" as 0; an invalid post leaves the file alone. The
      boolean is the `saved=1` flag of the redirect. */
  function PostFeedback(c: Codec, file: LogFile, textField: Option<string>, labelField: Option<string>, ts: string): (r: (LogFile, bool))
    ensures r.1 <==> ValidPost(textField, labelField)
    ensures !r.1 ==> r.0 == file
    ensures r.1 ==> r.0 == SaveFeedback(c, file, Strip(textField.GetOr("")),
                                      if Strip(labelField.GetOr("")) == "1" then 1 else 0, ts)
  {
    var text := Strip(textField.GetOr(""));
    var labelRaw := Strip(labelField.GetOr(""));
    if |text| == 0 || labelRaw !in ["0", "1"] then (file, false)
    else (SaveFeedback(c, file, text, if labelRaw == "1" then 1 else 0, ts), true)
  }

  /** What reading one line does. */
  datatype LineRead = Skipped | Kept(text: string, spamLabel: int) | Raised

  /** The checks the reading loop makes on a decoded object: it is kept
      when its stripped `text` is non-empty and its `label` is 0 or 1. */
  function ReadRow(c: Codec, row: map<string, Json>): (r: LineRead)
    ensures r != Raised
    ensures r.Kept? <==> |RowText(c, row)| > 0 && IsBinaryLabel(RowLabel(row))
    ensures r.Kept? ==> r.text == RowText(c, row) && r.spamLabel == LabelValue(RowLabel(row))
    ensures r.Kept? ==> |r.text| > 0 && IsStripped(r.text) && (r.spamLabel == 0 || r.spamLabel == 1)
  {
    var text := RowText(c, row);
    var spamLabel := RowLabel(row);
    if |text| == 0 || !IsBinaryLabel(spamLabel) then Skipped
    else Kept(text, LabelValue(spamLabel))
  }

  /** `row.get("label")`. */
  function RowLabel(row: map<string, Json>): (v: Json)
    ensures "label" in row ==> v == row["label"]
    ensures "label" !in row ==> v == JNull && !IsBinaryLabel(v)
  {
    if "label" in row then row["label"] else JNull
  }

  /** `str(row.get("text", "")).strip()`. */
  function RowText(c: Codec, row: map<string, Json>): (r: string)
    ensures IsStripped(r)
  {
    Strip(PyStr(c, if "text" in row then row["text"] else JStr("")))
  }

  /** A stored string that is already stripped is read back unchanged. */
  lemma RowTextOfStripped(c: Codec, row: map<string, Json>, text: string)
    requires "text" in row && row["text"] == JStr(text) && IsStripped(text)
    ensures RowText(c, row) == text
  {
    assert PyStr(c, row["text"]) == text;
    StripStripped(text);
  }

  /** The body of the reading loop for one line: a blank or undecodable line
      is skipped; a decoded value that is not an object makes `row.get`
      raise `AttributeError`, which nothing catches; an object goes through
      `ReadRow`. */
  function ReadLine(c: Codec, raw: string): (r: LineRead)
    ensures r.Kept? ==> |r.text| > 0 && IsStripped(r.text) && (r.spamLabel == 0 || r.spamLabel == 1)
  {
    var line := Strip(raw);
    if |line| == 0 then Skipped
    else match c.loads(line)
      case None => Skipped
      case Some(JObject(row)) => ReadRow(c, row)
      case Some(_) => Raised
  }

  /** The two lists `load_user_feedback` returns. */
  datatype Loaded = Loaded(texts: seq<string>, labels: seq<int>)

  /** The error that escapes `load_user_feedback`. */
  datatype LoadError = NotAnObject

  /** What reading each of `lines` does, line by line. */
  function ReadLines(c: Codec, lines: seq<string>): (r: seq<LineRead>)
    ensures |r| == |lines|
    ensures forall i :: 0 <= i < |lines| ==> r[i] == ReadLine(c, lines[i])
  {
    if |lines| == 0 then [] else [ReadLine(c, lines[0])] + ReadLines(c, lines[1..])
  }

  /** The accumulation of the reading loop: the kept pairs, in the order of
      their lines, or the error of the first line that raises. */
  function Collect(results: seq<LineRead>): (r: Result<Loaded, LoadError>)
    ensures r.Success? ==> |r.value.texts| == |r.value.labels| <= |results|
    ensures r.Failure? <==> exists i :: 0 <= i < |results| && results[i].Raised?
  {
    if |results| == 0 then Success(Loaded([], []))
    else
      var rest := Collect(results[1..]);
      assert forall i :: 0 < i < |results| ==> results[1..][i - 1] == results[i];
      match results[0]
      case Raised => Failure(NotAnObject)
      case Skipped => rest
      case Kept(text, spamLabel) =>
        match rest
        case Failure(e) => Failure(e)
        case Success(l) => Success(Loaded([text] + l.texts, [spamLabel] + l.labels))
  }

  /** The reading loop of `load_user_feedback` over the lines of an existing
      file: it fails exactly when some line decodes to a non-object, and
      otherwise returns as many texts as labels, every text non-empty and
      stripped, every label 0 or 1. */
  function LoadLines(c: Codec, lines: seq<string>): (r: Result<Loaded, LoadError>)
    ensures r.Failure? <==> exists i :: 0 <= i < |lines| && ReadLine(c, lines[i]).Raised?
    ensures r.Success? ==> |r.value.texts| == |r.value.labels| <= |lines|
    ensures r.Success? ==> forall i :: 0 <= i < |r.value.texts| ==>
      |r.value.texts[i]| > 0 && IsStripped(r.value.texts[i])
    ensures r.Success? ==> forall i :: 0 <= i < |r.value.labels| ==> r.value.labels[i] == 0 || r.value.labels[i] == 1
  {
    var results := ReadLines(c, lines);
    CollectKeepsKept(results);
    Collect(results)
  }

  /** Every pair `Collect` returns comes from a `Kept` read. */
  lemma {:induction false} CollectKeepsKept(results: seq<LineRead>)
    requires forall i :: 0 <= i < |results| && results[i].Kept? ==>
      |results[i].text| > 0 && IsStripped(results[i].text) && (results[i].spamLabel == 0 || results[i].spamLabel == 1)
    ensures var r := Collect(results);
      r.Success? ==>
        && (forall i :: 0 <= i < |r.value.texts| ==> |r.value.texts[i]| > 0 && IsStripped(r.value.texts[i]))
        && (forall i :: 0 <= i < |r.value.labels| ==> r.value.labels[i] == 0 || r.value.labels[i] == 1)
  {
    if |results| > 0 {
      assert forall i :: 0 < i < |results| ==> results[1..][i - 1] == results[i];
      CollectKeepsKept(results[1..]);
    }
  }

  /** `load_user_feedback(path)`: a missing file yields two empty lists. */
  function LoadUserFeedback(c: Codec, file: LogFile): (r: Result<Loaded, LoadError>)
    ensures file.Missing? ==> r == Success(Loaded([], []))
    ensures file.Lines? ==> r == LoadLines(c, file.lines)
    ensures r.Success? ==> |r.value.texts| == |r.value.labels|
  {
    match file
    case Missing => Success(Loaded([], []))
    case Lines(lines) => LoadLines(c, lines)
  }

  // ---------------------------------------------------------------------
  // Properties
  // ---------------------------------------------------------------------

  /** Reading is line by line: the result for a file split in two is the
      result for the first part followed by the result for the second. */
  lemma LoadLinesAppend(c: Codec, a: seq<string>, b: seq<string>)
    requires LoadLines(c, a).Success? && LoadLines(c, b).Success?
    ensures var la, lb := LoadLines(c, a).value, LoadLines(c, b).value;
      LoadLines(c, a + b) == Success(Loaded(la.texts + lb.texts, la.labels + lb.labels))
  {
    ReadLinesAppend(c, a, b);
    CollectAppend(ReadLines(c, a), ReadLines(c, b));
  }

  /** A file of one line loads that line's pair when the line is kept,
      nothing when it is skipped, and fails when it raises. */
  lemma LoadOneLine(c: Codec, raw: string)
    ensures match ReadLine(c, raw)
      case Kept(text, spamLabel) => LoadLines(c, [raw]) == Success(Loaded([text], [spamLabel]))
      case Skipped => LoadLines(c, [raw]) == Success(Loaded([], []))
      case Raised => LoadLines(c, [raw]) == Failure(NotAnObject)
  {
    var x := ReadLine(c, raw);
    assert ReadLines(c, [raw]) == [x];
    assert [x][1..] == [];
    assert Collect([]) == Success(Loaded([], []));
    if x.Kept? {
      assert [x.text] + [] == [x.text] && [x.spamLabel] + [] == [x.spamLabel];
    }
  }

  lemma {:induction false} ReadLinesAppend(c: Codec, a: seq<string>, b: seq<string>)
    ensures ReadLines(c, a + b) == ReadLines(c, a) + ReadLines(c, b)
  {
    if |a| == 0 {
      assert a + b == b;
    } else {
      assert (a + b)[1..] == a[1..] + b;
      ReadLinesAppend(c, a[1..], b);
    }
  }

  lemma {:induction false} CollectAppend(x: seq<LineRead>, y: seq<LineRead>)
    requires Collect(x).Success? && Collect(y).Success?
    ensures var lx, ly := Collect(x).value, Collect(y).value;
      Collect(x + y) == Success(Loaded(lx.texts + ly.texts, lx.labels + ly.labels))
    decreases |x|
  {
    if |x| == 0 {
      assert x + y == y;
      var ly := Collect(y).value;
      assert [] + ly.texts == ly.texts && [] + ly.labels == ly.labels;
    } else {
      var h, t := x[0], x[1..];
      assert x == [h] + t;
      assert x + y == [h] + (t + y);
      CollectCons(h, t);
      CollectCons(h, t + y);
      CollectAppend(t, y);
      if h.Kept? {
        var lt, ly := Collect(t).value, Collect(y).value;
        assert [h.text] + (lt.texts + ly.texts) == ([h.text] + lt.texts) + ly.texts;
        assert [h.spamLabel] + (lt.labels + ly.labels) == ([h.spamLabel] + lt.labels) + ly.labels;
      }
    }
  }

  /** Reading one more line in front: an error, nothing, or one more pair. */
  lemma CollectCons(h: LineRead, t: seq<LineRead>)
    ensures Collect([h] + t) ==
      match h
      case Raised => Failure(NotAnObject)
      case Skipped => Collect(t)
      case Kept(text, spamLabel) =>
        match Collect(t)
        case Failure(e) => Failure(e)
        case Success(l) => Success(Loaded([text] + l.texts, [spamLabel] + l.labels))
  {
    assert ([h] + t)[0] == h;
    assert ([h] + t)[1..] == t;
  }

  /** A blank line, whatever its whitespace, is skipped. */
  lemma BlankLineSkipped(c: Codec, raw: string)
    requires IsBlank(raw)
    ensures ReadLine(c, raw) == Skipped
  {
    StripEmptyIffBlank(raw);
  }

  /** A line `json.loads` rejects is skipped. */
  lemma UndecodableLineSkipped(c: Codec, raw: string)
    requires c.loads(Strip(raw)).None?
    ensures ReadLine(c, raw) == Skipped
  {
  }

  /** A line that decodes to a value other than an object raises, and a file
      holding such a line fails to load, whatever its other lines. */
  lemma NonObjectLineRaises(c: Codec, lines: seq<string>, i: nat, v: Json)
    requires i < |lines|
    requires |Strip(lines[i])| > 0 && c.loads(Strip(lines[i])) == Some(v) && !v.JObject?
    ensures ReadLine(c, lines[i]) == Raised
    ensures LoadLines(c, lines) == Failure(NotAnObject)
  {
    assert ReadLine(c, lines[i]).Raised?;
    var r := LoadLines(c, lines);
    assert r.Failure?;
    assert r.error == NotAnObject;
  }

  /** A line the codec wrote for a record results back as that record's pair
      whenever its text is already stripped and non-empty and its label is 0 or 1. */
  lemma {:induction false} RecordReadsBack(c: Codec, text: string, spamLabel: int, ts: string)
    requires Faithful(c)
    requires |text| > 0 && IsStripped(text) && (spamLabel == 0 || spamLabel == 1)
    ensures ReadLine(c, c.dumps(Record(text, spamLabel, ts))) == Kept(text, spamLabel)
  {
    var v := Record(text, spamLabel, ts);
    var line := c.dumps(v);
    assert Encodes(c, v);
    ObjectLineReadsRow(c, line, v.fields);
    RecordRowReadsBack(c, text, spamLabel, ts);
  }

  /** A stripped line that decodes to an object is read as that object's row. */
  lemma ObjectLineReadsRow(c: Codec, line: string, row: map<string, Json>)
    requires |line| > 0 && IsStripped(line) && c.loads(line) == Some(JObject(row))
    ensures ReadLine(c, line) == ReadRow(c, row)
  {
    StripStripped(line);
    assert Strip(line) == line && c.loads(Strip(line)) == Some(JObject(row));
  }

  lemma RecordRowReadsBack(c: Codec, text: string, spamLabel: int, ts: string)
    requires |text| > 0 && IsStripped(text) && (spamLabel == 0 || spamLabel == 1)
    ensures ReadRow(c, Record(text, spamLabel, ts).fields) == Kept(text, spamLabel)
  {
    var row := Record(text, spamLabel, ts).fields;
    assert "label" in row && row["label"] == JInt(spamLabel);
    assert "text" in row && row["text"] == JStr(text);
    RowTextOfStripped(c, row, text);
  }

  /** The round trip: after a valid `/feedback` post, loading the file gives
      what it gave before followed by the posted text and label; an invalid
      post leaves the file, and so what it loads, unchanged. */
  lemma FeedbackRoundTrip(c: Codec, file: LogFile, textField: Option<string>, labelField: Option<string>, ts: string)
    requires Faithful(c)
    requires LoadUserFeedback(c, file).Success?
    ensures var (after, saved) := PostFeedback(c, file, textField, labelField, ts);
      var before := LoadUserFeedback(c, file).value;
      var text := Strip(textField.GetOr(""));
      var spamLabel := if Strip(labelField.GetOr("")) == "1" then 1 else 0;
      && (saved <==> ValidPost(textField, labelField))
      && (saved ==> LoadUserFeedback(c, after) == Success(Loaded(before.texts + [text], before.labels + [spamLabel])))
      && (!saved ==> after == file)
  {
    var (after, saved) := PostFeedback(c, file, textField, labelField, ts);
    if saved {
      var text := Strip(textField.GetOr(""));
      var spamLabel := if Strip(labelField.GetOr("")) == "1" then 1 else 0;
      var line := c.dumps(Record(text, spamLabel, ts));
      RecordReadsBack(c, text, spamLabel, ts);
      var old_lines := if file.Missing? then [] else file.lines;
      LoadOneLine(c, line);
      LoadLinesAppend(c, old_lines, [line]);
    }
  }
}
