/**
 The training frame `main` (train.py) builds before splitting: the rows of
 the public SMS dataset whose label maps to 0 or 1, followed by the pairs
 `load_user_feedback` read from the feedback log.

 Downloading and parsing the dataset are not modelled: a base row is the
 pair of cells `read_csv` produced, `None` standing for a missing cell.
 */
module Training {
  import opened Wrappers
  import opened PyText
  import opened Feedback

  /** One row of the downloaded dataset: the `label` and `text` cells. */
  datatype BaseRow = BaseRow(tag: Option<string>, text: Option<string>)

  /** One row of the training frame. */
  datatype Example = Example(text: string, spamLabel: int)

  /** `df["label"].map({"ham": 0, "spam": 1})`: every other tag, and a
      missing one, becomes NaN. */
  function LabelCode(tag: Option<string>): (r: Option<int>)
    ensures r.Some? <==> tag == Some("ham") || tag == Some("spam")
    ensures r == Some(1) <==> tag == Some("spam")
    ensures r.Some? ==> r.value == 0 || r.value == 1
  {
    if tag == Some("ham") then Some(0)
    else if tag == Some("spam") then Some(1)
    else None
  }

  /** `df["text"].astype(str)`: a missing cell becomes the string "nan". */
  function CellText(text: Option<string>): (r: string)
    ensures text.Some? ==> r == text.value
    ensures text.None? ==> r == "nan"
  {
    text.GetOr("nan")
  }

  /** True iff the row survives `dropna`: only the label can be NaN, since
      the text column was already turned into strings. */
  predicate Labelled(row: BaseRow)
    ensures Labelled(row) <==> row.tag == Some("ham") || row.tag == Some("spam")
  {
    LabelCode(row.tag).Some?
  }

  /** The example a labelled row becomes. */
  function ExampleOf(row: BaseRow): (e: Example)
    requires Labelled(row)
    ensures e.spamLabel == 0 || e.spamLabel == 1
  {
    Example(CellText(row.text), LabelCode(row.tag).value)
  }

  /** Lines 73-77: map the labels, stringify the texts and drop the rows
      whose label did not map, keeping the order of the dataset. */
  function CleanBase(rows: seq<BaseRow>): (r: seq<Example>)
    ensures |r| <= |rows|
    ensures forall i :: 0 <= i < |r| ==> r[i].spamLabel == 0 || r[i].spamLabel == 1
  {
    if |rows| == 0 then []
    else
      var rest := CleanBase(rows[1..]);
      if Labelled(rows[0]) then [ExampleOf(rows[0])] + rest else rest
  }

  /** The number of labelled rows. */
  function LabelledCount(rows: seq<BaseRow>): nat {
    if |rows| == 0 then 0
    else (if Labelled(rows[0]) then 1 else 0) + LabelledCount(rows[1..])
  }

  /** `pd.DataFrame({"text": texts, "label": labels})`. */
  function Frame(texts: seq<string>, labels: seq<int>): (r: seq<Example>)
    requires |texts| == |labels|
    ensures |r| == |texts|
    ensures forall i :: 0 <= i < |r| ==> r[i].text == texts[i] && r[i].spamLabel == labels[i]
  {
    if |texts| == 0 then [] else [Example(texts[0], labels[0])] + Frame(texts[1..], labels[1..])
  }

  /** Lines 80-84: the cleaned base frame, with the feedback frame
      concatenated after it when there is any feedback. */
  function TrainingSet(base: seq<BaseRow>, feedback: Loaded): (r: seq<Example>)
    requires |feedback.texts| == |feedback.labels|
    ensures var b := CleanBase(base);
      && |r| == |b| + |feedback.texts|
      && r[..|b|] == b
      && r[|b|..] == Frame(feedback.texts, feedback.labels)
  {
    var df := CleanBase(base);
    if |feedback.texts| > 0 then df + Frame(feedback.texts, feedback.labels) else df
  }

  /** `main` from the dataset to the training frame: the dataset is cleaned
      first and the feedback log is read after it; an error escaping
      `load_user_feedback` ends the run. */
  function BuildTrainingSet(base: seq<BaseRow>, c: Codec, file: LogFile): (r: Result<seq<Example>, LoadError>)
    ensures r.Failure? <==> LoadUserFeedback(c, file).Failure?
    ensures r.Success? ==>
      var feedback, b := LoadUserFeedback(c, file).value, CleanBase(base);
      && |r.value| == |b| + |feedback.texts|
      && r.value[..|b|] == b
      && r.value[|b|..] == Frame(feedback.texts, feedback.labels)
    ensures r.Success? ==> forall i :: 0 <= i < |r.value| ==> r.value[i].spamLabel == 0 || r.value[i].spamLabel == 1
    ensures r.Success? ==> forall i :: |CleanBase(base)| <= i < |r.value| ==>
      |r.value[i].text| > 0 && IsStripped(r.value[i].text)
  {
    match LoadUserFeedback(c, file)
    case Failure(e) => Failure(e)
    case Success(feedback) =>
      var r := TrainingSet(base, feedback);
      FeedbackExamplesValid(base, feedback);
      Success(r)
  }

  /** The examples that come from the feedback carry its labels and texts. */
  lemma FeedbackExamplesValid(base: seq<BaseRow>, feedback: Loaded)
    requires |feedback.texts| == |feedback.labels|
    requires forall i :: 0 <= i < |feedback.texts| ==> |feedback.texts[i]| > 0 && IsStripped(feedback.texts[i])
    requires forall i :: 0 <= i < |feedback.labels| ==> feedback.labels[i] == 0 || feedback.labels[i] == 1
    ensures var r := TrainingSet(base, feedback);
      forall i :: 0 <= i < |r| ==>
        && (r[i].spamLabel == 0 || r[i].spamLabel == 1)
        && (i >= |CleanBase(base)| ==> |r[i].text| > 0 && IsStripped(r[i].text))
  {
    var r, b, f := TrainingSet(base, feedback), CleanBase(base), Frame(feedback.texts, feedback.labels);
    forall i | 0 <= i < |r|
      ensures r[i].spamLabel == 0 || r[i].spamLabel == 1
      ensures i >= |b| ==> |r[i].text| > 0 && IsStripped(r[i].text)
    {
      if i < |b| {
        assert r[i] == r[..|b|][i];
      } else {
        assert r[i] == r[|b|..][i - |b|] == f[i - |b|];
      }
    }
  }

  // ---------------------------------------------------------------------
  // Properties
  // ---------------------------------------------------------------------

  /** Exactly the labelled rows survive the cleaning. */
  lemma {:induction false} CleanBaseCount(rows: seq<BaseRow>)
    ensures |CleanBase(rows)| == LabelledCount(rows)
  {
    if |rows| > 0 {
      CleanBaseCount(rows[1..]);
    }
  }

  /** Cleaning is row by row: it distributes over concatenation. */
  lemma {:induction false} CleanBaseAppend(a: seq<BaseRow>, b: seq<BaseRow>)
    ensures CleanBase(a + b) == CleanBase(a) + CleanBase(b)
  {
    if |a| == 0 {
      assert a + b == b;
    } else {
      assert (a + b)[0] == a[0];
      assert (a + b)[1..] == a[1..] + b;
      CleanBaseAppend(a[1..], b);
    }
  }

  /** A "ham" or "spam" row becomes one example with label 0 or 1 and its
      text (or "nan"); any other row is dropped. */
  lemma CleanOneRow(row: BaseRow)
    ensures CleanBase([row]) ==
      if row.tag == Some("ham") then [Example(CellText(row.text), 0)]
      else if row.tag == Some("spam") then [Example(CellText(row.text), 1)]
      else []
  {
    assert [row][1..] == [];
  }

  /** With no feedback the training frame is the cleaned dataset. */
  lemma NoFeedbackNoChange(base: seq<BaseRow>, feedback: Loaded)
    requires |feedback.texts| == |feedback.labels| && |feedback.texts| == 0
    ensures TrainingSet(base, feedback) == CleanBase(base)
  {
  }

  /** Feedback read in two parts yields the frame of the first part extended
      by the frame of the second. */
  lemma {:induction false} FrameAppend(t1: seq<string>, l1: seq<int>, t2: seq<string>, l2: seq<int>)
    requires |t1| == |l1| && |t2| == |l2|
    ensures Frame(t1 + t2, l1 + l2) == Frame(t1, l1) + Frame(t2, l2)
  {
    var r, s := Frame(t1 + t2, l1 + l2), Frame(t1, l1) + Frame(t2, l2);
    assert |r| == |s|;
    forall i | 0 <= i < |r| ensures r[i] == s[i] {
      if i < |t1| {
        assert (t1 + t2)[i] == t1[i] && (l1 + l2)[i] == l1[i];
      } else {
        assert (t1 + t2)[i] == t2[i - |t1|] && (l1 + l2)[i] == l2[i - |t1|];
      }
    }
  }

  /** The whole loop: after a valid `/feedback` post the next training run
      trains on one more example, the posted text with its label, at the
      end; after an invalid post it trains on the same frame as before. */
  lemma PostedFeedbackIsTrainedOn(base: seq<BaseRow>, c: Codec, file: LogFile,
                                  textField: Option<string>, labelField: Option<string>, ts: string)
    requires Faithful(c)
    requires BuildTrainingSet(base, c, file).Success?
    ensures var (after, saved) := PostFeedback(c, file, textField, labelField, ts);
      var text := Strip(textField.GetOr(""));
      var spamLabel := if Strip(labelField.GetOr("")) == "1" then 1 else 0;
      && (saved ==> BuildTrainingSet(base, c, after) ==
                      Success(BuildTrainingSet(base, c, file).value + [Example(text, spamLabel)]))
      && (!saved ==> BuildTrainingSet(base, c, after) == BuildTrainingSet(base, c, file))
  {
    var (after, saved) := PostFeedback(c, file, textField, labelField, ts);
    FeedbackRoundTrip(c, file, textField, labelField, ts);
    if saved {
      var text := Strip(textField.GetOr(""));
      var spamLabel := if Strip(labelField.GetOr("")) == "1" then 1 else 0;
      var before := LoadUserFeedback(c, file).value;
      assert LoadUserFeedback(c, after) == Success(Loaded(before.texts + [text], before.labels + [spamLabel]));
      AppendOneExample(base, before, text, spamLabel);
    }
  }

  /** One more feedback pair is one more example at the end of the frame. */
  lemma AppendOneExample(base: seq<BaseRow>, before: Loaded, text: string, spamLabel: int)
    requires |before.texts| == |before.labels|
    ensures TrainingSet(base, Loaded(before.texts + [text], before.labels + [spamLabel]))
         == TrainingSet(base, before) + [Example(text, spamLabel)]
  {
    FrameAppend(before.texts, before.labels, [text], [spamLabel]);
    assert [text][1..] == [] && [spamLabel][1..] == [];
    assert Frame([text], [spamLabel]) == [Example(text, spamLabel)];
    if |before.texts| == 0 {
      assert before.texts + [text] == [text] && before.labels + [spamLabel] == [spamLabel];
    }
  }
}
