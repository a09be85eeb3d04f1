/**
 The per-process state `home` (app.py) keeps across requests: the counters of
 checked, spam and clean messages, and the newest-first history of at most
 five results. Rendering the page and the sigmoid chart is not modelled.
 */
module Session {
  import opened Wrappers
  import opened PyText
  import Prediction
  import Confidence

  const HistoryLimit: nat := 5
  const EmptyMessageError: string := "Paste a message first."

  datatype Stats = Stats(checked: nat, spam: nat, ham: nat)

  /** A history row: the message, its verdict and probability, and the
      clock reading taken when it was checked. */
  datatype Entry = Entry(text: string, pred: int, prob: real, time: string)

  datatype State = State(stats: Stats, history: seq<Entry>)

  /** A form post to `/`: the `text` field, if sent, and the clock reading. */
  datatype Request = Request(text: Option<string>, time: string)

  /** What the page shows for a post: the error, or the verdict and its confidence label. */
  datatype Outcome = Rejected(error: string) | Classified(verdict: Prediction.Verdict, confidence: string)

  datatype Step = Step(state: State, outcome: Outcome)

  /** The state at process start. */
  function Start(): State {
    State(Stats(0, 0, 0), [])
  }

  /** The counters add up and the history holds at most five rows. */
  predicate Valid(s: State) {
    s.stats.checked == s.stats.spam + s.stats.ham && |s.history| <= HistoryLimit
  }

  /** `message_history.insert(0, e)` followed by one `pop()` when the list
      grew beyond five. */
  function PushHistory(e: Entry, h: seq<Entry>): (r: seq<Entry>)
    ensures |h| <= HistoryLimit ==> |r| == Min(|h| + 1, HistoryLimit)
    ensures 0 < |r| <= |h| + 1 && r[0] == e
    ensures r[1..] == h[..|r| - 1]
  {
    var grown := [e] + h;
    if |grown| > HistoryLimit then grown[..|grown| - 1] else grown
  }

  /** Counts a classified message once, as spam or as clean according to
      its verdict, and puts its row at the front of the history. */
  function Record(s: State, v: Prediction.Verdict, text: string, time: string): (r: State)
    ensures r.stats.checked == s.stats.checked + 1
    ensures r.stats.spam == s.stats.spam + (if v.pred == 1 then 1 else 0)
    ensures r.stats.ham == s.stats.ham + (if v.pred == 1 then 0 else 1)
    ensures 0 < |r.history| <= |s.history| + 1
    ensures r.history[0] == Entry(text, v.pred, v.prob, time)
    ensures r.history[1..] == s.history[..|r.history| - 1]
    ensures |s.history| <= HistoryLimit ==> |r.history| == Min(|s.history| + 1, HistoryLimit)
    ensures Valid(s) ==> Valid(r)
  {
    var stats := if v.pred == 1
      then Stats(s.stats.checked + 1, s.stats.spam + 1, s.stats.ham)
      else Stats(s.stats.checked + 1, s.stats.spam, s.stats.ham + 1);
    State(stats, PushHistory(Entry(text, v.pred, v.prob, time), s.history))
  }

  /** A POST to `/`: an empty message after stripping is rejected and changes
      nothing; any other message is classified at the default threshold and
      recorded. */
  function Post(s: State, m: Prediction.Model, req: Request): (r: Step)
    ensures var text := Strip(req.text.GetOr(""));
      |text| == 0 ==> r.state == s && r.outcome == Rejected(EmptyMessageError)
    ensures var text := Strip(req.text.GetOr(""));
      |text| > 0 ==>
        var v := Prediction.PredictMessage(m, text, Prediction.DefaultThreshold);
        && r.outcome == Classified(v, Confidence.ConfidenceLabel(v.prob, v.pred))
        && r.state.stats.checked == s.stats.checked + 1
        && r.state.stats.spam == s.stats.spam + (if v.pred == 1 then 1 else 0)
        && r.state.stats.ham == s.stats.ham + (if v.pred == 1 then 0 else 1)
        && r.state.history == PushHistory(Entry(text, v.pred, v.prob, req.time), s.history)
    ensures Valid(s) ==> Valid(r.state)
  {
    var text := Strip(req.text.GetOr(""));
    if |text| == 0 then
      Step(s, Rejected(EmptyMessageError))
    else
      var v := Prediction.PredictMessage(m, text, Prediction.DefaultThreshold);
      Step(Record(s, v, text, req.time), Classified(v, Confidence.ConfidenceLabel(v.prob, v.pred)))
  }

  /** The state after the posts `reqs`, in order. */
  function Run(s: State, m: Prediction.Model, reqs: seq<Request>): State
    decreases |reqs|
  {
    if |reqs| == 0 then s
    else Post(Run(s, m, reqs[..|reqs| - 1]), m, reqs[|reqs| - 1]).state
  }

  /** The stripped texts of the posts that were not rejected, in order. */
  function Accepted(reqs: seq<Request>): (texts: seq<string>)
    ensures |texts| <= |reqs|
    decreases |reqs|
  {
    if |reqs| == 0 then []
    else
      var text := Strip(reqs[|reqs| - 1].text.GetOr(""));
      Accepted(reqs[..|reqs| - 1]) + (if |text| == 0 then [] else [text])
  }

  /** The last `k` elements of `xs`, newest first. */
  function Newest(xs: seq<string>, k: nat): (r: seq<string>)
    ensures |r| == Min(k, |xs|)
    ensures forall i :: 0 <= i < |r| ==> r[i] == xs[|xs| - 1 - i]
  {
    if |xs| == 0 || k == 0 then [] else [xs[|xs| - 1]] + Newest(xs[..|xs| - 1], k - 1)
  }

  function Texts(h: seq<Entry>): (r: seq<string>)
    ensures |r| == |h|
    ensures forall i :: 0 <= i < |h| ==> r[i] == h[i].text
  {
    if |h| == 0 then [] else [h[0].text] + Texts(h[1..])
  }

  // ---------------------------------------------------------------------
  // Properties
  // ---------------------------------------------------------------------

  lemma StartIsValid()
    ensures Valid(Start())
  {
  }

  /** Pushing a row onto a history that lists the last accepted texts
      newest first lists the texts with the new one added. */
  lemma PushKeepsNewest(e: Entry, h: seq<Entry>, xs: seq<string>)
    requires |h| <= HistoryLimit && Texts(h) == Newest(xs, HistoryLimit)
    ensures Texts(PushHistory(e, h)) == Newest(xs + [e.text], HistoryLimit)
  {
    var r := PushHistory(e, h);
    TextsOfPush(e, h);
    NewestStep(xs, e.text, HistoryLimit);
    NewestShorter(xs, HistoryLimit);
    assert |r| - 1 == Min(HistoryLimit - 1, |xs|);
  }

  /** The texts of a pushed history: the new text, then the old texts that stay. */
  lemma TextsOfPush(e: Entry, h: seq<Entry>)
    ensures var r := PushHistory(e, h);
      Texts(r) == [e.text] + Texts(h)[..|r| - 1]
  {
    var r := PushHistory(e, h);
    var m := |r| - 1;
    assert Texts(r) == [e.text] + Texts(r[1..]);
    var a, b := Texts(r[1..]), Texts(h)[..m];
    assert |a| == |b| == m;
    forall i | 0 <= i < m ensures a[i] == b[i] {
      assert r[1..][i] == h[..m][i] == h[i];
    }
    assert a == b;
  }

  /** One more text is the newest one, followed by one fewer of the others. */
  lemma NewestStep(xs: seq<string>, x: string, k: nat)
    requires k > 0
    ensures Newest(xs + [x], k) == [x] + Newest(xs, k - 1)
  {
    var ys := xs + [x];
    assert ys[..|ys| - 1] == xs;
  }

  /** The newest `k - 1` texts are the first ones of the newest `k`. */
  lemma NewestShorter(xs: seq<string>, k: nat)
    requires k > 0
    ensures Newest(xs, k - 1) == Newest(xs, k)[..Min(k - 1, |xs|)]
  {
    var a, b := Newest(xs, k - 1), Newest(xs, k)[..Min(k - 1, |xs|)];
    assert |a| == |b|;
    forall i | 0 <= i < |a| ensures a[i] == b[i] {
      assert a[i] == xs[|xs| - 1 - i];
    }
    assert a == b;
  }

  /** One post keeps the invariant that relates the state to the accepted texts. */
  lemma PostKeepsSummary(s: State, m: Prediction.Model, req: Request, xs: seq<string>)
    requires Valid(s) && s.stats.checked == |xs| && Texts(s.history) == Newest(xs, HistoryLimit)
    ensures var text := Strip(req.text.GetOr(""));
      var ys := xs + (if |text| == 0 then [] else [text]);
      var after := Post(s, m, req).state;
      Valid(after) && after.stats.checked == |ys| && Texts(after.history) == Newest(ys, HistoryLimit)
  {
    var text := Strip(req.text.GetOr(""));
    if |text| > 0 {
      var v := Prediction.PredictMessage(m, text, Prediction.DefaultThreshold);
      PushKeepsNewest(Entry(text, v.pred, v.prob, req.time), s.history, xs);
      assert Post(s, m, req).state == Record(s, v, text, req.time);
    } else {
      assert xs + [] == xs;
    }
  }

  /** From the start state, any series of posts leaves the counters adding up,
      `checked` equal to the number of accepted messages, and the history
      holding the texts of the last five accepted messages, newest first. */
  lemma {:induction false} RunFromStart(m: Prediction.Model, reqs: seq<Request>)
    ensures var s := Run(Start(), m, reqs);
      && Valid(s)
      && s.stats.checked == |Accepted(reqs)|
      && Texts(s.history) == Newest(Accepted(reqs), HistoryLimit)
    decreases |reqs|
  {
    if |reqs| > 0 {
      var n := |reqs| - 1;
      RunFromStart(m, reqs[..n]);
      PostKeepsSummary(Run(Start(), m, reqs[..n]), m, reqs[n], Accepted(reqs[..n]));
    }
  }
}
