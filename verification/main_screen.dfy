/**
 The activity's screen state and its three inputs: an edit of the count
 field, an edit of the percent field, and a click on "Generate!", which
 commits both texts into the values the progress bar draws.
 */
module MainScreen {
  import opened KotlinText
  import opened FormField

  /** `progressBarNum` and `progressBarPercent`, with the percent as an exact fraction. */
  datatype Committed = Committed(number: int, percentage: real)

  datatype Screen = Screen(count: Field, percent: Field, committed: Committed)

  datatype Event =
    | CountTyped(candidate: string)
    | PercentTyped(candidate: string)
    | GenerateClicked

  /** Every piece of state starts empty or zero. */
  const Initial: Screen := Screen(Blank, Blank, Committed(0, 0.0))

  /** What holds of every screen the user can reach. */
  predicate Valid(s: Screen) {
    && CountEditAccepted(s.count.text) && InStep(s.count)
    && PercentEditAccepted(s.percent.text) && InStep(s.percent)
    && 0 <= s.committed.number <= IntMax
    && 0.0 <= s.committed.percentage
  }

  /**
   The Generate handler's two assignments: the count is `toIntOrNull() ?: 0`
   of the count text, the percentage is the percent text's value over 100,
   with "" giving 0.  `percentState` only ever holds digits, which is what
   the requires says.
   */
  function Commit(countText: string, percentText: string): (c: Committed)
    requires AllDigits(percentText)
    ensures IntMin <= c.number <= IntMax
    ensures AllDigits(countText) ==>
      c.number == (if countText != [] && DecimalValue(countText) <= IntMax then DecimalValue(countText) else 0)
    ensures AllDigits(countText) ==> 0 <= c.number
    ensures c.percentage * 100.0 == DecimalValue(percentText) as real
    ensures percentText == [] ==> c.percentage == 0.0
    ensures 0.0 <= c.percentage
    ensures PercentEditAccepted(percentText) && ToIntOrNull(percentText).Some? ==> c.percentage <= 1.0
  {
    Committed(ToIntOrNull(countText).GetOr(0), DigitsToFloatOrNull(percentText).GetOr(0.0) / 100.0)
  }

  /** One user action. Edits touch only their own field; Generate touches only the committed values. */
  function Step(s: Screen, e: Event): (r: Screen)
    requires Valid(s)
    ensures Valid(r)
    ensures e.CountTyped? ==> r.percent == s.percent && r.committed == s.committed
    ensures e.PercentTyped? ==> r.count == s.count && r.committed == s.committed
    ensures e.GenerateClicked? ==> r.count == s.count && r.percent == s.percent
    ensures e.CountTyped? && !CountEditAccepted(e.candidate) ==> r == s
    ensures e.PercentTyped? && !PercentEditAccepted(e.candidate) ==> r == s
    ensures e.CountTyped? && CountEditAccepted(e.candidate) ==> r.count == Take(e.candidate)
    ensures e.PercentTyped? && PercentEditAccepted(e.candidate) ==> r.percent == Take(e.candidate)
    ensures e.GenerateClicked? ==> r.committed == Commit(s.count.text, s.percent.text)
  {
    match e
    case CountTyped(c) => s.(count := EditCount(s.count, c))
    case PercentTyped(c) => s.(percent := EditPercent(s.percent, c))
    case GenerateClicked => s.(committed := Commit(s.count.text, s.percent.text))
  }

  /** The screen after a sequence of actions, the last action applied last. */
  function Run(start: Screen, es: seq<Event>): (r: Screen)
    requires Valid(start)
    ensures Valid(r)
    decreases |es|
  {
    if es == [] then start else Step(Run(start, es[..|es| - 1]), es[|es| - 1])
  }

  // ---------------------------------------------------------------------------
  // Reference definitions: what the user last typed successfully, and last committed

  /** The last count candidate the filter accepted, or "" if there was none. */
  function LastAcceptedCount(es: seq<Event>): (text: string)
    ensures CountEditAccepted(text)
    decreases |es|
  {
    if es == [] then ""
    else if es[|es| - 1].CountTyped? && CountEditAccepted(es[|es| - 1].candidate) then es[|es| - 1].candidate
    else LastAcceptedCount(es[..|es| - 1])
  }

  /** The last percent candidate the filter accepted, or "" if there was none. */
  function LastAcceptedPercent(es: seq<Event>): (text: string)
    ensures PercentEditAccepted(text)
    decreases |es|
  {
    if es == [] then ""
    else if es[|es| - 1].PercentTyped? && PercentEditAccepted(es[|es| - 1].candidate) then es[|es| - 1].candidate
    else LastAcceptedPercent(es[..|es| - 1])
  }

  /** The commit of the texts current at the last Generate click; zero before any click. */
  function LastCommitted(es: seq<Event>): Committed
    decreases |es|
  {
    if es == [] then Committed(0, 0.0)
    else if es[|es| - 1].GenerateClicked? then
      Commit(LastAcceptedCount(es[..|es| - 1]), LastAcceptedPercent(es[..|es| - 1]))
    else LastCommitted(es[..|es| - 1])
  }

  // ---------------------------------------------------------------------------
  // Properties

  lemma InitialIsValid()
    ensures Valid(Initial)
  {
  }

  /**
   From the empty screen, each field (text and holder alike) holds the last
   candidate its filter accepted, and the committed values are those of the
   last Generate click.
   */
  lemma {:induction false} RunFollowsLastAccepted(es: seq<Event>)
    ensures Run(Initial, es).count == Take(LastAcceptedCount(es))
    ensures Run(Initial, es).percent == Take(LastAcceptedPercent(es))
    ensures Run(Initial, es).committed == LastCommitted(es)
    decreases |es|
  {
    if es != [] {
      RunFollowsLastAccepted(es[..|es| - 1]);
    }
  }

  /** Each badge is shown exactly when the last accepted text of its field is non-empty. */
  lemma BadgesFollowLastAccepted(es: seq<Event>)
    ensures ShowsBadge(Run(Initial, es).count) <==> LastAcceptedCount(es) != []
    ensures ShowsBadge(Run(Initial, es).percent) <==> LastAcceptedPercent(es) != []
  {
    RunFollowsLastAccepted(es);
  }

  /** Whatever the user does, both field texts hold only digits and the committed count is a non-negative `Int`. */
  lemma ReachableScreensDigitsOnly(es: seq<Event>)
    ensures forall i | 0 <= i < |Run(Initial, es).count.text| :: IsDigit(Run(Initial, es).count.text[i])
    ensures forall i | 0 <= i < |Run(Initial, es).percent.text| :: IsDigit(Run(Initial, es).percent.text[i])
    ensures 0 <= Run(Initial, es).committed.number <= IntMax
  {
    var r := Run(Initial, es);
    assert Valid(r);
  }

  /** Without a Generate click the committed values stay at their initial zeros. */
  lemma {:induction false} LastCommittedWithoutGenerate(es: seq<Event>)
    requires forall i | 0 <= i < |es| :: !es[i].GenerateClicked?
    ensures LastCommitted(es) == Committed(0, 0.0)
    decreases |es|
  {
    if es != [] {
      var init := es[..|es| - 1];
      assert forall i | 0 <= i < |init| :: init[i] == es[i];
      LastCommittedWithoutGenerate(init);
    }
  }

  /** Clicking Generate twice in a row commits the same values as clicking it once. */
  lemma GenerateIdempotent(s: Screen)
    requires Valid(s)
    ensures Step(Step(s, GenerateClicked), GenerateClicked) == Step(s, GenerateClicked)
  {
  }

  lemma CommitExamples()
    ensures Commit("", "") == Committed(0, 0.0)
    ensures Commit("50", "40") == Committed(50, 0.4)
    ensures Commit("0", "75") == Committed(0, 0.75)
  {
    assert DecimalValue("50") == 50 by {
      assert "50"[..1] == "5";
      assert "5"[..0] == "";
    }
    assert DecimalValue("40") == 40 by {
      assert "40"[..1] == "4";
      assert "4"[..0] == "";
    }
    assert DecimalValue("75") == 75 by {
      assert "75"[..1] == "7";
      assert "7"[..0] == "";
    }
    assert DecimalValue("0") == 0 by {
      assert "0"[..0] == "";
    }
  }

  /**
   The percent filter lets "99999999999" through, so the committed
   percentage can far exceed 1; and a count too large for an `Int` commits as 0.
   */
  lemma CommitOverflow()
    ensures Commit("1", "99999999999").percentage > 1.0
    ensures Commit("99999999999", "").number == 0
  {
    var big := "99999999999";
    assert AllDigits(big);
    DecimalValueAtLeastPow10(big);
    assert Pow10(10) == 10_000_000_000;
    LongDigitStringOverflows(big);
  }
}
