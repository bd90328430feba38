/**
 The value `CircularProgressBar` animates towards.  The animation itself
 (its timing, the arc sweep and the label) is not part of this model;
 whether the start-up effect has already flipped `animationPlayed` is an input.
 */
module ProgressBar {
  import opened KotlinText
  import opened MainScreen

  /**
   The target handed to the animation: the percentage once the animation
   has been started and the count is non-zero, and 0 otherwise.
   */
  function Target(animationPlayed: bool, number: int, percentage: real): (target: real)
    ensures animationPlayed && number != 0 ==> target == percentage
    ensures !animationPlayed || number == 0 ==> target == 0.0
  {
    if animationPlayed && number != 0 then percentage else 0.0
  }

  /** The target for the values a screen has committed. */
  function ScreenTarget(animationPlayed: bool, s: Screen): (target: real)
    requires Valid(s)
    ensures 0.0 <= target
    ensures target <= s.committed.percentage
  {
    Target(animationPlayed, s.committed.number, s.committed.percentage)
  }

  // ---------------------------------------------------------------------------
  // Properties

  /**
   After Generate, a count text whose value is 0 ("", "0", "000") or whose
   value does not fit in an `Int` gates the target to 0, whatever the percent.
   */
  lemma ZeroCountGatesTarget(s: Screen, animationPlayed: bool)
    requires Valid(s)
    requires s.count.text == [] || DecimalValue(s.count.text) == 0 || IntMax < DecimalValue(s.count.text)
    ensures ScreenTarget(animationPlayed, Step(s, GenerateClicked)) == 0.0
  {
  }

  /**
   After Generate with the animation started, a count text that parses to a
   non-zero `Int` lets the target be the percent text's value over 100,
   which is at most 1 when that value fits in an `Int`.
   */
  lemma NonZeroCountPassesPercent(s: Screen)
    requires Valid(s)
    requires ToIntOrNull(s.count.text).Some? && DecimalValue(s.count.text) != 0
    ensures ScreenTarget(true, Step(s, GenerateClicked)) * 100.0 == DecimalValue(s.percent.text) as real
    ensures ToIntOrNull(s.percent.text).Some? ==> ScreenTarget(true, Step(s, GenerateClicked)) <= 1.0
  {
  }

  /** Count "0" with percent "75" is gated to 0; count "50" with percent "40" targets 0.4. */
  lemma GateExample(animationPlayed: bool)
    ensures Target(animationPlayed, Commit("0", "75").number, Commit("0", "75").percentage) == 0.0
    ensures Target(true, Commit("50", "40").number, Commit("50", "40").percentage) == 0.4
  {
    CommitExamples();
  }

  /** Before the first Generate click the target is 0, started or not, whatever has been typed. */
  lemma TargetZeroBeforeGenerate(es: seq<Event>, animationPlayed: bool)
    requires forall i | 0 <= i < |es| :: !es[i].GenerateClicked?
    ensures ScreenTarget(animationPlayed, Run(Initial, es)) == 0.0
  {
    RunFollowsLastAccepted(es);
    LastCommittedWithoutGenerate(es);
  }
}
