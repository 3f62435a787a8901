/**
 * Choosing how many questions an attempt has: the list of offered counts
 * built in quiz.js `selectQuestionCount`, and the truncation of the shuffled
 * bank in `startSection`.
 */
module Counts {

  /** The fixed counts offered when the bank is large enough, in order. */
  const Presets: seq<nat> := [5, 10, 20]

  /** quiz.js:124-129. The list ends with `total` (the "all" button). Every
      earlier entry is a preset no larger than `total`, the earlier entries
      strictly increase, and every preset no larger than `total` is among
      them. A preset equal to `total` is therefore offered twice. */
  function CountOptions(total: nat): (r: seq<nat>)
    ensures |r| >= 1 && r[|r| - 1] == total
    ensures forall k :: 0 <= k < |r| - 1 ==> r[k] in Presets && r[k] <= total
    ensures forall k, m :: 0 <= k < m < |r| - 1 ==> r[k] < r[m]
    ensures forall p :: 0 <= p < |Presets| ==> (Presets[p] <= total <==> Presets[p] in r[..|r| - 1])
  {
    (if total >= 5 then [5] else [])
    + (if total >= 10 then [10] else [])
    + (if total >= 20 then [20] else [])
    + [total]
  }

  /** No option exceeds the bank size. */
  lemma OptionsWithinBank(total: nat, k: nat)
    requires k < |CountOptions(total)|
    ensures CountOptions(total)[k] <= total
  {
  }

  /** When the bank holds exactly 5, 10 or 20 questions, the last preset and
      the "all" option are the same number. */
  lemma DuplicateOption(total: nat)
    requires total in Presets
    ensures var r := CountOptions(total); |r| >= 2 && r[|r| - 2] == r[|r| - 1] == total
  {
  }

  /** The bank truncated to the chosen count: `count` is honoured only when it
      is non-zero (truthy) and smaller than the bank (quiz.js:167-169). The
      result is a prefix of `all`; it has `count` elements when
      `0 < count <= |all|`, and all of `all` otherwise. */
  function Take<T>(all: seq<T>, count: nat): (r: seq<T>)
    ensures |r| <= |all| && r == all[..|r|]
    ensures 0 < count <= |all| ==> |r| == count
    ensures count == 0 || count >= |all| ==> r == all
  {
    if count != 0 && count < |all| then all[..count] else all
  }

  /** Whatever option the user picks, the attempt has exactly that many
      questions. */
  lemma OptionGivesThatMany<T>(all: seq<T>, k: nat)
    requires k < |CountOptions(|all|)|
    ensures |Take(all, CountOptions(|all|)[k])| == CountOptions(|all|)[k]
  {
  }
}
