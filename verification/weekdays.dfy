/** The weekday labels, Sunday first. The server (api/index.py) and the month
    grid (components/Calendar.tsx) each declare this same list. */
module Weekdays {

  const Labels: seq<string> := ["\U{65E5}", "\U{6708}", "\U{706B}", "\U{6C34}", "\U{6728}", "\U{91D1}", "\U{571F}"]

  /** The seven labels are pairwise different. */
  lemma LabelsDistinct()
    ensures |Labels| == 7
    ensures forall i, j :: 0 <= i < 7 && 0 <= j < 7 && Labels[i] == Labels[j] ==> i == j
  {
  }
}
