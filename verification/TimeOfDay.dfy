/** `floor<days>` and `hh_mm_ss`: splitting a second count into a day number and a time of day. */
module TimeOfDay {
  import opened Machine

  const DAY := 86400

  /** `floor<days>`: truncation towards zero, corrected when that went up. */
  function FloorDays(t: int64): int {
    var q := Quot(t, DAY);
    if t < q * DAY then q - 1 else q
  }

  /** `hh_mm_ss` of whole seconds: magnitudes and a sign. */
  datatype HhMmSs = HhMmSs(h: int, m: int, s: int, neg: bool) {
    predicate InConventionalRange() {
      !neg && h < 24 && m < 60 && s < 60
    }

    function ToDuration(): int {
      (s + m * 60 + h * 3600) * (if neg then -1 else 1)
    }
  }

  function MakeTime(d: int): HhMmSs {
    var a := if d < 0 then -d else d;
    var h := a / 3600;
    var m := a / 60 - h * 60;
    HhMmSs(h, m, a - h * 3600 - m * 60, d < 0)
  }

  /** Every second count, before or after the epoch, falls on one day, with less than a day left over. */
  lemma FloorDaysBrackets(t: int64)
    ensures FloorDays(t) * DAY <= t < FloorDays(t) * DAY + DAY
  {
  }

  /** Splitting a duration and rebuilding it is the identity; the parts are conventional exactly within one day. */
  lemma MakeTimeRebuilds(d: int)
    ensures MakeTime(d).ToDuration() == d
    ensures 0 <= MakeTime(d).h && 0 <= MakeTime(d).m < 60 && 0 <= MakeTime(d).s < 60
    ensures MakeTime(d).InConventionalRange() <==> 0 <= d < DAY
  {
    var a := if d < 0 then -d else d;
    var h := a / 3600;
    assert 60 * h <= a / 60 < 60 * h + 60;
  }

  /** The split is the only one: a day number and a conventional time of day with the same total are those of t. */
  lemma SplitIsUnique(t: int64, days: int, tod: HhMmSs)
    requires tod.InConventionalRange() && 0 <= tod.h && 0 <= tod.m && 0 <= tod.s
    requires days * DAY + tod.ToDuration() == t
    ensures days == FloorDays(t) && tod == MakeTime(t - FloorDays(t) * DAY)
  {
    FloorDaysBrackets(t);
    MakeTimeRebuilds(t - FloorDays(t) * DAY);
  }
}
