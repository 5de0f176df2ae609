/**
 * One-shot flags: string entries of the store whose presence records that an
 * event already happened in its period (`motivated-<YYYY-MM>`,
 * `tasksCleared-<YYYY-MM-DD>`), and the monthly pruning of the former.
 */
module Flags {
  import opened Text

  /** The store's string entries: flags (always `'1'`) and daily targets, by key. */
  type Texts = map<string, string>

  const MotivatedPrefix := "motivated-"
  const ClearedPrefix := "tasksCleared-"
  const TargetPrefix := "dailyTarget-"

  /** `loadFlag(k)` is truthy: the key holds a non-empty string. */
  predicate HasFlag(texts: Texts, k: string) {
    k in texts && texts[k] != ""
  }

  /** `setFlag(k)`: stores `'1'` under `k`; every other key is untouched. */
  function SetFlag(texts: Texts, k: string): (r: Texts)
    ensures HasFlag(r, k)
    ensures r.Keys == texts.Keys + {k}
    ensures forall j :: j in texts && j != k ==> r[j] == texts[j]
  {
    texts[k := "1"]
  }

  /** Setting a flag twice has the effect of setting it once. */
  lemma SetFlagIdempotent(texts: Texts, k: string)
    ensures SetFlag(SetFlag(texts, k), k) == SetFlag(texts, k)
  {
  }

  /** A `motivated-` flag of a month other than `ym`. */
  predicate IsStale(k: string, ym: string) {
    StartsWith(k, MotivatedPrefix) && k != MotivatedPrefix + ym
  }

  /**
   * What `resetMonthlyFlags` leaves: no `motivated-` key except that of the
   * month `ym`, and every other entry exactly as it was.
   */
  function PruneMonthly(texts: Texts, ym: string): (r: Texts)
    ensures forall k :: k in r ==> !IsStale(k, ym)
    ensures forall k :: k in texts && !IsStale(k, ym) ==> k in r && r[k] == texts[k]
    ensures r.Keys <= texts.Keys
  {
    map k | k in texts && !IsStale(k, ym) :: texts[k]
  }

  /** Pruning again in the same month removes nothing more. */
  lemma PruneMonthlyIdempotent(texts: Texts, ym: string)
    ensures PruneMonthly(PruneMonthly(texts, ym), ym) == PruneMonthly(texts, ym)
  {
  }

  /** The current month's flag survives pruning, set or unset as it was. */
  lemma PruneKeepsCurrentFlag(texts: Texts, ym: string)
    ensures HasFlag(PruneMonthly(texts, ym), MotivatedPrefix + ym) == HasFlag(texts, MotivatedPrefix + ym)
  {
    assert StartsWith(MotivatedPrefix + ym, MotivatedPrefix) by {
      assert (MotivatedPrefix + ym)[..|MotivatedPrefix|] == MotivatedPrefix;
    }
  }

  /** Every other month's flag is gone after pruning. */
  lemma PruneDropsOtherFlag(texts: Texts, ym: string, other: string)
    requires other != ym
    ensures !HasFlag(PruneMonthly(texts, ym), MotivatedPrefix + other)
  {
    assert StartsWith(MotivatedPrefix + other, MotivatedPrefix) by {
      assert (MotivatedPrefix + other)[..|MotivatedPrefix|] == MotivatedPrefix;
    }
    assert MotivatedPrefix + other != MotivatedPrefix + ym by {
      assert (MotivatedPrefix + other)[|MotivatedPrefix|..] == other;
      assert (MotivatedPrefix + ym)[|MotivatedPrefix|..] == ym;
    }
  }
}
