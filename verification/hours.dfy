/**
 * The hours ledger: the object stored under `studyHours`, mapping a date key
 * to the hours studied that day. A JavaScript object keeps its string keys in
 * insertion order and `Object.entries` walks them in that order, so the ledger
 * is a sequence of entries with distinct keys.
 */
module Hours {
  import opened Wrappers
  import opened Text

  datatype HourEntry = HourEntry(key: string, hours: real)

  type HourLog = seq<HourEntry>

  predicate UniqueKeys(log: HourLog) {
    forall i, j :: 0 <= i < j < |log| ==> log[i].key != log[j].key
  }

  /** The keys in entry order (`Object.keys`). */
  function KeysOf(log: HourLog): (r: seq<string>)
    ensures |r| == |log| && forall i :: 0 <= i < |log| ==> r[i] == log[i].key
  {
    seq(|log|, i requires 0 <= i < |log| => log[i].key)
  }

  /** `hrs[k]`: the hours of the first (with distinct keys, the only) entry for `k`, if any. */
  function Lookup(log: HourLog, k: string): (r: Option<real>)
    ensures r.Some? <==> k in KeysOf(log)
    ensures r.Some? ==> HourEntry(k, r.value) in log
  {
    if log == [] then None
    else
      assert KeysOf(log) == [log[0].key] + KeysOf(log[1..]);
      if log[0].key == k then Some(log[0].hours)
      else
        assert log == [log[0]] + log[1..];
        Lookup(log[1..], k)
  }

  /**
   * `hrs[k] = h`: an existing entry for `k` is overwritten where it stands, a
   * new key is appended at the end.
   */
  function Put(log: HourLog, k: string, h: real): (r: HourLog)
    ensures k !in KeysOf(log) ==> r == log + [HourEntry(k, h)]
    ensures k in KeysOf(log) ==> |r| == |log|
  {
    if log == [] then [HourEntry(k, h)]
    else if log[0].key == k then [HourEntry(k, h)] + log[1..]
    else
      assert KeysOf(log) == [log[0].key] + KeysOf(log[1..]);
      assert log[1..] + [HourEntry(k, h)] == (log + [HourEntry(k, h)])[1..];
      [log[0]] + Put(log[1..], k, h)
  }

  /** Looking up in a list with a given first entry. */
  lemma LookupCons(e: HourEntry, rest: HourLog, j: string)
    ensures Lookup([e] + rest, j) == if e.key == j then Some(e.hours) else Lookup(rest, j)
  {
    assert ([e] + rest)[1..] == rest;
  }

  /** After `hrs[k] = h`, `k` reads `h` and every other key reads what it read before. */
  lemma {:induction false} PutReads(log: HourLog, k: string, h: real)
    ensures Lookup(Put(log, k, h), k) == Some(h)
    ensures forall j :: j != k ==> Lookup(Put(log, k, h), j) == Lookup(log, j)
  {
    var r := Put(log, k, h);
    var e := HourEntry(k, h);
    if log == [] {
      assert r == [e] + [];
      forall j ensures Lookup(r, j) == if j == k then Some(h) else Lookup(log, j) {
        LookupCons(e, [], j);
      }
    } else {
      var first := log[0];
      assert log == [first] + log[1..];
      if first.key == k {
        assert r == [e] + log[1..];
        forall j ensures Lookup(r, j) == if j == k then Some(h) else Lookup(log, j) {
          LookupCons(e, log[1..], j);
          LookupCons(first, log[1..], j);
        }
      } else {
        var rest := Put(log[1..], k, h);
        PutReads(log[1..], k, h);
        assert r == [first] + rest;
        forall j ensures Lookup(r, j) == if j == k then Some(h) else Lookup(log, j) {
          LookupCons(first, rest, j);
          LookupCons(first, log[1..], j);
        }
      }
    }
  }

  /** Overwriting adds `k` to the keys and removes none. */
  lemma PutKeySet(log: HourLog, k: string, h: real)
    ensures forall j :: j in KeysOf(Put(log, k, h)) <==> j in KeysOf(log) || j == k
  {
    PutReads(log, k, h);
    var r := Put(log, k, h);
    forall j ensures j in KeysOf(r) <==> j in KeysOf(log) || j == k {
      assert Lookup(r, j).Some? <==> j in KeysOf(r);
      assert Lookup(log, j).Some? <==> j in KeysOf(log);
    }
  }

  /** The keys of a list with a given first entry. */
  lemma KeysOfCons(e: HourEntry, rest: HourLog)
    ensures KeysOf([e] + rest) == [e.key] + KeysOf(rest)
  {
  }

  /**
   * Overwriting an existing key keeps the keys in their order, that of
   * `Object.entries`: the overwritten entry stays where it stands.
   */
  lemma {:induction false} PutKeepsPlace(log: HourLog, k: string, h: real)
    requires k in KeysOf(log)
    ensures KeysOf(Put(log, k, h)) == KeysOf(log)
  {
    var r := Put(log, k, h);
    var first := log[0];
    assert log == [first] + log[1..];
    KeysOfCons(first, log[1..]);
    if first.key == k {
      KeysOfCons(HourEntry(k, h), log[1..]);
    } else {
      var rest := Put(log[1..], k, h);
      PutKeepsPlace(log[1..], k, h);
      KeysOfCons(first, rest);
    }
  }

  /** Overwriting a key leaves the entries of the other keys where they were. */
  lemma {:induction false} PutKeepsOthers(log: HourLog, k: string, h: real)
    ensures forall i :: 0 <= i < |log| && log[i].key != k ==> Put(log, k, h)[i] == log[i]
  {
    if log != [] {
      var r := Put(log, k, h);
      if log[0].key == k {
        assert r[1..] == log[1..];
      } else {
        var rest := Put(log[1..], k, h);
        PutKeepsOthers(log[1..], k, h);
        assert r[1..] == rest;
      }
      forall i | 0 < i < |log| && log[i].key != k ensures r[i] == log[i] {
        assert r[i] == r[1..][i - 1] && log[i] == log[1..][i - 1];
      }
    }
  }

  /** Overwriting keeps the keys distinct. */
  lemma PutKeepsKeysUnique(log: HourLog, k: string, h: real)
    requires UniqueKeys(log)
    ensures UniqueKeys(Put(log, k, h))
  {
    var r := Put(log, k, h);
    if k in KeysOf(log) {
      PutKeepsPlace(log, k, h);
      forall a, b | 0 <= a < b < |r| ensures r[a].key != r[b].key {
        assert r[a].key == KeysOf(r)[a] == log[a].key;
        assert r[b].key == KeysOf(r)[b] == log[b].key;
      }
    } else {
      forall a, b | 0 <= a < b < |r| ensures r[a].key != r[b].key {
        if b == |log| {
          assert r[a].key == KeysOf(log)[a];
        }
      }
    }
  }

  /** The save-hours guard: `parseFloat` gave NaN (`None`) or a negative number. */
  predicate Rejected(input: Option<real>) {
    input.None? || input.value < 0.0
  }

  /** The save-hours handler on the ledger: a rejected input changes nothing, else only `day` is overwritten. */
  function SaveHours(log: HourLog, day: string, input: Option<real>): (r: HourLog)
    ensures Rejected(input) ==> r == log
    ensures !Rejected(input) ==>
              Lookup(r, day) == input && forall j :: j != day ==> Lookup(r, j) == Lookup(log, j)
  {
    if Rejected(input) then log
    else
      PutReads(log, day, input.value);
      Put(log, day, input.value)
  }

  // ---------------------------------------------------------------------
  // Averages

  /** `c ? sum / c : 0`: the mean, 0 when nothing was counted. */
  function Mean(sum: real, count: nat): real {
    if count == 0 then 0.0 else sum / count as real
  }

  /** Sum of the hours of the entries whose key starts with `p`, in entry order. */
  function PrefixSum(log: HourLog, p: string): real {
    if log == [] then 0.0
    else
      var e := log[|log| - 1];
      PrefixSum(log[..|log| - 1], p) + (if StartsWith(e.key, p) then e.hours else 0.0)
  }

  /** Number of entries whose key starts with `p`. */
  function PrefixCount(log: HourLog, p: string): (n: nat)
    ensures n <= |log|
  {
    if log == [] then 0
    else PrefixCount(log[..|log| - 1], p) + (if StartsWith(log[|log| - 1].key, p) then 1 else 0)
  }

  /** Sum of the hours recorded for the days of `days`; days without an entry add nothing. */
  function WindowSum(log: HourLog, days: seq<string>): real {
    if days == [] then 0.0
    else
      var h := Lookup(log, days[|days| - 1]);
      WindowSum(log, days[..|days| - 1]) + (if h.Some? then h.value else 0.0)
  }

  /** Number of days of `days` with an entry: never more than the days asked about. */
  function WindowCount(log: HourLog, days: seq<string>): (n: nat)
    ensures n <= |days|
  {
    if days == [] then 0
    else WindowCount(log, days[..|days| - 1]) + (if Lookup(log, days[|days| - 1]).Some? then 1 else 0)
  }

  /**
   * The monthly loop of `updateAverages` and of the summary: the mean of the
   * hours of the entries whose key starts with `prefix`.
   */
  method PrefixAverage(log: HourLog, prefix: string) returns (avg: real)
    ensures avg == Mean(PrefixSum(log, prefix), PrefixCount(log, prefix))
  {
    var sum, c := 0.0, 0;
    for i := 0 to |log|
      invariant sum == PrefixSum(log[..i], prefix)
      invariant c == PrefixCount(log[..i], prefix)
    {
      assert log[..i + 1][..i] == log[..i];
      if StartsWith(log[i].key, prefix) {
        sum := sum + log[i].hours;
        c := c + 1;
      }
    }
    assert log[..|log|] == log;
    avg := if c != 0 then sum / c as real else 0.0;
  }

  /**
   * The weekly loop of `updateAverages`: the mean of the hours recorded for
   * the given days, skipping the days with no entry.
   */
  method WindowAverage(log: HourLog, days: seq<string>) returns (avg: real, count: nat)
    ensures count == WindowCount(log, days) && count <= |days|
    ensures avg == Mean(WindowSum(log, days), count)
  {
    var sum := 0.0;
    count := 0;
    for i := 0 to |days|
      invariant sum == WindowSum(log, days[..i])
      invariant count == WindowCount(log, days[..i])
    {
      assert days[..i + 1][..i] == days[..i];
      var h := Lookup(log, days[i]);
      if h.Some? {
        sum := sum + h.value;
        count := count + 1;
      }
    }
    assert days[..|days|] == days;
    avg := if count != 0 then sum / count as real else 0.0;
  }

  // ---------------------------------------------------------------------
  // What the averages mean

  /** The monthly count is the number of distinct keys with the prefix. */
  lemma {:induction false} PrefixCountIsKeyCount(log: HourLog, p: string)
    requires UniqueKeys(log)
    ensures PrefixCount(log, p) == |set k | k in KeysOf(log) && StartsWith(k, p)|
  {
    if log != [] {
      var n := |log| - 1;
      var init := log[..n];
      var e := log[n];
      PrefixCountIsKeyCount(init, p);
      assert KeysOf(log) == KeysOf(init) + [e.key];
      assert e.key !in KeysOf(init) by {
        forall j | 0 <= j < n ensures KeysOf(init)[j] != e.key {
          assert init[j] == log[j];
        }
      }
      var before := set k | k in KeysOf(init) && StartsWith(k, p);
      var after := set k | k in KeysOf(log) && StartsWith(k, p);
      if StartsWith(e.key, p) {
        assert after == before + {e.key};
      } else {
        assert after == before;
      }
    }
  }

  /**
   * The weekly count is the number of distinct days of the window that have
   * an entry: days without one are skipped rather than counted as zero.
   */
  lemma {:induction false} WindowCountIsPresentDays(log: HourLog, days: seq<string>)
    requires forall i, j :: 0 <= i < j < |days| ==> days[i] != days[j]
    ensures WindowCount(log, days) == |set d | d in days && d in KeysOf(log)|
  {
    if days != [] {
      var n := |days| - 1;
      var init := days[..n];
      WindowCountIsPresentDays(log, init);
      assert days == init + [days[n]];
      assert days[n] !in init;
      var before := set d | d in init && d in KeysOf(log);
      var after := set d | d in days && d in KeysOf(log);
      if days[n] in KeysOf(log) {
        assert after == before + {days[n]};
      } else {
        assert after == before;
      }
    }
  }

  /** A mean of values between `lo` and `hi` is itself between them. */
  lemma MeanBetween(sum: real, count: nat, lo: real, hi: real)
    requires count > 0
    requires Times(lo, count) <= sum <= Times(hi, count)
    ensures lo <= Mean(sum, count) <= hi
  {
    TimesIsProduct(lo, count);
    TimesIsProduct(hi, count);
    var m := sum / count as real;
    assert m * count as real == sum;
    if m < lo {
      assert m * count as real < lo * count as real;
    }
    if m > hi {
      assert m * count as real > hi * count as real;
    }
  }

  /** Every entry of the log records between `lo` and `hi` hours. */
  predicate AllBetween(log: HourLog, lo: real, hi: real) {
    forall e :: e in log ==> lo <= e.hours <= hi
  }

  /** `n` copies of `x` added up. */
  function Times(x: real, n: nat): real {
    if n == 0 then 0.0 else Times(x, n - 1) + x
  }

  lemma {:induction false} TimesIsProduct(x: real, n: nat)
    ensures Times(x, n) == x * n as real
  {
    if n > 0 {
      TimesIsProduct(x, n - 1);
      assert x * n as real == x * (n - 1) as real + x;
    }
  }

  lemma {:induction false} PrefixSumBetween(log: HourLog, p: string, lo: real, hi: real)
    requires AllBetween(log, lo, hi)
    ensures Times(lo, PrefixCount(log, p)) <= PrefixSum(log, p) <= Times(hi, PrefixCount(log, p))
  {
    if log != [] {
      var n := |log| - 1;
      assert log[n] in log;
      assert AllBetween(log[..n], lo, hi) by {
        forall e | e in log[..n] ensures lo <= e.hours <= hi {
          var j :| 0 <= j < n && log[..n][j] == e;
          assert log[j] == e;
        }
      }
      PrefixSumBetween(log[..n], p, lo, hi);
    }
  }

  lemma {:induction false} WindowSumBetween(log: HourLog, days: seq<string>, lo: real, hi: real)
    requires AllBetween(log, lo, hi)
    ensures Times(lo, WindowCount(log, days)) <= WindowSum(log, days) <= Times(hi, WindowCount(log, days))
  {
    if days != [] {
      WindowSumBetween(log, days[..|days| - 1], lo, hi);
      var h := Lookup(log, days[|days| - 1]);
      if h.Some? {
        assert HourEntry(days[|days| - 1], h.value) in log;
      }
    }
  }

  /**
   * The monthly mean lies between the smallest and largest hours recorded:
   * months with missing days are averaged over the days that have entries,
   * not diluted by zeros.
   */
  lemma PrefixMeanBetween(log: HourLog, p: string, lo: real, hi: real)
    requires AllBetween(log, lo, hi) && PrefixCount(log, p) > 0
    ensures lo <= Mean(PrefixSum(log, p), PrefixCount(log, p)) <= hi
  {
    PrefixSumBetween(log, p, lo, hi);
    MeanBetween(PrefixSum(log, p), PrefixCount(log, p), lo, hi);
  }

  /** The same for the days of a window such as the current week. */
  lemma WindowMeanBetween(log: HourLog, days: seq<string>, lo: real, hi: real)
    requires AllBetween(log, lo, hi) && WindowCount(log, days) > 0
    ensures lo <= Mean(WindowSum(log, days), WindowCount(log, days)) <= hi
  {
    WindowSumBetween(log, days, lo, hi);
    MeanBetween(WindowSum(log, days), WindowCount(log, days), lo, hi);
  }

  /** Every recorded value is non-negative. */
  predicate AllNonNegative(log: HourLog) {
    forall e :: e in log ==> e.hours >= 0.0
  }

  /** Saving through the guard keeps every recorded value non-negative. */
  lemma SaveHoursKeepsNonNegative(log: HourLog, day: string, input: Option<real>)
    requires AllNonNegative(log)
    ensures AllNonNegative(SaveHours(log, day, input))
  {
    if !Rejected(input) {
      PutEntries(log, day, input.value);
    }
  }

  /** Saving accepted hours no larger than `hi` keeps every value within [0, hi]. */
  lemma SaveHoursKeepsBetween(log: HourLog, day: string, input: Option<real>, hi: real)
    requires AllBetween(log, 0.0, hi) && (input.Some? ==> input.value <= hi)
    ensures AllBetween(SaveHours(log, day, input), 0.0, hi)
  {
    if !Rejected(input) {
      PutEntries(log, day, input.value);
    }
  }

  /** The entries after `hrs[k] = h` are the old ones and the new entry. */
  lemma {:induction false} PutEntries(log: HourLog, k: string, h: real)
    ensures forall e :: e in Put(log, k, h) ==> e in log || e == HourEntry(k, h)
  {
    if log != [] && log[0].key != k {
      PutEntries(log[1..], k, h);
      assert forall e :: e in log[1..] ==> e in log;
    } else if log != [] {
      assert forall e :: e in log[1..] ==> e in log;
    }
  }
}
