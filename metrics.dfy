/**
 * The sequential counter table of src/metrics.rs: a map from names to
 * signed counters that `inc` and `dec` adjust in place.
 */
module MetricsTable {

  /** The counter of `key`: its value, or the 0 that `entry(key).or_insert(0)` supplies. */
  function CountOf(m: map<string, int>, key: string): int {
    if key in m then m[key] else 0
  }

  /**
   * The table after `entry(key).or_insert(0)` followed by `+= delta`: the key
   * is present, its counter moved by delta, every other entry unchanged.
   */
  function Adjusted(m: map<string, int>, key: string, delta: int): (r: map<string, int>)
    ensures key in r && r[key] == CountOf(m, key) + delta
    ensures r.Keys == m.Keys + {key}
    ensures forall k :: k in m && k != key ==> r[k] == m[k]
  {
    m[key := CountOf(m, key) + delta]
  }

  class Metrics {
    var data: map<string, int>

    /** `Metrics::new`: an empty table. */
    constructor ()
      ensures data == map[]
    {
      data := map[];
    }

    /** `inc`: creates a missing key at 0, then adds 1 to its counter. */
    method Inc(key: string)
      modifies this
      ensures data == Adjusted(old(data), key, 1)
    {
      if key !in data {
        data := data[key := 0];
      }
      data := data[key := data[key] + 1];
    }

    /** `dec`: creates a missing key at 0, then subtracts 1 from its counter. */
    method Dec(key: string)
      modifies this
      ensures data == Adjusted(old(data), key, -1)
    {
      if key !in data {
        data := data[key := 0];
      }
      data := data[key := data[key] - 1];
    }

    /** `snapshot`: a copy of the current contents; the table is left as it is. */
    function Snapshot(): (s: map<string, int>)
      reads this
      ensures s.Keys == data.Keys
      ensures forall k :: k in s ==> s[k] == data[k]
    {
      data
    }
  }

  /** `Default::default` delegates to `Metrics::new`: an empty table. */
  method DefaultMetrics() returns (m: Metrics)
    ensures fresh(m) && m.data == map[]
  {
    m := new Metrics();
  }

  /** On an absent key, `inc` leaves 1 and `dec` leaves -1. */
  lemma AdjustAbsent(m: map<string, int>, key: string)
    requires key !in m
    ensures Adjusted(m, key, 1)[key] == 1 && Adjusted(m, key, -1)[key] == -1
  {
  }

  /** Two adjustments of the same counter add up. */
  lemma AdjustTwice(m: map<string, int>, key: string, d: int, e: int)
    ensures Adjusted(Adjusted(m, key, d), key, e) == Adjusted(m, key, d + e)
  {
  }

  /**
   * `inc` followed by `dec` restores the previous counter, or leaves the
   * key at 0 if it was absent; the rest of the table is unchanged.
   */
  lemma IncThenDec(m: map<string, int>, key: string)
    ensures Adjusted(Adjusted(m, key, 1), key, -1) == m[key := CountOf(m, key)]
    ensures key in m ==> Adjusted(Adjusted(m, key, 1), key, -1) == m
  {
    AdjustTwice(m, key, 1, -1);
  }

  /** Adjustments of any two counters commute: the final table does not depend on their order. */
  lemma AdjustCommutes(m: map<string, int>, k1: string, d1: int, k2: string, d2: int)
    ensures Adjusted(Adjusted(m, k1, d1), k2, d2) == Adjusted(Adjusted(m, k2, d2), k1, d1)
  {
  }
}
