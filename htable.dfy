/**
 * htable.c: a fixed-capacity open-addressing table of words and their
 * frequencies, using linear probing or double hashing, that also records how
 * many probes each new key needed (`stats`, indexed by insertion order) and
 * summarises that record at fill checkpoints.
 */
module HTable {

  import opened Wrappers
  import opened WordHash
  import opened Probing
  import opened Arith

  // ---------------------------------------------------------------------------
  // Statistics snapshots, stated on the collision log stats[0..num_keys)
  // ---------------------------------------------------------------------------

  /**
   * One line of htable_print_stats: the percent checkpoint, the number of
   * entries it covers, and the integer counts behind its derived columns (the
   * number of entries placed at home, the total and the maximum collisions).
   */
  datatype StatsRow = StatsRow(percentFull: int, currentEntries: int, atHome: int, collisions: int, maxCollisions: int)

  /** C's `/` on `int`, which truncates toward zero. */
  function CDiv(a: int, b: int): (q: int)
    requires b > 0
    ensures a >= 0 ==> q == a / b
    ensures a < 0 ==> q <= 0
  {
    if a >= 0 then a / b else -((-a) / b)
  }

  /** The number of entries placed with no collision. */
  function AtHome(log: seq<int>): (n: nat)
    ensures n <= |log|
  {
    if |log| == 0 then 0
    else AtHome(log[..|log| - 1]) + (if log[|log| - 1] == 0 then 1 else 0)
  }

  /** The sum of the entries (the numerator of the average). */
  function Total(log: seq<int>): (t: int)
    ensures (forall i :: 0 <= i < |log| ==> log[i] >= 0) ==> t >= 0
  {
    if |log| == 0 then 0 else Total(log[..|log| - 1]) + log[|log| - 1]
  }

  /** The running maximum, starting from 0 as `max_collisions` does. */
  function MaxCollisions(log: seq<int>): (m: int)
    ensures m >= 0
    ensures forall i :: 0 <= i < |log| ==> log[i] <= m
    ensures m == 0 || exists i :: 0 <= i < |log| && log[i] == m
  {
    if |log| == 0 then 0
    else
      var m := MaxCollisions(log[..|log| - 1]);
      if log[|log| - 1] > m then log[|log| - 1] else m
  }

  /**
   * print_stats_line: the line for `percentFull`, reported only when the
   * checkpoint covers at least one entry and no more entries than the log holds.
   */
  function StatsLine(capacity: int, log: seq<int>, percentFull: int): (row: Option<StatsRow>)
    ensures row.Some? <==> 0 < CDiv(capacity * percentFull, 100) <= |log|
    ensures row.Some? ==>
      row.value.percentFull == percentFull && row.value.currentEntries == CDiv(capacity * percentFull, 100) &&
      0 <= row.value.atHome <= row.value.currentEntries &&
      forall i :: 0 <= i < row.value.currentEntries ==> log[i] <= row.value.maxCollisions
  {
    var currentEntries := CDiv(capacity * percentFull, 100);
    if 0 < currentEntries <= |log| then
      var prefix := log[..currentEntries];
      Some(StatsRow(percentFull, currentEntries, AtHome(prefix), Total(prefix), MaxCollisions(prefix)))
    else
      None
  }

  /**
   * The i-th checkpoint of htable_print_stats, `100 * i / num_stats`: for
   * `i` in 0..num_stats a percentage, and 100 for the last one.
   */
  function Checkpoint(numStats: int, i: int): (c: int)
    requires numStats > 0
    ensures 0 <= i <= numStats ==> 0 <= c <= 100
    ensures i == numStats ==> c == 100
  {
    if 0 <= i <= numStats then
      DivMonotone(100 * i, 100 * numStats, numStats);
      ModUnique(100 * numStats, 100, 0, numStats);
      assert 100 * numStats == 100 * numStats / numStats * numStats + 0;
      100 * i / numStats
    else
      100 * i / numStats
  }

  /** The lines htable_print_stats reports for checkpoints 1..k, in order. */
  function Report(capacity: int, log: seq<int>, numStats: int, k: nat): (rows: seq<StatsRow>)
    requires k > 0 ==> numStats > 0
    ensures |rows| <= k
  {
    if k == 0 then []
    else
      var row := StatsLine(capacity, log, Checkpoint(numStats, k));
      Report(capacity, log, numStats, k - 1) + (if row.Some? then [row.value] else [])
  }

  /** A sum of entries each in [0, m] lies in [0, |log| * m]: the average never exceeds the maximum. */
  lemma {:induction false} TotalBounds(log: seq<int>, m: int)
    requires forall i :: 0 <= i < |log| ==> 0 <= log[i] <= m
    ensures 0 <= Total(log) <= |log| * m
  {
    if |log| > 0 {
      var init := log[..|log| - 1];
      assert forall i :: 0 <= i < |init| ==> init[i] == log[i];
      TotalBounds(init, m);
      assert |log| * m == |init| * m + m;
    }
  }

  /**
   * What a reported line says: it is reported exactly when
   * `0 < capacity * p / 100 <= num_keys`, and then it covers the first
   * `currentEntries` entries of the log, at most all of them were placed at
   * home, the maximum bounds every entry, and the total lies between 0 and
   * `currentEntries * max` (the average is at most the maximum).
   */
  lemma StatsLineFacts(capacity: int, log: seq<int>, percentFull: int)
    requires forall i :: 0 <= i < |log| ==> log[i] >= 0
    ensures StatsLine(capacity, log, percentFull).Some? <==> 0 < CDiv(capacity * percentFull, 100) <= |log|
    ensures StatsLine(capacity, log, percentFull).Some? ==>
      var row := StatsLine(capacity, log, percentFull).value;
      row.percentFull == percentFull &&
      row.currentEntries == CDiv(capacity * percentFull, 100) &&
      0 <= row.atHome <= row.currentEntries &&
      (forall i :: 0 <= i < row.currentEntries ==> log[i] <= row.maxCollisions) &&
      row.collisions == Total(log[..row.currentEntries]) &&
      0 <= row.collisions <= row.currentEntries * row.maxCollisions
  {
    var row := StatsLine(capacity, log, percentFull);
    if row.Some? {
      var prefix := log[..row.value.currentEntries];
      assert forall i :: 0 <= i < |prefix| ==> prefix[i] == log[i];
      TotalBounds(prefix, MaxCollisions(prefix));
    }
  }

  /** The checkpoints never decrease, stay within [0, 100], and the last one is 100. */
  lemma CheckpointsRise(numStats: int, i: int, j: int)
    requires numStats > 0 && 1 <= i <= j <= numStats
    ensures 0 <= Checkpoint(numStats, i) <= Checkpoint(numStats, j) <= 100
    ensures Checkpoint(numStats, numStats) == 100
  {
    DivMonotone(100 * i, 100 * j, numStats);
    DivMonotone(100 * j, 100 * numStats, numStats);
    ModUnique(100 * numStats, 100, 0, numStats);
    assert 100 * numStats == 100 * numStats / numStats * numStats + 0;
  }

  /**
   * The report lists at most one line per checkpoint, and its lines come in
   * order of non-decreasing percentage, none above the k-th checkpoint.
   */
  lemma {:induction false} ReportOrdered(capacity: int, log: seq<int>, numStats: int, k: nat)
    requires 0 < k <= numStats
    ensures var rows := Report(capacity, log, numStats, k);
      |rows| <= k &&
      (forall a :: 0 <= a < |rows| ==> 0 <= rows[a].percentFull <= Checkpoint(numStats, k)) &&
      (forall a, b :: 0 <= a < b < |rows| ==> rows[a].percentFull <= rows[b].percentFull)
  {
    var rows := Report(capacity, log, numStats, k);
    var init := Report(capacity, log, numStats, k - 1);
    CheckpointsRise(numStats, k, k);
    if k > 1 {
      ReportOrdered(capacity, log, numStats, k - 1);
      CheckpointsRise(numStats, k - 1, k);
    }
    assert rows[..|init|] == init;
  }

  /**
   * With one snapshot requested on a table whose log covers the whole
   * capacity, exactly one line is reported, covering every entry.
   */
  lemma FullTableSingleSnapshot(capacity: int, log: seq<int>)
    requires capacity >= 2 && |log| == capacity
    requires forall i :: 0 <= i < |log| ==> log[i] >= 0
    ensures |Report(capacity, log, 1, 1)| == 1
    ensures var row := Report(capacity, log, 1, 1)[0];
      row.percentFull == 100 && row.currentEntries == capacity &&
      0 <= row.atHome <= capacity && row.maxCollisions >= 0
  {
    assert Checkpoint(1, 1) == 100;
    ModUnique(capacity * 100, capacity, 0, 100);
    StatsLineFacts(capacity, log, 100);
  }

  // ---------------------------------------------------------------------------
  // The collision log
  // ---------------------------------------------------------------------------

  /**
   * The invariant of htable.c on values: the slots and frequencies satisfy the
   * open-addressing invariant, and the collision log holds one probe count,
   * below the capacity, per stored key, in insertion order.
   */
  ghost predicate Consistent(capacity: int, hashing: Hashing, slots: Slots, freqs: seq<int>, numKeys: int, log: seq<int>)
  {
    |slots| == capacity && TableInvariant(hashing, slots, freqs, numKeys) &&
    |log| == numKeys && forall k :: 0 <= k < |log| ==> 0 <= log[k] < capacity
  }

  // ---------------------------------------------------------------------------
  // The table
  // ---------------------------------------------------------------------------

  /**
   * struct htablerec. The three arrays come from `malloc`, which leaves them
   * uninitialised; the model assumes every slot starts empty with frequency 0
   * (and every stats entry 0).
   */
  class Table {
    const capacity: int
    const hashing: Hashing
    const keys: array<Option<string>>
    const frequencies: array<int>
    const stats: array<int>
    var numKeys: int

    /**
     * The table invariant: the arrays have the table's capacity, their
     * contents are consistent (see `Consistent`) with the collision log
     * stats[0..numKeys).
     */
    ghost predicate Valid()
      reads this, keys, frequencies, stats
    {
      keys.Length == capacity && frequencies.Length == capacity && stats.Length == capacity &&
      frequencies != stats && 0 <= numKeys <= capacity &&
      Consistent(capacity, hashing, keys[..], frequencies[..], numKeys, stats[..numKeys])
    }

    /** The table seen as a dictionary from stored words to their frequencies. */
    ghost function Contents(): map<string, int>
      reads this, keys, frequencies
      requires frequencies.Length == keys.Length && Unique(keys[..])
    {
      Probing.Contents(keys[..], frequencies[..])
    }

    /** The meaningful part of `stats`: the probe count of each distinct key, in insertion order. */
    ghost function Log(): seq<int>
      reads this, stats
      requires 0 <= numKeys <= stats.Length
    {
      stats[..numKeys]
    }

    /** htable_new. */
    constructor (capacity: int, hashing: Hashing)
      requires capacity >= 2
      ensures Valid() && fresh(keys) && fresh(frequencies) && fresh(stats)
      ensures this.capacity == capacity && this.hashing == hashing
      ensures numKeys == 0 && Contents() == map[] && Log() == []
      ensures forall p :: 0 <= p < capacity ==> keys[p] == None && frequencies[p] == 0
    {
      this.capacity := capacity;
      this.hashing := hashing;
      keys := new Option<string>[capacity](_ => None);
      frequencies := new int[capacity](_ => 0);
      stats := new int[capacity](_ => 0);
      numKeys := 0;
      new;
      OccupiedNone(keys[..]);
    }

    /**
     * The probe loop of htable_insert and htable_search: from the home slot,
     * step (by 1, or by the word's step) while the slot holds another key and
     * fewer than `capacity` probes were made. Returns where it stopped and
     * how many probes it made.
     */
    method Probe(word: string) returns (pos: nat, probes: nat)
      requires keys.Length == capacity && capacity >= 2
      ensures probes == Walk(keys[..], hashing, word) && pos == StopSlot(keys[..], hashing, word)
    {
      ghost var slots := keys[..];
      var wordint := WordToInt(word);
      pos := wordint % capacity;
      probes := 0;
      var step := Step(capacity, wordint);
      while keys[pos].Some? && keys[pos].value != word && probes < capacity
        invariant 0 <= probes <= capacity
        invariant pos == WalkPos(slots, hashing, word, probes)
        invariant FirstStopFrom(slots, word, Home(slots, word), WalkStep(slots, hashing, word), probes) == Walk(slots, hashing, word)
        decreases capacity - probes
      {
        if hashing == LinearProbing {
          pos := (pos + 1) % capacity;
        } else {
          pos := (pos + step) % capacity;
        }
        probes := probes + 1;
      }
    }

    /**
     * The second half of htable_insert, once the walk stopped at `pos` after
     * `probes` probes: the probe count is written to stats[num_keys] (skipped
     * when num_keys == capacity, where the source writes past the array), then
     * the keys, frequencies and result become those of `Inserted`, and
     * num_keys grows exactly when the slot was empty.
     */
    method Store(word: string, pos: nat, probes: nat) returns (r: int)
      requires keys.Length == capacity && frequencies.Length == capacity && stats.Length == capacity
      requires frequencies != stats && capacity >= 2 && 0 <= numKeys <= capacity
      requires probes == Walk(keys[..], hashing, word) && pos == StopSlot(keys[..], hashing, word)
      modifies this, keys, frequencies, stats
      ensures var out := Inserted(old(keys[..]), old(frequencies[..]), hashing, word);
        keys[..] == out.slots && frequencies[..] == out.freqs && r == out.result
      ensures numKeys == if old(keys[pos]).None? then old(numKeys) + 1 else old(numKeys)
      ensures stats[..] == if old(numKeys) < capacity then old(stats[..])[old(numKeys) := probes] else old(stats[..])
      ensures stats[..old(numKeys)] == old(stats[..numKeys])
      ensures old(numKeys) < capacity ==> stats[..old(numKeys) + 1] == old(stats[..numKeys]) + [probes]
    {
      ghost var slots, freqs, statsBefore := keys[..], frequencies[..], stats[..];
      if numKeys < capacity {
        stats[numKeys] := probes;
      }
      assert stats[..numKeys] == statsBefore[..numKeys];
      if keys[pos].None? {
        keys[pos] := Some(word);
        frequencies[pos] := 1;
        numKeys := numKeys + 1;
        r := 1;
      } else if keys[pos].value == word {
        r := frequencies[pos] + 1;
        frequencies[pos] := r;
      } else {
        r := 0;
      }
    }

    /**
     * htable_insert: the walk (`Probe`) followed by the update (`Store`). The
     * keys, frequencies and result are those of `Inserted`: 0 exactly when the
     * word is absent and the walk used all `capacity` probes (then nothing but
     * stats[num_keys] changes), 1 for a new word, the incremented count for a
     * stored one. The table stays valid, and the probe count of each new key is
     * appended to the log, whose earlier entries never change.
     */
    method Insert(word: string) returns (r: int)
      requires Valid()
      modifies this, keys, frequencies, stats
      ensures Valid()
      ensures var out := Inserted(old(keys[..]), old(frequencies[..]), hashing, word);
        keys[..] == out.slots && frequencies[..] == out.freqs && r == out.result
      ensures r == 0 <==> word !in old(Contents()) && old(Walk(keys[..], hashing, word)) == capacity
      ensures r == 0 ==> keys[..] == old(keys[..]) && frequencies[..] == old(frequencies[..])
      ensures word in old(Contents()) ==> r == old(Contents())[word] + 1
      ensures word !in old(Contents()) && r != 0 ==> r == 1
      ensures hashing == LinearProbing && r == 0 ==> old(numKeys) == capacity
      ensures old(numKeys) == capacity && word !in old(Contents()) ==> r == 0
      ensures stats[..] == if old(numKeys) < capacity then old(stats[..])[old(numKeys) := old(Walk(keys[..], hashing, word))] else old(stats[..])
      ensures Contents() == if r == 0 then old(Contents()) else old(Contents())[word := r]
      ensures numKeys == if word !in old(Contents()) && r != 0 then old(numKeys) + 1 else old(numKeys)
      ensures Log() == if word !in old(Contents()) && r != 0 then old(Log()) + [old(Walk(keys[..], hashing, word))] else old(Log())
    {
      ghost var slots, freqs, log := keys[..], frequencies[..], Log();
      InsertKeepsInvariant(hashing, slots, freqs, numKeys, word);
      InsertReturns(hashing, slots, freqs, numKeys, word);
      InsertUpdatesContents(hashing, slots, freqs, numKeys, word);
      var insertPos, i := Probe(word);
      r := Store(word, insertPos, i);
      assert forall k :: 0 <= k < |log| ==> Log()[k] == log[k];
    }

    /**
     * htable_search: read-only; follows the same walk as insert and returns the
     * word's frequency when it is stored, 0 otherwise (an empty slot, whose
     * frequency is 0, or the probe cap).
     */
    method Search(key: string) returns (r: int)
      requires Valid()
      ensures r == if key in Contents() then Contents()[key] else 0
    {
      var searchPos, collisions := Probe(key);
      WalkOutcome(keys[..], frequencies[..], hashing, key);
      if collisions == capacity {
        r := 0;
      } else {
        r := frequencies[searchPos];
      }
    }

    /**
     * htable_print: the calls `f(frequency, key)` it makes, one per occupied
     * slot in increasing slot order, so one per stored word.
     */
    method Print() returns (entries: seq<(int, string)>)
      requires Valid()
      ensures var occupied := OccupiedSlots(keys[..]);
        |entries| == |occupied| &&
        forall k :: 0 <= k < |occupied| ==> entries[k] == (frequencies[occupied[k]], keys[occupied[k]].value)
      ensures |entries| == numKeys
      ensures forall k :: 0 <= k < |entries| ==> entries[k].1 in Contents() && Contents()[entries[k].1] == entries[k].0
    {
      entries := [];
      var i := 0;
      while i < capacity
        invariant 0 <= i <= capacity
        invariant var occupied := OccupiedSlots(keys[..i]);
          |entries| == |occupied| &&
          forall k :: 0 <= k < |occupied| ==> entries[k] == (frequencies[occupied[k]], keys[occupied[k]].value)
      {
        assert keys[..i + 1][..i] == keys[..i];
        if keys[i].Some? {
          entries := entries + [(frequencies[i], keys[i].value)];
        }
        i := i + 1;
      }
      assert keys[..i] == keys[..];
      OccupiedSlotsComplete(keys[..]);
      forall k | 0 <= k < |entries|
        ensures entries[k].1 in Contents() && Contents()[entries[k].1] == entries[k].0
      {
        InContents(keys[..], frequencies[..], OccupiedSlots(keys[..])[k]);
      }
    }

    /** print_stats_line, with the floating-point columns replaced by their integer counts. */
    method PrintStatsLine(percentFull: int) returns (row: Option<StatsRow>)
      requires Valid()
      ensures row == StatsLine(capacity, Log(), percentFull)
    {
      var currentEntries := CDiv(capacity * percentFull, 100);
      if currentEntries > 0 && currentEntries <= numKeys {
        var atHome, collisions, maxCollisions := Summarise(currentEntries);
        assert Log()[..currentEntries] == stats[..currentEntries];
        row := Some(StatsRow(percentFull, currentEntries, atHome, collisions, maxCollisions));
      } else {
        row := None;
      }
    }

    /**
     * The loop of print_stats_line over the first `n` entries of the log:
     * how many were placed at home, their sum and their maximum (from 0).
     */
    method Summarise(n: int) returns (atHome: int, collisions: int, maxCollisions: int)
      requires 0 <= n <= stats.Length
      ensures atHome == AtHome(stats[..n]) && collisions == Total(stats[..n])
      ensures maxCollisions == MaxCollisions(stats[..n])
    {
      atHome, collisions, maxCollisions := 0, 0, 0;
      var i := 0;
      while i < n
        invariant 0 <= i <= n
        invariant atHome == AtHome(stats[..i])
        invariant maxCollisions == MaxCollisions(stats[..i])
        invariant collisions == Total(stats[..i])
      {
        assert stats[..i + 1][..i] == stats[..i];
        if stats[i] == 0 {
          atHome := atHome + 1;
        }
        if stats[i] > maxCollisions {
          maxCollisions := stats[i];
        }
        collisions := collisions + stats[i];
        i := i + 1;
      }
    }

    /** htable_print_stats: the lines reported for checkpoints 1..num_stats. */
    method PrintStats(numStats: int) returns (rows: seq<StatsRow>)
      requires Valid()
      ensures rows == Report(capacity, Log(), numStats, if numStats > 0 then numStats else 0)
    {
      rows := [];
      var i := 1;
      while i <= numStats
        invariant 1 <= i <= (if numStats > 0 then numStats + 1 else 1)
        invariant rows == Report(capacity, Log(), numStats, i - 1)
      {
        var row := PrintStatsLine(100 * i / numStats);
        if row.Some? {
          rows := rows + [row.value];
        }
        i := i + 1;
      }
    }
  }
}
