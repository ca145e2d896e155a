/**
 * The open-addressing discipline shared by htable.c and dhtable.c, stated on
 * values: a table's key slots are a sequence of optional words, and its
 * frequency array a sequence of integers of the same length.
 *
 * A key's probe walk starts at its home slot `hash mod capacity` and advances
 * by a fixed step modulo the capacity; it stops at the first slot that is empty
 * or holds the key, or after `capacity` probes. Insert and search walk exactly
 * this sequence, so everything they promise is stated here once and proved
 * about `Walk` and `StopSlot`.
 */
module Probing {

  import opened Wrappers
  import opened WordHash
  import opened Arith

  /** hashing_t: the collision-resolution strategy chosen when a table is created. */
  datatype Hashing = LinearProbing | DoubleHashing

  /** The key slots of a table; `None` is an empty (NULL) slot. */
  type Slots = seq<Option<string>>

  // ---------------------------------------------------------------------------
  // The probe sequence
  // ---------------------------------------------------------------------------

  /**
   * The step between probes: 1 for linear probing, htable_step for double
   * hashing. Either way it is a proper, non-zero fraction of a turn.
   */
  function ProbeStep(hashing: Hashing, capacity: int, key: nat): (step: nat)
    requires capacity >= 2
    ensures 1 <= step <= capacity - 1
    ensures hashing == LinearProbing ==> step == 1
    ensures hashing == DoubleHashing ==> step == Step(capacity, key)
  {
    if hashing == LinearProbing then 1 else Step(capacity, key)
  }

  /** The slot visited after `k` probes, each one `pos := (pos + step) % capacity`. */
  function ProbePos(home: nat, step: nat, capacity: nat, k: nat): (pos: nat)
    requires home < capacity
    ensures pos < capacity
  {
    if k == 0 then home else (ProbePos(home, step, capacity, k - 1) + step) % capacity
  }

  /** One more step from `k` steps out is `k + 1` steps out, modulo the capacity. */
  lemma StepOnce(home: nat, step: nat, capacity: nat, k: nat)
    requires home < capacity
    ensures ((home + k * step) % capacity + step) % capacity == (home + (k + 1) * step) % capacity
  {
    MulSucc(k, step);
    ModStep(home + k * step, home + (k + 1) * step, step, capacity);
  }

  /** After `k` probes the walk is `k` steps from home, modulo the capacity. */
  lemma ProbePosClosedForm(home: nat, step: nat, capacity: nat, k: nat)
    requires home < capacity
    ensures ProbePos(home, step, capacity, k) == (home + k * step) % capacity
  {
    var i := 0;
    ModSmall(home, capacity);
    while i < k
      invariant i <= k && ProbePos(home, step, capacity, i) == (home + i * step) % capacity
    {
      StepOnce(home, step, capacity, i);
      i := i + 1;
    }
  }

  /** Whatever the step, `capacity` probes bring the walk back to its home slot. */
  lemma ProbeCycle(home: nat, step: nat, capacity: nat)
    requires home < capacity
    ensures ProbePos(home, step, capacity, capacity) == home
  {
    ProbePosClosedForm(home, step, capacity, capacity);
    assert capacity * step == step * capacity;
    ModAddMultiple(home, step, capacity);
    ModSmall(home, capacity);
  }

  /** With step 1, the first `capacity` probes visit every slot of the table. */
  lemma LinearProbeReaches(home: nat, capacity: nat, slot: nat) returns (k: nat)
    requires home < capacity && slot < capacity
    ensures k < capacity && ProbePos(home, 1, capacity, k) == slot
  {
    k := (slot - home + capacity) % capacity;
    ProbePosClosedForm(home, 1, capacity, k);
    ModAddLeft(slot - home + capacity, home, capacity);
    assert slot - home + capacity + home == slot + 1 * capacity;
    ModAddMultiple(slot, 1, capacity);
    ModSmall(slot, capacity);
  }

  // ---------------------------------------------------------------------------
  // Where a walk stops
  // ---------------------------------------------------------------------------

  /** A slot the walk for `word` must step over: occupied by a different key. */
  predicate Blocked(slots: Slots, word: string, pos: nat)
    requires pos < |slots|
  {
    slots[pos].Some? && slots[pos].value != word
  }

  /**
   * The number of probes the walk for `word` takes from probe `k` on: the first
   * probe index at or after `k` whose slot is not blocked, or `|slots|` when the
   * probe cap is reached first.
   */
  function FirstStopFrom(slots: Slots, word: string, home: nat, step: nat, k: nat): (n: nat)
    requires home < |slots| && k <= |slots|
    ensures k <= n <= |slots|
    ensures forall j :: k <= j < n ==> Blocked(slots, word, ProbePos(home, step, |slots|, j))
    ensures n < |slots| ==> !Blocked(slots, word, ProbePos(home, step, |slots|, n))
    decreases |slots| - k
  {
    if k < |slots| && Blocked(slots, word, ProbePos(home, step, |slots|, k)) then
      FirstStopFrom(slots, word, home, step, k + 1)
    else
      k
  }

  /** The first slot tried for `word`: its hash modulo the capacity. */
  function Home(slots: Slots, word: string): (home: nat)
    requires |slots| >= 2
    ensures home < |slots|
  {
    Hash(word) % |slots|
  }

  /** The distance between successive probes for `word`; never 0, so every probe moves on. */
  function WalkStep(slots: Slots, hashing: Hashing, word: string): (step: nat)
    requires |slots| >= 2
    ensures 1 <= step < |slots|
    ensures hashing == LinearProbing ==> step == 1
  {
    ProbeStep(hashing, |slots|, Hash(word))
  }

  /**
   * The probe count `i` at which insert's and search's loops stop for `word`:
   * every probe before it met a slot holding another key, and unless the cap
   * was reached the probe it stopped at did not.
   */
  function Walk(slots: Slots, hashing: Hashing, word: string): (n: nat)
    requires |slots| >= 2
    ensures n <= |slots|
    ensures forall j :: 0 <= j < n ==> Blocked(slots, word, WalkPos(slots, hashing, word, j))
    ensures n < |slots| ==> !Blocked(slots, word, WalkPos(slots, hashing, word, n))
  {
    FirstStopFrom(slots, word, Home(slots, word), WalkStep(slots, hashing, word), 0)
  }

  /**
   * The slot (`insert_pos`, `search_pos`) at which that loop stops: before
   * the cap, an empty slot or the word's own.
   */
  function StopSlot(slots: Slots, hashing: Hashing, word: string): (pos: nat)
    requires |slots| >= 2
    ensures pos < |slots|
    ensures Walk(slots, hashing, word) < |slots| ==> slots[pos].None? || slots[pos].value == word
  {
    ProbePos(Home(slots, word), WalkStep(slots, hashing, word), |slots|, Walk(slots, hashing, word))
  }

  /** The i-th slot of the walk for `word`. */
  function WalkPos(slots: Slots, hashing: Hashing, word: string, i: nat): (pos: nat)
    requires |slots| >= 2
    ensures pos < |slots|
  {
    ProbePos(Home(slots, word), WalkStep(slots, hashing, word), |slots|, i)
  }

  /** The probe count is pinned down by which probes are blocked. */
  lemma {:induction false} FirstStopFromIs(slots: Slots, word: string, home: nat, step: nat, k: nat, i: nat)
    requires home < |slots| && k <= i <= |slots|
    requires forall j :: k <= j < i ==> Blocked(slots, word, ProbePos(home, step, |slots|, j))
    requires i < |slots| ==> !Blocked(slots, word, ProbePos(home, step, |slots|, i))
    ensures FirstStopFrom(slots, word, home, step, k) == i
    decreases i - k
  {
    if k < i {
      FirstStopFromIs(slots, word, home, step, k + 1, i);
    }
  }

  /**
   * A loop that has stepped over `i` blocked slots and then meets an unblocked
   * one (or the cap) has taken exactly `Walk` probes.
   */
  lemma WalkIs(slots: Slots, hashing: Hashing, word: string, i: nat)
    requires |slots| >= 2 && i <= |slots|
    requires forall j :: 0 <= j < i ==> Blocked(slots, word, WalkPos(slots, hashing, word, j))
    requires i < |slots| ==> !Blocked(slots, word, WalkPos(slots, hashing, word, i))
    ensures Walk(slots, hashing, word) == i
  {
    forall j | 0 <= j < i
      ensures Blocked(slots, word, ProbePos(Home(slots, word), WalkStep(slots, hashing, word), |slots|, j))
    {
      assert Blocked(slots, word, WalkPos(slots, hashing, word, j));
    }
    FirstStopFromIs(slots, word, Home(slots, word), WalkStep(slots, hashing, word), 0, i);
  }

  /** A walk that uses all `capacity` probes stops where it started, on a blocked slot. */
  lemma CappedWalkIsBlocked(slots: Slots, hashing: Hashing, word: string)
    requires |slots| >= 2 && Walk(slots, hashing, word) == |slots|
    ensures Blocked(slots, word, StopSlot(slots, hashing, word))
  {
    ProbeCycle(Home(slots, word), WalkStep(slots, hashing, word), |slots|);
    assert Blocked(slots, word, WalkPos(slots, hashing, word, 0));
  }

  /** A walk that stops at an empty slot did so before the probe cap. */
  lemma EmptyStopIsEarly(slots: Slots, hashing: Hashing, word: string)
    requires |slots| >= 2 && slots[StopSlot(slots, hashing, word)] == None
    ensures Walk(slots, hashing, word) < |slots|
  {
    if Walk(slots, hashing, word) == |slots| {
      CappedWalkIsBlocked(slots, hashing, word);
    }
  }

  /** Under linear probing a walk reaches the cap only when every slot is occupied. */
  lemma LinearCappedWalkMeansFull(slots: Slots, word: string)
    requires |slots| >= 2 && Walk(slots, LinearProbing, word) == |slots|
    ensures forall p :: 0 <= p < |slots| ==> slots[p].Some?
  {
    forall p | 0 <= p < |slots|
      ensures slots[p].Some?
    {
      var k := LinearProbeReaches(Home(slots, word), |slots|, p);
      assert Blocked(slots, word, WalkPos(slots, LinearProbing, word, k));
    }
  }

  // ---------------------------------------------------------------------------
  // Table invariants
  // ---------------------------------------------------------------------------

  /** Keys are unique: no word is stored in two slots. */
  ghost predicate Unique(slots: Slots) {
    forall p, q :: 0 <= p < |slots| && 0 <= q < |slots| && slots[p].Some? && slots[p] == slots[q] ==> p == q
  }

  /**
   * Every stored key sits exactly where its own walk stops. No operation ever
   * empties a slot, so a key once placed stays findable by the same walk.
   */
  ghost predicate Reachable(slots: Slots, hashing: Hashing)
    requires |slots| >= 2
  {
    forall p :: 0 <= p < |slots| ==> KeyReachable(slots, hashing, p)
  }

  /** The key in slot `p`, if any, is where its walk stops. */
  ghost predicate KeyReachable(slots: Slots, hashing: Hashing, p: nat)
    requires |slots| >= 2 && p < |slots|
  {
    slots[p].Some? ==>
      Walk(slots, hashing, slots[p].value) < |slots| && StopSlot(slots, hashing, slots[p].value) == p
  }

  /** Uniqueness of keys is a consequence of reachability. */
  lemma ReachableIsUnique(slots: Slots, hashing: Hashing)
    requires |slots| >= 2 && Reachable(slots, hashing)
    ensures Unique(slots)
  {
    forall p, q | 0 <= p < |slots| && 0 <= q < |slots| && slots[p].Some? && slots[p] == slots[q]
      ensures p == q
    {
      assert KeyReachable(slots, hashing, p) && KeyReachable(slots, hashing, q);
    }
  }

  /** An occupied slot has frequency at least 1; an empty one frequency 0. */
  ghost predicate Counted(slots: Slots, freqs: seq<int>) {
    |freqs| == |slots| &&
    forall p :: 0 <= p < |slots| ==> (if slots[p].Some? then freqs[p] >= 1 else freqs[p] == 0)
  }

  /** A new key stored with frequency 1 keeps the frequencies counted. */
  lemma CountedAfterFill(slots: Slots, freqs: seq<int>, p: nat, word: string)
    requires Counted(slots, freqs) && p < |slots|
    ensures Counted(slots[p := Some(word)], freqs[p := 1])
  {
  }

  /** Incrementing the frequency of an occupied slot keeps the frequencies counted. */
  lemma CountedAfterCount(slots: Slots, freqs: seq<int>, p: nat)
    requires Counted(slots, freqs) && p < |slots| && slots[p].Some?
    ensures Counted(slots, freqs[p := freqs[p] + 1])
  {
  }

  /** The table seen as a dictionary from each stored word to its frequency. */
  ghost function Contents(slots: Slots, freqs: seq<int>): map<string, int>
    requires |freqs| == |slots| && Unique(slots)
  {
    map p | 0 <= p < |slots| && slots[p].Some? :: slots[p].value := freqs[p]
  }

  lemma InContents(slots: Slots, freqs: seq<int>, p: nat)
    requires |freqs| == |slots| && Unique(slots) && p < |slots| && slots[p].Some?
    ensures slots[p].value in Contents(slots, freqs)
    ensures Contents(slots, freqs)[slots[p].value] == freqs[p]
  {
  }

  /**
   * What a walk finds: a stored word is found at the slot its walk stops at; a
   * word not stored makes the walk stop at an empty slot or at the probe cap.
   */
  lemma WalkOutcome(slots: Slots, freqs: seq<int>, hashing: Hashing, word: string)
    requires |slots| >= 2 && |freqs| == |slots| && Reachable(slots, hashing)
    ensures Unique(slots)
    ensures word in Contents(slots, freqs) <==>
              Walk(slots, hashing, word) < |slots| && slots[StopSlot(slots, hashing, word)] == Some(word)
    ensures word in Contents(slots, freqs) ==> Contents(slots, freqs)[word] == freqs[StopSlot(slots, hashing, word)]
    ensures word !in Contents(slots, freqs) && Walk(slots, hashing, word) < |slots| ==>
              slots[StopSlot(slots, hashing, word)] == None
  {
    ReachableIsUnique(slots, hashing);
    var stop := StopSlot(slots, hashing, word);
    if word in Contents(slots, freqs) {
      var p :| 0 <= p < |slots| && slots[p] == Some(word);
      assert KeyReachable(slots, hashing, p);
    }
    if Walk(slots, hashing, word) < |slots| && slots[stop] == Some(word) {
      InContents(slots, freqs, stop);
    }
  }

  /** When every slot is occupied, the walk for a word not stored reaches the cap. */
  lemma FullTableWalk(slots: Slots, freqs: seq<int>, hashing: Hashing, word: string)
    requires |slots| >= 2 && |freqs| == |slots| && Reachable(slots, hashing)
    requires forall p :: 0 <= p < |slots| ==> slots[p].Some?
    ensures Unique(slots)
    ensures word !in Contents(slots, freqs) ==> Walk(slots, hashing, word) == |slots|
  {
    WalkOutcome(slots, freqs, hashing, word);
  }

  /** Probes up to and including `n` see the same slots in both tables. */
  lemma FirstStopAgrees(slots: Slots, slots': Slots, word: string, home: nat, step: nat, n: nat)
    requires |slots'| == |slots| && home < |slots| && n < |slots|
    requires n == FirstStopFrom(slots, word, home, step, 0)
    requires forall j :: 0 <= j <= n ==> slots'[ProbePos(home, step, |slots|, j)] == slots[ProbePos(home, step, |slots|, j)]
    ensures FirstStopFrom(slots', word, home, step, 0) == n
  {
    forall j | 0 <= j < n
      ensures Blocked(slots', word, ProbePos(home, step, |slots|, j))
    {
      assert Blocked(slots, word, ProbePos(home, step, |slots|, j));
    }
    FirstStopFromIs(slots', word, home, step, 0, n);
  }

  /** After the fill, the new key's own walk takes the same probes and finds it. */
  lemma FillWalkOfNew(slots: Slots, hashing: Hashing, word: string)
    requires |slots| >= 2
    requires Walk(slots, hashing, word) < |slots| && slots[StopSlot(slots, hashing, word)] == None
    ensures var slots' := slots[StopSlot(slots, hashing, word) := Some(word)];
      Walk(slots', hashing, word) == Walk(slots, hashing, word)
  {
    var stop := StopSlot(slots, hashing, word);
    var slots' := slots[stop := Some(word)];
    var n := Walk(slots, hashing, word);
    forall j | 0 <= j < n
      ensures Blocked(slots', word, WalkPos(slots', hashing, word, j))
    {
      assert Blocked(slots, word, WalkPos(slots, hashing, word, j));
    }
    WalkIs(slots', hashing, word, n);
  }

  /** The fill happens at an empty slot, which lies on no stored key's walk. */
  lemma FillWalkOfOther(slots: Slots, hashing: Hashing, stop: nat, word: string, p: nat)
    requires |slots| >= 2 && stop < |slots| && slots[stop] == None
    requires p < |slots| && slots[p].Some?
    requires Walk(slots, hashing, slots[p].value) < |slots| && StopSlot(slots, hashing, slots[p].value) == p
    ensures var slots' := slots[stop := Some(word)];
      Walk(slots', hashing, slots[p].value) == Walk(slots, hashing, slots[p].value) &&
      StopSlot(slots', hashing, slots[p].value) == p
  {
    var slots' := slots[stop := Some(word)];
    var v := slots[p].value;
    var nv := Walk(slots, hashing, v);
    forall j | 0 <= j <= nv
      ensures slots'[WalkPos(slots, hashing, v, j)] == slots[WalkPos(slots, hashing, v, j)]
    {
      if j < nv {
        assert Blocked(slots, v, WalkPos(slots, hashing, v, j));
      }
    }
    FirstStopAgrees(slots, slots', v, Home(slots, v), WalkStep(slots, hashing, v), nv);
  }

  /**
   * Storing an absent word in the empty slot its walk stops at keeps every key
   * reachable: the new key is found where it was put, and no other key's walk
   * passes an empty slot, so none of theirs changes.
   */
  lemma FillKeepsReachable(slots: Slots, hashing: Hashing, word: string)
    requires |slots| >= 2 && Reachable(slots, hashing)
    requires Walk(slots, hashing, word) < |slots| && slots[StopSlot(slots, hashing, word)] == None
    ensures var slots' := slots[StopSlot(slots, hashing, word) := Some(word)];
      Reachable(slots', hashing) && Walk(slots', hashing, word) == Walk(slots, hashing, word)
  {
    var stop := StopSlot(slots, hashing, word);
    var slots' := slots[stop := Some(word)];
    FillWalkOfNew(slots, hashing, word);
    forall p | 0 <= p < |slots'|
      ensures KeyReachable(slots', hashing, p)
    {
      if p != stop && slots[p].Some? {
        assert KeyReachable(slots, hashing, p);
        FillWalkOfOther(slots, hashing, stop, word, p);
      }
    }
  }

  // ---------------------------------------------------------------------------
  // How Contents changes
  // ---------------------------------------------------------------------------

  /** Filling an empty slot with an absent word keeps the keys unique. */
  lemma UniqueAfterFill(slots: Slots, freqs: seq<int>, p: nat, word: string)
    requires |freqs| == |slots| && Unique(slots) && p < |slots| && slots[p] == None
    requires word !in Contents(slots, freqs)
    ensures Unique(slots[p := Some(word)])
  {
    var slots' := slots[p := Some(word)];
    forall q, r | 0 <= q < |slots'| && 0 <= r < |slots'| && slots'[q].Some? && slots'[q] == slots'[r]
      ensures q == r
    {
      if q != p && r != p {
      } else if q == p && r != p {
        InContents(slots, freqs, r);
      }
    }
  }

  /** After filling an empty slot, every stored word was stored before with its frequency, or is the new word. */
  lemma FilledContentsOld(slots: Slots, freqs: seq<int>, p: nat, word: string, f: int, slots': Slots, freqs': seq<int>)
    requires |freqs| == |slots| && Unique(slots) && p < |slots| && slots[p] == None
    requires slots' == slots[p := Some(word)] && freqs' == freqs[p := f] && Unique(slots')
    ensures forall w | w in Contents(slots', freqs') ::
      w in Contents(slots, freqs)[word := f] && Contents(slots', freqs')[w] == Contents(slots, freqs)[word := f][w]
  {
    var m, m' := Contents(slots, freqs), Contents(slots', freqs');
    forall w | w in m'
      ensures w in m[word := f] && m'[w] == m[word := f][w]
    {
      var q :| 0 <= q < |slots'| && slots'[q] == Some(w) && m'[w] == freqs'[q];
      if q != p {
        assert w != word by {
          assert slots'[p] == Some(word);
        }
        InContents(slots, freqs, q);
      }
    }
  }

  /** After filling an empty slot, the new word and every word stored before are stored. */
  lemma FilledContentsNew(slots: Slots, freqs: seq<int>, p: nat, word: string, f: int, slots': Slots, freqs': seq<int>)
    requires |freqs| == |slots| && Unique(slots) && p < |slots| && slots[p] == None
    requires slots' == slots[p := Some(word)] && freqs' == freqs[p := f] && Unique(slots')
    ensures forall w | w in Contents(slots, freqs)[word := f] :: w in Contents(slots', freqs')
  {
    var m := Contents(slots, freqs);
    forall w | w in m[word := f]
      ensures w in Contents(slots', freqs')
    {
      if w == word {
        InContents(slots', freqs', p);
      } else {
        var q :| 0 <= q < |slots| && slots[q] == Some(w);
        InContents(slots', freqs', q);
      }
    }
  }

  /** Filling an empty slot with an absent word adds that word with the given frequency. */
  lemma ContentsAfterFill(slots: Slots, freqs: seq<int>, p: nat, word: string, f: int)
    requires |freqs| == |slots| && Unique(slots) && p < |slots| && slots[p] == None
    requires word !in Contents(slots, freqs)
    ensures Unique(slots[p := Some(word)])
    ensures Contents(slots[p := Some(word)], freqs[p := f]) == Contents(slots, freqs)[word := f]
  {
    UniqueAfterFill(slots, freqs, p, word);
    FilledContentsOld(slots, freqs, p, word, f, slots[p := Some(word)], freqs[p := f]);
    FilledContentsNew(slots, freqs, p, word, f, slots[p := Some(word)], freqs[p := f]);
  }

  /** Changing the frequency of an occupied slot changes only that word's entry. */
  lemma ContentsAfterCount(slots: Slots, freqs: seq<int>, p: nat, word: string, f: int)
    requires |freqs| == |slots| && Unique(slots) && p < |slots| && slots[p] == Some(word)
    ensures Contents(slots, freqs[p := f]) == Contents(slots, freqs)[word := f]
  {
    var m, m' := Contents(slots, freqs), Contents(slots, freqs[p := f]);
    forall w | w in m'
      ensures w in m[word := f] && m'[w] == m[word := f][w]
    {
      var q :| 0 <= q < |slots| && slots[q] == Some(w) && m'[w] == freqs[p := f][q];
      InContents(slots, freqs, q);
    }
    forall w | w in m[word := f]
      ensures w in m'
    {
      if w != word {
        var q :| 0 <= q < |slots| && slots[q] == Some(w);
        InContents(slots, freqs[p := f], q);
      } else {
        InContents(slots, freqs[p := f], p);
      }
    }
  }

  // ---------------------------------------------------------------------------
  // Occupied slots
  // ---------------------------------------------------------------------------

  /** The number of occupied slots. */
  function Occupied(slots: Slots): (n: nat)
    ensures n <= |slots|
  {
    if |slots| == 0 then 0
    else Occupied(slots[..|slots| - 1]) + (if slots[|slots| - 1].Some? then 1 else 0)
  }

  /** A table with no key stored has no occupied slot. */
  lemma {:induction false} OccupiedNone(slots: Slots)
    requires forall p :: 0 <= p < |slots| ==> slots[p] == None
    ensures Occupied(slots) == 0
  {
    if |slots| > 0 {
      var init := slots[..|slots| - 1];
      assert forall p :: 0 <= p < |init| ==> init[p] == slots[p];
      OccupiedNone(init);
    }
  }

  /** Filling an empty slot raises the number of occupied slots by exactly one. */
  lemma {:induction false} OccupiedAfterFill(slots: Slots, p: nat, word: string)
    requires p < |slots| && slots[p] == None
    ensures Occupied(slots[p := Some(word)]) == Occupied(slots) + 1
  {
    var last := |slots| - 1;
    if p == last {
      assert slots[p := Some(word)][..last] == slots[..last];
    } else {
      assert slots[p := Some(word)][..last] == slots[..last][p := Some(word)];
      OccupiedAfterFill(slots[..last], p, word);
    }
  }

  /** All slots are occupied exactly when the count of occupied slots is the capacity. */
  lemma {:induction false} OccupiedFull(slots: Slots)
    ensures Occupied(slots) == |slots| <==> forall p :: 0 <= p < |slots| ==> slots[p].Some?
  {
    if |slots| > 0 {
      var init := slots[..|slots| - 1];
      OccupiedFull(init);
      if Occupied(slots) == |slots| {
        assert Occupied(init) == |init|;
        forall p | 0 <= p < |slots|
          ensures slots[p].Some?
        {
          if p < |init| {
            assert init[p] == slots[p];
          }
        }
      }
      if forall p :: 0 <= p < |slots| ==> slots[p].Some? {
        assert forall p :: 0 <= p < |init| ==> init[p] == slots[p];
      }
    }
  }

  /** The indices of the occupied slots, in increasing order. */
  function OccupiedSlots(slots: Slots): (s: seq<nat>)
    ensures forall k :: 0 <= k < |s| ==> s[k] < |slots| && slots[s[k]].Some?
    ensures forall k, l :: 0 <= k < l < |s| ==> s[k] < s[l]
  {
    if |slots| == 0 then []
    else
      var init := slots[..|slots| - 1];
      OccupiedSlots(init) + (if slots[|slots| - 1].Some? then [|slots| - 1] else [])
  }

  /** Every occupied slot is listed, and there are as many as there are occupied slots. */
  lemma {:induction false} OccupiedSlotsComplete(slots: Slots)
    ensures |OccupiedSlots(slots)| == Occupied(slots)
    ensures forall p :: 0 <= p < |slots| && slots[p].Some? ==> p in OccupiedSlots(slots)
  {
    if |slots| > 0 {
      var init := slots[..|slots| - 1];
      OccupiedSlotsComplete(init);
      forall p | 0 <= p < |slots| && slots[p].Some?
        ensures p in OccupiedSlots(slots)
      {
        if p < |init| {
          assert init[p] == slots[p];
          assert p in OccupiedSlots(init);
        }
      }
    }
  }

  // ---------------------------------------------------------------------------
  // Insert, stated on values
  // ---------------------------------------------------------------------------

  /**
   * The invariant both tables keep: every key is where its walk stops, and keys
   * are unique (which follows); occupied slots have frequency at least 1 and
   * empty ones 0; and `numKeys` counts the occupied slots.
   */
  ghost predicate TableInvariant(hashing: Hashing, slots: Slots, freqs: seq<int>, numKeys: int)
  {
    |slots| >= 2 && Reachable(slots, hashing) && Unique(slots) && Counted(slots, freqs) &&
    numKeys == Occupied(slots)
  }

  /** What an insert leaves in the slots and frequencies, and what it returns. */
  datatype InsertOutcome = InsertOutcome(slots: Slots, freqs: seq<int>, result: int)

  /**
   * htable_insert on values. The walk stops at `StopSlot`: an empty slot there
   * receives the word with frequency 1 (result 1); the word's own slot has its
   * frequency incremented (result the new frequency); another key there, which
   * only happens at the probe cap, changes nothing (result 0). No other slot
   * changes.
   */
  function Inserted(slots: Slots, freqs: seq<int>, hashing: Hashing, word: string): (out: InsertOutcome)
    requires |slots| >= 2 && |freqs| == |slots|
    ensures |out.slots| == |slots| && |out.freqs| == |slots|
    ensures forall p :: 0 <= p < |slots| && p != StopSlot(slots, hashing, word) ==>
              out.slots[p] == slots[p] && out.freqs[p] == freqs[p]
  {
    var p := StopSlot(slots, hashing, word);
    if slots[p].None? then InsertOutcome(slots[p := Some(word)], freqs[p := 1], 1)
    else if slots[p].value == word then InsertOutcome(slots, freqs[p := freqs[p] + 1], freqs[p] + 1)
    else InsertOutcome(slots, freqs, 0)
  }

  /**
   * A walk that stops at an empty slot means the word is new; storing it there
   * with frequency 1 keeps the invariant, adds exactly that word to the
   * contents, and one more slot is occupied. The walk stopped before the cap,
   * so the probe count is below the capacity.
   */
  lemma InsertNewKeepsInvariant(hashing: Hashing, slots: Slots, freqs: seq<int>, numKeys: int, word: string)
    requires TableInvariant(hashing, slots, freqs, numKeys)
    requires slots[StopSlot(slots, hashing, word)] == None
    ensures word !in Contents(slots, freqs)
    ensures numKeys < |slots| && Walk(slots, hashing, word) < |slots|
    ensures var p := StopSlot(slots, hashing, word);
      TableInvariant(hashing, slots[p := Some(word)], freqs[p := 1], numKeys + 1) &&
      Contents(slots[p := Some(word)], freqs[p := 1]) == Contents(slots, freqs)[word := 1]
  {
    var p := StopSlot(slots, hashing, word);
    WalkOutcome(slots, freqs, hashing, word);
    EmptyStopIsEarly(slots, hashing, word);
    FillKeepsReachable(slots, hashing, word);
    ContentsAfterFill(slots, freqs, p, word, 1);
    OccupiedAfterFill(slots, p, word);
    CountedAfterFill(slots, freqs, p, word);
  }

  /**
   * A walk that stops at the word's own slot means the word is stored, with
   * that slot's frequency; incrementing the frequency keeps the invariant
   * (`InsertCountContents` says how the dictionary changes).
   */
  lemma InsertCountKeepsInvariant(hashing: Hashing, slots: Slots, freqs: seq<int>, numKeys: int, word: string)
    requires TableInvariant(hashing, slots, freqs, numKeys)
    requires Walk(slots, hashing, word) < |slots| && slots[StopSlot(slots, hashing, word)] == Some(word)
    ensures word in Contents(slots, freqs)
    ensures var p := StopSlot(slots, hashing, word);
      Contents(slots, freqs)[word] == freqs[p] &&
      TableInvariant(hashing, slots, freqs[p := freqs[p] + 1], numKeys)
  {
    WalkOutcome(slots, freqs, hashing, word);
    CountedAfterCount(slots, freqs, StopSlot(slots, hashing, word));
  }

  /**
   * A walk that reaches the probe cap means the word is not stored; under
   * linear probing that happens only when the table is full, and when the
   * table is full it always happens to a word not stored.
   */
  lemma InsertFullFacts(hashing: Hashing, slots: Slots, freqs: seq<int>, numKeys: int, word: string)
    requires TableInvariant(hashing, slots, freqs, numKeys)
    ensures Walk(slots, hashing, word) == |slots| ==> word !in Contents(slots, freqs)
    ensures Walk(slots, hashing, word) == |slots| && hashing == LinearProbing ==> numKeys == |slots|
    ensures numKeys == |slots| && word !in Contents(slots, freqs) ==> Walk(slots, hashing, word) == |slots|
  {
    WalkOutcome(slots, freqs, hashing, word);
    OccupiedFull(slots);
    if Walk(slots, hashing, word) == |slots| && hashing == LinearProbing {
      LinearCappedWalkMeansFull(slots, word);
    }
  }

  /**
   * Insert keeps the invariant: a key is added, and `numKeys` grows by one,
   * exactly when the walk stopped at an empty slot.
   */
  lemma InsertKeepsInvariant(hashing: Hashing, slots: Slots, freqs: seq<int>, numKeys: int, word: string)
    requires TableInvariant(hashing, slots, freqs, numKeys)
    ensures var out := Inserted(slots, freqs, hashing, word);
      var added := slots[StopSlot(slots, hashing, word)].None?;
      TableInvariant(hashing, out.slots, out.freqs, if added then numKeys + 1 else numKeys) &&
      (added ==> numKeys < |slots| && Walk(slots, hashing, word) < |slots|)
  {
    var p := StopSlot(slots, hashing, word);
    if slots[p].None? {
      InsertNewKeepsInvariant(hashing, slots, freqs, numKeys, word);
    } else if slots[p].value == word {
      if Walk(slots, hashing, word) == |slots| {
        CappedWalkIsBlocked(slots, hashing, word);
      }
      InsertCountKeepsInvariant(hashing, slots, freqs, numKeys, word);
    }
  }

  /**
   * What insert's result means: 0 exactly when the word is absent and the
   * walk hit the probe cap; otherwise the word's new count, 1 for a new word.
   * A full table refuses every new word, and under linear probing only a full
   * table refuses one. A key is added exactly when the word was absent and
   * accepted.
   */
  lemma InsertReturns(hashing: Hashing, slots: Slots, freqs: seq<int>, numKeys: int, word: string)
    requires TableInvariant(hashing, slots, freqs, numKeys)
    ensures var out := Inserted(slots, freqs, hashing, word);
      out.result == 0 <==> word !in Contents(slots, freqs) && Walk(slots, hashing, word) == |slots|
    ensures var out := Inserted(slots, freqs, hashing, word);
      word in Contents(slots, freqs) ==> out.result == Contents(slots, freqs)[word] + 1
    ensures var out := Inserted(slots, freqs, hashing, word);
      word !in Contents(slots, freqs) && out.result != 0 ==> out.result == 1
    ensures var out := Inserted(slots, freqs, hashing, word);
      slots[StopSlot(slots, hashing, word)].None? <==> word !in Contents(slots, freqs) && out.result != 0
    ensures numKeys == |slots| && word !in Contents(slots, freqs) ==> Inserted(slots, freqs, hashing, word).result == 0
    ensures hashing == LinearProbing && Inserted(slots, freqs, hashing, word).result == 0 ==> numKeys == |slots|
  {
    InsertFullFacts(hashing, slots, freqs, numKeys, word);
    WalkOutcome(slots, freqs, hashing, word);
    if Walk(slots, hashing, word) == |slots| {
      CappedWalkIsBlocked(slots, hashing, word);
    }
  }

  /** Insert into an empty stop slot adds the word with count 1 to the dictionary. */
  lemma InsertFillContents(hashing: Hashing, slots: Slots, freqs: seq<int>, numKeys: int, word: string)
    requires TableInvariant(hashing, slots, freqs, numKeys)
    requires slots[StopSlot(slots, hashing, word)] == None
    ensures var out := Inserted(slots, freqs, hashing, word);
      out.result == 1 && Unique(out.slots) && Contents(out.slots, out.freqs) == Contents(slots, freqs)[word := 1]
  {
    var p := StopSlot(slots, hashing, word);
    assert Inserted(slots, freqs, hashing, word) == InsertOutcome(slots[p := Some(word)], freqs[p := 1], 1);
    WalkOutcome(slots, freqs, hashing, word);
    ContentsAfterFill(slots, freqs, p, word, 1);
  }

  /** Insert of a word its walk finds stored raises its count in the dictionary. */
  lemma InsertCountContents(hashing: Hashing, slots: Slots, freqs: seq<int>, word: string)
    requires |slots| >= 2 && |freqs| == |slots| && Unique(slots)
    requires slots[StopSlot(slots, hashing, word)] == Some(word)
    ensures var out := Inserted(slots, freqs, hashing, word);
      out.result != 0 ==> Unique(out.slots) && Contents(out.slots, out.freqs) == Contents(slots, freqs)[word := out.result]
  {
    var p := StopSlot(slots, hashing, word);
    assert Inserted(slots, freqs, hashing, word) == InsertOutcome(slots, freqs[p := freqs[p] + 1], freqs[p] + 1);
    ContentsAfterCount(slots, freqs, p, word, freqs[p] + 1);
  }

  /**
   * Insert seen on the table as a dictionary: only the word's entry changes,
   * to the result, unless the result is 0 and nothing changes.
   */
  lemma InsertUpdatesContents(hashing: Hashing, slots: Slots, freqs: seq<int>, numKeys: int, word: string)
    requires TableInvariant(hashing, slots, freqs, numKeys)
    ensures Unique(Inserted(slots, freqs, hashing, word).slots)
    ensures var out := Inserted(slots, freqs, hashing, word);
      out.result == 0 ==> out == InsertOutcome(slots, freqs, 0)
    ensures var out := Inserted(slots, freqs, hashing, word);
      out.result != 0 ==> Contents(out.slots, out.freqs) == Contents(slots, freqs)[word := out.result]
  {
    var p := StopSlot(slots, hashing, word);
    if slots[p].None? {
      InsertFillContents(hashing, slots, freqs, numKeys, word);
    } else if slots[p].value == word {
      InsertCountContents(hashing, slots, freqs, word);
    }
  }

  /**
   * In a table with no key stored, any word's walk stops at once at its home
   * slot: with one word inserted, linear probing and double hashing place it
   * at the same slot, with no collision.
   */
  lemma EmptyTableWalk(slots: Slots, hashing: Hashing, word: string)
    requires |slots| >= 2 && forall p :: 0 <= p < |slots| ==> slots[p] == None
    ensures Walk(slots, hashing, word) == 0
    ensures StopSlot(slots, hashing, word) == Hash(word) % |slots|
    ensures StopSlot(slots, hashing, word) == StopSlot(slots, LinearProbing, word) == StopSlot(slots, DoubleHashing, word)
  {
    WalkIs(slots, hashing, word, 0);
    WalkIs(slots, LinearProbing, word, 0);
    WalkIs(slots, DoubleHashing, word, 0);
  }
}
