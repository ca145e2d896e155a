/**
 * dhtable.c: the earlier variant of the word table, which always resolves
 * collisions by double hashing and keeps no collision statistics. Its hash
 * and step helpers are the same as htable.c's (see `WordHash`), and its probe
 * walk is the `DoubleHashing` walk of `Probing`.
 */
module DHTable {

  import opened Wrappers
  import opened WordHash
  import opened Probing

  /**
   * struct htablerec of dhtable.c. Both arrays come from `malloc`, which leaves
   * them uninitialised; the model assumes every slot starts empty with
   * frequency 0.
   */
  class Table {
    const capacity: int
    const keys: array<Option<string>>
    const frequencies: array<int>
    var numKeys: int

    /** The open-addressing invariant for double hashing, on the arrays' contents. */
    ghost predicate Valid()
      reads this, keys, frequencies
    {
      keys.Length == capacity && frequencies.Length == capacity &&
      TableInvariant(DoubleHashing, keys[..], frequencies[..], numKeys)
    }

    /** The table seen as a dictionary from stored words to their frequencies. */
    ghost function Contents(): map<string, int>
      reads this, keys, frequencies
      requires frequencies.Length == keys.Length && Unique(keys[..])
    {
      Probing.Contents(keys[..], frequencies[..])
    }

    /** htable_new. */
    constructor (capacity: int)
      requires capacity >= 2
      ensures Valid() && fresh(keys) && fresh(frequencies)
      ensures this.capacity == capacity && numKeys == 0 && Contents() == map[]
      ensures forall p :: 0 <= p < capacity ==> keys[p] == None && frequencies[p] == 0
    {
      this.capacity := capacity;
      keys := new Option<string>[capacity](_ => None);
      frequencies := new int[capacity](_ => 0);
      numKeys := 0;
      new;
      OccupiedNone(keys[..]);
    }

    /**
     * htable_insert: the walk (`Probe`) from the home slot by the word's
     * double-hashing step, followed by the update (`Store`): fill an empty
     * slot (result 1), count a match (result the new frequency) or give up
     * (result 0, nothing changed).
     */
    method Insert(str: string) returns (r: int)
      requires Valid()
      modifies this, keys, frequencies
      ensures Valid()
      ensures var out := Inserted(old(keys[..]), old(frequencies[..]), DoubleHashing, str);
        keys[..] == out.slots && frequencies[..] == out.freqs && r == out.result
      ensures r == 0 <==> str !in old(Contents()) && old(Walk(keys[..], DoubleHashing, str)) == capacity
      ensures r == 0 ==> keys[..] == old(keys[..]) && frequencies[..] == old(frequencies[..])
      ensures str in old(Contents()) ==> r == old(Contents())[str] + 1
      ensures str !in old(Contents()) && r != 0 ==> r == 1
      ensures old(numKeys) == capacity && str !in old(Contents()) ==> r == 0
      ensures Contents() == if r == 0 then old(Contents()) else old(Contents())[str := r]
      ensures numKeys == if str !in old(Contents()) && r != 0 then old(numKeys) + 1 else old(numKeys)
    {
      ghost var slots, freqs, count := keys[..], frequencies[..], numKeys;
      InsertKeepsInvariant(DoubleHashing, slots, freqs, count, str);
      InsertReturns(DoubleHashing, slots, freqs, count, str);
      InsertUpdatesContents(DoubleHashing, slots, freqs, count, str);
      var insertPos, i := Probe(str);
      r := Store(str, insertPos);
    }

    /**
     * The second half of htable_insert, once the walk stopped at `pos`: fill
     * an empty slot, count a match or give up. The keys, frequencies and
     * result become those of `Inserted`, and num_keys grows exactly when the
     * slot was empty.
     */
    method Store(str: string, pos: nat) returns (r: int)
      requires keys.Length == capacity && frequencies.Length == capacity && capacity >= 2
      requires pos == StopSlot(keys[..], DoubleHashing, str)
      modifies this, keys, frequencies
      ensures var out := Inserted(old(keys[..]), old(frequencies[..]), DoubleHashing, str);
        keys[..] == out.slots && frequencies[..] == out.freqs && r == out.result
      ensures numKeys == if old(keys[pos]).None? then old(numKeys) + 1 else old(numKeys)
    {
      if keys[pos].None? {
        keys[pos] := Some(str);
        frequencies[pos] := 1;
        numKeys := numKeys + 1;
        r := 1;
      } else if keys[pos].value == str {
        frequencies[pos] := frequencies[pos] + 1;
        r := frequencies[pos];
      } else {
        r := 0;
      }
    }

    /**
     * The probe loop of htable_insert: from the home slot, step by the word's
     * double-hashing step while the slot holds another key and fewer than
     * `capacity` probes were made; the walk's length and its stopping slot.
     */
    method Probe(str: string) returns (insertPos: nat, i: nat)
      requires keys.Length == capacity && capacity >= 2
      ensures i == Walk(keys[..], DoubleHashing, str) && insertPos == StopSlot(keys[..], DoubleHashing, str)
    {
      ghost var slots := keys[..];
      var wordint := WordToInt(str);
      insertPos := wordint % capacity;
      var step := Step(capacity, wordint);
      i := 0;
      while keys[insertPos].Some? && keys[insertPos].value != str && i < capacity
        invariant 0 <= i <= capacity
        invariant insertPos == WalkPos(slots, DoubleHashing, str, i)
        invariant FirstStopFrom(slots, str, Home(slots, str), WalkStep(slots, DoubleHashing, str), i) == Walk(slots, DoubleHashing, str)
        decreases capacity - i
      {
        insertPos := (insertPos + step) % capacity;
        i := i + 1;
      }
    }

    /**
     * htable_print: for each occupied slot, in increasing slot order, the
     * frequency and then the key copied out character by character.
     */
    method Print() returns (entries: seq<(int, string)>)
      requires Valid()
      ensures var occupied := OccupiedSlots(keys[..]);
        |entries| == |occupied| &&
        forall k :: 0 <= k < |occupied| ==> entries[k] == (frequencies[occupied[k]], keys[occupied[k]].value)
      ensures |entries| == numKeys
      ensures forall k :: 0 <= k < |entries| ==> entries[k].1 in Contents() && Contents()[entries[k].1] == entries[k].0
    {
      entries := [];
      var i := 0;
      while i < capacity
        invariant 0 <= i <= capacity
        invariant var occupied := OccupiedSlots(keys[..i]);
          |entries| == |occupied| &&
          forall k :: 0 <= k < |occupied| ==> entries[k] == (frequencies[occupied[k]], keys[occupied[k]].value)
      {
        assert keys[..i + 1][..i] == keys[..i];
        if keys[i].Some? {
          var key := keys[i].value;
          var printed: string := [];
          var j := 0;
          while j < |key|
            invariant 0 <= j <= |key| && printed == key[..j]
          {
            printed := printed + [key[j]];
            j := j + 1;
          }
          assert printed == key;
          entries := entries + [(frequencies[i], printed)];
        }
        i := i + 1;
      }
      assert keys[..i] == keys[..];
      OccupiedSlotsComplete(keys[..]);
      forall k | 0 <= k < |entries|
        ensures entries[k].1 in Contents() && Contents()[entries[k].1] == entries[k].0
      {
        InContents(keys[..], frequencies[..], OccupiedSlots(keys[..])[k]);
      }
    }

    /**
     * htable_search: read-only; follows insert's walk (the same loop, run by
     * `Probe`) and returns the word's frequency when it is stored, 0 otherwise
     * (an empty slot, whose frequency is 0, or the probe cap).
     */
    method Search(key: string) returns (r: int)
      requires Valid()
      ensures r == if key in Contents() then Contents()[key] else 0
    {
      var searchPos, collisions := Probe(key);
      WalkOutcome(keys[..], frequencies[..], DoubleHashing, key);
      if collisions == capacity {
        r := 0;
      } else {
        r := frequencies[searchPos];
      }
    }
  }
}
