/**
 * Callers of htable.c's table, as the word-counting driver uses it: what the
 * table's contracts promise over whole sequences of inserts: a word list
 * counted into a linear-probing table, one word inserted repeatedly, a table
 * filled to capacity, and a small end-to-end run.
 */
module Scenarios {

  import opened Probing
  import HTable

  // ---------------------------------------------------------------------------
  // Word frequencies, independently of any table
  // ---------------------------------------------------------------------------

  /** The distinct words of `words`. */
  function Distinct(words: seq<string>): (d: set<string>)
    ensures forall w :: w in d <==> w in words
  {
    set w | w in words
  }

  /** Appending a word adds it to the distinct words, which grow only if it is new. */
  lemma DistinctSnoc(words: seq<string>, w: string)
    ensures Distinct(words + [w]) == Distinct(words) + {w}
    ensures |Distinct(words + [w])| == |Distinct(words)| + (if w in words then 0 else 1)
  {
    var ws := words + [w];
    forall v ensures v in ws <==> v in words || v == w {
      if v in ws {
        var k :| 0 <= k < |ws| && ws[k] == v;
        if k < |words| {
          assert words[k] == v;
        }
      }
    }
    assert Distinct(ws) == Distinct(words) + {w};
  }

  /** The prefix one word longer is the prefix followed by that word. */
  lemma PrefixSnoc(words: seq<string>, i: nat)
    requires i < |words|
    ensures words[..i + 1] == words[..i] + [words[i]]
  {
  }

  /** A prefix has no more distinct words than the whole sequence. */
  lemma {:induction false} DistinctPrefix(words: seq<string>, i: nat)
    requires i <= |words|
    ensures |Distinct(words[..i])| <= |Distinct(words)|
    decreases |words| - i
  {
    if i < |words| {
      DistinctPrefix(words, i + 1);
      PrefixSnoc(words, i);
      DistinctSnoc(words[..i], words[i]);
    } else {
      assert words[..i] == words;
    }
  }

  /** `after` agrees with `before` on every word other than `w`. */
  ghost predicate SameExcept(before: map<string, int>, after: map<string, int>, w: string)
  {
    forall v :: v != w ==> (v in after <==> v in before) && (v in before ==> after[v] == before[v])
  }

  // ---------------------------------------------------------------------------
  // Driving the table
  // ---------------------------------------------------------------------------

  /**
   * htable_insert seen word by word: a stored word's count goes up by one;
   * a new word is added with count 1 when its probe walk reaches an empty
   * slot and refused (0) otherwise, which under linear probing happens
   * exactly when the table is full; every other word keeps its count.
   */
  method Put(t: HTable.Table, w: string) returns (r: int)
    requires t.Valid()
    modifies t, t.keys, t.frequencies, t.stats
    ensures t.Valid()
    ensures w in old(t.Contents()) ==> r == old(t.Contents())[w] + 1
    ensures w !in old(t.Contents()) ==> r == (if old(Walk(t.keys[..], t.hashing, w)) < t.capacity then 1 else 0)
    ensures t.hashing == LinearProbing && w !in old(t.Contents()) ==> (r == 0 <==> old(t.numKeys) == t.capacity)
    ensures r != 0 ==> w in t.Contents() && t.Contents()[w] == r
    ensures r == 0 ==> (w in t.Contents() <==> w in old(t.Contents()))
    ensures SameExcept(old(t.Contents()), t.Contents(), w)
    ensures t.numKeys == if w !in old(t.Contents()) && r != 0 then old(t.numKeys) + 1 else old(t.numKeys)
  {
    r := t.Insert(w);
  }

  /** Every word seen so far is in the dictionary with its number of occurrences, and no other. */
  ghost predicate HoldsCounts(contents: map<string, int>, seen: seq<string>)
  {
    forall v :: (v in contents <==> v in multiset(seen)) && (v in contents ==> contents[v] == multiset(seen)[v])
  }

  /** Each recorded result is the running count of its word. */
  ghost predicate RunningCounts(results: seq<int>, words: seq<string>)
    requires |results| <= |words|
  {
    forall k :: 0 <= k < |results| ==> results[k] == multiset(words[..k + 1])[words[k]]
  }

  /**
   * The state of the counting loop after the first `i` words: the dictionary
   * holds the counts of words[..i], `numKeys` is the number of distinct words
   * seen, and the results so far are the running counts.
   */
  ghost predicate CountedSoFar(contents: map<string, int>, numKeys: int, words: seq<string>, i: nat, results: seq<int>)
  {
    i <= |words| && |results| == i &&
    HoldsCounts(contents, words[..i]) &&
    numKeys == |Distinct(words[..i])| &&
    RunningCounts(results, words)
  }

  /** Bumping the count of `w` (or adding it with 1) and nothing else counts one more `w`. */
  lemma HoldsCountsSnoc(contents: map<string, int>, seen: seq<string>, w: string, contents': map<string, int>)
    requires HoldsCounts(contents, seen)
    requires w in contents' && contents'[w] == if w in contents then contents[w] + 1 else 1
    requires SameExcept(contents, contents', w)
    ensures HoldsCounts(contents', seen + [w])
  {
    var m, m' := multiset(seen), multiset(seen + [w]);
    assert m' == m + multiset{w};
    forall v ensures (v in contents' <==> v in m') && (v in contents' ==> contents'[v] == m'[v]) {
      if v != w {
        assert m'[v] == m[v];
      }
    }
  }

  /** The result of counting words[i] extends the running counts. */
  lemma RunningCountsSnoc(results: seq<int>, words: seq<string>, r: int)
    requires |results| < |words| && RunningCounts(results, words)
    requires r == multiset(words[..|results|])[words[|results|]] + 1
    ensures RunningCounts(results + [r], words)
  {
    var i := |results|;
    PrefixSnoc(words, i);
    assert multiset(words[..i + 1]) == multiset(words[..i]) + multiset{words[i]};
    var results' := results + [r];
    forall k | 0 <= k < i + 1 ensures results'[k] == multiset(words[..k + 1])[words[k]] {
      if k < i {
        assert results'[k] == results[k];
      }
    }
  }

  /**
   * Counting one word more: an insert of words[i] that bumps its count (or
   * adds it with count 1) and leaves every other word alone keeps the
   * counting state.
   */
  lemma CountedStep(contents: map<string, int>, numKeys: int, words: seq<string>, i: nat, results: seq<int>,
                    contents': map<string, int>, numKeys': int, r: int)
    requires CountedSoFar(contents, numKeys, words, i, results) && i < |words|
    requires r == if words[i] in contents then contents[words[i]] + 1 else 1
    requires words[i] in contents' && contents'[words[i]] == r
    requires SameExcept(contents, contents', words[i])
    requires numKeys' == if words[i] in contents then numKeys else numKeys + 1
    ensures CountedSoFar(contents', numKeys', words, i + 1, results + [r])
  {
    var w := words[i];
    assert HoldsCounts(contents', words[..i + 1]) by {
      PrefixSnoc(words, i);
      HoldsCountsSnoc(contents, words[..i], w, contents');
    }
    assert numKeys' == |Distinct(words[..i + 1])| by {
      PrefixSnoc(words, i);
      DistinctSnoc(words[..i], w);
    }
    assert RunningCounts(results + [r], words) by {
      RunningCountsSnoc(results, words, r);
    }
  }

  /** Before counting words[i], a new word leaves the key count below the list's distinct words. */
  lemma RoomForNext(contents: map<string, int>, numKeys: int, words: seq<string>, i: nat, results: seq<int>)
    requires CountedSoFar(contents, numKeys, words, i, results) && i < |words| && words[i] !in contents
    ensures numKeys < |Distinct(words)|
  {
    var w := words[i];
    PrefixSnoc(words, i);
    DistinctSnoc(words[..i], w);
    DistinctPrefix(words, i + 1);
  }

  /**
   * One pass of the counting loop: insert words[i], which the table has room
   * for, and record the result.
   */
  method CountNext(t: HTable.Table, words: seq<string>, i: nat, results: seq<int>) returns (results': seq<int>)
    requires t.Valid() && t.hashing == LinearProbing && |Distinct(words)| <= t.capacity
    requires i < |words| && CountedSoFar(t.Contents(), t.numKeys, words, i, results)
    modifies t, t.keys, t.frequencies, t.stats
    ensures t.Valid() && CountedSoFar(t.Contents(), t.numKeys, words, i + 1, results')
  {
    ghost var contents, numKeys := t.Contents(), t.numKeys;
    if words[i] !in contents {
      RoomForNext(contents, numKeys, words, i, results);
    }
    var r := Put(t, words[i]);
    CountedStep(contents, numKeys, words, i, results, t.Contents(), t.numKeys, r);
    results' := results + [r];
  }

  /**
   * Counting a word list into an empty linear-probing table with room for
   * all its distinct words: the k-th insert returns how many times words[k]
   * has occurred up to and including position k, and afterwards the table
   * holds exactly the words, each with its number of occurrences, one key
   * per distinct word.
   */
  method CountWords(t: HTable.Table, words: seq<string>) returns (results: seq<int>)
    requires t.Valid() && t.hashing == LinearProbing && t.numKeys == 0
    requires forall v :: v !in t.Contents()
    requires |Distinct(words)| <= t.capacity
    modifies t, t.keys, t.frequencies, t.stats
    ensures t.Valid()
    ensures |results| == |words| && RunningCounts(results, words)
    ensures HoldsCounts(t.Contents(), words)
    ensures t.numKeys == |Distinct(words)|
  {
    results := [];
    var i := 0;
    assert words[..0] == [];
    while i < |words|
      invariant t.Valid() && t.hashing == LinearProbing
      invariant CountedSoFar(t.Contents(), t.numKeys, words, i, results)
    {
      results := CountNext(t, words, i, results);
      i := i + 1;
    }
    assert words[..i] == words;
  }

  /** A list of pairwise different words has as many distinct words as entries. */
  lemma {:induction false} DistinctWords(words: seq<string>)
    requires forall i, j :: 0 <= i < j < |words| ==> words[i] != words[j]
    ensures |Distinct(words)| == |words|
  {
    if words != [] {
      var n := |words| - 1;
      var init := words[..n];
      DistinctWords(init);
      assert words == init + [words[n]];
      assert words[n] !in init by {
        forall k | 0 <= k < n ensures init[k] != words[n] {
          assert init[k] == words[k];
        }
      }
      DistinctSnoc(init, words[n]);
    }
  }

  /** In a list of pairwise different words, each running count is 1. */
  lemma FirstOccurrences(words: seq<string>, k: nat)
    requires forall i, j :: 0 <= i < j < |words| ==> words[i] != words[j]
    requires k < |words|
    ensures multiset(words[..k + 1])[words[k]] == 1
  {
    PrefixSnoc(words, k);
    assert words[k] !in words[..k] by {
      forall i | 0 <= i < k ensures words[..k][i] != words[k] {
        assert words[..k][i] == words[i];
      }
    }
  }

  /** In a list made of one word repeated, the first `n` entries hold it `n` times. */
  lemma {:induction false} RepeatCount(words: seq<string>, w: string, n: nat)
    requires n <= |words| && forall i :: 0 <= i < |words| ==> words[i] == w
    ensures multiset(words[..n])[w] == n
  {
    if n > 0 {
      RepeatCount(words, w, n - 1);
      PrefixSnoc(words, n - 1);
    }
  }

  /** Inserting one word k times returns 1, 2, ..., k. */
  lemma RepeatedWord(results: seq<int>, words: seq<string>, w: string)
    requires |results| <= |words| && RunningCounts(results, words)
    requires forall i :: 0 <= i < |words| ==> words[i] == w
    ensures forall k :: 0 <= k < |results| ==> results[k] == k + 1
  {
    forall k | 0 <= k < |results| ensures results[k] == k + 1 {
      RepeatCount(words, w, k + 1);
    }
  }

  /**
   * A linear-probing table of capacity |words| takes each of |words| distinct
   * words (every insert returns 1), ends with num_keys == capacity, and then
   * refuses a further new word with 0.
   */
  method FillToCapacity(words: seq<string>, extra: string) returns (results: seq<int>, numKeys: int, refused: int)
    requires |words| >= 2 && extra !in words
    requires forall i, j :: 0 <= i < j < |words| ==> words[i] != words[j]
    ensures |results| == |words| && forall i :: 0 <= i < |results| ==> results[i] == 1
    ensures numKeys == |words| && refused == 0
  {
    var t := new HTable.Table(|words|, LinearProbing);
    DistinctWords(words);
    results := CountWords(t, words);
    forall k | 0 <= k < |results| ensures results[k] == 1 {
      FirstOccurrences(words, k);
    }
    numKeys := t.numKeys;
    refused := Put(t, extra);
  }

  /** A small word list with one repeated word. */
  const Sample: seq<string> := ["a", "b", "a", "c"]

  /** The sample's words differ from one another and from "d". */
  lemma SampleWordsDiffer()
    ensures "a" != "b" && "a" != "c" && "b" != "c" && "d" != "a" && "d" != "b" && "d" != "c"
  {
    assert "a"[0] != "b"[0] && "a"[0] != "c"[0] && "b"[0] != "c"[0];
    assert "d"[0] != "a"[0] && "d"[0] != "b"[0] && "d"[0] != "c"[0];
  }

  /** The sample has three distinct words. */
  lemma SampleDistinct()
    ensures |Distinct(Sample)| == 3
  {
    SampleWordsDiffer();
    assert Distinct(Sample) == {"a", "b", "c"};
  }

  /** The prefixes of the sample and the count of each one's last word. */
  lemma SamplePrefixCounts()
    ensures multiset(Sample[..1])[Sample[0]] == 1
    ensures multiset(Sample[..2])[Sample[1]] == 1
    ensures multiset(Sample[..3])[Sample[2]] == 2
    ensures multiset(Sample[..4])[Sample[3]] == 1
  {
    SampleWordsDiffer();
    assert Sample[..1] == ["a"];
    assert Sample[..2] == ["a", "b"];
    assert Sample[..3] == ["a", "b", "a"];
    assert Sample[..4] == Sample;
  }

  /** The running counts of the sample are 1, 1, 2, 1. */
  lemma SampleRunningCounts(results: seq<int>)
    requires |results| == 4 && RunningCounts(results, Sample)
    ensures results == [1, 1, 2, 1]
  {
    SamplePrefixCounts();
  }

  /** The sample holds "a" twice, "b" once and no "d". */
  lemma SampleCounts()
    ensures multiset(Sample)["a"] == 2 && multiset(Sample)["b"] == 1 && multiset(Sample)["d"] == 0
  {
    SampleWordsDiffer();
    assert multiset(Sample) == multiset{"a", "a", "b", "c"};
  }

  /** A dictionary holding the sample's counts maps "a" to 2 and "b" to 1, and lacks "d". */
  lemma SampleHoldsCounts(contents: map<string, int>)
    requires HoldsCounts(contents, Sample)
    ensures "a" in contents && contents["a"] == 2 && "b" in contents && contents["b"] == 1 && "d" !in contents
  {
    SampleCounts();
  }

  /**
   * A table of capacity 7 with linear probing, fed "a", "b", "a", "c": the
   * inserts return 1, 1, 2, 1; afterwards "a" has count 2, "b" count 1, "d"
   * is not found, and three distinct keys are stored.
   */
  method EndToEnd() returns (inserts: seq<int>, a: int, b: int, d: int, numKeys: int)
    ensures inserts == [1, 1, 2, 1]
    ensures a == 2 && b == 1 && d == 0 && numKeys == 3
  {
    var t := new HTable.Table(7, LinearProbing);
    SampleDistinct();
    inserts := CountWords(t, Sample);
    SampleRunningCounts(inserts);
    SampleHoldsCounts(t.Contents());
    a := t.Search("a");
    b := t.Search("b");
    d := t.Search("d");
    numKeys := t.numKeys;
  }
}
