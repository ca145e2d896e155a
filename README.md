# Word-frequency hash tables, modelled in Dafny

The system counts words in fixed-capacity open-addressing hash tables. The core
consists of three C files:

- `htable.c` is a table of words and their frequencies.
  - It resolves collisions by linear probing (step 1) or by double hashing
    (step `1 + h mod (capacity - 1)`).
  - Its probe walk is capped at `capacity` probes.
  - `stats` records how many probes each new key needed, in insertion order.
  - `print_stats_line`/`htable_print_stats` summarise the first entries of
    `stats` at fill checkpoints.
- `dhtable.c` is an older variant of the table. It always uses double hashing
  and keeps no statistics.
- `mylib.c` supplies `next_prime`, used to size a table, and `getword`, the
  tokeniser that feeds words to the table.

The Dafny modules follow those files:

- `WordHash` holds the hash fold and the step size. htable.c and dhtable.c
  define identical `static` copies of both.
- `Probing` states the open-addressing discipline on values: the probe walk,
  where it stops, the table invariant, and what an insert does (`Inserted`).
  It then proves what insert and search promise about that walk.
- `HTable.Table` and `DHTable.Table` are classes over arrays. Their methods
  update `keys`, `frequencies`, `stats` and `numKeys` in place with the
  source's loops. Each method is proved against the `Probing` functions.
- `MyLib` holds `NextPrime` (the two nested loops) and `GetWord`, which writes
  into an `array<char>` buffer. The `FILE *` stream becomes a character
  sequence plus a cursor.
- `Scenarios` drives the htable.c table the way its word-counting driver does.
  It proves what whole sequences of inserts return.

Two points where the code differs from what a reader might expect; the model
follows the code:

- next_prime's doc comment (mylib.c:71) promises the smallest prime greater than
  `x`. The code returns `x` itself when `x` is an odd prime: 113 gives 113. It
  skips even numbers without testing them, so next_prime(2) == 3, and for
  `x <= 1` the trial loop never runs: next_prime(1) == next_prime(0) == 1,
  which is not prime.
- htable_new does not check its capacity. The model requires
  `capacity >= 2`, since htable_step divides by `capacity - 1`.

## Model

| member | source | states |
|---|---|---|
| WordHash.Hash | htable.c:37-44 | the hash is the left fold `c + 31 * h` over the word's characters from 0, in unsigned 32-bit arithmetic; every hash is below 2^32 |
| WordHash.HashSnoc | htable.c:40-42 | appending one character performs exactly one step `(c + 31 * h) mod 2^32` of the fold |
| WordHash.WordToInt | htable.c:37-44 | the loop over the word's characters returns exactly `Hash(word)`, below 2^32 |
| WordHash.Step | htable.c:54-56 | for `capacity >= 2` the double-hashing step lies in [1, capacity - 1] (dhtable.c:23-25 is the same function) |
| Probing.ProbeStep | htable.c:112-116 | the step between probes is 1 under linear probing and htable_step under double hashing, in [1, capacity - 1] either way |
| Probing.Home | htable.c:108 | the first slot tried, `wordint % capacity`, is a valid slot (also htable.c:186, dhtable.c:50 and 91) |
| Probing.WalkStep | htable.c:110-116 | the step a word's walk uses is in [1, capacity - 1], and 1 under linear probing |
| Probing.ProbePos | htable.c:113-115 | every probe position, `pos := (pos + step) % capacity` repeated, is a valid slot |
| Probing.ProbePosClosedForm | htable.c:111-118 | after k probes the walk is at `(home + k * step) mod capacity` |
| Probing.ProbeCycle | dhtable.c:54-57 | whatever the step, `capacity` probes bring the walk back to its starting slot |
| Probing.LinearProbeReaches | htable.c:112-113 | with step 1 every slot is visited within the first `capacity` probes |
| Probing.FirstStopFrom | htable.c:111 | the probe count at which the loop stops: every earlier probe met a slot holding another key, and the stop (unless the cap) is empty or holds the word |
| Probing.Blocked | htable.c:111 | the loop's continue test without the cap: the slot holds a key that differs from the word (also htable.c:189, dhtable.c:54 and 94) |
| Probing.Walk | htable.c:111-118 | the number of probes the loop makes, at most `capacity`: every probe before it met a slot holding another key, and below the cap the probe it stops at does not |
| Probing.StopSlot | htable.c:111-118 | the slot the loop stops at (`insert_pos`, `search_pos`): below the cap it is empty or holds the word |
| Probing.FirstStopFromIs | htable.c:111-118 | the probe count is determined by which probes are blocked: a count that satisfies the loop's exit condition is the count |
| Probing.WalkIs | htable.c:111-118 | a loop that stepped over `i` blocked slots and then met an unblocked slot or the cap has made exactly `Walk` probes |
| Probing.CappedWalkIsBlocked | htable.c:131-133 | a walk that uses all `capacity` probes stops at its home slot, which holds another key, so insert takes the give-up branch |
| Probing.EmptyStopIsEarly | htable.c:122-127 | a walk that stops at an empty slot stopped before the probe cap |
| Probing.LinearCappedWalkMeansFull | htable.c:103-104 | under linear probing a walk reaches the cap only when every slot is occupied |
| Probing.ReachableIsUnique | htable.c:111-127 | if every key sits where its own walk stops, no word is stored twice |
| Probing.WalkOutcome | htable.c:183-202 | a word is stored exactly when its walk stops before the cap on a slot holding it, and then its frequency is that slot's; an absent word's walk stops at an empty slot or at the cap |
| Probing.FullTableWalk | htable.c:131-133 | when every slot is occupied, the walk for an absent word always reaches the cap |
| Probing.FillWalkOfOther | htable.c:122-124 | filling the empty slot where one word's walk stopped leaves every stored key's walk, and where it stops, unchanged |
| Probing.FillKeepsReachable | htable.c:122-127 | storing an absent word where its walk stopped keeps every key reachable, the new one included |
| Probing.UniqueAfterFill | htable.c:122-124 | storing an absent word in an empty slot keeps the keys unique |
| Probing.ContentsAfterFill | htable.c:122-127 | storing an absent word in an empty slot with frequency f adds exactly that word, with f, to the dictionary |
| Probing.ContentsAfterCount | htable.c:128-130 | changing one occupied slot's frequency changes only that word's entry in the dictionary |
| Probing.OccupiedNone | htable.c:68-77 | a table with every slot empty has no occupied slot |
| Probing.OccupiedAfterFill | htable.c:122-126 | filling an empty slot raises the number of occupied slots by exactly one, as `num_keys++` does |
| Probing.OccupiedFull | htable.c:103-104 | the occupied slots number `capacity` exactly when every slot is occupied, the table being full |
| Probing.OccupiedSlots | htable.c:144-152 | the slots print visits are occupied and listed in strictly increasing order |
| Probing.OccupiedSlotsComplete | htable.c:144-152 | every occupied slot is listed, and there are as many of them as occupied slots |
| Probing.Inserted | htable.c:106-134 | insert on values changes at most the slot where the walk stopped; no other key or frequency changes |
| Probing.InsertNewKeepsInvariant | htable.c:122-127 | a walk stopping at an empty slot means the word is absent and `num_keys < capacity`; storing it with frequency 1 keeps the invariant with num_keys + 1 and adds exactly the word with count 1 |
| Probing.InsertCountKeepsInvariant | htable.c:128-130 | a walk stopping at the word's slot means the word is stored with that slot's frequency; incrementing it keeps the invariant |
| Probing.InsertFullFacts | htable.c:131-133 | a capped walk means the word is absent; under linear probing it means the table is full; a full table caps the walk of every absent word |
| Probing.InsertKeepsInvariant | htable.c:106-134 | every insert keeps the table invariant: keys reachable and unique, frequencies at least 1 exactly on occupied slots, `num_keys` equal to the occupied count, which grows exactly when an empty slot is filled |
| Probing.InsertReturns | htable.c:103-134 | the result is 0 exactly when the word is absent and the walk hits the cap; otherwise the word's new count (1 for a new word); a full table refuses every new word, and under linear probing only a full table does |
| Probing.InsertFillContents | htable.c:122-127 | an insert whose walk stops at an empty slot returns 1 and adds the word with count 1 to the dictionary |
| Probing.InsertCountContents | htable.c:128-130 | an insert whose walk finds the word raises its dictionary count to the result |
| Probing.InsertUpdatesContents | htable.c:106-134 | seen as a dictionary, insert changes only the word's entry, to the result, and a result of 0 changes nothing at all |
| Probing.EmptyTableWalk | htable.c:107-111 | in an empty table a word's walk stops at once at `hash mod capacity`, under either strategy |
| HTable.CDiv | htable.c:215 | C's truncating `/`: Euclidean division for a non-negative dividend, never positive for a negative one |
| HTable.AtHome | htable.c:223-225 | the entries placed without collision number at most the entries counted |
| HTable.Total | htable.c:229 | the sum of the entries, accumulated as `average_collisions` is; non-negative when every entry is |
| HTable.MaxCollisions | htable.c:226-228 | the running maximum from 0 bounds every entry and is 0 or one of the entries |
| HTable.StatsLine | htable.c:214-236 | print_stats_line on the log: a line exactly when `0 < capacity * p / 100 <= num_keys`, carrying `p`, `current_entries`, an at-home count at most `current_entries` and a maximum bounding each of the first `current_entries` entries |
| HTable.Checkpoint | htable.c:262-263 | the checkpoint `100 * i / num_stats` is a percentage in [0, 100] for i in 0..num_stats, and 100 for the last |
| HTable.Report | htable.c:254-266 | the lines htable_print_stats reports for checkpoints 1..k, in order: at most one per checkpoint |
| HTable.TotalBounds | htable.c:229 | the sum of entries in [0, m] lies in [0, n * m]: the average never exceeds the maximum |
| HTable.StatsLineFacts | htable.c:214-236 | a line is reported exactly when `0 < capacity * p / 100 <= num_keys`; it covers the first `current_entries` entries of the log, with the at-home count at most that, the maximum bounding each entry, and the sum of exactly those entries |
| HTable.CheckpointsRise | htable.c:262-263 | the checkpoints `100 * i / num_stats` never decrease, stay within [0, 100], and the last is 100 |
| HTable.ReportOrdered | htable.c:254-266 | the report has at most one line per checkpoint, in non-decreasing order of percentage |
| HTable.FullTableSingleSnapshot | htable.c:262-263 | with one snapshot on a full table, exactly one line is reported, at 100 percent, covering every entry |
| HTable.Table.constructor | htable.c:68-77 | a new table has the given capacity and strategy, every slot empty with frequency 0, no keys and an empty log, and satisfies the invariant |
| HTable.Table.Probe | htable.c:107-118 | the probe loop stops at `StopSlot` after exactly `Walk` probes |
| HTable.Table.Store | htable.c:120-134 | writes the probe count at stats[num_keys] when in bounds, then keys, frequencies and result become those of `Inserted`; num_keys grows exactly when the slot was empty; earlier log entries are untouched |
| HTable.Table.Insert | htable.c:106-134 | keeps the invariant; the result is 0 exactly when the word is absent and the walk hits the cap (linear probing: only when full), then keys and frequencies are unchanged; the stored count + 1 for a present word; 1 for a new word; the dictionary changes only at the word; the new key's probe count is appended to the log, whose earlier entries never change |
| HTable.Table.Search | htable.c:183-202 | read-only; returns the word's frequency when it is stored, 0 otherwise |
| HTable.Table.Print | htable.c:144-152 | one (frequency, key) call per occupied slot in increasing slot order, `num_keys` calls in all, each a stored word with its frequency |
| HTable.Table.PrintStatsLine | htable.c:214-236 | the guard and the counts from `Summarise` are exactly `StatsLine` on the log |
| HTable.Table.Summarise | htable.c:222-230 | the loop over the first `n` logged probe counts yields their at-home count, their sum and their maximum (from 0) |
| HTable.Table.PrintStats | htable.c:254-266 | the lines printed are exactly the report for checkpoints 1..num_stats |
| DHTable.Table.constructor | dhtable.c:27-34 | a new table has the given capacity, every slot empty with frequency 0 and no keys, and satisfies the invariant |
| DHTable.Table.Probe | dhtable.c:49-57 | the double-hashing probe loop stops at `StopSlot` after exactly `Walk` probes |
| DHTable.Table.Store | dhtable.c:58-69 | keys, frequencies and result become those of `Inserted`; num_keys grows exactly when the slot was empty |
| DHTable.Table.Insert | dhtable.c:48-70 | keeps the invariant; 1 and one more key for a new word reaching an empty slot; the incremented count for a present word, only its slot changing; 0 with nothing changed when the walk hits the cap, which a full table always causes for a new word |
| DHTable.Table.Print | dhtable.c:72-86 | the (frequency, key) pairs of exactly the occupied slots, in increasing slot order, each key copied character by character, `num_keys` of them |
| DHTable.Table.Search | dhtable.c:88-103 | read-only; returns the word's frequency when it is stored, 0 otherwise |
| MyLib.OddDivisorFound | mylib.c:84-89 | a divisor that the inner loop finds really divides `x` and lies below it |
| MyLib.OddDivisorFinds | mylib.c:84-89 | the inner loop finds every odd divisor at or after its start |
| MyLib.HasOddDivisorFrom | mylib.c:84-90 | the inner trial loop from `i` in steps of 2: its meaning, a divisor of `x` in [i, x) stepping from `i`, is the pair of lemmas OddDivisorFound and OddDivisorFinds |
| MyLib.TrialPrime | mylib.c:80-90 | the test a pass of the outer loop applies: odd and no odd trial divisor from 3; TrialPrimeIsPrime proves it is primality from 3 on |
| MyLib.TrialPrimeIsPrime | mylib.c:79-92 | from 3 on, passing next_prime's trial (odd, no odd divisor from 3) is being prime |
| MyLib.TrialUpToSquareRoot | mylib.c:84-90 | an odd number with no odd divisor below a bound whose square exceeds it passes the whole trial |
| MyLib.PrimeAbove | mylib.c:79-92 | there is a prime above every number at least 2, so the outer loop has a bound |
| MyLib.TrialPrimeAtOrAbove | mylib.c:79-92 | some number at or after any `x` passes the trial, so the outer loop ends |
| MyLib.NextPrime | mylib.c:77-94 | returns the first number at or after `x` that passes the trial; it is odd; it is prime from 2 on; from 3 on no number from `x` below it is prime; for `x <= 1` it is `x` or `x + 1`, whichever is odd |
| MyLib.LeastTrialPrimeFacts | mylib.c:71-94 | the first number at or after `x` passing the trial is odd, prime from 2 on, the smallest prime at least `x` from 3 on, and `x` or `x + 1` for `x <= 1` |
| MyLib.NextPrimeOfPrime | mylib.c:77-94 | next_prime(113) is 113 itself, not the next prime after it |
| MyLib.NextPrimeSkips | mylib.c:77-94 | next_prime(114) is 127 |
| MyLib.NextPrimeSmall | mylib.c:80-90 | next_prime(2) is 3, and next_prime(1) and next_prime(0) are 1 |
| MyLib.ToLower | mylib.c:56 | tolower leaves no upper-case letter and keeps letters and digits letters and digits |
| MyLib.IsAlnum | mylib.c:51 | isalnum in the C locale: an ASCII letter or digit |
| MyLib.InWord | mylib.c:59-61 | a character the word loop goes on over: a letter or digit (written) or an apostrophe (skipped) |
| MyLib.Letters | mylib.c:59-60 | the letters and digits of a segment, lowercased, in order: never longer than the segment, and all lower-case alphanumerics |
| MyLib.SegmentSnoc | mylib.c:59-65 | one more character joins the word's run exactly when it is a letter, digit or apostrophe, and adds itself lowercased exactly when it is a letter or digit |
| MyLib.FirstAlnum | mylib.c:51-52 | the skip loop stops at the first letter or digit at or after the cursor, or at the end of the input |
| MyLib.WordRead | mylib.c:55-68 | the outcome of reading a word from its first letter: with limit 1 that letter consumed and nothing written; otherwise the lowercased letters and digits of a run of word characters, ended by reaching `limit - 1` letters, by the end of input, or by a consumed non-word character |
| MyLib.WordReadLetters | mylib.c:56-60 | whatever way reading stopped, every written character is a lower-case letter or digit |
| MyLib.FirstLetter | mylib.c:55-57 | the first letter or digit of a word is consumed and written lowercased |
| MyLib.Getc | mylib.c:51 | getc returns the next character and advances the cursor, or reports the end of the input without moving |
| MyLib.ReadWord | mylib.c:55-68 | given the letter or digit the skip loop read (not read again), writes the word lowercased and NUL-terminated, fewer than `limit` characters, stopping as `WordRead` says (limit 1: nothing written, one character consumed); the buffer beyond the NUL is untouched |
| MyLib.ReadRun | mylib.c:58-66 | the loop ends with the word read to the limit, to the end of the input, or to (and past) a character outside words, as `WordRead` says |
| MyLib.ReadStep | mylib.c:59-65 | one pass writes a letter or digit lowercased, skips an apostrophe without spending the limit, or ends the word at the end of input or a consumed non-word character |
| MyLib.GetWord | mylib.c:45-69 | EOF exactly when no letter or digit remains, leaving the buffer alone; otherwise fewer than `limit` lower-case letters and digits, NUL-terminated, apostrophes dropped, the word starting at the first letter or digit and ending as `WordRead` says; the count written is returned |
| Scenarios.DistinctSnoc | hash.c:24-26 | appending a word adds it to the distinct words, whose number grows exactly when it is new |
| Scenarios.DistinctPrefix | hash.c:24-26 | a prefix of the input has no more distinct words than the whole input |
| Scenarios.Put | htable.c:106-134 | seen word by word: a present word's count rises by one; a new word gets 1 when its walk reaches an empty slot, else 0, which under linear probing happens exactly when the table is full; every other word keeps its count |
| Scenarios.HoldsCountsSnoc | hash.c:24-26 | bumping one word's count (or adding it with 1) and nothing else counts one more occurrence of it |
| Scenarios.RunningCountsSnoc | hash.c:24-26 | the result of counting the next word extends the running counts |
| Scenarios.CountedStep | htable.c:106-134 | one counting insert keeps the loop state: the dictionary holds the occurrence counts seen so far, `num_keys` the distinct words seen, the results the running counts |
| Scenarios.RoomForNext | htable.c:103-104 | when every distinct word fits, a new word arrives while `num_keys` is below capacity, so it is never refused |
| Scenarios.CountNext | htable.c:106-134 | one insert of the next word keeps the table valid and the counting state |
| Scenarios.CountWords | htable.c:106-134 | counting a word list into an empty linear-probing table with room: the k-th insert returns how often words[k] has occurred so far; afterwards every word is held with its number of occurrences and `num_keys` is the number of distinct words |
| Scenarios.DistinctWords | hash.c:24-26 | pairwise different words are as many distinct words as entries |
| Scenarios.FirstOccurrences | hash.c:24-26 | in a list of pairwise different words every running count is 1 |
| Scenarios.RepeatCount | hash.c:24-26 | a list of one word repeated holds it n times in its first n entries |
| Scenarios.RepeatedWord | htable.c:128-130 | inserting one word k times returns 1, 2, ..., k |
| Scenarios.FillToCapacity | htable.c:103-104 | a linear-probing table takes `capacity` distinct words, each insert returning 1, ends with `num_keys == capacity`, and refuses a further new word with 0 |
| Scenarios.SampleRunningCounts | hash.c:24-26 | the running counts of "a", "b", "a", "c" are 1, 1, 2, 1 |
| Scenarios.SampleHoldsCounts | hash.c:24-26 | a dictionary holding the counts of "a", "b", "a", "c" maps "a" to 2 and "b" to 1 and lacks "d" |
| Scenarios.EndToEnd | htable.c:106-134 | a capacity-7 linear-probing table fed "a", "b", "a", "c" returns 1, 1, 2, 1; search then gives 2 for "a", 1 for "b", 0 for "d"; three keys are stored |

## Left out

- Memory management is not modelled: `emalloc`/`erealloc` (mylib.c:12-34), allocation failure and process exit, and `htable_free` in both tables.
- A stored key is modelled as a full copy of the word. htable.c:123 and dhtable.c:59 allocate `sizeof str` (pointer-sized) bytes, which overflows for long words.
- The arrays from `malloc` are uninitialised in the source. The model starts every slot empty with frequency 0, and every stats entry at 0.
- Search on a word whose walk stops at an empty slot returns that slot's frequency. It returns 0 only because of the all-zero start above.
- HTable.Table.Store: does not write `stats[num_keys]` when `num_keys == capacity`. At that point the source writes one past the end of the array (htable.c:120).
- Both tables require `capacity >= 2`: `htable_step` divides by `capacity - 1`, and the source does not check it.
- HTable.Table.PrintStatsLine: returns the integer at-home count, sum and maximum, not the printed floating-point percentage and average (htable.c:216, 229, 233-234). The row's fields determine both.
- Output formatting is not modelled.
  - `fprintf` layout and headers in htable_print_stats are left out.
  - htable_print's callback becomes the list of calls it receives.
  - dhtable.c's htable_print becomes the list of (frequency, key) pairs it writes.
- htable_print_entire_table (htable.c:161-172) is left out: it only formats a dump, and it prints insertion-ordered `stats` by slot index.
- The hash assumes ASCII characters. A signed `char` above 127 would enter the fold negative.
- `isalnum`/`tolower` are modelled in the C locale.
- MyLib.NextPrime: does not model `int` overflow near `INT_MAX`. The model's integers are unbounded.
- C `int` width is not modelled in the tables either; the model's integers are unbounded.
  - `frequencies[insert_pos]++` (htable.c:129, dhtable.c:65) can overflow after `INT_MAX` inserts of one word.
  - `num_keys++` (htable.c:126) is bounded by the capacity, so it cannot overflow.
  - `h->capacity * percent_full` (htable.c:215) can overflow for capacities above `INT_MAX / 100`.
- Keys are modelled as Dafny strings, which may contain `'\0'`. In C a key ends at its first NUL: htable_word_to_int stops there (htable.c:40) and `strcmp` compares only up to it (htable.c:111, 128). So "a\0b" and "a" are one key in C and two in the model. Words from getword never contain a NUL.
- getword reads an in-memory character sequence with a cursor instead of a `FILE *`. Read errors are not modelled; end of input is the only EOF.
- The command-line drivers asgn.c and hash.c are not part of this model beyond their counting loop (hash.c:24-26, asgn.c:33-35). Their argument parsing and stdin/stdout I/O are left out, and asgn.c does not compile. `Scenarios.CountWords` follows that loop on a word list, and the Scenarios lemmas citing hash.c:24-26 state the reference counts (distinct words, running and total occurrence counts) its results are checked against.
- mylib.h holds declarations only. htable.h is not part of this model.
