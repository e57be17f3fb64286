# WordMaster in Dafny

WordMaster is a console vocabulary trainer. Two parallel text files list
English words and their Russian translations line by line. The trainer asks
for translations, keeps per-word progress in a JSON file and decides which
words come up in a session. It exists in three standalone versions, and this
project models the scheduling core of each as pure functions over immutable
records:

- `scheduler3.dfy` (module `Scheduler3`, WordMaster3.0.py): the score/interval
  scheduler. A session reviews the due, unlearned words. At most five hard
  words come first, and the session holds at most ten words. A right answer
  raises the score and the interval by one. A wrong one lowers the score,
  marks the word hard and sets the interval back to one day. A word reaching
  score 4 is learned for good.
- `scheduler2.dfy` (module `Scheduler2`, WordMaster2.0.py): the SM-2-style
  scheduler. A session takes at most 15 due words with no repetitions (never
  passed, or not passed since their last miss, which resets the count) and
  every other due word, the hard ones twice. It shuffles this list and asks at most
  50 entries. A pass multiplies the interval by the ease and raises the ease
  by 0.1. A miss resets the word. This module also models the progress
  counts and the ranking of the hardest words.
- `drill.dfy` (module `Drill`, WordMaster.py): the linear drill. A batch of
  ten words is cut from the front of the vocabulary. Words are picked at
  random, weighted by how badly they are known. A right answer resets a
  word's mistake count, so a word missed three times in a row becomes hard
  and, until its next right answer, gets a first-letter hint. A word reaching score 5 is
  removed from the batch, the hard words and both vocabulary files. The
  script's module-level code is lifted into functions over an explicit
  `State`.
- `vocabulary.dfy` (module `Vocabulary`): reading the two word files.
  Lines are stripped the way Python's `str.strip()` strips. Blank lines are
  dropped, except by the linear drill. The two lists must come out the same
  length.
- `common.dfy` (module `Common`): the Python list and dict behaviour the
  three versions rely on:
  - `Option`/`Result`;
  - duplicate-free listings;
  - filtering and weighted repetition;
  - `zip`;
  - a dict built by successive assignment (`DictOf`), and its items in
    first-insertion order (`ItemsOf`);
  - `list.index`/`list.pop`.

Days are integer day numbers, and `today` is a parameter. Each
`random.shuffle` is a caller-supplied order, constrained only to list the
same elements. `random.choice` is a caller-supplied number `pick`, and the
chosen entry is `pool[pick % |pool|]`. The learner's answers are a sequence
of booleans: whether each answer was judged right.

## Model

| member | source | states |
|---|---|---|
| Common.DictOfValue | WordMaster3.0.py:34-35 | a dict built by assigning the pairs in turn maps each key to the value of its last assignment |
| Common.ItemsOfMatchesDictOf | WordMaster.py:26 | the insertion-ordered items of `dict(zip(...))` describe the same dict as the assignments |
| Common.WeightedCount | WordMaster2.0.py:69-72 | in the list extended by `[w] * weight(w)` over a duplicate-free list, each word occurs exactly its weight times, and words not listed never occur |
| Common.ItemsOfOrder | WordMaster.py:44 | the items of a dict built by assignment come in the order in which their keys were first assigned |
| Common.ItemsOfDistinct | WordMaster.py:44 | when no key is assigned twice, the items are the assigned pairs themselves |
| Common.ZipItemsOrder | WordMaster.py:26 | `dict(zip(a, b))` lists its keys in the order of their first position in `a`, and is the zipped list when `a` has no repeats |
| Common.FilterOrdered | WordMaster2.0.py:114 | a comprehension that drops some entries of a duplicate-free list keeps the others in their order |
| Common.FirstIndex | WordMaster.py:101 | `list.index` gives a position holding the word with no earlier occurrence |
| Common.RemoveAt | WordMaster.py:102-103 | `list.pop(i)` shortens the list by one, keeps the entries before `i` and shifts the later ones down |
| Common.ZipRemoveAt | WordMaster.py:100-103 | popping the same index from two parallel lists removes exactly that pair and keeps every other pair, in order |
| Vocabulary.Strip | WordMaster3.0.py:20 | `strip()` gives a string with no whitespace at either end, no longer than the input |
| Vocabulary.StripShape | WordMaster3.0.py:20 | what `strip()` removes is whitespace, and only at the two ends |
| Vocabulary.StripIdempotent | WordMaster3.0.py:20 | stripping twice is stripping once |
| Vocabulary.StripBlank | WordMaster3.0.py:20 | a line strips to the empty string exactly when it is whitespace only |
| Vocabulary.CleanLines | WordMaster3.0.py:20-22 | the cleaned list is no longer than the file, and every entry is non-empty and stripped |
| Vocabulary.CleanLinesIsStripOfNonBlank | WordMaster3.0.py:20-22 | the cleaned list is exactly the non-blank lines, stripped, in file order |
| Vocabulary.CleanLinesIdempotent | WordMaster3.0.py:20-22 | cleaning a cleaned list changes nothing |
| Vocabulary.CheckPaired | WordMaster2.0.py:31-33 | loading fails exactly when the two lists differ in length, reporting both lengths, and otherwise returns them unchanged |
| Vocabulary.LoadWords | WordMaster3.0.py:18-26 | loading succeeds exactly when the two files have equally many non-blank lines; the lists are the stripped non-blank lines, equally long, with no empty entries |
| Vocabulary.LoadAllLines | WordMaster.py:16-24 | the drill keeps every line, stripped, so loading succeeds exactly when the raw line counts agree |
| Scheduler3.InitData | WordMaster3.0.py:34-43 | every English word of the zipped lists gets a record with score 0, interval 1, review today, no mistakes, not hard, not learned; all records are valid |
| Scheduler3.InitDataTranslation | WordMaster3.0.py:34-36 | a word gets the translation from its last listing |
| Scheduler3.LoadData | WordMaster3.0.py:50-55 | a saved store is used as it is; otherwise the store is built from the files, or loading fails exactly when the files' non-blank line counts differ |
| Scheduler3.DuePartition | WordMaster3.0.py:67-68 | the hard and the normal due words are disjoint and together make up the due words |
| Scheduler3.HardFirstFacts | WordMaster3.0.py:67-74 | `hard[:5] + normal` has no repeats, holds only due words, and is hard exactly in its first min(5, #hard due) places |
| Scheduler3.SelectWords | WordMaster3.0.py:58-75 | the session holds min(10, min(5, #hard due) + #normal due) words, all due and unlearned, none twice, the hard ones first; it is empty exactly when nothing is due |
| Scheduler3.SmallDueSetFullyReviewed | WordMaster3.0.py:74-75 | with at most 5 hard and at most 10 due words, the session lists every due word exactly once |
| Scheduler3.FreshStoreFullyReviewed | WordMaster3.0.py:61-75 | a store just built from at most ten words is reviewed completely on its first day |
| Scheduler3.Update | WordMaster3.0.py:78-95 | a right answer raises score and interval by one, clears the mistakes and the hard mark; a wrong one lowers the score to no less than 0, counts a mistake, marks hard and resets the interval to 1; the translation is kept; the next review is `interval` days after today, so the word is no longer due; learned is set from score 4 on and never cleared; valid unlearned records stay valid |
| Scheduler3.UpdateWord | WordMaster3.0.py:78-95 | only the answered word's record changes |
| Scheduler3.LastRightAnswerRetires | WordMaster3.0.py:94-95 | the right answer that brings the score to 4 makes the word learned, and no later session contains it |
| Scheduler3.ThreeMisses | WordMaster3.0.py:86-92 | three misses in a row leave a word hard, three mistakes up, due again tomorrow, not learned |
| Scheduler3.ShowStats | WordMaster3.0.py:99-102 | the counts are the number of words, learned words and hard words, with learned <= total and hard <= total |
| Scheduler3.FreshStats | WordMaster3.0.py:100-102 | a freshly built store has no learned and no hard word |
| Scheduler3.RunSession | WordMaster3.0.py:122-134 | answering the session keeps the set of words, and the words not in the session are left as they were |
| Scheduler3.RunSessionUpdatesEachOnce | WordMaster3.0.py:122-134 | in a session without repeats each word ends with exactly one update, the one for its own answer |
| Scheduler3.RunSessionKeepsValid | WordMaster3.0.py:122-134 | a session of unlearned words, none twice, keeps every record valid |
| Scheduler3.Main | WordMaster3.0.py:110-139 | nothing to review happens exactly when no word is due; otherwise the store keeps its words and every word not due is unchanged |
| Scheduler3.MainKeepsValid | WordMaster3.0.py:110-139 | after a session every record of a valid store is still valid, and a word still due today was not asked |
| Scheduler2.InitializeData | WordMaster2.0.py:35-47 | every English word of the zipped lists gets ease 2.5, interval 1, no repetitions, review today, not hard, no mistakes; all records are valid |
| Scheduler2.InitializeDataTranslation | WordMaster2.0.py:38-40 | a word gets the translation from its last listing |
| Scheduler2.LoadData | WordMaster2.0.py:52-58 | a saved store is used as it is; otherwise the store is built from the files, or the ValueError is raised exactly when the non-blank line counts differ |
| Scheduler2.NewWords | WordMaster2.0.py:66 | exactly min(15, #due words with no repetitions) new words, each a due word with no repetitions, none twice; when there are at most 15 such words, all of them are taken |
| Scheduler2.CandidateCount | WordMaster2.0.py:66-74 | in the candidate list a new word occurs once, every other due word twice when hard and once otherwise, a word not due never |
| Scheduler2.PoolWordDue | WordMaster2.0.py:69-74 | every candidate is a due word |
| Scheduler2.PoolEmptyIffNothingDue | WordMaster2.0.py:63-74 | the candidate list is empty exactly when no word is due |
| Scheduler2.PrefixOfPool | WordMaster2.0.py:75-76 | any prefix of the shuffled candidates holds only due words, each at most twice, and nothing beyond the candidates |
| Scheduler2.SelectWords | WordMaster2.0.py:61-76 | the session holds min(50, #candidates) entries, all due, within the candidate multiset, no word more than twice, and is empty exactly when nothing is due |
| Scheduler2.TruncTenths | WordMaster2.0.py:93 | `int()` of a tenths value truncates toward zero |
| Scheduler2.Update | WordMaster2.0.py:79-98 | a miss sets repetitions 0, interval 1, hard, one more mistake, same ease; a pass counts a repetition, sets the interval to max(1, int(interval * ease)), raises the ease by 0.1, clears hard and mistakes; the interval is at least 1 and the next review is `interval` days after today, so the word is no longer due; ease never falls; valid records stay valid |
| Scheduler2.PassAtLeastDoubles | WordMaster2.0.py:93 | with ease at least 2.5, a pass at least doubles the interval |
| Scheduler2.UpdateWord | WordMaster2.0.py:79-98 | only the answered word's record changes |
| Scheduler2.ShowProgress | WordMaster2.0.py:101-105 | mastered (passed and not hard) and hard words are disjoint, so mastered + hard <= total and due today <= total |
| Scheduler2.InsertByMistakes | WordMaster2.0.py:114 | inserting into a list sorted by falling mistakes gives a rearrangement of the word plus the list, still sorted |
| Scheduler2.SortByMistakes | WordMaster2.0.py:114 | `sorted(..., key=mistakes, reverse=True)` gives a rearrangement of its input ordered by non-increasing mistakes |
| Scheduler2.InsertKeepsTies | WordMaster2.0.py:114 | inserting into a sorted list keeps the order of the words with any one mistake count, the inserted word ahead of the old ones |
| Scheduler2.SortKeepsTies | WordMaster2.0.py:114 | the sort is stable: for every mistake count, the words with that count come in the same order as in the input, so ties at the cut of `[:TOP_HARD]` are settled by file order |
| Scheduler2.HardList | WordMaster2.0.py:114 | the hard words, each once |
| Scheduler2.HardListOrdered | WordMaster2.0.py:114 | the hard words come in the order of the data file |
| Scheduler2.OmittedBound | WordMaster2.0.py:116 | a word past the cut of a sorted list has no more mistakes than any word before the cut |
| Scheduler2.TopHard | WordMaster2.0.py:113-117 | min(10, #hard) words, all hard, none twice, by non-increasing mistakes, and every hard word left out has no more mistakes than any listed one |
| Scheduler2.RunSession | WordMaster2.0.py:131-143 | answering keeps the set of words, leaves words outside the session alone, leaves every asked word not due today and keeps records valid |
| Scheduler2.RunSessionSplit | WordMaster2.0.py:131-143 | answering a session is answering its first `i` entries and then the rest, starting from the store those left behind |
| Scheduler2.RunSessionLastAnswer | WordMaster2.0.py:131-143 | a word's final record is `update_word` with its last answer, applied to the record it had just before that answer; for a word asked once that is the record it started with |
| Scheduler2.Main | WordMaster2.0.py:121-148 | nothing to review happens exactly when no word is due; otherwise the words are kept, words not due are unchanged, words still due were not asked, and valid records stay valid |
| Drill.EmptySession | WordMaster.py:78 | a session is empty exactly when its list of keys is, which is how the loop tests `words_data` |
| Drill.BatchOf | WordMaster.py:49-52 | the batch lists the items' words in order, each with its translation, score 0 and no mistakes |
| Drill.BatchWellFormed | WordMaster.py:49-52 | the batch's key list enumerates its words, and every record is in range |
| Drill.NextBatch | WordMaster.py:48-52 | a fresh batch is the first min(10, #items) pairs of the vocabulary, in order, each with score 0 and no mistakes |
| Drill.LoadNextSession | WordMaster.py:36-57 | a saved session with words is used as it is; otherwise a fresh batch is cut; there is no session exactly when nothing is saved and the vocabulary is empty; a session returned is never empty |
| Drill.WordWeight | WordMaster.py:69-71 | every weight is at least 1, and a hard word weighs more than the hard bonus |
| Drill.WeightFavoursWeakWords | WordMaster.py:69-71 | a lower score, or being hard, never lowers the weight |
| Drill.PoolCount | WordMaster.py:66-72 | each word of the session occurs in the weighted list exactly its weight times, any other word never |
| Drill.ChooseWord | WordMaster.py:66-73 | on a non-empty session the chosen word is always one of its words |
| Drill.EveryWordChoosable | WordMaster.py:73 | every word of the session is chosen for some pick |
| Drill.Hint | WordMaster.py:82-84 | a hint is shown exactly when the word has at least 3 mistakes and is not empty, and it is the word's first letter |
| Drill.HintAsWritten | WordMaster.py:82-84 | the script's hint fails exactly for the empty word with at least 3 mistakes, and otherwise agrees with `Hint` |
| Drill.Ask | WordMaster.py:79-86 | the question is for a word of the session with its translation; with the corrected hint of "## Findings" it has a hint exactly when that word has at least 3 mistakes and is not empty |
| Drill.Delete | WordMaster.py:95 | deleting a learned word drops only that word, and the other keys keep their order |
| Drill.RemovePair | WordMaster.py:100-103 | a word the vocabulary lists loses the pair at its first position, every other pair staying in order; a word it does not list leaves both lists alone; the lists stay equally long |
| Drill.Answer | WordMaster.py:88-116 | a right answer raises the score and clears the mistakes, leaving the hard words alone; at score 5 it removes the word from the session, the hard words and the vocabulary pair; a wrong answer lowers the score to no less than 0, counts a mistake and adds the word to the hard words from 3 mistakes on; no other word changes; the score range 0..4 is kept |
| Drill.ThreeMissesMakeHard | WordMaster.py:111-116 | a word with no mistakes is not hard after two misses and is hard after the third |
| Drill.FiveRightAnswersRetire | WordMaster.py:88-95 | from score 0 a word survives four right answers and is removed by the fifth |
| Drill.BlankLineEntersBatch | WordMaster.py:17 | a blank vocabulary line becomes the empty word and goes into the first batch |
| Drill.BlankWordHintFails | WordMaster.py:82-84 | after three misses on the empty word the script's hint fails, where the intended hint is empty |
| Drill.Step | WordMaster.py:79-116 | one pass of the loop asks a word of the session and applies the answer, keeping the state consistent and the scores in range |
| Drill.RunDrill | WordMaster.py:76-118 | the k-th question is `Ask` on the state before it with the k-th pick, and the state after it is `Answer` applied to that state, the word asked and the k-th answer (`Drill.Drilled`), from the starting state to the returned one; at most 10 questions; fewer than 10 only when the session ran empty; at least one when it started non-empty; no word is added and scores stay in range |
| Drill.DrilledFacts | WordMaster.py:78-118 | over the whole loop no word is added, every question asks a word of the starting session, and scores stay in range |
| Drill.AllWords | WordMaster.py:26 | the vocabulary items have distinct words, the words of the zipped lists, in the order of each word's first line, and describe `dict(zip(eng, rus))`; with no repeated English word they are the zipped pairs themselves |
| Drill.NoWordsLeft | WordMaster.py:43-46 | the vocabulary has no items exactly when the word lists are empty |
| Drill.SessionToLearn | WordMaster.py:59-63 | the session handed to the loop enumerates its words and is non-empty, and a fresh or in-range saved one has scores in range |
| Drill.Run | WordMaster.py:15-131 | with the corrected hint of "## Findings", loading fails exactly when the two files have different line counts; it finds nothing to learn exactly when no words are saved and the vocabulary is empty; otherwise the loop starts from the loaded session, the stripped hard lines and the stripped word lists, every question and answer steps the state as `Drill.Drilled` says, and it asks between 1 and 10 questions and keeps scores in range |

## Left out

- File and JSON reading and writing. The saved data is an `Option` value passed in. The store or state to be written is the result. The hard-words file is its list of lines, empty when the file is missing.
- When the data is written. The drill writes after every answer and the two schedulers write once after the session. The model returns the final value, and only that, so it does not show that an interrupted scheduler session loses all its answers.
- Splitting a file into lines. Files are given as lists of lines, so a newline is just whitespace that stripping removes.
- Console input and output, ANSI colours, clearing the screen, "press Enter" pauses and `exit()`. Whether an answer was right is a boolean parameter.
- Judging answers with `answer.strip().lower() == word.lower()`: Unicode lower-casing is not modelled.
- Clocks and dates. `datetime.now()` is an integer `today`, and ISO date strings are integer day numbers.
- `random.shuffle` and `random.choice`. They become caller-supplied orders and picks, and only membership, multiplicity and bounds are proved, never a particular order.
- Scheduler2.Update: ease is kept exactly, in tenths. Python adds 0.1 as a float, so IEEE rounding in `int(interval * ease)` (for example 2.8000000000000003 against 2.8) is not captured.
- The percentage formatting in `show_progress`. It divides by the number of words and fails on an empty store. It is output formatting, not a count.
- The printing in `show_top_hard`. Only the list it prints is modelled.
- Sessions with repeats in the SM-2 scheduler. A hard word can be asked twice in the SM-2 scheduler, so no uniqueness is claimed there (`Scheduler2.RunSessionLastAnswer` says which answer decides such a word's record). The interval scheduler never repeats a word (`Scheduler3.SelectWords`).
- The shape of a saved JSON file. Saved records are assumed to have the fields the program writes. A saved drill session comes with its key order, which lists each key once, as JSON object keys are distinct.
- The order in which the drill writes its hard-words set back to disk.
- Drill.Ask: asks with the corrected `Drill.Hint` of "## Findings", so it returns a question without a hint where the script raises IndexError at WordMaster.py:84 (the empty word with 3 or more mistakes). `Drill.HintAsWritten` and `Drill.BlankWordHintFails` model that failure.
- Drill.Step and Drill.RunDrill: they use `Drill.Ask`, so they carry on where the script stops with that IndexError.
- Drill.Run: its failure case covers only the line-count check. With a blank English line and three misses on it, the script itself stops with IndexError at WordMaster.py:84, while the model, using the corrected hint, goes on asking.
- Drill.RunDrill: the loop's emptiness test reads the session's key list instead of the dict. `Drill.EmptySession` shows the two agree on every well-formed session.

## Findings

| source | as written | input that shows it | evidently intended | confidence | as-written member | corrected member |
|---|---|---|---|---|---|---|
| WordMaster.py:82-84 | the hint takes `eng[0]` whenever the word has 3 or more mistakes | `eng.txt` with a blank line: the drill keeps blank lines, so the empty word enters the batch (`Drill.BlankLineEntersBatch`); after three wrong answers on it, `eng[0]` raises IndexError (`Drill.BlankWordHintFails`) | no hint for an empty word; the later versions drop blank lines when loading | not executed | Drill.HintAsWritten | Drill.Hint |
