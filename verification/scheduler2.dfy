/**
 The SM-2-style scheduler (WordMaster2.0.py). Each word keeps an ease
 factor, an interval, a repetition count and its next review day. A session
 takes the due words, at most SESSION_NEW of them with no repetitions
 (never passed, or missed since their last pass), lists every other due
 word once, or HARD_WEIGHT times when it is hard, shuffles the list and asks its first SESSION_TOTAL entries. A right answer
 multiplies the interval by the ease and raises the ease; a wrong one
 resets the word.

 Ease is kept exactly, in tenths (25 stands for 2.5). Days are integer day
 numbers. The first `random.shuffle` is the caller-chosen order `dueOrder`
 of the due words, the second is `shuffled`, any rearrangement of the
 candidate list.
 */
module Scheduler2 {
  import opened Common
  import opened Vocabulary

  const SESSION_NEW: nat := 15
  const SESSION_TOTAL: nat := 50
  const HARD_WEIGHT: nat := 2
  const TOP_HARD: nat := 10
  /** 2.5, in tenths. */
  const INITIAL_EASE: int := 25
  /** 0.1, in tenths. */
  const EASE_STEP: int := 1
  /** Answers graded below this quality reset the word. */
  const PASS_QUALITY: int := 2

  datatype Word = Word(
    rus: string,
    ease: int,
    interval: int,
    repetitions: int,
    nextReview: int,
    hard: bool,
    mistakes: int)

  type Store = map<string, Word>

  function Fresh(rus: string, today: int): Word {
    Word(rus, INITIAL_EASE, 1, 0, today, false, 0)
  }

  /** The shape records keep under this scheduler: ease never below its
      start, an interval of at least one day, non-negative counters, and a
      hard word has not been answered right since its last miss. */
  predicate Valid(w: Word) {
    && w.ease >= INITIAL_EASE
    && w.interval >= 1
    && w.repetitions >= 0
    && w.mistakes >= 0
    && (w.hard ==> w.repetitions == 0)
  }

  predicate ValidStore(data: Store) {
    forall w :: w in data ==> Valid(data[w])
  }

  /* ---------------- initialisation ---------------- */

  /** `initialize_data(eng_list, rus_list)`. */
  function InitializeData(eng: seq<string>, rus: seq<string>, today: int): (data: Store)
    ensures data.Keys == ToSet(eng[..Min(|eng|, |rus|)])
    ensures forall w :: w in data ==> data[w] == Fresh(data[w].rus, today)
    ensures ValidStore(data)
  {
    KeysOfZip(eng, rus);
    MapValues(DictOf(Zip(eng, rus)), tr => Fresh(tr, today))
  }

  /** A word listed twice gets the translation of its last listing. */
  lemma InitializeDataTranslation(eng: seq<string>, rus: seq<string>, today: int, i: int)
    requires 0 <= i < |eng| && i < |rus|
    requires forall j :: i < j < Min(|eng|, |rus|) ==> eng[j] != eng[i]
    ensures eng[i] in InitializeData(eng, rus, today)
    ensures InitializeData(eng, rus, today)[eng[i]].rus == rus[i]
  {
    var z := Zip(eng, rus);
    assert LastAssignment(z, i);
    DictOfValue(z, i);
  }

  /** `load_data`: the saved file, or a store built from the word lists, or
      the ValueError for lists of different lengths. */
  function LoadData(saved: Option<Store>, engLines: seq<string>, rusLines: seq<string>, today: int): (r: Result<Store, LoadError>)
    ensures saved.Some? ==> r == Success(saved.value)
    ensures saved.None? ==> (r.Success? <==> LoadWords(engLines, rusLines).Success?)
    ensures saved.None? && r.Success? ==> r.value.Keys == ToSet(StripAll(Filter(engLines, NonBlank)))
    ensures saved.None? && r.Success? ==> forall w :: w in r.value ==> r.value[w] == Fresh(r.value[w].rus, today)
  {
    if saved.Some? then Success(saved.value)
    else
      var loaded := LoadWords(engLines, rusLines);
      if loaded.Failure? then Failure(loaded.error)
      else
        var eng := loaded.value.0;
        var rus := loaded.value.1;
        assert eng[..Min(|eng|, |rus|)] == eng;
        Success(InitializeData(eng, rus, today))
  }

  /* ---------------- selection ---------------- */

  predicate IsDue(w: Word, today: int) {
    w.nextReview <= today
  }

  function DueSet(data: Store, today: int): set<string> {
    set w | w in data && IsDue(data[w], today)
  }

  /** The test `data[w]["repetitions"] == 0`. */
  function Unseen(data: Store): string -> bool {
    w => w in data && data[w].repetitions == 0
  }

  /** `new_words`: the first SESSION_NEW due words with no repetition yet. */
  function NewWords(data: Store, dueOrder: seq<string>): (news: seq<string>)
    ensures |news| == Min(SESSION_NEW, |Filter(dueOrder, Unseen(data))|)
    ensures forall i :: 0 <= i < |news| ==> news[i] in dueOrder && news[i] in data && data[news[i]].repetitions == 0
    ensures NoDups(dueOrder) ==> NoDups(news)
    ensures |Filter(dueOrder, Unseen(data))| <= SESSION_NEW ==>
      forall w :: w in dueOrder && w in data && data[w].repetitions == 0 ==> w in news
  {
    var unseen := Filter(dueOrder, Unseen(data));
    assert forall i :: 0 <= i < Min(SESSION_NEW, |unseen|) ==> unseen[i] in unseen && Unseen(data)(unseen[i]);
    assert NoDups(dueOrder) ==> NoDups(unseen[..Min(SESSION_NEW, |unseen|)]) by {
      if NoDups(dueOrder) {
        FilterNoDups(dueOrder, Unseen(data));
        NoDupsPrefix(unseen, Min(SESSION_NEW, |unseen|));
      }
    }
    unseen[..Min(SESSION_NEW, |unseen|)]
  }

  /** The test `w not in news`. */
  function NotIn(news: seq<string>): string -> bool {
    w => w !in news
  }

  /** `repeat_words`: the due words that are not among the new ones. */
  function RepeatWords(data: Store, dueOrder: seq<string>): seq<string> {
    Filter(dueOrder, NotIn(NewWords(data, dueOrder)))
  }

  /** `HARD_WEIGHT if data[w]["hard"] else 1`. */
  function Weight(data: Store): string -> nat {
    w => if w in data && data[w].hard then HARD_WEIGHT else 1
  }

  /** `new_words + weighted_list`, before the second shuffle. */
  function CandidatePool(data: Store, dueOrder: seq<string>): seq<string> {
    NewWords(data, dueOrder) + Weighted(RepeatWords(data, dueOrder), Weight(data))
  }

  /** How often each word is in the candidate list: a new word once, any
      other due word HARD_WEIGHT times when hard and once otherwise, a word
      that is not due never. */
  lemma {:induction false} CandidateCount(data: Store, today: int, dueOrder: seq<string>, w: string)
    requires Enumerates(dueOrder, DueSet(data, today))
    ensures multiset(CandidatePool(data, dueOrder))[w] ==
      if w !in DueSet(data, today) then 0
      else if w in NewWords(data, dueOrder) then 1
      else Weight(data)(w)
  {
    var news := NewWords(data, dueOrder);
    var repeats := RepeatWords(data, dueOrder);
    NoDupsCount(news, w);
    FilterNoDups(dueOrder, NotIn(news));
    WeightedCount(repeats, Weight(data), w);
    assert w in dueOrder <==> w in ToSet(dueOrder);
    assert multiset(CandidatePool(data, dueOrder))[w] == multiset(news)[w] + multiset(Weighted(repeats, Weight(data)))[w];
  }

  /** `select_words`: the first SESSION_TOTAL entries of the shuffled
      candidate list. Every entry is a due word, no word more than
      HARD_WEIGHT times, and the session is empty only when nothing is
      due. */
  function SelectWords(data: Store, today: int, dueOrder: seq<string>, shuffled: seq<string>): (session: seq<string>)
    requires Enumerates(dueOrder, DueSet(data, today))
    requires multiset(shuffled) == multiset(CandidatePool(data, dueOrder))
    ensures |session| == Min(SESSION_TOTAL, |CandidatePool(data, dueOrder)|)
    ensures forall i :: 0 <= i < |session| ==> session[i] in data && IsDue(data[session[i]], today)
    ensures multiset(session) <= multiset(CandidatePool(data, dueOrder))
    ensures forall w :: multiset(session)[w] <= HARD_WEIGHT
    ensures |session| == 0 <==> DueSet(data, today) == {}
  {
    var n := Min(SESSION_TOTAL, |shuffled|);
    assert |shuffled| == |multiset(shuffled)|;
    PrefixOfPool(data, today, dueOrder, shuffled, n);
    PoolEmptyIffNothingDue(data, today, dueOrder);
    shuffled[..n]
  }

  /** A word is in the candidate list only when it is due. */
  lemma PoolWordDue(data: Store, today: int, dueOrder: seq<string>, w: string)
    requires Enumerates(dueOrder, DueSet(data, today))
    requires multiset(CandidatePool(data, dueOrder))[w] > 0
    ensures w in data && IsDue(data[w], today)
  {
    CandidateCount(data, today, dueOrder, w);
  }

  /** The candidate list is empty exactly when nothing is due. */
  lemma PoolEmptyIffNothingDue(data: Store, today: int, dueOrder: seq<string>)
    requires Enumerates(dueOrder, DueSet(data, today))
    ensures |CandidatePool(data, dueOrder)| == 0 <==> DueSet(data, today) == {}
  {
    var pool := CandidatePool(data, dueOrder);
    if DueSet(data, today) != {} {
      var w :| w in DueSet(data, today);
      CandidateCount(data, today, dueOrder, w);
      assert multiset(pool)[w] > 0;
    }
    if |pool| > 0 {
      CandidateCount(data, today, dueOrder, pool[0]);
    }
  }

  /** What every prefix of a rearranged candidate list keeps. */
  lemma PrefixOfPool(data: Store, today: int, dueOrder: seq<string>, shuffled: seq<string>, n: nat)
    requires Enumerates(dueOrder, DueSet(data, today))
    requires multiset(shuffled) == multiset(CandidatePool(data, dueOrder))
    requires n <= |shuffled|
    ensures multiset(shuffled[..n]) <= multiset(CandidatePool(data, dueOrder))
    ensures forall w :: multiset(shuffled[..n])[w] <= HARD_WEIGHT
    ensures forall i :: 0 <= i < n ==> shuffled[i] in data && IsDue(data[shuffled[i]], today)
  {
    var pool := CandidatePool(data, dueOrder);
    assert shuffled == shuffled[..n] + shuffled[n..];
    forall w ensures multiset(shuffled[..n])[w] <= HARD_WEIGHT {
      CandidateCount(data, today, dueOrder, w);
    }
    forall i | 0 <= i < n ensures shuffled[i] in data && IsDue(data[shuffled[i]], today) {
      assert shuffled[..n][i] == shuffled[i];
      assert multiset(shuffled)[shuffled[i]] > 0;
      PoolWordDue(data, today, dueOrder, shuffled[i]);
    }
  }

  /* ---------------- the answer update ---------------- */

  /** The grade `update_word` gives an answer. */
  function Quality(correct: bool): int {
    if correct then 3 else 0
  }

  /** Python's `int(x)` of the exact value x = n / 10: truncation toward
      zero. */
  function TruncTenths(n: int): (q: int)
    ensures n >= 0 ==> 10 * q <= n < 10 * q + 10
    ensures n < 0 ==> 10 * q - 10 < n <= 10 * q
  {
    if n >= 0 then n / 10 else -((-n) / 10)
  }

  /** `update_word` on one record (SM-2 style): a miss resets the
      repetitions and the interval and marks the word hard, leaving the
      ease alone; a pass counts a repetition, multiplies the interval by
      the ease (at least one day) and raises the ease by a tenth. The next
      review is `interval` days from today. */
  function Update(w: Word, correct: bool, today: int): (r: Word)
    ensures r.rus == w.rus
    ensures !correct ==> r.repetitions == 0 && r.interval == 1 && r.hard && r.mistakes == w.mistakes + 1 && r.ease == w.ease
    ensures correct ==> && r.repetitions == w.repetitions + 1 && !r.hard && r.mistakes == 0
                        && r.interval == Max(1, TruncTenths(w.interval * w.ease)) && r.ease == w.ease + EASE_STEP
    ensures r.interval >= 1 && r.nextReview == today + r.interval
    ensures r.ease >= w.ease
    ensures !IsDue(r, today)
    ensures Valid(w) ==> Valid(r)
  {
    var answered :=
      if Quality(correct) < PASS_QUALITY then
        w.(repetitions := 0, interval := 1, hard := true, mistakes := w.mistakes + 1)
      else
        w.(repetitions := w.repetitions + 1, interval := Max(1, TruncTenths(w.interval * w.ease)),
           ease := w.ease + EASE_STEP, hard := false, mistakes := 0);
    answered.(nextReview := today + answered.interval)
  }

  /** With the ease never below 2.5, a right answer at least doubles the
      interval. */
  lemma PassAtLeastDoubles(w: Word, today: int)
    requires Valid(w)
    ensures Update(w, true, today).interval >= 2 * w.interval
  {
    var n := w.interval * w.ease;
    assert n >= w.interval * INITIAL_EASE by {
      assert w.interval * w.ease - w.interval * INITIAL_EASE == w.interval * (w.ease - INITIAL_EASE);
    }
    var q := TruncTenths(n);
    assert 10 * q > 25 * w.interval - 10;
  }

  function UpdateWord(data: Store, w: string, correct: bool, today: int): (r: Store)
    requires w in data
    ensures r.Keys == data.Keys
    ensures r[w] == Update(data[w], correct, today)
    ensures forall v :: v in data && v != w ==> r[v] == data[v]
  {
    UpdateAt(data, w, v => Update(v, correct, today))
  }

  /* ---------------- progress ---------------- */

  datatype Progress = Progress(total: nat, mastered: nat, hard: nat, dueToday: nat)

  function MasteredWords(data: Store): set<string> {
    set w | w in data && data[w].repetitions > 0 && !data[w].hard
  }

  function HardWords(data: Store): set<string> {
    set w | w in data && data[w].hard
  }

  /** `show_progress`: the counts it prints. A mastered word is never
      hard, so the two counts together never exceed the total. */
  function ShowProgress(data: Store, today: int): (p: Progress)
    ensures p.total == |data|
    ensures p.mastered == |MasteredWords(data)| && p.hard == |HardWords(data)|
    ensures p.dueToday == |DueSet(data, today)|
    ensures p.mastered + p.hard <= p.total
    ensures p.dueToday <= p.total
  {
    var m := MasteredWords(data);
    var h := HardWords(data);
    assert m !! h;
    assert |m + h| == |m| + |h|;
    SubsetCard(m + h, data.Keys);
    SubsetCard(DueSet(data, today), data.Keys);
    Progress(|data|, |m|, |h|, |DueSet(data, today)|)
  }

  /* ---------------- hardest words ---------------- */

  function Mistakes(data: Store, w: string): int {
    if w in data then data[w].mistakes else 0
  }

  predicate SortedByMistakes(data: Store, s: seq<string>) {
    forall i, j :: 0 <= i < j < |s| ==> Mistakes(data, s[i]) >= Mistakes(data, s[j])
  }

  /** No word of `s` has more than `m` mistakes. */
  predicate AllAtMost(data: Store, s: seq<string>, m: int) {
    forall i :: 0 <= i < |s| ==> Mistakes(data, s[i]) <= m
  }

  /** A bound on every word survives a rearrangement. */
  lemma AtMostRearranged(data: Store, a: seq<string>, b: seq<string>, m: int)
    requires multiset(a) == multiset(b) && AllAtMost(data, a, m)
    ensures AllAtMost(data, b, m)
  {
    forall i | 0 <= i < |b| ensures Mistakes(data, b[i]) <= m {
      assert multiset(a)[b[i]] > 0;
      var k := IndexIn(a, b[i]);
    }
  }

  /** A word with at least as many mistakes as all of a sorted list may
      go in front of it. */
  lemma ConsSorted(data: Store, y: string, s: seq<string>)
    requires SortedByMistakes(data, s) && AllAtMost(data, s, Mistakes(data, y))
    ensures SortedByMistakes(data, [y] + s)
  {
    var r := [y] + s;
    forall i, j | 0 <= i < j < |r| ensures Mistakes(data, r[i]) >= Mistakes(data, r[j]) {
      assert r[j] == s[j - 1];
      if i > 0 { assert r[i] == s[i - 1]; }
    }
  }

  /** Inserts `x` before the first word with no more mistakes than it,
      so that earlier words stay ahead of later ones with equal counts. */
  function InsertByMistakes(data: Store, x: string, s: seq<string>): (r: seq<string>)
    requires SortedByMistakes(data, s)
    ensures multiset(r) == multiset([x] + s)
    ensures SortedByMistakes(data, r)
    decreases |s|
  {
    if |s| == 0 || Mistakes(data, x) >= Mistakes(data, s[0]) then
      InsertInFront(data, x, s);
      [x] + s
    else
      var rest := InsertByMistakes(data, x, s[1..]);
      InsertBehind(data, x, s, rest);
      [s[0]] + rest
  }

  /** The front case of InsertByMistakes. */
  lemma InsertInFront(data: Store, x: string, s: seq<string>)
    requires SortedByMistakes(data, s)
    requires |s| == 0 || Mistakes(data, x) >= Mistakes(data, s[0])
    ensures SortedByMistakes(data, [x] + s)
  {
    if |s| > 0 {
      assert forall i :: 0 < i < |s| ==> Mistakes(data, s[0]) >= Mistakes(data, s[i]);
    }
    ConsSorted(data, x, s);
  }

  /** Below the head of a sorted list, and below `x` when `x` is below
      it, no word has more mistakes than the head. */
  lemma TailAtMost(data: Store, x: string, s: seq<string>)
    requires SortedByMistakes(data, s) && |s| > 0 && Mistakes(data, x) < Mistakes(data, s[0])
    ensures AllAtMost(data, [x] + s[1..], Mistakes(data, s[0]))
  {
    var t := [x] + s[1..];
    forall i | 0 <= i < |t| ensures Mistakes(data, t[i]) <= Mistakes(data, s[0]) {
      if i > 0 {
        assert t[i] == s[i];
      }
    }
  }

  /** The case where `x` goes behind the head of `s`, into `rest`. */
  lemma InsertBehind(data: Store, x: string, s: seq<string>, rest: seq<string>)
    requires SortedByMistakes(data, s) && |s| > 0 && Mistakes(data, x) < Mistakes(data, s[0])
    requires multiset(rest) == multiset([x] + s[1..]) && SortedByMistakes(data, rest)
    ensures multiset([s[0]] + rest) == multiset([x] + s)
    ensures SortedByMistakes(data, [s[0]] + rest)
  {
    assert s == [s[0]] + s[1..];
    TailAtMost(data, x, s);
    AtMostRearranged(data, [x] + s[1..], rest, Mistakes(data, s[0]));
    ConsSorted(data, s[0], rest);
  }

  /** `sorted(s, key=mistakes, reverse=True)`, as an insertion sort;
      SortKeepsTies shows it is stable. */
  function SortByMistakes(data: Store, s: seq<string>): (r: seq<string>)
    ensures multiset(r) == multiset(s)
    ensures SortedByMistakes(data, r)
    decreases |s|
  {
    if |s| == 0 then []
    else
      assert s == [s[0]] + s[1..];
      InsertByMistakes(data, s[0], SortByMistakes(data, s[1..]))
  }

  /** The words with exactly `m` mistakes. */
  function WithMistakes(data: Store, m: int): string -> bool {
    w => Mistakes(data, w) == m
  }

  /** Inserting into a sorted list keeps the order among words with equal
      counts, with the new word ahead of them. */
  lemma {:induction false} InsertKeepsTies(data: Store, x: string, s: seq<string>, m: int)
    requires SortedByMistakes(data, s)
    ensures Filter(InsertByMistakes(data, x, s), WithMistakes(data, m)) == Filter([x] + s, WithMistakes(data, m))
    decreases |s|
  {
    if |s| > 0 && Mistakes(data, x) < Mistakes(data, s[0]) {
      var t := s[1..];
      assert SortedByMistakes(data, t) by {
        assert forall i :: 0 <= i < |t| ==> t[i] == s[i + 1];
      }
      InsertKeepsTies(data, x, t, m);
      assert s == [s[0]] + t;
      TiesBehindHead(WithMistakes(data, m), x, s[0], t, InsertByMistakes(data, x, t));
    }
  }

  /** When `x` and `y` cannot both pass `p`, putting `x` behind `y`
      leaves the filtered list alone. */
  lemma TiesBehindHead(p: string -> bool, x: string, y: string, t: seq<string>, rest: seq<string>)
    requires !(p(x) && p(y))
    requires Filter(rest, p) == Filter([x] + t, p)
    ensures Filter([y] + rest, p) == Filter([x] + ([y] + t), p)
  {
    FilterCons(y, rest, p);
    FilterCons(x, t, p);
    FilterCons(x, [y] + t, p);
    FilterCons(y, t, p);
  }

  /** Python's sort is stable: among the words with any one mistake count,
      the sorted list keeps the input's order. */
  lemma {:induction false} SortKeepsTies(data: Store, s: seq<string>, m: int)
    ensures Filter(SortByMistakes(data, s), WithMistakes(data, m)) == Filter(s, WithMistakes(data, m))
    decreases |s|
  {
    if |s| > 0 {
      var t := s[1..];
      assert s == [s[0]] + t;
      SortKeepsTies(data, t, m);
      InsertKeepsTies(data, s[0], SortByMistakes(data, t), m);
      FilterCons(s[0], SortByMistakes(data, t), WithMistakes(data, m));
      FilterCons(s[0], t, WithMistakes(data, m));
    }
  }

  /** The test `data[w]["hard"]`. */
  function IsHard(data: Store): string -> bool {
    w => w in data && data[w].hard
  }

  /** `show_top_hard`: the TOP_HARD hard words with the most mistakes, most
      first; `order` is the order of the data file. Every hard word left
      out has no more mistakes than any word listed. */
  function TopHard(data: Store, order: seq<string>): (top: seq<string>)
    requires Enumerates(order, data.Keys)
    ensures |top| == Min(TOP_HARD, |HardWords(data)|)
    ensures NoDups(top)
    ensures forall i :: 0 <= i < |top| ==> top[i] in data && data[top[i]].hard
    ensures SortedByMistakes(data, top)
    ensures forall w, i :: w in data && data[w].hard && w !in top && 0 <= i < |top| ==>
      data[w].mistakes <= data[top[i]].mistakes
  {
    var hardList := HardList(data, order);
    var sorted := SortByMistakes(data, hardList);
    Rearranged(hardList, sorted);
    var top := sorted[..Min(TOP_HARD, |sorted|)];
    NoDupsPrefix(sorted, |top|);
    SortedPrefix(data, sorted, |top|);
    OmittedBound(data, sorted, |top|);
    top
  }

  /** The hard words in file order. */
  function HardList(data: Store, order: seq<string>): (hard: seq<string>)
    requires Enumerates(order, data.Keys)
    ensures NoDups(hard) && ToSet(hard) == HardWords(data)
    ensures |hard| == |HardWords(data)|
  {
    var hard := Filter(order, IsHard(data));
    FilterNoDups(order, IsHard(data));
    assert ToSet(hard) == HardWords(data);
    NoDupsCard(hard);
    hard
  }

  /** `[w for w in data if data[w]["hard"]]` keeps the file's order. */
  lemma HardListOrdered(data: Store, order: seq<string>)
    requires Enumerates(order, data.Keys)
    ensures OrderedLike(HardList(data, order), order)
  {
    FilterOrdered(order, IsHard(data));
  }

  /** A rearrangement keeps the length, the members and the absence of
      duplicates. */
  lemma Rearranged(a: seq<string>, b: seq<string>)
    requires NoDups(a) && multiset(a) == multiset(b)
    ensures NoDups(b) && |b| == |a|
    ensures forall w :: w in b <==> w in a
  {
    assert |b| == |multiset(b)| == |a|;
    SameCountsNoDups(a, b);
    forall w ensures w in b <==> w in a {
      assert w in b <==> multiset(b)[w] > 0;
      assert w in a <==> multiset(a)[w] > 0;
    }
  }

  lemma SortedPrefix(data: Store, s: seq<string>, n: nat)
    requires SortedByMistakes(data, s) && n <= |s|
    ensures SortedByMistakes(data, s[..n])
  {
    forall i, j | 0 <= i < j < n ensures Mistakes(data, s[..n][i]) >= Mistakes(data, s[..n][j]) {
      assert s[..n][i] == s[i] && s[..n][j] == s[j];
    }
  }

  /** A word of a sorted list left out of its first `n` words has no more
      mistakes than any of them. */
  lemma OmittedBound(data: Store, s: seq<string>, n: nat)
    requires SortedByMistakes(data, s) && n <= |s|
    ensures forall w, i :: w in s && w !in s[..n] && 0 <= i < n ==> Mistakes(data, w) <= Mistakes(data, s[..n][i])
  {
    forall w, i | w in s && w !in s[..n] && 0 <= i < n ensures Mistakes(data, w) <= Mistakes(data, s[..n][i]) {
      var j := IndexIn(s, w);
      assert forall k :: 0 <= k < n ==> s[..n][k] == s[k];
      assert n <= j;
    }
  }

  /** A rearrangement of a duplicate-free list is duplicate-free. */
  lemma SameCountsNoDups(a: seq<string>, b: seq<string>)
    requires NoDups(a) && multiset(a) == multiset(b)
    ensures NoDups(b)
  {
    forall i, j | 0 <= i < j < |b| ensures b[i] != b[j] {
      NoDupsCount(a, b[j]);
      assert b == b[..j] + b[j..];
      assert b[i] in b[..j] && b[j] in b[j..];
      assert multiset(b)[b[j]] == multiset(b[..j])[b[j]] + multiset(b[j..])[b[j]];
    }
  }

  /* ---------------- the session driver ---------------- */

  /** The loop of `main`; a word listed twice is updated twice. */
  function RunSession(data: Store, session: seq<string>, answers: seq<bool>, today: int): (r: Store)
    requires |answers| >= |session|
    requires forall i :: 0 <= i < |session| ==> session[i] in data
    ensures r.Keys == data.Keys
    ensures forall w :: w in data && w !in session ==> r[w] == data[w]
    ensures forall i :: 0 <= i < |session| ==> !IsDue(r[session[i]], today)
    ensures ValidStore(data) ==> ValidStore(r)
    decreases |session|
  {
    if |session| == 0 then data
    else
      var next := UpdateWord(data, session[0], answers[0], today);
      var r := RunSession(next, session[1..], answers[1..], today);
      assert forall i :: 1 <= i < |session| ==> session[i] == session[1..][i - 1];
      assert session[0] in session[1..] || r[session[0]] == next[session[0]];
      r
  }

  /** Answering a session is answering its first `i` entries and then
      the rest. */
  lemma {:induction false} RunSessionSplit(data: Store, session: seq<string>, answers: seq<bool>, today: int, i: nat)
    requires |answers| >= |session| && i <= |session|
    requires forall k :: 0 <= k < |session| ==> session[k] in data
    ensures RunSession(data, session, answers, today) ==
      RunSession(RunSession(data, session[..i], answers, today), session[i..], answers[i..], today)
    decreases i
  {
    if i > 0 {
      var next := UpdateWord(data, session[0], answers[0], today);
      assert session[..i][1..] == session[1..][..i - 1];
      assert session[1..][i - 1..] == session[i..];
      assert answers[1..][i - 1..] == answers[i..];
      RunSessionSplit(next, session[1..], answers[1..], today, i - 1);
    }
  }

  /** A word asked more than once ends with the update for its last
      answer, applied to the record it had just before that answer. */
  lemma RunSessionLastAnswer(data: Store, session: seq<string>, answers: seq<bool>, today: int, i: nat)
    requires |answers| >= |session| && i < |session|
    requires forall k :: 0 <= k < |session| ==> session[k] in data
    requires session[i] !in session[i + 1..]
    ensures session[i] in RunSession(data, session[..i], answers, today)
    ensures RunSession(data, session, answers, today)[session[i]] ==
      Update(RunSession(data, session[..i], answers, today)[session[i]], answers[i], today)
  {
    RunSessionSplit(data, session, answers, today, i);
    var mid := RunSession(data, session[..i], answers, today);
    var rest := session[i..];
    assert rest[1..] == session[i + 1..];
    assert answers[i..][1..] == answers[i + 1..];
  }

  datatype Outcome = NothingToReview | Finished(data: Store)

  /** `main` after loading: with nothing due it stops before touching the
      store; otherwise every word asked is rescheduled past today and
      every word not due is left as it was. */
  function Main(data: Store, today: int, dueOrder: seq<string>, shuffled: seq<string>, answers: seq<bool>): (o: Outcome)
    requires Enumerates(dueOrder, DueSet(data, today))
    requires multiset(shuffled) == multiset(CandidatePool(data, dueOrder))
    requires |answers| >= SESSION_TOTAL
    ensures o.NothingToReview? <==> DueSet(data, today) == {}
    ensures o.Finished? ==> o.data.Keys == data.Keys
    ensures o.Finished? ==> forall w :: w in data && !IsDue(data[w], today) ==> o.data[w] == data[w]
    ensures o.Finished? ==> forall w :: w in o.data && IsDue(o.data[w], today) ==> o.data[w] == data[w]
    ensures o.Finished? && ValidStore(data) ==> ValidStore(o.data)
  {
    var session := SelectWords(data, today, dueOrder, shuffled);
    if |session| == 0 then NothingToReview
    else
      assert forall w :: w in session ==> w in data && IsDue(data[w], today);
      var after := RunSession(data, session, answers, today);
      assert forall w :: w in after && w in session ==> !IsDue(after[w], today) by {
        forall w | w in after && w in session ensures !IsDue(after[w], today) {
          var i := IndexIn(session, w);
        }
      }
      Finished(after)
  }
}
