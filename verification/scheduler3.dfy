/**
 The score/interval scheduler (WordMaster3.0.py). Each word keeps a score,
 an interval in days and the day of its next review; a session reviews the
 due, unlearned words, at most five hard ones first, and every answer moves
 the word's score and interval by one step. A word whose score reaches
 MAX_SCORE is learned and never reviewed again.

 Days are integer day numbers; `today` is passed in. The two
 `random.shuffle` calls are the caller-chosen orders `hardOrder` and
 `normalOrder`: any duplicate-free listing of the hard and of the normal
 due words.
 */
module Scheduler3 {
  import opened Common
  import opened Vocabulary

  const SESSION_SIZE: nat := 10
  const MAX_SCORE: int := 4
  /** How many hard words a session puts at its head. */
  const HARD_HEAD: nat := 5

  datatype Word = Word(
    rus: string,
    score: int,
    interval: int,
    nextReview: int,
    mistakes: int,
    hard: bool,
    learned: bool)

  /** The data file: English word to its record. */
  type Store = map<string, Word>

  /** The record of a word that has only been read from the word lists. */
  function Fresh(rus: string, today: int): Word {
    Word(rus, 0, 1, today, 0, false, false)
  }

  /** The shape every record keeps under this scheduler: a score between 0
      and MAX_SCORE, learned exactly at MAX_SCORE, an interval of at least
      one day, a non-negative mistake counter. */
  predicate Valid(w: Word) {
    && 0 <= w.score <= MAX_SCORE
    && (w.learned <==> w.score == MAX_SCORE)
    && w.interval >= 1
    && w.mistakes >= 0
  }

  predicate ValidStore(data: Store) {
    forall w :: w in data ==> Valid(data[w])
  }

  /* ---------------- initialisation ---------------- */

  /** `init_data`: one fresh record per English word of the zipped lists. */
  function InitData(eng: seq<string>, rus: seq<string>, today: int): (data: Store)
    ensures data.Keys == ToSet(eng[..Min(|eng|, |rus|)])
    ensures forall w :: w in data ==> data[w] == Fresh(data[w].rus, today)
    ensures ValidStore(data)
  {
    KeysOfZip(eng, rus);
    MapValues(DictOf(Zip(eng, rus)), tr => Fresh(tr, today))
  }

  /** A word listed twice gets the translation of its last listing. */
  lemma InitDataTranslation(eng: seq<string>, rus: seq<string>, today: int, i: int)
    requires 0 <= i < |eng| && i < |rus|
    requires forall j :: i < j < Min(|eng|, |rus|) ==> eng[j] != eng[i]
    ensures eng[i] in InitData(eng, rus, today)
    ensures InitData(eng, rus, today)[eng[i]].rus == rus[i]
  {
    var z := Zip(eng, rus);
    assert LastAssignment(z, i);
    DictOfValue(z, i);
  }

  /** `load_data`: the saved file when there is one, otherwise the store
      built from the word lists, or the length-mismatch error. */
  function LoadData(saved: Option<Store>, engLines: seq<string>, rusLines: seq<string>, today: int): (r: Result<Store, LoadError>)
    ensures saved.Some? ==> r == Success(saved.value)
    ensures saved.None? ==> (r.Success? <==> LoadWords(engLines, rusLines).Success?)
    ensures saved.None? && r.Success? ==> r.value.Keys == ToSet(StripAll(Filter(engLines, NonBlank)))
    ensures saved.None? && r.Success? ==> forall w :: w in r.value ==> r.value[w] == Fresh(r.value[w].rus, today)
  {
    if saved.Some? then Success(saved.value)
    else
      var loaded := LoadWords(engLines, rusLines);
      if loaded.Failure? then Failure(loaded.error)
      else
        var eng := loaded.value.0;
        var rus := loaded.value.1;
        assert eng[..Min(|eng|, |rus|)] == eng;
        Success(InitData(eng, rus, today))
  }

  /* ---------------- selection ---------------- */

  predicate IsDue(w: Word, today: int) {
    w.nextReview <= today && !w.learned
  }

  function DueSet(data: Store, today: int): set<string> {
    set w | w in data && IsDue(data[w], today)
  }

  function HardDue(data: Store, today: int): set<string> {
    set w | w in data && IsDue(data[w], today) && data[w].hard
  }

  function NormalDue(data: Store, today: int): set<string> {
    set w | w in data && IsDue(data[w], today) && !data[w].hard
  }

  /** The hard and the normal words split the due set. */
  lemma DuePartition(data: Store, today: int)
    ensures HardDue(data, today) + NormalDue(data, today) == DueSet(data, today)
    ensures HardDue(data, today) !! NormalDue(data, today)
  {
  }

  /** `select_words`: up to HARD_HEAD hard words, then the normal ones, cut
      to SESSION_SIZE. Every word asked is due, none twice, the hard ones
      all come first, and the session is empty only when nothing is due. */
  function SelectWords(data: Store, today: int, hardOrder: seq<string>, normalOrder: seq<string>): (session: seq<string>)
    requires Enumerates(hardOrder, HardDue(data, today))
    requires Enumerates(normalOrder, NormalDue(data, today))
    ensures |session| <= SESSION_SIZE
    ensures NoDups(session)
    ensures forall i :: 0 <= i < |session| ==> session[i] in data && IsDue(data[session[i]], today)
    ensures |session| == Min(SESSION_SIZE, Min(HARD_HEAD, |HardDue(data, today)|) + |NormalDue(data, today)|)
    ensures forall i :: 0 <= i < |session| ==> (data[session[i]].hard <==> i < Min(HARD_HEAD, |HardDue(data, today)|))
    ensures |session| == 0 <==> DueSet(data, today) == {}
  {
    var s := HardFirst(hardOrder, normalOrder);
    HardFirstFacts(data, today, hardOrder, normalOrder);
    var n := Min(SESSION_SIZE, |s|);
    NoDupsPrefix(s, n);
    assert forall i :: 0 <= i < n ==> s[..n][i] == s[i];
    s[..n]
  }

  /** `hard[:HARD_HEAD] + normal`, before the cut to SESSION_SIZE. */
  function HardFirst(hardOrder: seq<string>, normalOrder: seq<string>): seq<string> {
    hardOrder[..Min(HARD_HEAD, |hardOrder|)] + normalOrder
  }

  lemma HardFirstFacts(data: Store, today: int, hardOrder: seq<string>, normalOrder: seq<string>)
    requires Enumerates(hardOrder, HardDue(data, today))
    requires Enumerates(normalOrder, NormalDue(data, today))
    ensures NoDups(HardFirst(hardOrder, normalOrder))
    ensures |HardFirst(hardOrder, normalOrder)| == Min(HARD_HEAD, |HardDue(data, today)|) + |NormalDue(data, today)|
    ensures forall i :: 0 <= i < |HardFirst(hardOrder, normalOrder)| ==>
      var w := HardFirst(hardOrder, normalOrder)[i];
      w in data && IsDue(data[w], today) && (data[w].hard <==> i < Min(HARD_HEAD, |HardDue(data, today)|))
    ensures |HardFirst(hardOrder, normalOrder)| == 0 <==> DueSet(data, today) == {}
  {
    EnumeratesCard(hardOrder, HardDue(data, today));
    EnumeratesCard(normalOrder, NormalDue(data, today));
    DuePartition(data, today);
    var head := hardOrder[..Min(HARD_HEAD, |hardOrder|)];
    assert NoDups(HardFirst(hardOrder, normalOrder)) by {
      NoDupsPrefix(hardOrder, |head|);
      assert ToSet(head) <= ToSet(hardOrder);
      NoDupsAppend(head, normalOrder);
    }
    HardFirstEntries(data, today, hardOrder, normalOrder);
    assert DueSet(data, today) == {} <==> |HardDue(data, today)| == 0 && |NormalDue(data, today)| == 0;
  }

  lemma HardFirstEntries(data: Store, today: int, hardOrder: seq<string>, normalOrder: seq<string>)
    requires ToSet(hardOrder) == HardDue(data, today)
    requires ToSet(normalOrder) == NormalDue(data, today)
    ensures forall i :: 0 <= i < |HardFirst(hardOrder, normalOrder)| ==>
      var w := HardFirst(hardOrder, normalOrder)[i];
      w in data && IsDue(data[w], today) && (data[w].hard <==> i < Min(HARD_HEAD, |hardOrder|))
  {
    var head := hardOrder[..Min(HARD_HEAD, |hardOrder|)];
    var s := head + normalOrder;
    assert forall i :: 0 <= i < |head| ==> s[i] == hardOrder[i] && hardOrder[i] in ToSet(hardOrder);
    assert forall i :: |head| <= i < |s| ==> s[i] == normalOrder[i - |head|] && normalOrder[i - |head|] in ToSet(normalOrder);
  }

  /** A due set with at most HARD_HEAD hard words and at most SESSION_SIZE
      words in all is reviewed completely, each word once. */
  lemma SmallDueSetFullyReviewed(data: Store, today: int, hardOrder: seq<string>, normalOrder: seq<string>)
    requires Enumerates(hardOrder, HardDue(data, today))
    requires Enumerates(normalOrder, NormalDue(data, today))
    requires |HardDue(data, today)| <= HARD_HEAD && |DueSet(data, today)| <= SESSION_SIZE
    ensures Enumerates(SelectWords(data, today, hardOrder, normalOrder), DueSet(data, today))
  {
    var session := SelectWords(data, today, hardOrder, normalOrder);
    DuePartition(data, today);
    EnumeratesCard(hardOrder, HardDue(data, today));
    EnumeratesCard(normalOrder, NormalDue(data, today));
    assert |DueSet(data, today)| == |HardDue(data, today)| + |NormalDue(data, today)|;
    assert session == hardOrder + normalOrder;
    forall w | w in DueSet(data, today) ensures w in session {
      if w in HardDue(data, today) {
        assert w in ToSet(hardOrder);
      } else {
        assert w in ToSet(normalOrder);
      }
    }
  }

  /** A store fresh from the word lists, holding no more than SESSION_SIZE
      words, is reviewed completely on its first day. */
  lemma FreshStoreFullyReviewed(eng: seq<string>, rus: seq<string>, today: int, normalOrder: seq<string>)
    requires |eng| == |rus| && |eng| <= SESSION_SIZE
    requires Enumerates(normalOrder, ToSet(eng))
    ensures Enumerates(SelectWords(InitData(eng, rus, today), today, [], normalOrder), ToSet(eng))
  {
    var data := InitData(eng, rus, today);
    assert eng[..Min(|eng|, |rus|)] == eng;
    assert HardDue(data, today) == {};
    assert NormalDue(data, today) == ToSet(eng) == DueSet(data, today);
    assert Enumerates([], HardDue(data, today));
    ToSetCard(eng);
    SmallDueSetFullyReviewed(data, today, [], normalOrder);
  }

  /* ---------------- the answer update ---------------- */

  /** `update_word` on one record: a right answer moves the score and the
      interval up by one and clears the mistakes; a wrong one lowers the
      score (not below 0), counts the mistake, marks the word hard and
      resets the interval to one day. The next review is `interval` days
      from today, and reaching MAX_SCORE marks the word learned for good. */
  function Update(w: Word, correct: bool, today: int): (r: Word)
    ensures r.rus == w.rus
    ensures correct ==> r.score == w.score + 1 && r.mistakes == 0 && !r.hard && r.interval == w.interval + 1
    ensures !correct ==> r.score == Max(0, w.score - 1) && r.mistakes == w.mistakes + 1 && r.hard && r.interval == 1
    ensures r.nextReview == today + r.interval
    ensures r.learned <==> (w.learned || r.score >= MAX_SCORE)
    ensures w.score >= 0 ==> r.score >= 0
    ensures w.interval >= 0 ==> r.interval >= 1 && !IsDue(r, today)
    ensures Valid(w) && !w.learned ==> Valid(r)
  {
    var answered :=
      if correct then w.(score := w.score + 1, mistakes := 0, hard := false, interval := w.interval + 1)
      else w.(score := Max(0, w.score - 1), mistakes := w.mistakes + 1, hard := true, interval := 1);
    var scheduled := answered.(nextReview := today + answered.interval);
    if scheduled.score >= MAX_SCORE then scheduled.(learned := true) else scheduled
  }

  /** `update_word(w, data, correct)`: only the answered word changes. */
  function UpdateWord(data: Store, w: string, correct: bool, today: int): (r: Store)
    requires w in data
    ensures r.Keys == data.Keys
    ensures r[w] == Update(data[w], correct, today)
    ensures forall v :: v in data && v != w ==> r[v] == data[v]
  {
    UpdateAt(data, w, v => Update(v, correct, today))
  }

  /** The last right answer before MAX_SCORE makes the word learned, and
      a learned word is left out of every later session. */
  lemma LastRightAnswerRetires(data: Store, w: string, today: int, later: int, hardOrder: seq<string>, normalOrder: seq<string>)
    requires w in data && data[w].score == MAX_SCORE - 1
    requires Enumerates(hardOrder, HardDue(UpdateWord(data, w, true, today), later))
    requires Enumerates(normalOrder, NormalDue(UpdateWord(data, w, true, today), later))
    ensures UpdateWord(data, w, true, today)[w].learned
    ensures w !in SelectWords(UpdateWord(data, w, true, today), later, hardOrder, normalOrder)
  {
  }

  /** Three wrong answers in a row from any valid state leave the word
      hard with three more mistakes and a review tomorrow. */
  lemma ThreeMisses(w: Word, today: int)
    requires Valid(w) && !w.learned
    ensures var r := Update(Update(Update(w, false, today), false, today), false, today);
      r.hard && r.mistakes == w.mistakes + 3 && r.interval == 1 && r.nextReview == today + 1 && !r.learned
  {
  }

  /* ---------------- statistics ---------------- */

  datatype Stats = Stats(total: nat, learned: nat, hard: nat)

  function LearnedWords(data: Store): set<string> { set w | w in data && data[w].learned }

  function HardWords(data: Store): set<string> { set w | w in data && data[w].hard }

  /** `show_stats`: the three counts it prints. */
  function ShowStats(data: Store): (s: Stats)
    ensures s.total == |data|
    ensures s.learned == |LearnedWords(data)| <= s.total
    ensures s.hard == |HardWords(data)| <= s.total
  {
    SubsetCard(LearnedWords(data), data.Keys);
    SubsetCard(HardWords(data), data.Keys);
    Stats(|data|, |LearnedWords(data)|, |HardWords(data)|)
  }

  /** A freshly built store has no learned and no hard word. */
  lemma FreshStats(eng: seq<string>, rus: seq<string>, today: int)
    ensures ShowStats(InitData(eng, rus, today)).learned == 0
    ensures ShowStats(InitData(eng, rus, today)).hard == 0
  {
    var data := InitData(eng, rus, today);
    assert LearnedWords(data) == {};
    assert HardWords(data) == {};
  }

  /* ---------------- the session driver ---------------- */

  /** The loop of `main`: each session word in turn, with the learner's
      answers already judged right or wrong. */
  function RunSession(data: Store, session: seq<string>, answers: seq<bool>, today: int): (r: Store)
    requires |answers| >= |session|
    requires forall i :: 0 <= i < |session| ==> session[i] in data
    ensures r.Keys == data.Keys
    ensures forall w :: w in data && w !in session ==> r[w] == data[w]
    decreases |session|
  {
    if |session| == 0 then data
    else
      var next := UpdateWord(data, session[0], answers[0], today);
      RunSession(next, session[1..], answers[1..], today)
  }

  /** In a session without repeats each word gets exactly one update, the
      one for its own answer. */
  lemma {:induction false} RunSessionUpdatesEachOnce(data: Store, session: seq<string>, answers: seq<bool>, today: int)
    requires |answers| >= |session|
    requires forall i :: 0 <= i < |session| ==> session[i] in data
    requires NoDups(session)
    ensures forall i :: 0 <= i < |session| ==>
      RunSession(data, session, answers, today)[session[i]] == Update(data[session[i]], answers[i], today)
    decreases |session|
  {
    if |session| > 0 {
      var next := UpdateWord(data, session[0], answers[0], today);
      assert session == [session[0]] + session[1..];
      NoDupsCons(session[0], session[1..]);
      RunSessionUpdatesEachOnce(next, session[1..], answers[1..], today);
      forall i | 0 <= i < |session|
        ensures RunSession(data, session, answers, today)[session[i]] == Update(data[session[i]], answers[i], today)
      {
        if i > 0 {
          assert session[1..][i - 1] == session[i];
          assert session[i] != session[0];
        }
      }
    }
  }

  /** A session of due (so unlearned) words, none twice, keeps every
      record valid. */
  lemma {:induction false} RunSessionKeepsValid(data: Store, session: seq<string>, answers: seq<bool>, today: int)
    requires |answers| >= |session|
    requires forall i :: 0 <= i < |session| ==> session[i] in data && !data[session[i]].learned
    requires NoDups(session) && ValidStore(data)
    ensures ValidStore(RunSession(data, session, answers, today))
    decreases |session|
  {
    if |session| > 0 {
      var next := UpdateWord(data, session[0], answers[0], today);
      assert session == [session[0]] + session[1..];
      NoDupsCons(session[0], session[1..]);
      forall i | 0 <= i < |session[1..]| ensures session[1..][i] in next && !next[session[1..][i]].learned {
        assert session[1..][i] == session[i + 1] != session[0];
      }
      RunSessionKeepsValid(next, session[1..], answers[1..], today);
    }
  }

  datatype Outcome = NothingToReview | Finished(data: Store)

  /** `main` after loading: with nothing due it stops before touching the
      store; otherwise it runs the session and hands back the store to be
      written. */
  function Main(data: Store, today: int, hardOrder: seq<string>, normalOrder: seq<string>, answers: seq<bool>): (o: Outcome)
    requires Enumerates(hardOrder, HardDue(data, today))
    requires Enumerates(normalOrder, NormalDue(data, today))
    requires |answers| >= SESSION_SIZE
    ensures o.NothingToReview? <==> DueSet(data, today) == {}
    ensures o.Finished? ==> o.data.Keys == data.Keys
    ensures o.Finished? ==> forall w :: w in data && !IsDue(data[w], today) ==> o.data[w] == data[w]
  {
    var session := SelectWords(data, today, hardOrder, normalOrder);
    if |session| == 0 then NothingToReview
    else
      assert forall w :: w in session ==> w in data && IsDue(data[w], today);
      Finished(RunSession(data, session, answers, today))
  }

  /** After a session on a valid store every record is still valid, and a
      word that is still due today was not asked (it rolls over). */
  lemma MainKeepsValid(data: Store, today: int, hardOrder: seq<string>, normalOrder: seq<string>, answers: seq<bool>)
    requires Enumerates(hardOrder, HardDue(data, today))
    requires Enumerates(normalOrder, NormalDue(data, today))
    requires |answers| >= SESSION_SIZE
    requires ValidStore(data)
    ensures Main(data, today, hardOrder, normalOrder, answers).Finished? ==>
      var after := Main(data, today, hardOrder, normalOrder, answers).data;
      ValidStore(after) && forall w :: w in after && IsDue(after[w], today) ==> after[w] == data[w]
  {
    var session := SelectWords(data, today, hardOrder, normalOrder);
    if |session| > 0 {
      var after := RunSession(data, session, answers, today);
      RunSessionKeepsValid(data, session, answers, today);
      RunSessionUpdatesEachOnce(data, session, answers, today);
      forall w | w in after && IsDue(after[w], today) ensures after[w] == data[w] {
        if w in session {
          var i := IndexIn(session, w);
        }
      }
    }
  }
}
