/**
 The linear drill of the first WordMaster. A batch of at most ten words is
 taken from the front of the vocabulary and asked in weighted random order:
 a word's score rises on a right answer and falls on a wrong one, a word
 missed often enough joins the hard words (which are asked more often) and
 gets a one-letter hint, and a word reaching the top score is learned: it
 leaves the batch, the hard words and both vocabulary lists.

 The script's module-level loop is lifted into functions over an explicit
 state; the random pick is a number supplied by the caller and whether an
 answer is right is a boolean supplied by the caller.
 */
module Drill {
  import opened Common
  import opened Vocabulary

  const SESSION_WORDS := 10
  const MAX_SCORE := 5
  const HARD_THRESHOLD := 3
  /** Mistakes from which the first letter is shown. */
  const HINT_MISTAKES := 3
  /** A word of score s weighs max(1, BASE_WEIGHT - s) ... */
  const BASE_WEIGHT := 6
  /** ... plus HARD_BONUS when it is a hard word. */
  const HARD_BONUS := 3

  /** One word's record in the saved session. */
  datatype Entry = Entry(rus: string, score: int, mistakes: int)

  /** The session being learned; `order` is the order of its keys. */
  datatype Session = Session(order: seq<string>, words: map<string, Entry>)

  predicate WellFormed(s: Session) {
    Enumerates(s.order, s.words.Keys)
  }

  /** With its keys listed, a session is empty exactly when the list is:
      the loop's test `words_data` is read off the list. */
  lemma EmptySession(s: Session)
    requires WellFormed(s)
    ensures |s.order| == 0 <==> s.words == map[]
  {
    EnumeratesCard(s.order, s.words.Keys);
  }

  /** What the drill keeps true of every word still in its session. */
  predicate InRange(s: Session) {
    forall w :: w in s.words ==> 0 <= s.words[w].score < MAX_SCORE && s.words[w].mistakes >= 0
  }

  /** Everything the loop reads and writes: the session, the hard words and
      the two parallel vocabulary lists. */
  datatype State = State(session: Session, hard: set<string>, eng: seq<string>, rus: seq<string>)

  predicate Consistent(st: State) {
    WellFormed(st.session) && |st.eng| == |st.rus|
  }

  /* ---------------- a new batch ---------------- */

  /** `{eng: {"rus": rus, "score": 0, "mistakes": 0} for eng, rus in items}`. */
  function BatchOf(items: seq<(string, string)>): (s: Session)
    requires DistinctKeys(items)
    ensures IsBatchOf(s, items)
    decreases |items|
  {
    if |items| == 0 then Session([], map[])
    else
      DistinctKeysCons(items[0], items[1..]);
      assert items == [items[0]] + items[1..];
      var rest := BatchOf(items[1..]);
      BatchCons(items, rest);
      Session([items[0].0] + rest.order, rest.words[items[0].0 := Entry(items[0].1, 0, 0)])
  }

  /** `s` lists the keys of `items` in order, each with its translation,
      score 0 and no mistakes. */
  predicate IsBatchOf(s: Session, items: seq<(string, string)>) {
    && |s.order| == |items|
    && (forall i :: 0 <= i < |items| ==> s.order[i] == items[i].0)
    && s.words.Keys == KeysOf(items)
    && (forall i :: 0 <= i < |items| ==> s.words[items[i].0] == Entry(items[i].1, 0, 0))
  }

  lemma BatchCons(items: seq<(string, string)>, rest: Session)
    requires |items| > 0 && DistinctKeys(items) && IsBatchOf(rest, items[1..])
    ensures IsBatchOf(Session([items[0].0] + rest.order, rest.words[items[0].0 := Entry(items[0].1, 0, 0)]), items)
  {
    BatchConsKeys(items, rest.words);
    BatchConsOrder(items, rest.order);
    BatchConsWords(items, rest.words);
  }

  lemma BatchConsKeys(items: seq<(string, string)>, words: map<string, Entry>)
    requires |items| > 0 && words.Keys == KeysOf(items[1..])
    ensures words[items[0].0 := Entry(items[0].1, 0, 0)].Keys == KeysOf(items)
  {
    assert items == [items[0]] + items[1..];
    KeysOfCons(items[0], items[1..]);
  }

  lemma BatchConsOrder(items: seq<(string, string)>, order: seq<string>)
    requires |items| > 0 && |order| == |items| - 1
    requires forall i :: 0 <= i < |items| - 1 ==> order[i] == items[1..][i].0
    ensures forall i :: 0 <= i < |items| ==> ([items[0].0] + order)[i] == items[i].0
  {
    forall i | 1 <= i < |items| ensures ([items[0].0] + order)[i] == items[i].0 {
      assert items[i] == items[1..][i - 1];
    }
  }

  lemma BatchConsWords(items: seq<(string, string)>, words: map<string, Entry>)
    requires |items| > 0 && DistinctKeys(items)
    requires forall i :: 0 <= i < |items| - 1 ==> items[1..][i].0 in words && words[items[1..][i].0] == Entry(items[1..][i].1, 0, 0)
    ensures var m := words[items[0].0 := Entry(items[0].1, 0, 0)];
      forall i :: 0 <= i < |items| ==> items[i].0 in m && m[items[i].0] == Entry(items[i].1, 0, 0)
  {
    var m := words[items[0].0 := Entry(items[0].1, 0, 0)];
    forall i | 1 <= i < |items| ensures items[i].0 in m && m[items[i].0] == Entry(items[i].1, 0, 0) {
      assert items[i] == items[1..][i - 1];
      assert items[i].0 != items[0].0;
    }
  }

  /** The keys of a batch follow the items and are distinct. */
  lemma BatchWellFormed(items: seq<(string, string)>)
    requires DistinctKeys(items)
    ensures WellFormed(BatchOf(items)) && InRange(BatchOf(items))
  {
    var s := BatchOf(items);
    forall i, j | 0 <= i < j < |s.order| ensures s.order[i] != s.order[j] {
      assert s.order[i] == items[i].0 && s.order[j] == items[j].0;
    }
    forall w | w in ToSet(s.order) ensures w in s.words.Keys {
      var i := IndexIn(s.order, w);
      assert items[i] in items;
    }
    forall w | w in s.words.Keys ensures w in ToSet(s.order) {
      var p :| p in items && p.0 == w;
      var i := IndexIn(items, p);
      assert s.order[i] == w;
    }
  }

  /** `remaining[:SESSION_WORDS]` turned into a session. */
  function NextBatch(items: seq<(string, string)>): (s: Session)
    requires DistinctKeys(items)
    ensures WellFormed(s) && InRange(s)
    ensures |s.order| == Min(SESSION_WORDS, |items|)
    ensures forall i :: 0 <= i < |s.order| ==> s.order[i] == items[i].0 && s.words[items[i].0] == Entry(items[i].1, 0, 0)
  {
    var batch := items[..Min(SESSION_WORDS, |items|)];
    assert DistinctKeys(batch) by {
      assert forall i :: 0 <= i < |batch| ==> batch[i] == items[i];
    }
    BatchWellFormed(batch);
    BatchOf(batch)
  }

  /** `load_next_session`: a saved session with words is taken as it is;
      otherwise a new batch is cut from the vocabulary, and there is none
      when the vocabulary is empty. */
  function LoadNextSession(saved: Option<Session>, allItems: seq<(string, string)>): (r: Option<Session>)
    requires DistinctKeys(allItems)
    ensures saved.Some? && |saved.value.words| > 0 ==> r == saved
    ensures r.None? <==> (saved.None? || |saved.value.words| == 0) && |allItems| == 0
    ensures r.Some? ==> |r.value.words| > 0
    ensures r.Some? && (saved.None? || |saved.value.words| == 0) ==>
      WellFormed(r.value) && InRange(r.value) &&
      |r.value.order| == Min(SESSION_WORDS, |allItems|) &&
      forall i :: 0 <= i < |r.value.order| ==>
        r.value.order[i] == allItems[i].0 && r.value.words[allItems[i].0] == Entry(allItems[i].1, 0, 0)
  {
    if saved.Some? && |saved.value.words| > 0 then saved
    else if |allItems| == 0 then None
    else
      var s := NextBatch(allItems);
      assert s.order[0] in s.words;
      Some(s)
  }

  /* ---------------- the weighted pick ---------------- */

  /** A word's weight in `choose_word`. */
  function WordWeight(score: int, hard: bool): (n: nat)
    ensures n >= 1
    ensures hard ==> n > HARD_BONUS
  {
    Max(1, BASE_WEIGHT - score) + (if hard then HARD_BONUS else 0)
  }

  /** A lower score never weighs less, and a hard word never weighs less
      than the same word not hard. */
  lemma WeightFavoursWeakWords(s1: int, s2: int, h1: bool, h2: bool)
    requires s1 <= s2 && (h2 ==> h1)
    ensures WordWeight(s1, h1) >= WordWeight(s2, h2)
  {
  }

  function Weight(st: State): string -> nat {
    w => if w in st.session.words then WordWeight(st.session.words[w].score, w in st.hard) else 0
  }

  /** The `weighted` list of `choose_word`: each word of the session
      repeated by its weight, in session order. */
  function Pool(st: State): seq<string> {
    Weighted(st.session.order, Weight(st))
  }

  /** How often each word is in the pool. */
  lemma PoolCount(st: State, w: string)
    requires WellFormed(st.session)
    ensures multiset(Pool(st))[w] == if w in st.session.words then WordWeight(st.session.words[w].score, w in st.hard) else 0
  {
    WeightedCount(st.session.order, Weight(st), w);
    assert w in st.session.order <==> w in ToSet(st.session.order);
  }

  /** `random.choice(weighted)`, the choice given as `pick`. */
  function ChooseWord(st: State, pick: nat): (w: string)
    requires WellFormed(st.session) && |st.session.order| > 0
    ensures w in st.session.words
  {
    var pool := Pool(st);
    assert st.session.order[0] in ToSet(st.session.order);
    PoolCount(st, st.session.order[0]);
    var w := pool[pick % |pool|];
    assert w in st.session.order;
    w
  }

  lemma ModBelow(i: nat, n: nat)
    requires i < n
    ensures i % n == i
  {
  }

  /** Every word of the session can come up. */
  lemma EveryWordChoosable(st: State, w: string) returns (pick: nat)
    requires WellFormed(st.session) && w in st.session.words
    ensures |st.session.order| > 0 && ChooseWord(st, pick) == w
  {
    assert w in ToSet(st.session.order);
    PoolCount(st, w);
    assert w in Pool(st) by {
      assert multiset(Pool(st))[w] > 0;
    }
    var i := IndexIn(Pool(st), w);
    ModBelow(i, |Pool(st)|);
    pick := i;
  }

  /* ---------------- asking ---------------- */

  /** The hint as the drill means it: the first letter once the word has
      been missed HINT_MISTAKES times, nothing otherwise or for an empty
      word. */
  function Hint(eng: string, mistakes: int): (h: string)
    ensures |h| > 0 <==> mistakes >= HINT_MISTAKES && |eng| > 0
    ensures |h| > 0 ==> h == " (hint: " + [eng[0]] + ")"
  {
    if mistakes >= HINT_MISTAKES && |eng| > 0 then " (hint: " + [eng[0]] + ")" else ""
  }

  datatype HintError = IndexError

  /** The hint as the script computes it: `eng[0]` fails on an empty word. */
  function HintAsWritten(eng: string, mistakes: int): (r: Result<string, HintError>)
    ensures r.Failure? <==> mistakes >= HINT_MISTAKES && |eng| == 0
    ensures r.Success? ==> r.value == Hint(eng, mistakes)
  {
    if mistakes >= HINT_MISTAKES then
      if |eng| == 0 then Failure(IndexError) else Success(" (hint: " + [eng[0]] + ")")
    else Success("")
  }

  /** The prompt of one question. */
  datatype Question = Question(eng: string, rus: string, hint: string)

  function Ask(st: State, pick: nat): (q: Question)
    requires WellFormed(st.session) && |st.session.order| > 0
    ensures q.eng in st.session.words && q.rus == st.session.words[q.eng].rus
    ensures |q.hint| > 0 <==> st.session.words[q.eng].mistakes >= HINT_MISTAKES && |q.eng| > 0
  {
    var w := ChooseWord(st, pick);
    Question(w, st.session.words[w].rus, Hint(w, st.session.words[w].mistakes))
  }

  /* ---------------- answering ---------------- */

  function Other(w: string): string -> bool {
    v => v != w
  }

  /** The session with `w` deleted, the other keys keeping their order. */
  function Delete(s: Session, w: string): (r: Session)
    requires WellFormed(s)
    ensures WellFormed(r)
    ensures r.words == s.words - {w}
    ensures forall v :: v in r.order <==> v in s.order && v != w
    ensures OrderedLike(r.order, s.order)
  {
    FilterNoDups(s.order, Other(w));
    FilterOrdered(s.order, Other(w));
    Session(Filter(s.order, Other(w)), s.words - {w})
  }

  /** Removing a learned word from the vocabulary files: the pair at the
      first position of `w` leaves both lists, every other pair stays, in
      order; a word the lists do not hold leaves them as they are. */
  function RemovePair(eng: seq<string>, rus: seq<string>, w: string): (r: (seq<string>, seq<string>))
    requires |eng| == |rus|
    ensures |r.0| == |r.1|
    ensures w !in eng ==> r == (eng, rus)
    ensures w in eng ==> |r.0| == |eng| - 1
    ensures w in eng ==> Zip(r.0, r.1) == RemoveAt(Zip(eng, rus), FirstIndex(eng, w))
  {
    if w in eng then
      var i := FirstIndex(eng, w);
      ZipRemoveAt(eng, rus, i);
      (RemoveAt(eng, i), RemoveAt(rus, i))
    else (eng, rus)
  }

  /** The answer block: a right answer raises the score and clears the
      mistakes, and at MAX_SCORE the word is learned and removed from the
      session, the hard words and the vocabulary lists; a wrong answer
      lowers the score (not below zero), counts a mistake and makes the
      word hard from HARD_THRESHOLD mistakes on. */
  function Answer(st: State, w: string, correct: bool): (r: State)
    requires Consistent(st) && w in st.session.words
    ensures Consistent(r)
    ensures InRange(st.session) ==> InRange(r.session)
    ensures r.session.words.Keys <= st.session.words.Keys
    ensures forall v :: v != w ==> (v in r.session.words <==> v in st.session.words)
    ensures forall v :: v != w && v in r.session.words ==> r.session.words[v] == st.session.words[v]
    ensures forall v :: v != w ==> (v in r.hard <==> v in st.hard)
    ensures var e := st.session.words[w];
      correct ==> (w in r.session.words <==> e.score + 1 < MAX_SCORE)
    ensures var e := st.session.words[w];
      correct && e.score + 1 < MAX_SCORE ==>
        r == st.(session := st.session.(words := st.session.words[w := Entry(e.rus, e.score + 1, 0)]))
    ensures var e := st.session.words[w];
      correct && e.score + 1 >= MAX_SCORE ==>
        w !in r.session.order && w !in r.hard && (r.eng, r.rus) == RemovePair(st.eng, st.rus, w)
    ensures var e := st.session.words[w];
      !correct ==>
        r.session.words == st.session.words[w := Entry(e.rus, Max(0, e.score - 1), e.mistakes + 1)] &&
        r.session.order == st.session.order && r.eng == st.eng && r.rus == st.rus &&
        (w in r.hard <==> w in st.hard || e.mistakes + 1 >= HARD_THRESHOLD)
  {
    var e := st.session.words[w];
    if correct then
      var e' := Entry(e.rus, e.score + 1, 0);
      if e'.score >= MAX_SCORE then
        var lists := RemovePair(st.eng, st.rus, w);
        State(Delete(st.session, w), st.hard - {w}, lists.0, lists.1)
      else
        st.(session := st.session.(words := st.session.words[w := e']))
    else
      var e' := Entry(e.rus, Max(0, e.score - 1), e.mistakes + 1);
      var hard := if e'.mistakes >= HARD_THRESHOLD then st.hard + {w} else st.hard;
      State(st.session.(words := st.session.words[w := e']), hard, st.eng, st.rus)
  }

  /** Three misses in a row make a fresh word hard, two do not. */
  lemma ThreeMissesMakeHard(st: State, w: string)
    requires Consistent(st) && w in st.session.words && w !in st.hard
    requires st.session.words[w].mistakes == 0
    ensures var s1 := Answer(st, w, false);
      var s2 := Answer(s1, w, false);
      w !in s2.hard && s2.session.words[w].mistakes == 2 && w in Answer(s2, w, false).hard
  {
  }

  /** A blank line of the vocabulary file becomes the empty word and goes
      into the first batch. */
  lemma BlankLineEntersBatch()
    ensures LoadAllLines([" "], ["x"]) == Success(([""], ["x"]))
    ensures "" in NextBatch(AllWords([""], ["x"])).words
  {
    BlankLineStrips();
    var items := AllWords([""], ["x"]);
    BlankWordItems();
    var b := NextBatch(items);
    assert |b.order| == 1 && b.order[0] == "";
  }

  lemma BlankLineStrips()
    ensures StripAll([" "]) == [""] && StripAll(["x"]) == ["x"]
  {
    assert StripAll([" "]) == [""] by {
      SpaceStripsToEmpty();
      StripAllOne(" ");
    }
    assert StripAll(["x"]) == ["x"] by {
      assert IsStripped("x") by {
        assert "x"[0] == 'x';
      }
      StripStripped("x");
      StripAllOne("x");
    }
  }

  lemma StripAllOne(line: string)
    ensures StripAll([line]) == [Strip(line)]
  {
  }

  lemma SpaceStripsToEmpty()
    ensures Strip(" ") == ""
  {
    assert AllSpace(" ") by {
      assert " "[0] == ' ';
    }
    StripBlank(" ");
  }

  lemma BlankWordItems()
    ensures AllWords([""], ["x"]) == [("", "x")]
  {
    var z := Zip([""], ["x"]);
    assert |z| == 1 && z[0] == ("", "x");
    assert NoDups([""]);
  }

  /** Three misses on the empty word and the script's hint fails on it,
      where the intended hint is just empty. */
  lemma BlankWordHintFails(st: State)
    requires Consistent(st) && "" in st.session.words && st.session.words[""].mistakes == 0
    ensures var s3 := Answer(Answer(Answer(st, "", false), "", false), "", false);
      "" in s3.session.words &&
      HintAsWritten("", s3.session.words[""].mistakes).Failure? &&
      Hint("", s3.session.words[""].mistakes) == ""
  {
  }

  /** From score 0, five right answers in a row retire a word. */
  lemma FiveRightAnswersRetire(st: State, w: string)
    requires Consistent(st) && w in st.session.words && st.session.words[w].score == 0
    ensures var s4 := Answer(Answer(Answer(Answer(st, w, true), w, true), w, true), w, true);
      w in s4.session.words && w !in Answer(s4, w, true).session.words
  {
  }

  /* ---------------- the session loop ---------------- */

  /** One pass of the loop body: a word is picked and asked, and the
      answer is applied to it. */
  method Step(st: State, pick: nat, correct: bool) returns (q: Question, next: State)
    requires Consistent(st) && |st.session.order| > 0
    ensures q == Ask(st, pick) && next == Answer(st, q.eng, correct)
    ensures q.eng in st.session.words
    ensures Consistent(next)
    ensures next.session.words.Keys <= st.session.words.Keys
    ensures InRange(st.session) ==> InRange(next.session)
  {
    q := Ask(st, pick);
    next := Answer(st, q.eng, correct);
  }

  /** One pass of the loop body: in `a`, `pick` asks `q`, and the answer
      `correct` applied to the word asked gives `b`. */
  predicate Transition(a: State, pick: nat, correct: bool, q: Question, b: State) {
    Consistent(a) && |a.session.order| > 0 && q == Ask(a, pick) && b == Answer(a, q.eng, correct)
  }

  /** `states` walks the loop: the k-th question is asked in `states[k]`
      with `picks[k]`, and its answer `answers[k]` gives `states[k + 1]`. */
  predicate Drilled(states: seq<State>, questions: seq<Question>, picks: seq<nat>, answers: seq<bool>) {
    |states| == |questions| + 1 && |questions| <= |picks| && |questions| <= |answers| &&
    forall k :: 0 <= k < |questions| ==>
      Transition(states[k], picks[k], answers[k], questions[k], states[k + 1])
  }

  /** One more pass of the loop body extends the walk. */
  lemma DrilledSnoc(states: seq<State>, questions: seq<Question>, picks: seq<nat>, answers: seq<bool>,
                    q: Question, next: State)
    requires Drilled(states, questions, picks, answers)
    requires |questions| < |picks| && |questions| < |answers|
    requires Transition(states[|questions|], picks[|questions|], answers[|questions|], q, next)
    ensures Drilled(states + [next], questions + [q], picks, answers)
    ensures (states + [next])[0] == states[0]
  {
    var states', questions' := states + [next], questions + [q];
    forall k | 0 <= k < |questions'|
      ensures Transition(states'[k], picks[k], answers[k], questions'[k], states'[k + 1])
    {
      if k < |questions| {
        assert states'[k] == states[k] && states'[k + 1] == states[k + 1] && questions'[k] == questions[k];
      }
    }
  }

  /** Each of the first n steps of `states` drops words at most and keeps
      scores in range. */
  predicate Shrinking(states: seq<State>, n: nat) {
    n < |states| &&
    forall k :: 0 <= k < n ==>
      states[k + 1].session.words.Keys <= states[k].session.words.Keys &&
      (InRange(states[k].session) ==> InRange(states[k + 1].session))
  }

  /** Up to its k-th state, a shrinking walk only loses words and keeps
      scores in range. */
  lemma {:induction false} ShrinkingUpTo(states: seq<State>, n: nat, k: nat)
    requires Shrinking(states, n) && k <= n
    ensures states[k].session.words.Keys <= states[0].session.words.Keys
    ensures InRange(states[0].session) ==> InRange(states[k].session)
    decreases k
  {
    if k > 0 {
      ShrinkingUpTo(states, n, k - 1);
    }
  }

  /** Along a walk the session only loses words, every question asks a
      word of the first session, and scores stay in range. */
  lemma DrilledFacts(states: seq<State>, questions: seq<Question>, picks: seq<nat>, answers: seq<bool>)
    requires Drilled(states, questions, picks, answers)
    ensures states[|questions|].session.words.Keys <= states[0].session.words.Keys
    ensures forall i :: 0 <= i < |questions| ==> questions[i].eng in states[0].session.words
    ensures InRange(states[0].session) ==> InRange(states[|questions|].session)
  {
    var n := |questions|;
    forall k | 0 <= k < n
      ensures states[k + 1].session.words.Keys <= states[k].session.words.Keys
      ensures InRange(states[k].session) ==> InRange(states[k + 1].session)
      ensures questions[k].eng in states[k].session.words
    {
      TransitionFacts(states[k], picks[k], answers[k], questions[k], states[k + 1]);
    }
    assert Shrinking(states, n);
    ShrinkingUpTo(states, n, n);
    forall i | 0 <= i < n ensures questions[i].eng in states[0].session.words {
      ShrinkingUpTo(states, n, i);
    }
  }

  lemma TransitionFacts(a: State, pick: nat, correct: bool, q: Question, b: State)
    requires Transition(a, pick, correct, q, b)
    ensures q.eng in a.session.words
    ensures b.session.words.Keys <= a.session.words.Keys
    ensures InRange(a.session) ==> InRange(b.session)
  {
  }

  /** `while words_data and questions_today < SESSION_WORDS`; the k-th
      question uses `picks[k]` and is answered by `answers[k]`, and
      `states` lists the state before each question and the final one. */
  method RunDrill(start: State, picks: seq<nat>, answers: seq<bool>)
    returns (st: State, questions: seq<Question>, states: seq<State>)
    requires Consistent(start)
    requires |picks| >= SESSION_WORDS && |answers| >= SESSION_WORDS
    ensures Drilled(states, questions, picks, answers)
    ensures states[0] == start && states[|questions|] == st
    ensures Consistent(st)
    ensures |questions| <= SESSION_WORDS
    ensures |questions| < SESSION_WORDS ==> |st.session.order| == 0
    ensures |start.session.order| > 0 ==> |questions| > 0
    ensures st.session.words.Keys <= start.session.words.Keys
    ensures forall i :: 0 <= i < |questions| ==> questions[i].eng in start.session.words
    ensures InRange(start.session) ==> InRange(st.session)
  {
    st, questions, states := start, [], [start];
    while |st.session.order| > 0 && |questions| < SESSION_WORDS
      invariant Consistent(st)
      invariant |questions| <= SESSION_WORDS
      invariant Drilled(states, questions, picks, answers)
      invariant states[0] == start && states[|questions|] == st
      decreases SESSION_WORDS - |questions|
    {
      var q, next := Step(st, picks[|questions|], answers[|questions|]);
      assert Transition(st, picks[|questions|], answers[|questions|], q, next);
      DrilledSnoc(states, questions, picks, answers, q, next);
      questions := questions + [q];
      states := states + [next];
      st := next;
    }
    DrilledFacts(states, questions, picks, answers);
  }

  /** The vocabulary as `list(all_words.items())`: each English word
      once, in the order of its first line, with the translation of its
      last line. */
  function AllWords(eng: seq<string>, rus: seq<string>): (items: seq<(string, string)>)
    ensures DistinctKeys(items)
    ensures KeysOf(items) == ToSet(eng[..Min(|eng|, |rus|)])
    ensures DictOf(items) == DictOf(Zip(eng, rus))
    ensures OrderedLike(KeyList(items), eng)
    ensures NoDups(eng) ==> items == Zip(eng, rus)
  {
    KeysOfZip(eng, rus);
    ItemsOfMatchesDictOf(Zip(eng, rus));
    ZipItemsOrder(eng, rus);
    ItemsOf(Zip(eng, rus))
  }

  /** The vocabulary has no items exactly when it has no lines. */
  lemma NoWordsLeft(eng: seq<string>, rus: seq<string>)
    requires |eng| == |rus|
    ensures |AllWords(eng, rus)| == 0 <==> |eng| == 0
  {
    assert eng[..Min(|eng|, |rus|)] == eng;
    if |eng| > 0 {
      assert eng[0] in ToSet(eng);
    }
  }

  /** What the loop may rely on in the session it is given. */
  lemma SessionToLearn(saved: Option<Session>, items: seq<(string, string)>)
    requires saved.Some? ==> WellFormed(saved.value)
    requires DistinctKeys(items)
    requires (saved.Some? && |saved.value.words| > 0) || |items| > 0
    ensures LoadNextSession(saved, items).Some?
    ensures WellFormed(LoadNextSession(saved, items).value)
    ensures |LoadNextSession(saved, items).value.order| > 0
    ensures saved.None? || InRange(saved.value) ==> InRange(LoadNextSession(saved, items).value)
  {
    var s := LoadNextSession(saved, items).value;
    EmptySession(s);
  }

  datatype Outcome = AllLearned | Studied(state: State, questions: seq<Question>, states: seq<State>)

  /** The whole script after reading its files: the two lists must have
      the same length, the hard words are the stripped lines of their
      file, and with nothing left to learn no question is asked. */
  method Run(saved: Option<Session>, engLines: seq<string>, rusLines: seq<string>,
             hardLines: seq<string>, picks: seq<nat>, answers: seq<bool>) returns (r: Result<Outcome, LoadError>)
    requires saved.Some? ==> WellFormed(saved.value)
    requires |picks| >= SESSION_WORDS && |answers| >= SESSION_WORDS
    ensures r.Failure? <==> |engLines| != |rusLines|
    ensures r.Success? ==>
      (r.value.AllLearned? <==> (saved.None? || |saved.value.words| == 0) && |engLines| == 0)
    ensures r.Success? && r.value.Studied? ==> 0 < |r.value.questions| <= SESSION_WORDS
    ensures r.Success? && r.value.Studied? && (saved.None? || InRange(saved.value)) ==>
      InRange(r.value.state.session)
    ensures r.Success? && r.value.Studied? ==>
      var items := AllWords(StripAll(engLines), StripAll(rusLines));
      var o := r.value;
      Drilled(o.states, o.questions, picks, answers) &&
      LoadNextSession(saved, items).Some? &&
      o.states[0] == State(LoadNextSession(saved, items).value, ToSet(StripAll(hardLines)),
                           StripAll(engLines), StripAll(rusLines)) &&
      o.states[|o.questions|] == o.state
  {
    var loaded := LoadAllLines(engLines, rusLines);
    if loaded.Failure? {
      return Failure(loaded.error);
    }
    var (eng, rus) := loaded.value;
    var items := AllWords(eng, rus);
    NoWordsLeft(eng, rus);
    var session := LoadNextSession(saved, items);
    if session.None? {
      return Success(AllLearned);
    }
    assert (saved.Some? && |saved.value.words| > 0) || |items| > 0;
    SessionToLearn(saved, items);
    var st, questions, states := RunDrill(State(session.value, ToSet(StripAll(hardLines)), eng, rus), picks, answers);
    r := Success(Studied(st, questions, states));
  }
}
