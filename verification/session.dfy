/**
 * One quiz attempt (quiz.js `startSection`, `showQuestion`, `checkAnswer`,
 * the "next" button and `updateHeader`), with the global variables of the
 * source gathered into one immutable `Session` value and every event handler
 * turned into a pure transition.
 */
module Session {
  import opened Wrappers
  import opened Text
  import opened Answers
  import opened Shuffle
  import opened Counts

  /** An entry of a mode's section catalog. */
  datatype Section = Section(id: string, name: string, file: string)

  /** A question as far as the session logic looks at it. A chosen option
      is submitted as its text, exactly like typed text. Every question is
      assumed to offer an input: a text field, or at least one choice. */
  datatype Question = Question(prompt: Option<string>, answer: Answer, explanation: Option<string>)

  /** One entry of the wrong-answer log. */
  datatype WrongRecord = WrongRecord(question: string, userAnswer: string, correctAnswer: string, explanation: string)

  /** The state of one attempt: `questions` is the active list, `index` the
      current position, `answered` records that the current question has been
      answered (its inputs are disabled and only "next" is live), `selected`
      the chosen count and `sectionName` the name of the chosen section
      (`currentSectionName`, empty when the catalog has no match; the header
      falls back to a default title then, see `Title`). */
  datatype Session = Session(
    questions: seq<Question>,
    index: nat,
    score: nat,
    wrongLog: seq<WrongRecord>,
    answered: bool,
    selected: nat,
    sectionName: string)

  /** An answer checker: given the submitted text and a question's `answer`
      field, is the submission correct? The quiz uses `Checker(f)`. */
  type Judge = (string, Answer) -> bool

  /** quiz.js `isCorrect` under the runtime's Unicode mappings `f`. */
  function Checker(f: Folding): Judge {
    (user: string, answer: Answer) => IsCorrect(user, answer, f)
  }

  /** What the quiz area shows. */
  datatype Screen = Asking | Reviewing | Finished

  /** The header counter (`問題 now / total`). */
  datatype Progress = Progress(shown: nat, total: nat)

  /** The final report shown by the result screen. */
  datatype Report = Report(score: nat, total: nat, wrongLog: seq<WrongRecord>)

  /** The first catalog position at or after `from` whose id is `id`. */
  function FindFrom(sections: seq<Section>, id: string, from: nat): (r: Option<nat>)
    requires from <= |sections|
    ensures r.Some? ==>
      && from <= r.value < |sections| && sections[r.value].id == id
      && forall m :: from <= m < r.value ==> sections[m].id != id
    ensures r.None? ==> forall m :: from <= m < |sections| ==> sections[m].id != id
    decreases |sections| - from
  {
    if from == |sections| then None
    else if sections[from].id == id then Some(from)
    else FindFrom(sections, id, from + 1)
  }

  /** quiz.js:161-162: the name of the first section whose id matches, or the
      empty string when none does. */
  function SectionName(sections: seq<Section>, id: string): (r: string)
    ensures (forall k :: 0 <= k < |sections| ==> sections[k].id != id) ==> r == []
    ensures forall k ::
      (0 <= k < |sections| && sections[k].id == id && forall m :: 0 <= m < k ==> sections[m].id != id)
      ==> r == sections[k].name
  {
    match FindFrom(sections, id, 0)
    case Some(k) => sections[k].name
    case None => []
  }

  /** The invariant of an attempt. The position never passes the end; the
      answers recorded so far (correct ones in `score`, wrong ones in
      `wrongLog`) are exactly the questions already left behind plus the
      current one once it is answered; and only a real question can be in
      the answered state. Before each answer, `score + |wrongLog| == index`. */
  predicate Valid(s: Session) {
    && s.index <= |s.questions|
    && s.score + |s.wrongLog| == s.index + (if s.answered then 1 else 0)
    && (s.answered ==> s.index < |s.questions|)
  }

  /** quiz.js:206-209 and the disabled inputs of quiz.js:296-303: the result
      screen once the position reaches the end of the list. In a valid
      attempt that happens exactly when the position equals the list length,
      and before that an answered question only waits for "next". */
  function ScreenOf(s: Session): (r: Screen)
    ensures r == Finished <==> s.index >= |s.questions|
    ensures Valid(s) ==> (r == Finished <==> s.index == |s.questions|)
    ensures Valid(s) && s.answered ==> r == Reviewing
  {
    if s.index >= |s.questions| then Finished
    else if s.answered then Reviewing
    else Asking
  }

  /** The header title used when the section name is empty: "クイズ" ("quiz"). */
  const DefaultTitle: string := "\U{30AF}\U{30A4}\U{30BA}"

  /** quiz.js:196: the header shows the section name, or the default title
      when the name is empty; it is never blank. */
  function Title(s: Session): (t: string)
    ensures t != []
    ensures s.sectionName != [] ==> t == s.sectionName
    ensures s.sectionName == [] ==> t == DefaultTitle
  {
    if s.sectionName != [] then s.sectionName else DefaultTitle
  }

  /** quiz.js `startSection` once the question file has been decoded into
      `all`: shuffle, keep `count` questions when `count` is non-zero and
      smaller than the bank, reset position, score and log. The questions are
      a prefix of the shuffled bank, so they form a sub-multiset of it, and
      the whole bank (as a permutation) when no truncation happens. */
  function Start(all: seq<Question>, count: nat, draws: seq<nat>, sections: seq<Section>, id: string): (s: Session)
    requires ValidDraws(draws, |all|)
    ensures Valid(s) && ScreenOf(s) != Reviewing
    ensures s.index == 0 && s.score == 0 && s.wrongLog == [] && !s.answered
    ensures s.selected == count && s.sectionName == SectionName(sections, id)
    ensures 0 < count <= |all| ==> |s.questions| == count
    ensures count == 0 || count >= |all| ==> |s.questions| == |all|
    ensures s.questions == Shuffled(all, draws)[..|s.questions|]
    ensures multiset(s.questions) <= multiset(all)
    ensures count == 0 || count >= |all| ==> multiset(s.questions) == multiset(all)
  {
    var bank := Shuffled(all, draws);
    var qs := Take(bank, count);
    assert bank == qs + bank[|qs|..];
    Session(qs, 0, 0, [], false, count, SectionName(sections, id))
  }

  /** The header of a new attempt: the default title when no catalog entry
      has the chosen id, and the first matching section's name when that name
      is not empty. */
  lemma StartTitle(all: seq<Question>, count: nat, draws: seq<nat>, sections: seq<Section>, id: string)
    requires ValidDraws(draws, |all|)
    ensures (forall k :: 0 <= k < |sections| ==> sections[k].id != id) ==>
      Title(Start(all, count, draws, sections, id)) == DefaultTitle
    ensures forall k ::
      (0 <= k < |sections| && sections[k].id == id && sections[k].name != []
        && forall m :: 0 <= m < k ==> sections[m].id != id)
      ==> Title(Start(all, count, draws, sections, id)) == sections[k].name
  {
  }

  /** The log entry for a wrong answer (quiz.js:273-280): a missing prompt
      or explanation is logged as the empty string, the submitted text as
      typed, and the correct answer as `Display` shows it. */
  function Record(q: Question, user: string): (r: WrongRecord)
    ensures q.prompt.None? ==> r.question == []
    ensures q.prompt.Some? ==> r.question == q.prompt.value
    ensures q.explanation.None? ==> r.explanation == []
    ensures q.explanation.Some? ==> r.explanation == q.explanation.value
    ensures r.userAnswer == user
    ensures q.answer.Single? ==> r.correctAnswer == q.answer.text.GetOr([])
    ensures q.answer.Accepted? && |q.answer.texts| == 1 ==> r.correctAnswer == q.answer.texts[0]
  {
    WrongRecord(q.prompt.GetOr([]), user, Display(q.answer), q.explanation.GetOr([]))
  }

  /** A wrong-answer record of a question with a list of accepted answers
      shows every one of them: answer `k` sits at its offset in the logged
      correct answer, followed by `" / "` when another answer follows and by
      the end of the text when it is the last. */
  lemma {:induction false} RecordShowsEveryAnswer(q: Question, user: string, k: nat)
    requires q.answer.Accepted? && k < |q.answer.texts|
    ensures var texts := q.answer.texts; var c := Record(q, user).correctAnswer;
      var a := Offset(texts, " / ", k); var b := a + |texts[k]|;
      && b <= |c| && c[a..b] == texts[k]
      && (k + 1 < |texts| ==> b + 3 <= |c| && c[b..b + 3] == " / ")
      && (k + 1 == |texts| ==> b == |c|)
  {
    var texts := q.answer.texts;
    JoinLayout(texts, " / ", k);
    if k + 1 == |texts| {
      JoinLength(texts, " / ");
      OffsetStep(texts, " / ", k);
    }
  }

  /** The session judges with `isCorrect`: under `Checker(f)` a waiting
      question is scored exactly when `IsCorrect` accepts the submission, and
      logged exactly when it does not. */
  lemma CheckerScores(s: Session, user: string, f: Folding)
    requires ScreenOf(s) == Asking
    ensures var r := Submit(s, user, Checker(f)); var ok := IsCorrect(user, s.questions[s.index].answer, f);
      && (r.score == s.score + 1 <==> ok)
      && (r.wrongLog == s.wrongLog + [Record(s.questions[s.index], user)] <==> !ok)
  {
  }

  /** quiz.js `checkAnswer` (quiz.js:254-306). Only a question awaiting its
      answer reacts; otherwise nothing changes (the inputs are gone or
      disabled). A correct answer adds one to the score and leaves the log
      alone; a wrong one appends exactly one record and leaves the score
      alone; so the number of recorded answers grows by exactly one. Either
      way the question becomes answered, and the invariant is kept. */
  function Submit(s: Session, user: string, judge: Judge): (r: Session)
    ensures ScreenOf(s) != Asking ==> r == s
    ensures ScreenOf(s) == Asking ==>
      && r.questions == s.questions && r.index == s.index && r.answered
      && r.selected == s.selected && r.sectionName == s.sectionName
      && ScreenOf(r) == Reviewing
    ensures ScreenOf(s) == Asking ==>
      var correct := judge(user, s.questions[s.index].answer);
      && (correct <==> r.score == s.score + 1)
      && (correct <==> r.wrongLog == s.wrongLog)
      && (!correct ==> r.score == s.score && r.wrongLog == s.wrongLog + [Record(s.questions[s.index], user)])
    ensures r.score + |r.wrongLog| == s.score + |s.wrongLog| + (if ScreenOf(s) == Asking then 1 else 0)
    ensures Valid(s) ==> Valid(r)
  {
    if ScreenOf(s) != Asking then s
    else
      var q := s.questions[s.index];
      if judge(user, q.answer) then
        s.(score := s.score + 1, answered := true)
      else
        s.(wrongLog := s.wrongLog + [Record(q, user)], answered := true)
  }

  /** The "next" button (quiz.js:289-292). It is live only after an answer
      and moves to the following position, which is the result screen
      exactly when the answered question was the last one; nothing else
      changes, and the invariant is kept. */
  function Next(s: Session): (r: Session)
    ensures ScreenOf(s) != Reviewing ==> r == s
    ensures ScreenOf(s) == Reviewing ==>
      && r.index == s.index + 1 && !r.answered
      && r.questions == s.questions && r.score == s.score && r.wrongLog == s.wrongLog
      && r.selected == s.selected && r.sectionName == s.sectionName
    ensures ScreenOf(s) == Reviewing ==> (ScreenOf(r) == Finished <==> s.index + 1 == |s.questions|)
    ensures Valid(s) ==> Valid(r)
  {
    if ScreenOf(s) != Reviewing then s
    else s.(index := s.index + 1, answered := false)
  }

  /** A second answer to the same question is ignored. */
  lemma AnswerOnce(s: Session, first: string, second: string, judge: Judge)
    ensures Submit(Submit(s, first, judge), second, judge) == Submit(s, first, judge)
  {
  }

  /** quiz.js:193-197: the total is the list length, or the chosen count when
      the list is empty; the counter shown never exceeds the total, is at
      least 1 when there is a total, is the current question's number while
      a question is on screen, and equals the total on the result screen. */
  function ProgressOf(s: Session): (p: Progress)
    ensures p.total == (if |s.questions| > 0 then |s.questions| else s.selected)
    ensures p.shown <= p.total
    ensures p.total > 0 ==> 1 <= p.shown
    ensures Valid(s) && ScreenOf(s) != Finished ==> p.shown == s.index + 1
    ensures Valid(s) && ScreenOf(s) == Finished && |s.questions| > 0 ==> p.shown == p.total
  {
    var total := if |s.questions| != 0 then |s.questions| else s.selected;
    var now := if s.index + 1 < total then s.index + 1 else total;
    Progress(if total != 0 then now else 0, total)
  }

  /** The result screen's figures (quiz.js:315 and the wrong-answer cards). */
  function ReportOf(s: Session): (rep: Report)
    ensures Valid(s) && ScreenOf(s) == Finished ==>
      rep.score <= rep.total && rep.score + |rep.wrongLog| == rep.total
  {
    Report(s.score, |s.questions|, s.wrongLog)
  }

  /** Answer the current question with each of `answers` in turn, pressing
      "next" after each. */
  function Play(s: Session, answers: seq<string>, judge: Judge): Session
    decreases |answers|
  {
    if answers == [] then s else Play(Next(Submit(s, answers[0], judge)), answers[1..], judge)
  }

  /** Reference grading, question by question: how many answers are correct. */
  function Graded(qs: seq<Question>, answers: seq<string>, judge: Judge): nat
    requires |qs| == |answers|
  {
    if qs == [] then 0
    else (if judge(answers[0], qs[0].answer) then 1 else 0) + Graded(qs[1..], answers[1..], judge)
  }

  /** The log entries one answer contributes: none, or its record. */
  function MissedOne(q: Question, user: string, judge: Judge): seq<WrongRecord> {
    if judge(user, q.answer) then [] else [Record(q, user)]
  }

  /** Reference grading: the records of the wrong answers, in question order. */
  function Missed(qs: seq<Question>, answers: seq<string>, judge: Judge): seq<WrongRecord>
    requires |qs| == |answers|
  {
    if qs == [] then []
    else MissedOne(qs[0], answers[0], judge) + Missed(qs[1..], answers[1..], judge)
  }

  /** Every question is either counted as correct or logged as wrong. */
  lemma {:induction false} GradedPlusMissed(qs: seq<Question>, answers: seq<string>, judge: Judge)
    requires |qs| == |answers|
    ensures Graded(qs, answers, judge) + |Missed(qs, answers, judge)| == |qs|
  {
    if qs != [] {
      GradedPlusMissed(qs[1..], answers[1..], judge);
    }
  }

  /** One answer followed by "next", from a question awaiting its answer. */
  lemma Step(s: Session, user: string, judge: Judge)
    requires Valid(s) && !s.answered && s.index < |s.questions|
    ensures var r := Next(Submit(s, user, judge));
      var q := s.questions[s.index];
      && Valid(r) && !r.answered
      && r.questions == s.questions && r.index == s.index + 1
      && r.selected == s.selected && r.sectionName == s.sectionName
      && r.score == s.score + (if judge(user, q.answer) then 1 else 0)
      && r.wrongLog == s.wrongLog + MissedOne(q, user, judge)
  {
  }

  /** Playing answers from an unanswered position keeps the attempt valid
      and moves it forward by one position per answer. */
  lemma {:induction false} PlayAdvances(s: Session, answers: seq<string>, judge: Judge)
    requires Valid(s) && !s.answered && s.index + |answers| <= |s.questions|
    ensures var r := Play(s, answers, judge);
      && Valid(r) && !r.answered
      && r.questions == s.questions && r.index == s.index + |answers|
      && r.selected == s.selected && r.sectionName == s.sectionName
    decreases |answers|
  {
    if answers != [] {
      Step(s, answers[0], judge);
      PlayAdvances(Next(Submit(s, answers[0], judge)), answers[1..], judge);
    }
  }

  /** Answering every remaining question from an unanswered position adds
      the reference count of correct answers to the score. */
  lemma {:induction false} PlayScores(s: Session, answers: seq<string>, judge: Judge)
    requires Valid(s) && !s.answered && s.index + |answers| == |s.questions|
    ensures Play(s, answers, judge).score == s.score + Graded(s.questions[s.index..], answers, judge)
    decreases |answers|
  {
    if answers != [] {
      var s' := Next(Submit(s, answers[0], judge));
      Step(s, answers[0], judge);
      assert s.questions[s.index..][1..] == s'.questions[s'.index..];
      PlayScores(s', answers[1..], judge);
    }
  }

  /** Answering every remaining question from an unanswered position appends
      the reference list of wrong-answer records to the log. */
  lemma {:induction false} PlayLogs(s: Session, answers: seq<string>, judge: Judge)
    requires Valid(s) && !s.answered && s.index + |answers| == |s.questions|
    ensures Play(s, answers, judge).wrongLog == s.wrongLog + Missed(s.questions[s.index..], answers, judge)
    decreases |answers|
  {
    var qs := s.questions[s.index..];
    if answers == [] {
      assert s.wrongLog + Missed(qs, answers, judge) == s.wrongLog;
    } else {
      var s' := Next(Submit(s, answers[0], judge));
      var hd := MissedOne(qs[0], answers[0], judge);
      var rest := Missed(s'.questions[s'.index..], answers[1..], judge);
      Step(s, answers[0], judge);
      assert qs[1..] == s'.questions[s'.index..];
      PlayLogs(s', answers[1..], judge);
      assert Missed(qs, answers, judge) == hd + rest;
    }
  }

  /** A whole attempt: from a fresh session (as `Start` returns) and one
      answer per question, the result screen is reached, and its report is
      the reference grading of the active questions; its score and wrong
      records add up to the total. */
  lemma AttemptReport(s: Session, answers: seq<string>, judge: Judge)
    requires Valid(s) && s.index == 0 && !s.answered
    requires |answers| == |s.questions|
    ensures var r := Play(s, answers, judge);
      && ScreenOf(r) == Finished
      && ReportOf(r) == Report(Graded(s.questions, answers, judge), |s.questions|, Missed(s.questions, answers, judge))
      && ReportOf(r).score + |ReportOf(r).wrongLog| == ReportOf(r).total
  {
    assert s.score == 0 && s.wrongLog == [];
    assert s.questions[0..] == s.questions;
    PlayAdvances(s, answers, judge);
    PlayScores(s, answers, judge);
    PlayLogs(s, answers, judge);
    GradedPlusMissed(s.questions, answers, judge);
  }

  /** When every answer is correct, all questions score and nothing is logged. */
  lemma {:induction false} AllCorrect(qs: seq<Question>, answers: seq<string>, judge: Judge)
    requires |qs| == |answers|
    requires forall k :: 0 <= k < |qs| ==> judge(answers[k], qs[k].answer)
    ensures Graded(qs, answers, judge) == |qs| && Missed(qs, answers, judge) == []
  {
    if qs != [] {
      assert judge(answers[0], qs[0].answer);
      AllCorrect(qs[1..], answers[1..], judge);
    }
  }
}
