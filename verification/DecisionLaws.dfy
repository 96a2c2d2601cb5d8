/** Exactly which results are accepted for a request, on the values their decimals spell. */
module DecisionLaws {
  import opened Strings
  import opened Decimal
  import opened Decision
  import opened Netstrings

  // ----- numbers

  /** A plain decimal of at most 64 bytes, from zero to `max`. */
  predicate Spells(value: string, max: real) {
    |value| <= 64 && IsPlain(value) && 0.0 <= Value(value) <= max
  }

  lemma NumberExactly(k: Checks, value: string, max: real)
    requires k.decimal == WireDecimal
    ensures Number(k, value, max) <==> Spells(value, max)
  {
    if IsPlain(value) {
      PlainNonnegative(value);
    }
  }

  // ----- questions

  predicate DistinctOptions(os: seq<OptionDecl>) {
    forall i, j :: 0 <= i < j < |os| ==> os[i].id != os[j].id
  }

  predicate AsksChoice(k: Checks, q: Question) {
    && q.kind == "choice" && q.choice.Some? && q.score == None && q.noul == None
    && 1 <= |q.choice.value| <= 255 && DistinctOptions(q.choice.value)
    && forall o <- q.choice.value :: o.content && k.text(o.id, 255)
  }

  predicate AsksScore(q: Question) {
    && q.kind == "score" && q.score.Some? && q.choice == None && q.noul == None
    && 2 <= |q.score.value| <= 10 && false !in q.score.value
  }

  predicate AsksNoul(q: Question) {
    q.kind == "noul" && q.noul == Some(true) && q.choice == None && q.score == None
  }

  lemma OptionsExactly(k: Checks, os: seq<OptionDecl>)
    ensures GoodOptions(k, os) <==> 1 <= |os| <= 255 && DistinctOptions(os) && forall o <- os :: o.content && k.text(o.id, 255)
  {
    var ids := OptionIds(os);
    if GoodOptions(k, os) {
      forall i, j | 0 <= i < j < |os|
        ensures os[i].id != os[j].id
      {
        assert ids[i] != ids[j];
      }
      forall o <- os
        ensures o.content && k.text(o.id, 255)
      {
        var i :| 0 <= i < |os| && os[i] == o;
        assert GoodOption(k, os[i]);
      }
    }
  }

  /** A question is good when it asks exactly one thing, and that thing is good. */
  lemma QuestionExactly(k: Checks, q: Question)
    ensures GoodQuestion(k, q) <==> k.id(q.id) && q.content && (AsksChoice(k, q) || AsksScore(q) || AsksNoul(q))
  {
    if q.choice.Some? {
      OptionsExactly(k, q.choice.value);
    }
    assert q.score.Some? ==> (GoodLevels(q.score.value) <==> 2 <= |q.score.value| <= 10 && false !in q.score.value);
  }

  // ----- answers

  /** As many entries as ids, and one for each. */
  predicate Found(ps: seq<Probability>, ids: seq<string>) {
    |ps| == |ids| && forall id <- ids :: exists j :: 0 <= j < |ps| && ps[j].id == id
  }

  /** Each entry is from zero to one, and they add up to one within a millionth. */
  predicate AddsToOne(ps: seq<Probability>) {
    (forall j :: 0 <= j < |ps| ==> Spells(ps[j].value, 1.0)) && -0.000001 <= Total(ps) - 1.0 <= 0.000001
  }

  /** A distribution over these ids. */
  predicate Distributes(ps: seq<Probability>, ids: seq<string>) {
    Found(ps, ids) && AddsToOne(ps)
  }

  predicate AnswersChoice(q: Question, a: Answer)
    requires q.choice.Some?
  {
    && a.kind == "choice" && a.choice.Some? && a.score == None && a.noul == None
    && Distributes(a.choice.value.probabilities, OptionIds(q.choice.value))
    && (exists i :: 0 <= i < |q.choice.value| && q.choice.value[i].id == a.choice.value.choice)
    && Spells(a.choice.value.confidence, 1.0)
  }

  /** A title for each level, under the level's number. */
  predicate LegendOf(k: Checks, legend: seq<LegendEntry>, n: nat) {
    && |legend| == n
    && forall i :: 0 <= i < n ==> legend[i].id == Itoa(i) && k.text(Itoa(i), 255) && k.text(legend[i].title, 4096)
  }

  predicate AnswersScore(k: Checks, q: Question, a: Answer)
    requires q.score.Some?
  {
    var n := |q.score.value|;
    && a.kind == "score" && a.score.Some? && a.choice == None && a.noul == None
    && Distributes(a.score.value.probabilities, LevelIds(n))
    && Spells(a.score.value.score, (n - 1) as real) && Spells(a.score.value.confidence, 1.0)
    && LegendOf(k, a.score.value.legend, n)
  }

  predicate AnswersNoul(a: Answer) {
    a.kind == "noul" && a.noul.Some? && a.choice == None && a.score == None && Spells(a.noul.value, 1.0)
  }

  /** The answer is one to the question. */
  predicate AnswerTo(k: Checks, q: Question, a: Answer) {
    && a.id == q.id
    && (q.choice.Some? ==> AnswersChoice(q, a))
    && (q.score.Some? ==> AnswersScore(k, q, a))
    && (q.noul.Some? ==> AnswersNoul(a))
  }

  lemma EntriesExactly(k: Checks, ps: seq<Probability>)
    requires k.decimal == WireDecimal
    ensures (forall j :: 0 <= j < |ps| ==> GoodProbability(k, ps[j])) <==>
            forall j :: 0 <= j < |ps| ==> Spells(ps[j].value, 1.0) && k.text(ps[j].id, 255)
  {
    forall j | 0 <= j < |ps|
      ensures GoodProbability(k, ps[j]) <==> Spells(ps[j].value, 1.0) && k.text(ps[j].id, 255)
    {
      NumberExactly(k, ps[j].value, 1.0);
    }
  }

  lemma FoundExactly(ps: seq<Probability>, ids: seq<string>)
    requires NoRepeats(ids)
    ensures Found(ps, ids) <==> NoRepeats(ProbabilityIds(ps)) && multiset(ProbabilityIds(ps)) == multiset(ids)
    ensures Found(ps, ids) ==> forall j :: 0 <= j < |ps| ==> ps[j].id in ids
  {
    var found := ProbabilityIds(ps);
    if Found(ps, ids) {
      forall i | 0 <= i < |ids|
        ensures ids[i] in found
      {
        assert ids[i] in ids;
        var j :| 0 <= j < |ps| && ps[j].id == ids[i];
        assert found[j] == ids[i];
      }
      EachOnce(ids, found);
      SameMembers(found, ids);
      forall j | 0 <= j < |ps|
        ensures ps[j].id in ids
      {
        assert found[j] in found;
      }
    }
    if NoRepeats(found) && multiset(found) == multiset(ids) {
      Rearranged(ps, ids);
    }
  }

  predicate Named(k: Checks, ps: seq<Probability>) {
    forall j :: 0 <= j < |ps| ==> k.text(ps[j].id, 255)
  }

  lemma GoodExactly(k: Checks, ps: seq<Probability>)
    requires k.decimal == WireDecimal
    ensures GoodProbabilities(k, ps) <==> 1 <= |ps| <= 255 && AddsToOne(ps) && Named(k, ps) && NoRepeats(ProbabilityIds(ps))
  {
    EntriesExactly(k, ps);
    if forall j :: 0 <= j < |ps| ==> GoodProbability(k, ps[j]) {
      SumIsTotal(k, ps);
    }
  }

  /** The probability rules, with the ids they are to have. */
  lemma DistributesExactly(k: Checks, ps: seq<Probability>, ids: seq<string>)
    requires k.decimal == WireDecimal && NoRepeats(ids) && 1 <= |ids| <= 255
    ensures GoodProbabilities(k, ps) && multiset(ProbabilityIds(ps)) == multiset(ids)
            <==> Distributes(ps, ids) && forall id <- ids :: k.text(id, 255)
  {
    GoodExactly(k, ps);
    PermutedExactly(k, ps, ids, AddsToOne(ps));
  }

  lemma PermutedExactly(k: Checks, ps: seq<Probability>, ids: seq<string>, adds: bool)
    requires NoRepeats(ids) && 1 <= |ids| <= 255
    ensures (1 <= |ps| <= 255 && adds && Named(k, ps) && NoRepeats(ProbabilityIds(ps))) && multiset(ProbabilityIds(ps)) == multiset(ids)
            <==> Found(ps, ids) && adds && forall id <- ids :: k.text(id, 255)
  {
    FoundExactly(ps, ids);
    if Found(ps, ids) {
      TextsAgree(k, ps, ids);
    }
  }

  lemma TextsAgree(k: Checks, ps: seq<Probability>, ids: seq<string>)
    requires Found(ps, ids) && forall j :: 0 <= j < |ps| ==> ps[j].id in ids
    ensures Named(k, ps) <==> forall id <- ids :: k.text(id, 255)
  {
    if Named(k, ps) {
      forall id <- ids
        ensures k.text(id, 255)
      {
        var j :| 0 <= j < |ps| && ps[j].id == id;
      }
    }
  }

  /** As many found as there are distinct ids, and every id among them: each is found once. */
  lemma {:induction false} EachOnce(ids: seq<string>, found: seq<string>)
    requires NoRepeats(ids) && |ids| == |found| && forall i :: 0 <= i < |ids| ==> ids[i] in found
    ensures multiset(ids) == multiset(found) && NoRepeats(found)
    decreases |ids|
  {
    if ids != [] {
      assert ids[0] in found;
      var j :| 0 <= j < |found| && found[j] == ids[0];
      var rest := found[..j] + found[j + 1..];
      assert forall l :: 0 <= l < |rest| ==> rest[l] == found[if l < j then l else l + 1];
      forall i | 0 <= i < |ids[1..]|
        ensures ids[1..][i] in rest
      {
        assert ids[1..][i] == ids[i + 1] && ids[i + 1] in found;
        var l :| 0 <= l < |found| && found[l] == ids[i + 1];
        assert rest[if l < j then l else l - 1] == ids[i + 1];
      }
      EachOnce(ids[1..], rest);
      ConsAndInsert(ids, found, j);
      OnceMore(ids, found, j, rest);
    }
  }

  lemma OnceMore(ids: seq<string>, found: seq<string>, j: nat, rest: seq<string>)
    requires NoRepeats(ids) && ids != [] && j < |found| && found[j] == ids[0]
    requires rest == found[..j] + found[j + 1..] && NoRepeats(rest) && multiset(ids[1..]) == multiset(rest)
    ensures NoRepeats(found)
  {
    SameMembers(ids[1..], rest);
    forall l | 0 <= l < |found| && l != j
      ensures found[l] != found[j]
    {
      var m := if l < j then l else l - 1;
      assert rest[m] == found[l] && rest[m] in rest;
      var i :| 0 <= i < |ids[1..]| && ids[1..][i] == found[l];
      assert ids[i + 1] == found[l];
    }
    forall l, m | 0 <= l < m < |found|
      ensures found[l] != found[m]
    {
      if l != j && m != j {
        assert found[l] == rest[if l < j then l else l - 1] && found[m] == rest[if m < j then m else m - 1];
      }
    }
  }

  lemma ChoiceOfExactly(k: Checks, c: ChoiceAnswer, os: seq<OptionDecl>)
    requires k.decimal == WireDecimal && NoRepeats(OptionIds(os)) && 1 <= |os| <= 255
    requires forall id <- OptionIds(os) :: k.text(id, 255)
    ensures GoodChoice(k, c) && multiset(ProbabilityIds(c.probabilities)) == multiset(OptionIds(os)) <==>
            && Distributes(c.probabilities, OptionIds(os)) && Spells(c.confidence, 1.0)
            && exists i :: 0 <= i < |os| && os[i].id == c.choice
  {
    NumberExactly(k, c.confidence, 1.0);
    DistributesExactly(k, c.probabilities, OptionIds(os));
    AmongExactly(os, c.choice);
    if multiset(ProbabilityIds(c.probabilities)) == multiset(OptionIds(os)) {
      SameMembers(ProbabilityIds(c.probabilities), OptionIds(os));
    }
  }

  lemma AmongExactly(os: seq<OptionDecl>, id: string)
    ensures id in OptionIds(os) <==> exists i :: 0 <= i < |os| && os[i].id == id
  {
    var ids := OptionIds(os);
    if i :| 0 <= i < |os| && os[i].id == id {
      assert ids[i] == id;
    }
  }

  lemma AskedOptions(k: Checks, q: Question)
    requires AsksChoice(k, q)
    ensures NoRepeats(OptionIds(q.choice.value)) && forall id <- OptionIds(q.choice.value) :: k.text(id, 255)
  {
  }

  lemma ChoiceExactly(k: Checks, q: Question, a: Answer)
    requires k.decimal == WireDecimal && k.id(q.id) && AsksChoice(k, q)
    ensures GoodAnswer(k, a) && Fits(k, q, a) <==> a.id == q.id && AnswersChoice(q, a)
  {
    AskedOptions(k, q);
    if a.choice.Some? {
      ChoiceOfExactly(k, a.choice.value, q.choice.value);
    }
  }

  lemma LegendExactly(k: Checks, legend: seq<LegendEntry>, n: nat)
    ensures LegendIds(legend) == LevelIds(n) && (forall i :: 0 <= i < |legend| ==> GoodEntry(k, legend[i])) <==>
            LegendOf(k, legend, n)
  {
    if LegendOf(k, legend, n) {
      assert LegendIds(legend) == LevelIds(n);
    }
    if LegendIds(legend) == LevelIds(n) && forall i :: 0 <= i < |legend| ==> GoodEntry(k, legend[i]) {
      assert |LegendIds(legend)| == n;
      forall i | 0 <= i < n
        ensures legend[i].id == Itoa(i) && k.text(Itoa(i), 255) && k.text(legend[i].title, 4096)
      {
        assert LegendIds(legend)[i] == LevelIds(n)[i] && GoodEntry(k, legend[i]);
      }
    }
  }

  /** What is asked of a score's numbers and of its legend. */
  lemma ScaleExactly(k: Checks, s: ScoreAnswer, n: nat)
    requires k.decimal == WireDecimal && 2 <= n <= 10
    ensures Number(k, s.score, 9.0) && Number(k, s.score, (n - 1) as real) && Number(k, s.confidence, 1.0)
            <==> Spells(s.score, (n - 1) as real) && Spells(s.confidence, 1.0)
  {
    NumberExactly(k, s.score, 9.0);
    NumberExactly(k, s.score, (n - 1) as real);
    NumberExactly(k, s.confidence, 1.0);
  }

  predicate GoodLegend(k: Checks, legend: seq<LegendEntry>) {
    && 2 <= |legend| <= 10
    && (forall i :: 0 <= i < |legend| ==> GoodEntry(k, legend[i]))
    && NoRepeats(LegendIds(legend))
  }

  lemma LegendOfExactly(k: Checks, legend: seq<LegendEntry>, n: nat)
    requires 2 <= n <= 10
    ensures GoodLegend(k, legend) && LegendIds(legend) == LevelIds(n) <==> LegendOf(k, legend, n)
    ensures LegendOf(k, legend, n) ==> forall id <- LevelIds(n) :: k.text(id, 255)
  {
    LegendExactly(k, legend, n);
    if LegendIds(legend) == LevelIds(n) {
      LevelIdsDistinct(n);
      assert |LegendIds(legend)| == n;
    }
    if LegendOf(k, legend, n) {
      LevelTexts(k, legend, n);
    }
  }

  lemma ScoreIsGood(k: Checks, s: ScoreAnswer)
    ensures GoodScore(k, s) <==>
            Number(k, s.score, 9.0) && Number(k, s.confidence, 1.0) && GoodProbabilities(k, s.probabilities) && GoodLegend(k, s.legend)
  {
  }

  lemma ScoreOfExactly(k: Checks, s: ScoreAnswer, n: nat)
    requires k.decimal == WireDecimal && 2 <= n <= 10
    ensures && GoodScore(k, s) && multiset(ProbabilityIds(s.probabilities)) == multiset(LevelIds(n))
            && Number(k, s.score, (n - 1) as real) && LegendIds(s.legend) == LevelIds(n)
            <==>
            && Distributes(s.probabilities, LevelIds(n)) && LegendOf(k, s.legend, n)
            && Spells(s.score, (n - 1) as real) && Spells(s.confidence, 1.0)
  {
    ScoreIsGood(k, s);
    ScaleExactly(k, s, n);
    LevelIdsDistinct(n);
    DistributesExactly(k, s.probabilities, LevelIds(n));
    LegendOfExactly(k, s.legend, n);
  }

  lemma LevelTexts(k: Checks, legend: seq<LegendEntry>, n: nat)
    requires LegendOf(k, legend, n)
    ensures forall id <- LevelIds(n) :: k.text(id, 255)
  {
    forall id <- LevelIds(n)
      ensures k.text(id, 255)
    {
      var i :| 0 <= i < n && LevelIds(n)[i] == id;
    }
  }

  lemma ScoreExactly(k: Checks, q: Question, a: Answer)
    requires k.decimal == WireDecimal && k.id(q.id) && AsksScore(q)
    ensures GoodAnswer(k, a) && Fits(k, q, a) <==> a.id == q.id && AnswersScore(k, q, a)
  {
    if a.score.Some? {
      ScoreOfExactly(k, a.score.value, |q.score.value|);
    }
  }

  lemma NoulExactly(k: Checks, q: Question, a: Answer)
    requires k.decimal == WireDecimal && k.id(q.id) && AsksNoul(q)
    ensures GoodAnswer(k, a) && Fits(k, q, a) <==> a.id == q.id && AnswersNoul(a)
  {
    if a.noul.Some? {
      NumberExactly(k, a.noul.value, 1.0);
    }
  }

  /** A good question accepts an answer exactly when it is one to it: a distribution over the
      question's options or levels, a choice among the options or a score on the scale. */
  lemma AcceptedExactly(k: Checks, q: Question, a: Answer)
    requires k.decimal == WireDecimal && GoodQuestion(k, q)
    ensures GoodAnswer(k, a) && Fits(k, q, a) <==> AnswerTo(k, q, a)
  {
    QuestionExactly(k, q);
    if AsksChoice(k, q) {
      ChoiceExactly(k, q, a);
    } else if AsksScore(q) {
      ScoreExactly(k, q, a);
    } else {
      NoulExactly(k, q, a);
    }
  }

  /** What ValidateFor accepts for a good request: an answer to every question, in their order,
      and the provider and model that were asked. */
  lemma ResultExactly(k: Checks, v: BatchResult, request: BatchRequest)
    requires k.decimal == WireDecimal && GoodRequest(k, request)
    ensures GoodResult(k, v) && Matches(k, v, request) <==>
            && v.providerId == request.providerId && v.requestedModel == request.model
            && k.text(v.model, 255) && v.usageExplicit && v.sizeOk
            && |v.answers| == |request.questions|
            && forall i :: 0 <= i < |v.answers| ==> AnswerTo(k, request.questions[i], v.answers[i])
  {
    if |v.answers| == |request.questions| {
      forall i | 0 <= i < |v.answers|
        ensures GoodAnswer(k, v.answers[i]) && Fits(k, request.questions[i], v.answers[i])
                <==> AnswerTo(k, request.questions[i], v.answers[i])
      {
        AcceptedExactly(k, request.questions[i], v.answers[i]);
      }
      if forall i :: 0 <= i < |v.answers| ==> AnswerTo(k, request.questions[i], v.answers[i]) {
        AnswersDiffer(k, v.answers, request.questions);
      }
    }
  }

  lemma AnswersDiffer(k: Checks, answers: seq<Answer>, qs: seq<Question>)
    requires |answers| == |qs| && NoRepeats(QuestionIds(qs))
    requires forall i :: 0 <= i < |answers| ==> AnswerTo(k, qs[i], answers[i])
    ensures NoRepeats(AnswerIds(answers))
  {
    forall i, j | 0 <= i < j < |answers|
      ensures AnswerIds(answers)[i] != AnswerIds(answers)[j]
    {
      assert AnswerTo(k, qs[i], answers[i]) && AnswerTo(k, qs[j], answers[j]);
      assert QuestionIds(qs)[i] != QuestionIds(qs)[j];
    }
  }
}
