/** Validation of decision results against their request (v2/aidecision/contract.go). */
module Decision {
  import opened Strings
  import opened Decimal
  import Netstrings

  const MAX_QUESTIONS := 100
  const MAX_OPTIONS := 255
  const MAX_SCORE_LEVELS := 10
  const KIND_CHOICE := "choice"
  const KIND_SCORE := "score"
  const KIND_NOUL := "noul"

  /** The text, identifier and decimal rules. Everything here holds whatever they are; the
      decimal rule of the source is WireDecimal. */
  datatype Checks = Checks(text: (string, nat) -> bool, id: string -> bool, decimal: string -> Option<real>)

  /** ParseDecimal: the exact value of a wire decimal. */
  function WireDecimal(value: string): Option<real> {
    if ParsesDecimal(value) then Some(Value(value)) else None
  }

  // ----- requests; a `content` field is the verdict on structured text

  datatype OptionDecl = OptionDecl(id: string, content: bool)

  datatype Question = Question(
    id: string,
    kind: string,
    content: bool,
    choice: Option<seq<OptionDecl>>,
    score: Option<seq<bool>>,
    noul: Option<bool>)

  datatype BatchRequest = BatchRequest(
    purposeKnown: bool,
    providerId: string,
    model: string,
    content: bool,
    questions: seq<Question>,
    idempotencyKey: string,
    sizeOk: bool)

  // ----- results

  datatype Probability = Probability(id: string, value: string)

  datatype LegendEntry = LegendEntry(id: string, title: string)

  datatype ChoiceAnswer = ChoiceAnswer(choice: string, probabilities: seq<Probability>, confidence: string)

  datatype ScoreAnswer = ScoreAnswer(score: string, legend: seq<LegendEntry>, probabilities: seq<Probability>, confidence: string)

  datatype Answer = Answer(id: string, kind: string, choice: Option<ChoiceAnswer>, score: Option<ScoreAnswer>, noul: Option<string>)

  datatype BatchResult = BatchResult(
    providerId: string,
    requestedModel: string,
    model: string,
    answers: seq<Answer>,
    usageExplicit: bool,
    sizeOk: bool)

  // ----- what is valid on its own

  /** number: a wire decimal of at most `max`. */
  predicate Number(k: Checks, value: string, max: real) {
    k.decimal(value).Some? && k.decimal(value).value <= max
  }

  function Amount(k: Checks, value: string): real {
    if k.decimal(value).Some? then k.decimal(value).value else 0.0
  }

  function ProbabilityIds(ps: seq<Probability>): (ids: seq<string>)
    ensures |ids| == |ps|
    ensures forall i :: 0 <= i < |ps| ==> ids[i] == ps[i].id
  {
    seq(|ps|, i requires 0 <= i < |ps| => ps[i].id)
  }

  function OptionIds(os: seq<OptionDecl>): (ids: seq<string>)
    ensures |ids| == |os|
    ensures forall i :: 0 <= i < |os| ==> ids[i] == os[i].id
  {
    seq(|os|, i requires 0 <= i < |os| => os[i].id)
  }

  function LegendIds(ls: seq<LegendEntry>): (ids: seq<string>)
    ensures |ids| == |ls|
    ensures forall i :: 0 <= i < |ls| ==> ids[i] == ls[i].id
  {
    seq(|ls|, i requires 0 <= i < |ls| => ls[i].id)
  }

  function QuestionIds(qs: seq<Question>): (ids: seq<string>)
    ensures |ids| == |qs|
    ensures forall i :: 0 <= i < |qs| ==> ids[i] == qs[i].id
  {
    seq(|qs|, i requires 0 <= i < |qs| => qs[i].id)
  }

  function AnswerIds(answers: seq<Answer>): (ids: seq<string>)
    ensures |ids| == |answers|
    ensures forall i :: 0 <= i < |answers| ==> ids[i] == answers[i].id
  {
    seq(|answers|, i requires 0 <= i < |answers| => answers[i].id)
  }

  /** The zero-based level ids "0", "1", ... */
  function LevelIds(n: nat): (ids: seq<string>)
    ensures |ids| == n
    ensures forall i :: 0 <= i < n ==> ids[i] == Netstrings.Itoa(i)
  {
    seq(n, i requires 0 <= i => Netstrings.Itoa(i))
  }

  function Sum(k: Checks, ps: seq<Probability>): real {
    if ps == [] then 0.0 else Sum(k, ps[..|ps| - 1]) + Amount(k, ps[|ps| - 1].value)
  }

  predicate SumsToOne(k: Checks, ps: seq<Probability>) {
    -0.000001 <= Sum(k, ps) - 1.0 <= 0.000001
  }

  predicate GoodProbability(k: Checks, p: Probability) {
    Number(k, p.value, 1.0) && k.text(p.id, 255)
  }

  predicate GoodProbabilities(k: Checks, ps: seq<Probability>) {
    && 1 <= |ps| <= 255
    && (forall i :: 0 <= i < |ps| ==> GoodProbability(k, ps[i]))
    && SumsToOne(k, ps)
    && NoRepeats(ProbabilityIds(ps))
  }

  predicate ExactlyItsPayload(kind: string, choice: bool, score: bool, noul: bool) {
    || (kind == KIND_CHOICE && choice && !score && !noul)
    || (kind == KIND_SCORE && score && !choice && !noul)
    || (kind == KIND_NOUL && noul && !choice && !score)
  }

  predicate GoodChoice(k: Checks, a: ChoiceAnswer) {
    Number(k, a.confidence, 1.0) && GoodProbabilities(k, a.probabilities) && a.choice in ProbabilityIds(a.probabilities)
  }

  predicate GoodEntry(k: Checks, entry: LegendEntry) {
    k.text(entry.id, 255) && k.text(entry.title, 4096)
  }

  predicate GoodScore(k: Checks, a: ScoreAnswer) {
    && Number(k, a.score, 9.0)
    && Number(k, a.confidence, 1.0)
    && GoodProbabilities(k, a.probabilities)
    && 2 <= |a.legend| <= 10
    && (forall i :: 0 <= i < |a.legend| ==> GoodEntry(k, a.legend[i]))
    && NoRepeats(LegendIds(a.legend))
  }

  predicate GoodAnswer(k: Checks, a: Answer) {
    && k.id(a.id)
    && ExactlyItsPayload(a.kind, a.choice.Some?, a.score.Some?, a.noul.Some?)
    && (a.choice.Some? ==> GoodChoice(k, a.choice.value))
    && (a.score.Some? ==> GoodScore(k, a.score.value))
    && (a.noul.Some? ==> Number(k, a.noul.value, 1.0))
  }

  predicate GoodResult(k: Checks, r: BatchResult) {
    && k.text(r.requestedModel, 255) && k.id(r.providerId) && k.text(r.model, 255) && r.usageExplicit
    && 1 <= |r.answers| <= 100
    && (forall i :: 0 <= i < |r.answers| ==> GoodAnswer(k, r.answers[i]))
    && NoRepeats(AnswerIds(r.answers))
    && r.sizeOk
  }

  predicate GoodOption(k: Checks, option: OptionDecl) {
    k.text(option.id, 255) && option.content
  }

  predicate GoodOptions(k: Checks, os: seq<OptionDecl>) {
    && 1 <= |os| <= 255
    && (forall i :: 0 <= i < |os| ==> GoodOption(k, os[i]))
    && NoRepeats(OptionIds(os))
  }

  predicate GoodLevels(levels: seq<bool>) {
    2 <= |levels| <= 10 && forall i :: 0 <= i < |levels| ==> levels[i]
  }

  predicate GoodQuestion(k: Checks, q: Question) {
    && k.id(q.id) && q.content
    && ExactlyItsPayload(q.kind, q.choice.Some?, q.score.Some?, q.noul.Some?)
    && (q.choice.Some? ==> GoodOptions(k, q.choice.value))
    && (q.score.Some? ==> GoodLevels(q.score.value))
    && (q.noul.Some? ==> q.noul.value)
  }

  predicate GoodRequest(k: Checks, r: BatchRequest) {
    && r.purposeKnown && k.id(r.providerId) && k.text(r.model, 255) && r.content && k.id(r.idempotencyKey)
    && 1 <= |r.questions| <= 100
    && (forall i :: 0 <= i < |r.questions| ==> GoodQuestion(k, r.questions[i]))
    && NoRepeats(QuestionIds(r.questions))
    && r.sizeOk
  }

  // ----- what fits its question

  /** The criteria a question asks about. */
  function Criteria(q: Question): seq<string> {
    if q.choice.Some? then OptionIds(q.choice.value) else if q.score.Some? then LevelIds(|q.score.value|) else []
  }

  function AnswerProbabilities(a: Answer): seq<Probability> {
    if a.choice.Some? then a.choice.value.probabilities else if a.score.Some? then a.score.value.probabilities else []
  }

  /** The answer is to this question, and its probability ids are a rearrangement of the
      question's criteria. */
  predicate Fits(k: Checks, q: Question, a: Answer) {
    && a.id == q.id && a.kind == q.kind
    && multiset(ProbabilityIds(AnswerProbabilities(a))) == multiset(Criteria(q))
    && (q.score.Some? && a.score.Some? ==>
          Number(k, a.score.value.score, (|q.score.value| - 1) as real) && LegendIds(a.score.value.legend) == LevelIds(|q.score.value|))
  }

  predicate Matches(k: Checks, r: BatchResult, request: BatchRequest) {
    && r.providerId == request.providerId && r.requestedModel == request.model
    && |r.answers| == |request.questions|
    && forall i :: 0 <= i < |r.answers| ==> Fits(k, request.questions[i], r.answers[i])
  }

  // ----- the code

  /** check.Unique. */
  method Unique(ids: seq<string>) returns (ok: bool)
    ensures ok <==> NoRepeats(ids)
  {
    var seen: set<string> := {};
    for i := 0 to |ids|
      invariant seen == set id | id in ids[..i]
      invariant NoRepeats(ids[..i])
    {
      if ids[i] in seen {
        var j :| 0 <= j < i && ids[..i][j] == ids[i];
        assert ids[j] == ids[i];
        return false;
      }
      assert ids[..i + 1] == ids[..i] + [ids[i]];
      seen := seen + {ids[i]};
    }
    assert ids[..|ids|] == ids;
    return true;
  }

  /** The loop of `probabilities`: the exact sum and the ids, unless an entry is bad. */
  method Accumulate(k: Checks, values: seq<Probability>) returns (ok: bool, sum: real, ids: seq<string>)
    ensures ok <==> forall i :: 0 <= i < |values| ==> GoodProbability(k, values[i])
    ensures ok ==> sum == Sum(k, values) && ids == ProbabilityIds(values)
  {
    sum, ids := 0.0, [];
    for i := 0 to |values|
      invariant sum == Sum(k, values[..i])
      invariant |ids| == i && forall j :: 0 <= j < i ==> ids[j] == values[j].id
      invariant forall j :: 0 <= j < i ==> GoodProbability(k, values[j])
    {
      var p := values[i];
      if !(Number(k, p.value, 1.0) && k.text(p.id, 255)) {
        assert !GoodProbability(k, values[i]);
        return false, sum, ids;
      }
      assert values[..i + 1][..i] == values[..i];
      sum := sum + k.decimal(p.value).value;
      ids := ids + [p.id];
    }
    assert values[..|values|] == values;
    return true, sum, ids;
  }

  /** probabilities. */
  method ValidateProbabilities(k: Checks, values: seq<Probability>) returns (ok: bool)
    ensures ok <==> GoodProbabilities(k, values)
  {
    if |values| < 1 || |values| > MAX_OPTIONS {
      return false;
    }
    var good, sum, ids := Accumulate(k, values);
    if !good {
      return false;
    }
    var difference := sum - 1.0;
    if difference < 0.0 {
      difference := -difference;
    }
    if difference > 0.000001 {
      return false;
    }
    ok := Unique(ids);
  }

  /** ChoiceAnswer.Validate: the choice is looked for among the probabilities. */
  method ValidateChoice(k: Checks, a: ChoiceAnswer) returns (ok: bool)
    ensures ok <==> GoodChoice(k, a)
  {
    var good := ValidateProbabilities(k, a.probabilities);
    if !Number(k, a.confidence, 1.0) || !good {
      return false;
    }
    ghost var ids := ProbabilityIds(a.probabilities);
    for i := 0 to |a.probabilities|
      invariant a.choice !in ids[..i]
    {
      if a.probabilities[i].id == a.choice {
        assert ids[i] == a.choice;
        return true;
      }
      assert ids[..i + 1] == ids[..i] + [ids[i]];
    }
    assert ids[..|ids|] == ids;
    return false;
  }

  /** The loop over a legend: its ids, unless an entry is bad. */
  method CollectEntries(k: Checks, legend: seq<LegendEntry>) returns (ok: bool, ids: seq<string>)
    ensures ok <==> forall i :: 0 <= i < |legend| ==> GoodEntry(k, legend[i])
    ensures ok ==> ids == LegendIds(legend)
  {
    ids := [];
    for i := 0 to |legend|
      invariant |ids| == i && forall j :: 0 <= j < i ==> ids[j] == legend[j].id
      invariant forall j :: 0 <= j < i ==> GoodEntry(k, legend[j])
    {
      if !k.text(legend[i].id, 255) || !k.text(legend[i].title, 4096) {
        assert !GoodEntry(k, legend[i]);
        return false, ids;
      }
      ids := ids + [legend[i].id];
    }
    return true, ids;
  }

  /** ScoreAnswer.Validate. */
  method ValidateScore(k: Checks, a: ScoreAnswer) returns (ok: bool)
    ensures ok <==> GoodScore(k, a)
  {
    var good := ValidateProbabilities(k, a.probabilities);
    if !Number(k, a.score, (MAX_SCORE_LEVELS - 1) as real) || !Number(k, a.confidence, 1.0) || !good {
      return false;
    }
    if |a.legend| < 2 || |a.legend| > MAX_SCORE_LEVELS {
      return false;
    }
    var entries, ids := CollectEntries(k, a.legend);
    if !entries {
      return false;
    }
    ok := Unique(ids);
  }

  /** Answer.Validate. */
  method ValidateShape(k: Checks, a: Answer) returns (ok: bool)
    ensures ok <==> GoodAnswer(k, a)
  {
    if !k.id(a.id) || !ExactlyItsPayload(a.kind, a.choice.Some?, a.score.Some?, a.noul.Some?) {
      return false;
    }
    if a.choice.Some? {
      ok := ValidateChoice(k, a.choice.value);
    } else if a.score.Some? {
      ok := ValidateScore(k, a.score.value);
    } else {
      ok := Number(k, a.noul.value, 1.0);
    }
  }

  method CollectAnswers(k: Checks, answers: seq<Answer>) returns (ok: bool, ids: seq<string>)
    ensures ok <==> forall i :: 0 <= i < |answers| ==> GoodAnswer(k, answers[i])
    ensures ok ==> ids == AnswerIds(answers)
  {
    ids := [];
    for i := 0 to |answers|
      invariant |ids| == i && forall j :: 0 <= j < i ==> ids[j] == answers[j].id
      invariant forall j :: 0 <= j < i ==> GoodAnswer(k, answers[j])
    {
      var good := ValidateShape(k, answers[i]);
      if !good {
        return false, ids;
      }
      ids := ids + [answers[i].id];
    }
    return true, ids;
  }

  /** BatchResult.Validate. */
  method ValidateResult(k: Checks, r: BatchResult) returns (ok: bool)
    ensures ok <==> GoodResult(k, r)
  {
    if !k.text(r.requestedModel, 255) {
      return false;
    }
    if !k.id(r.providerId) || !k.text(r.model, 255) || !r.usageExplicit || |r.answers| < 1 || |r.answers| > MAX_QUESTIONS {
      return false;
    }
    var good, ids := CollectAnswers(k, r.answers);
    if !good {
      return false;
    }
    var distinct := Unique(ids);
    return distinct && r.sizeOk;
  }

  /** ChoiceQuestion.Validate. */
  method ValidateOptions(k: Checks, os: seq<OptionDecl>) returns (ok: bool)
    ensures ok <==> GoodOptions(k, os)
  {
    if |os| < 1 || |os| > MAX_OPTIONS {
      return false;
    }
    var ids: seq<string> := [];
    for i := 0 to |os|
      invariant |ids| == i && forall j :: 0 <= j < i ==> ids[j] == os[j].id
      invariant forall j :: 0 <= j < i ==> GoodOption(k, os[j])
    {
      if !k.text(os[i].id, 255) || !os[i].content {
        assert !GoodOption(k, os[i]);
        return false;
      }
      ids := ids + [os[i].id];
    }
    assert ids == OptionIds(os);
    ok := Unique(ids);
  }

  /** ScoreQuestion.Validate. */
  method ValidateLevels(levels: seq<bool>) returns (ok: bool)
    ensures ok <==> GoodLevels(levels)
  {
    if |levels| < 2 || |levels| > MAX_SCORE_LEVELS {
      return false;
    }
    for i := 0 to |levels|
      invariant forall j :: 0 <= j < i ==> levels[j]
    {
      if !levels[i] {
        return false;
      }
    }
    return true;
  }

  /** Question.Validate. */
  method ValidateQuestion(k: Checks, q: Question) returns (ok: bool)
    ensures ok <==> GoodQuestion(k, q)
  {
    if !k.id(q.id) || !q.content || !ExactlyItsPayload(q.kind, q.choice.Some?, q.score.Some?, q.noul.Some?) {
      return false;
    }
    if q.choice.Some? {
      ok := ValidateOptions(k, q.choice.value);
    } else if q.score.Some? {
      ok := ValidateLevels(q.score.value);
    } else {
      ok := q.noul.value;
    }
  }

  method CollectQuestions(k: Checks, qs: seq<Question>) returns (ok: bool, ids: seq<string>)
    ensures ok <==> forall i :: 0 <= i < |qs| ==> GoodQuestion(k, qs[i])
    ensures ok ==> ids == QuestionIds(qs)
  {
    ids := [];
    for i := 0 to |qs|
      invariant |ids| == i && forall j :: 0 <= j < i ==> ids[j] == qs[j].id
      invariant forall j :: 0 <= j < i ==> GoodQuestion(k, qs[j])
    {
      var good := ValidateQuestion(k, qs[i]);
      if !good {
        return false, ids;
      }
      ids := ids + [qs[i].id];
    }
    return true, ids;
  }

  /** BatchRequest.Validate. */
  method ValidateRequest(k: Checks, r: BatchRequest) returns (ok: bool)
    ensures ok <==> GoodRequest(k, r)
  {
    if !r.purposeKnown {
      return false;
    }
    if !k.id(r.providerId) || !k.text(r.model, 255) || !r.content || !k.id(r.idempotencyKey) {
      return false;
    }
    if |r.questions| < 1 || |r.questions| > MAX_QUESTIONS {
      return false;
    }
    var good, ids := CollectQuestions(k, r.questions);
    if !good {
      return false;
    }
    var distinct := Unique(ids);
    return distinct && r.sizeOk;
  }

  /** Lists of one length without repetition, each of the first found in the second, are
      rearrangements of each other: the pigeonhole the validator rests on. */
  lemma {:induction false} Pigeonhole(expected: seq<string>, actual: seq<string>)
    requires NoRepeats(expected) && NoRepeats(actual) && |expected| == |actual|
    requires forall i :: 0 <= i < |expected| ==> expected[i] in actual
    ensures multiset(expected) == multiset(actual)
    decreases |expected|
  {
    if expected != [] {
      var id := expected[0];
      assert expected[0] in actual;
      var k :| 0 <= k < |actual| && actual[k] == id;
      var rest := actual[..k] + actual[k + 1..];
      assert forall j :: 0 <= j < |rest| ==> rest[j] == actual[if j < k then j else j + 1];
      forall i | 0 <= i < |expected[1..]|
        ensures expected[1..][i] in rest
      {
        assert expected[1..][i] == expected[i + 1] && expected[i + 1] in actual;
        var j :| 0 <= j < |actual| && actual[j] == expected[i + 1];
        assert rest[if j < k then j else j - 1] == expected[i + 1];
      }
      Pigeonhole(expected[1..], rest);
      ConsAndInsert(expected, actual, k);
    }
  }

  lemma ConsAndInsert(a: seq<string>, b: seq<string>, k: nat)
    requires a != [] && k < |b| && a[0] == b[k]
    requires multiset(a[1..]) == multiset(b[..k] + b[k + 1..])
    ensures multiset(a) == multiset(b)
  {
    assert a == [a[0]] + a[1..];
    assert b == b[..k] + [b[k]] + b[k + 1..];
  }

  lemma SameMembers(a: seq<string>, b: seq<string>)
    requires multiset(a) == multiset(b)
    ensures |a| == |b| && forall id :: id in a <==> id in b
  {
    assert |multiset(a)| == |multiset(b)|;
    forall id
      ensures id in a <==> id in b
    {
      assert id in a <==> id in multiset(a);
      assert id in b <==> id in multiset(b);
    }
  }

  lemma LevelIdsDistinct(n: nat)
    ensures NoRepeats(LevelIds(n))
  {
    forall i, j | 0 <= i < j < n
      ensures LevelIds(n)[i] != LevelIds(n)[j]
    {
      if Netstrings.Itoa(i) == Netstrings.Itoa(j) {
        Netstrings.ItoaInjective(i, j);
      }
    }
  }

  /** The completeness loops: same length, and every criterion found. */
  method Complete(expected: seq<string>, actual: seq<Probability>) returns (ok: bool)
    requires NoRepeats(expected) && NoRepeats(ProbabilityIds(actual))
    ensures ok <==> multiset(ProbabilityIds(actual)) == multiset(expected)
  {
    var ids := ProbabilityIds(actual);
    if multiset(ids) == multiset(expected) {
      SameMembers(ids, expected);
    }
    if |expected| != |actual| {
      return false;
    }
    for i := 0 to |expected|
      invariant forall j :: 0 <= j < i ==> expected[j] in ids
    {
      var found := false;
      for j := 0 to |actual|
        invariant found <==> expected[i] in ids[..j]
      {
        assert ids[..j + 1] == ids[..j] + [ids[j]];
        found := found || actual[j].id == expected[i];
      }
      assert ids[..|actual|] == ids;
      if !found {
        return false;
      }
    }
    Pigeonhole(expected, ids);
    return true;
  }

  /** One question and its answer. */
  method ValidateAnswer(k: Checks, q: Question, a: Answer) returns (ok: bool)
    requires GoodQuestion(k, q) && GoodAnswer(k, a)
    ensures ok <==> Fits(k, q, a)
  {
    if a.id != q.id || a.kind != q.kind {
      return false;
    }
    var expected: seq<string> := [];
    var actual: seq<Probability> := [];
    if q.choice.Some? {
      expected := OptionIds(q.choice.value);
      actual := a.choice.value.probabilities;
    }
    if q.score.Some? {
      if !Number(k, a.score.value.score, (|q.score.value| - 1) as real) {
        return false;
      }
      expected := LevelIds(|q.score.value|);
      LevelIdsDistinct(|q.score.value|);
      actual := a.score.value.probabilities;
      var legend := a.score.value.legend;
      if |legend| != |expected| {
        return false;
      }
      for n := 0 to |legend|
        invariant forall j :: 0 <= j < n ==> legend[j].id == expected[j]
      {
        if legend[n].id != expected[n] {
          assert LegendIds(legend)[n] != LevelIds(|q.score.value|)[n];
          return false;
        }
      }
      assert LegendIds(legend) == expected;
    }
    ok := Complete(expected, actual);
  }

  /** The loop over questions and answers. */
  method ValidateAnswers(k: Checks, qs: seq<Question>, answers: seq<Answer>) returns (ok: bool)
    requires |qs| == |answers|
    requires forall i :: 0 <= i < |qs| ==> GoodQuestion(k, qs[i])
    requires forall i :: 0 <= i < |answers| ==> GoodAnswer(k, answers[i])
    ensures ok <==> forall i :: 0 <= i < |qs| ==> Fits(k, qs[i], answers[i])
  {
    for i := 0 to |qs|
      invariant forall j :: 0 <= j < i ==> Fits(k, qs[j], answers[j])
    {
      var fits := ValidateAnswer(k, qs[i], answers[i]);
      if !fits {
        return false;
      }
    }
    return true;
  }

  /** BatchResult.ValidateFor. */
  method ValidateFor(k: Checks, v: BatchResult, request: BatchRequest) returns (ok: bool)
    ensures ok <==> GoodRequest(k, request) && GoodResult(k, v) && Matches(k, v, request)
  {
    var asked := ValidateRequest(k, request);
    var answered := ValidateResult(k, v);
    if !asked || !answered {
      return false;
    }
    if v.providerId != request.providerId || v.requestedModel != request.model || |v.answers| != |request.questions| {
      return false;
    }
    ok := ValidateAnswers(k, request.questions, v.answers);
  }

  // ----- what an accepted result promises

  /** What a rearrangement of distinct criteria gives, id by id. */
  lemma Rearranged(ps: seq<Probability>, criteria: seq<string>)
    requires multiset(ProbabilityIds(ps)) == multiset(criteria) && NoRepeats(ProbabilityIds(ps))
    ensures |ps| == |criteria|
    ensures forall id :: id in criteria <==> exists j :: 0 <= j < |ps| && ps[j].id == id
    ensures forall j, l :: 0 <= j < l < |ps| ==> ps[j].id != ps[l].id
  {
    var ids := ProbabilityIds(ps);
    SameMembers(ids, criteria);
    forall id
      ensures id in criteria <==> exists j :: 0 <= j < |ps| && ps[j].id == id
    {
      if id in criteria {
        var j :| 0 <= j < |ids| && ids[j] == id;
        assert ps[j].id == id;
      }
      if j :| 0 <= j < |ps| && ps[j].id == id {
        assert ids[j] == id;
      }
    }
    forall j, l | 0 <= j < l < |ps|
      ensures ps[j].id != ps[l].id
    {
      assert ids[j] != ids[l];
    }
  }

  /** The chosen option is one of the question's, every option has exactly one probability,
      and the probabilities sum to one within a millionth. */
  lemma AcceptedChoice(k: Checks, q: Question, a: Answer)
    requires GoodQuestion(k, q) && GoodAnswer(k, a) && Fits(k, q, a) && q.choice.Some?
    ensures a.choice.Some?
    ensures var c, options := a.choice.value, OptionIds(q.choice.value);
            && c.choice in options
            && |c.probabilities| == |options|
            && (forall id :: id in options <==> exists j :: 0 <= j < |c.probabilities| && c.probabilities[j].id == id)
            && (forall j, l :: 0 <= j < l < |c.probabilities| ==> c.probabilities[j].id != c.probabilities[l].id)
            && SumsToOne(k, c.probabilities)
  {
    var c := a.choice.value;
    assert GoodChoice(k, c);
    assert multiset(ProbabilityIds(c.probabilities)) == multiset(OptionIds(q.choice.value));
    SameMembers(ProbabilityIds(c.probabilities), OptionIds(q.choice.value));
    Rearranged(c.probabilities, OptionIds(q.choice.value));
  }

  /** A score has exactly one probability for every level, named by its zero-based number,
      and the score itself is on the question's scale. */
  lemma AcceptedScore(k: Checks, q: Question, a: Answer)
    requires GoodQuestion(k, q) && GoodAnswer(k, a) && Fits(k, q, a) && q.score.Some?
    ensures a.score.Some?
    ensures var s, levels := a.score.value, |q.score.value|;
            && Number(k, s.score, (levels - 1) as real)
            && |s.probabilities| == levels == |s.legend|
            && (forall n :: 0 <= n < levels ==> exists j :: 0 <= j < levels && s.probabilities[j].id == Netstrings.Itoa(n))
            && (forall j, l :: 0 <= j < l < levels ==> s.probabilities[j].id != s.probabilities[l].id)
            && SumsToOne(k, s.probabilities)
  {
    var s, levels := a.score.value, LevelIds(|q.score.value|);
    assert GoodScore(k, s);
    assert multiset(ProbabilityIds(s.probabilities)) == multiset(levels);
    assert |LegendIds(s.legend)| == |levels|;
    Rearranged(s.probabilities, levels);
    forall n | 0 <= n < |q.score.value|
      ensures exists j :: 0 <= j < |levels| && s.probabilities[j].id == Netstrings.Itoa(n)
    {
      assert levels[n] in levels;
    }
  }

  // ----- with the source's own decimals

  /** The exact sum the probabilities denote. */
  function Total(ps: seq<Probability>): real {
    if ps == [] then 0.0 else Total(ps[..|ps| - 1]) + Value(ps[|ps| - 1].value)
  }

  /** Every entry denotes a number from zero to one, and together they miss one by a
      millionth at most. */
  predicate Distribution(ps: seq<Probability>) {
    && (forall i :: 0 <= i < |ps| ==> IsPlain(ps[i].value) && 0.0 <= Value(ps[i].value) <= 1.0)
    && -0.000001 <= Total(ps) - 1.0 <= 0.000001
  }

  lemma AmountIsValue(k: Checks, p: Probability)
    requires k.decimal == WireDecimal && GoodProbability(k, p)
    ensures Amount(k, p.value) == Value(p.value)
  {
  }

  lemma SumStep(k: Checks, ps: seq<Probability>, last: real)
    requires ps != [] && Sum(k, ps[..|ps| - 1]) == Total(ps[..|ps| - 1])
    requires Amount(k, ps[|ps| - 1].value) == last && Value(ps[|ps| - 1].value) == last
    ensures Sum(k, ps) == Total(ps)
  {
  }

  lemma {:induction false} SumIsTotal(k: Checks, ps: seq<Probability>)
    requires k.decimal == WireDecimal && forall i :: 0 <= i < |ps| ==> GoodProbability(k, ps[i])
    ensures Sum(k, ps) == Total(ps)
  {
    if ps != [] {
      var n := |ps| - 1;
      SumIsTotal(k, ps[..n]);
      AmountIsValue(k, ps[n]);
      SumStep(k, ps, Value(ps[n].value));
    }
  }

  lemma GoodIsDistribution(k: Checks, ps: seq<Probability>)
    requires k.decimal == WireDecimal && GoodProbabilities(k, ps)
    ensures Distribution(ps)
  {
    SumIsTotal(k, ps);
    forall i | 0 <= i < |ps|
      ensures IsPlain(ps[i].value) && 0.0 <= Value(ps[i].value) <= 1.0
    {
      assert GoodProbability(k, ps[i]);
      PlainNonnegative(ps[i].value);
    }
  }

  /** The probabilities of an accepted choice, and its confidence, as the numbers they spell. */
  lemma AcceptedChoiceNumbers(k: Checks, q: Question, a: Answer)
    requires k.decimal == WireDecimal
    requires GoodQuestion(k, q) && GoodAnswer(k, a) && Fits(k, q, a) && q.choice.Some?
    ensures a.choice.Some? && Distribution(a.choice.value.probabilities)
    ensures 0.0 <= Value(a.choice.value.confidence) <= 1.0
  {
    AcceptedChoice(k, q, a);
    var c := a.choice.value;
    GoodIsDistribution(k, c.probabilities);
    PlainNonnegative(c.confidence);
  }

  /** The same of an accepted score, whose value lies between the lowest and the highest level. */
  lemma AcceptedScoreNumbers(k: Checks, q: Question, a: Answer)
    requires k.decimal == WireDecimal
    requires GoodQuestion(k, q) && GoodAnswer(k, a) && Fits(k, q, a) && q.score.Some?
    ensures a.score.Some? && Distribution(a.score.value.probabilities)
    ensures 0.0 <= Value(a.score.value.score) <= (|q.score.value| - 1) as real
    ensures 0.0 <= Value(a.score.value.confidence) <= 1.0
  {
    AcceptedScore(k, q, a);
    var s := a.score.value;
    GoodIsDistribution(k, s.probabilities);
    PlainNonnegative(s.score);
    PlainNonnegative(s.confidence);
  }
}
