/**
 * `generateQuizSet`: draws distinct answers from the tier's pool and, for
 * each, four distinct choices under the tier's decoy policy, shuffled.
 *
 * Every `Math.floor(Math.random() * len)` becomes a nondeterministic choice
 * of an index in `[0, len)`. A draw the source rejects (an answer already
 * used, a choice already present) changes nothing and goes round again, so
 * the model lets each iteration pick one of the draws that are accepted.
 */
module QuizSet {
  import opened Sequences
  import opened Pools
  import opened Shuffle

  datatype QuizItem = QuizItem(answer: int, choices: seq<int>)

  /** The hundreds digits of the choices take at most one value besides the answer's. */
  ghost predicate AtMostTwoHundreds(choices: seq<int>, answer: int) {
    forall x, y | x in choices && y in choices ::
      HundredsDigit(x) == HundredsDigit(answer) || HundredsDigit(y) == HundredsDigit(answer)
      || HundredsDigit(x) == HundredsDigit(y)
  }

  /** The tens digits of the choices take at most one value besides the answer's. */
  ghost predicate AtMostTwoTens(choices: seq<int>, answer: int) {
    forall x, y | x in choices && y in choices ::
      TensDigit(x) == TensDigit(answer) || TensDigit(y) == TensDigit(answer)
      || TensDigit(x) == TensDigit(y)
  }

  /**
   * The choices offered for `answer`: four distinct pool members, the
   * answer among them; in medium at most two hundreds digits, in hard at
   * most two hundreds digits and at most two tens digits.
   */
  ghost predicate ChoicesFit(level: Level, answer: int, choices: seq<int>) {
    && |choices| == 4
    && answer in choices
    && Distinct(choices)
    && (forall c | c in choices :: InPool(level, c))
    && (level != Easy ==> AtMostTwoHundreds(choices, answer))
    && (level == Hard ==> AtMostTwoTens(choices, answer))
  }

  ghost predicate WellFormedItem(level: Level, item: QuizItem) {
    InPool(level, item.answer) && ChoicesFit(level, item.answer, item.choices)
  }

  /** Being distinct and holding the answer means holding it exactly once. */
  lemma AnswerExactlyOnce(level: Level, answer: int, choices: seq<int>)
    requires ChoicesFit(level, answer, choices)
    ensures multiset(choices)[answer] == 1
  {
    DistinctIffAtMostOnce(choices);
  }

  /** Shuffling choices that fit leaves them fitting. */
  lemma PermutedChoicesFit(level: Level, answer: int, a: seq<int>, b: seq<int>)
    requires multiset(a) == multiset(b)
    requires ChoicesFit(level, answer, a)
    ensures ChoicesFit(level, answer, b)
  {
    PermutationKeepsDistinct(a, b);
    assert |a| == |multiset(a)| == |multiset(b)| == |b|;
    assert forall x :: x in a <==> x in multiset(a);
    assert forall x :: x in b <==> x in multiset(b);
  }

  /**
   * One accepted draw of the decoy loops: a member of `candidates` that is
   * not yet among `choices`.
   */
  method DrawNewChoice(candidates: seq<int>, choices: seq<int>) returns (c: int)
    requires Distinct(candidates)
    requires |choices| < |candidates|
    ensures c in candidates && c !in choices
  {
    SetSizeAtMostLength(choices);
    FreshElementExists(candidates, set x | x in choices);
    var k :| 0 <= k < |candidates| && candidates[k] !in choices;
    c := candidates[k];
  }

  /** Easy: three more pool members, no constraint beyond being new. */
  method EasyChoices(pool: seq<int>, answer: int) returns (choices: seq<int>)
    requires IsPool(Easy, pool) && answer in pool
    ensures ChoicesFit(Easy, answer, choices)
  {
    IncreasingIsDistinct(pool);
    choices := [answer];
    while |choices| < 4
      invariant |choices| <= 4
      invariant answer in choices
      invariant Distinct(choices)
      invariant forall c | c in choices :: c in pool
    {
      var c := DrawNewChoice(pool, choices);
      choices := choices + [c];
    }
  }

  /**
   * The decoy loop of the medium and hard tiers: draws from `sub` until
   * there are four choices or `sub` has no unused member left.
   */
  method FillFromSubPool(sub: seq<int>, answer: int) returns (choices: seq<int>)
    requires Distinct(sub) && answer in sub
    ensures |choices| == if |sub| < 4 then |sub| else 4
    ensures answer in choices && Distinct(choices)
    ensures forall c | c in choices :: c in sub
  {
    choices := [answer];
    while |choices| < 4 && |sub| > |choices|
      invariant |choices| <= 4
      invariant answer in choices
      invariant Distinct(choices)
      invariant forall c | c in choices :: c in sub
    {
      var c := DrawNewChoice(sub, choices);
      choices := choices + [c];
    }
    DistinctNoLonger(choices, sub);
  }

  /** Choices whose hundreds digits are the answer's or `second` take at most two hundreds digits. */
  lemma TwoHundredsDigits(choices: seq<int>, answer: int, second: int)
    requires forall c | c in choices :: HundredsDigit(c) == HundredsDigit(answer) || HundredsDigit(c) == second
    ensures AtMostTwoHundreds(choices, answer)
  {
  }

  /** Choices whose tens digits are the answer's or `second` take at most two tens digits. */
  lemma TwoTensDigits(choices: seq<int>, answer: int, second: int)
    requires forall c | c in choices :: TensDigit(c) == TensDigit(answer) || TensDigit(c) == second
    ensures AtMostTwoTens(choices, answer)
  {
  }

  /**
   * Medium: pick a second hundreds digit among those in the pool, then draw
   * decoys from the pool members with either hundreds digit.
   */
  method MediumChoices(pool: seq<int>, answer: int) returns (choices: seq<int>)
    requires IsPool(Medium, pool) && answer in pool
    ensures ChoicesFit(Medium, answer, choices)
  {
    IncreasingIsDistinct(pool);
    var answerHundred := HundredsDigit(answer);
    var otherHundreds := (set n | n in pool :: HundredsDigit(n)) - {answerHundred};
    assert InPool(Medium, 100) && InPool(Medium, 200);
    assert HundredsDigit(100) in otherHundreds || HundredsDigit(200) in otherHundreds;
    var secondHundred :| secondHundred in otherHundreds;
    var keep := n => HundredsDigit(n) == answerHundred || HundredsDigit(n) == secondHundred;
    var twoHundredPool := Filter(pool, keep);
    FilterKeepsDistinct(pool, keep);
    MediumSubPoolHoldsFour(pool, answer, twoHundredPool, secondHundred);
    choices := FillFromSubPool(twoHundredPool, answer);
    TwoHundredsDigits(choices, answer, secondHundred);
  }

  /** The medium sub-pool holds the answer and at least four numbers. */
  lemma MediumSubPoolHoldsFour(pool: seq<int>, answer: int, sub: seq<int>, secondHundred: int)
    requires IsPool(Medium, pool) && answer in pool
    requires forall x :: x in sub <==> x in pool && (HundredsDigit(x) == HundredsDigit(answer) || HundredsDigit(x) == secondHundred)
    ensures answer in sub
    ensures |sub| >= 4
  {
    var base := HundredsDigit(answer) * 100;
    var w := [base, base + 10, base + 20, base + 30];
    assert 1 <= HundredsDigit(answer) <= 9;
    forall x | x in w
      ensures x in sub
    {
      assert InPool(Medium, x) && HundredsDigit(x) == HundredsDigit(answer);
    }
    DistinctNoLonger(w, sub);
  }

  /**
   * Hard: pick a second hundreds digit and a second tens digit among those
   * in the pool, then draw decoys from the pool members whose hundreds and
   * tens digits are both among the two picked for each.
   */
  method HardChoices(pool: seq<int>, answer: int) returns (choices: seq<int>)
    requires IsPool(Hard, pool) && answer in pool
    ensures ChoicesFit(Hard, answer, choices)
  {
    IncreasingIsDistinct(pool);
    var answerHundred := HundredsDigit(answer);
    var answerTen := TensDigit(answer);
    var otherHundreds := (set n | n in pool :: HundredsDigit(n)) - {answerHundred};
    assert InPool(Hard, 100) && InPool(Hard, 200);
    assert HundredsDigit(100) in otherHundreds || HundredsDigit(200) in otherHundreds;
    var secondHundred :| secondHundred in otherHundreds;
    var otherTens := (set n | n in pool :: TensDigit(n)) - {answerTen};
    assert InPool(Hard, 101) && InPool(Hard, 111);
    assert TensDigit(101) in otherTens || TensDigit(111) in otherTens;
    var secondTen :| secondTen in otherTens;
    var keep := n =>
      (HundredsDigit(n) == answerHundred || HundredsDigit(n) == secondHundred)
      && (TensDigit(n) == answerTen || TensDigit(n) == secondTen);
    var filteredPool := Filter(pool, keep);
    FilterKeepsDistinct(pool, keep);
    HardSubPoolHoldsFour(pool, answer, filteredPool, secondHundred, secondTen);
    choices := FillFromSubPool(filteredPool, answer);
    TwoHundredsDigits(choices, answer, secondHundred);
    TwoTensDigits(choices, answer, secondTen);
  }

  /** The hard sub-pool holds the answer and at least four numbers. */
  lemma HardSubPoolHoldsFour(pool: seq<int>, answer: int, sub: seq<int>, secondHundred: int, secondTen: int)
    requires IsPool(Hard, pool) && answer in pool
    requires forall x :: x in sub <==>
      (&& x in pool
       && (HundredsDigit(x) == HundredsDigit(answer) || HundredsDigit(x) == secondHundred)
       && (TensDigit(x) == TensDigit(answer) || TensDigit(x) == secondTen))
    ensures answer in sub
    ensures |sub| >= 4
  {
    var base := HundredsDigit(answer) * 100 + TensDigit(answer) * 10;
    var w := [base + 1, base + 2, base + 3, base + 4];
    assert 1 <= HundredsDigit(answer) <= 9 && 0 <= TensDigit(answer) <= 9;
    forall x | x in w
      ensures x in sub
    {
      assert InPool(Hard, x);
      assert HundredsDigit(x) == HundredsDigit(answer) && TensDigit(x) == TensDigit(answer);
    }
    DistinctNoLonger(w, sub);
  }

  /** The choices for `answer` under the tier's policy, before shuffling. */
  method BuildChoices(level: Level, pool: seq<int>, answer: int) returns (choices: seq<int>)
    requires IsPool(level, pool) && answer in pool
    ensures ChoicesFit(level, answer, choices)
  {
    match level
    case Easy => choices := EasyChoices(pool, answer);
    case Medium => choices := MediumChoices(pool, answer);
    case Hard => choices := HardChoices(pool, answer);
  }

  /**
   * A quiz set of `count` items with distinct answers. The source's loop
   * guard never sees the pool run out of unused answers, so asking for
   * more than the pool holds never returns: hence the precondition.
   */
  method GenerateQuizSet(level: Level, count: int) returns (questions: seq<QuizItem>)
    requires count <= PoolSize(level)
    ensures |questions| == if count < 0 then 0 else count
    ensures forall i | 0 <= i < |questions| :: WellFormedItem(level, questions[i])
    ensures forall i, j | 0 <= i < j < |questions| :: questions[i].answer != questions[j].answer
  {
    var pool := GetNumberRange(level);
    IncreasingIsDistinct(pool);
    var used: set<int> := {};
    questions := [];
    while |questions| < count && |pool| > 0
      invariant |questions| <= if count < 0 then 0 else count
      invariant |used| == |questions|
      invariant forall i | 0 <= i < |questions| :: questions[i].answer in used
      invariant forall a | a in used :: a in pool
      invariant forall i | 0 <= i < |questions| :: WellFormedItem(level, questions[i])
      invariant forall i, j | 0 <= i < j < |questions| :: questions[i].answer != questions[j].answer
    {
      FreshElementExists(pool, used);
      var idx :| 0 <= idx < |pool| && pool[idx] !in used;
      var answer := pool[idx];
      used := used + {answer};
      var choices := BuildChoices(level, pool, answer);
      var shuffled := ShuffleArray(choices);
      PermutedChoicesFit(level, answer, choices, shuffled);
      questions := questions + [QuizItem(answer, shuffled)];
    }
  }
}
