/** When truncation cuts, when its reported total is right, and when it drops statements. */
module PromptTruncationFacts {
  import opened Wrappers
  import opened Sequences
  import opened PromptAst
  import opened PromptPasses
  import opened PromptPruning

  // ------------------------------------------------------------------ what needs a cut

  /** Statement number `k` is a text of more than 80 tokens that does not fit behind everything
      that remains of the statements before it. */
  predicate NeedsCut(body: seq<Statement>, k: nat, target: int, estimate: string -> nat)
    requires k < |body|
  {
    && TextOf(body[k]).Some? && TokensOf(body[k], estimate) > 80
    && RetainedTokens(Remaining(body[..k]), estimate) + TokensOf(body[k], estimate) > target
  }

  ghost predicate SomeNeedsCut(body: seq<Statement>, n: nat, target: int, estimate: string -> nat)
    requires n <= |body|
  {
    exists k :: 0 <= k < n && NeedsCut(body, k, target, estimate)
  }

  /** Until the first statement that needs a cut, everything is kept and counted. */
  ghost predicate IsUncut(t: Truncation, remaining: seq<Statement>, estimate: string -> nat) {
    t.cut == [] && t.body == remaining && t.total == RetainedTokens(remaining, estimate)
  }

  lemma UncutNext(body: seq<Statement>, k: nat, t: Truncation, target: int, count: nat, estimate: string -> nat)
    requires k < |body| && count > 0 && IsUncut(t, Remaining(body[..k]), estimate)
    ensures var t' := TruncateNext(t, body[k], target, count, estimate);
      if NeedsCut(body, k, target, estimate) then t'.cut != [] else IsUncut(t', Remaining(body[..k + 1]), estimate)
  {
    RemainingNext(body, k);
    RetainedSnoc(Remaining(body[..k]), body[k], estimate);
    assert Remaining(body[..k]) + [] == Remaining(body[..k]);
  }

  lemma {:induction false} CutIff(body: seq<Statement>, k: nat, target: int, count: nat, estimate: string -> nat)
    requires k <= |body| && count > 0
    ensures var t := TruncateFrom(body, k, target, count, estimate);
      if SomeNeedsCut(body, k, target, estimate) then t.cut != [] else IsUncut(t, Remaining(body[..k]), estimate)
  {
    if k > 0 {
      CutIff(body, k - 1, target, count, estimate);
      var t := TruncateFrom(body, k - 1, target, count, estimate);
      if !SomeNeedsCut(body, k - 1, target, estimate) {
        UncutNext(body, k - 1, t, target, count, estimate);
      }
      assert SomeNeedsCut(body, k, target, estimate)
        == (SomeNeedsCut(body, k - 1, target, estimate) || NeedsCut(body, k - 1, target, estimate));
    }
  }

  /** Something is cut if and only if some statement needs it. */
  lemma TruncatesIff(body: seq<Statement>, target: int, estimate: string -> nat)
    ensures Truncated(body, target, estimate).cut != [] <==> SomeNeedsCut(body, |body|, target, estimate)
  {
    CutIff(body, |body|, target, if body == [] then 1 else |body|, estimate);
  }

  // -------------------------------------------------------------- the reported total

  /** Texts that are not empty count as at least one token. */
  ghost predicate IsPositive(estimate: string -> nat) {
    forall text | text != "" :: estimate(text) > 0
  }

  lemma {:induction false} CutTokens(body: seq<Statement>, k: nat, target: int, count: nat, estimate: string -> nat)
    requires k <= |body| && count > 0 && IsPositive(estimate)
    ensures var t := TruncateFrom(body, k, target, count, estimate);
      t.cut != [] <==> RetainedTokens(t.cut, estimate) > 0
  {
    if k > 0 {
      CutTokens(body, k - 1, target, count, estimate);
      var t, s := TruncateFrom(body, k - 1, target, count, estimate), body[k - 1];
      var t' := TruncateNext(t, s, target, count, estimate);
      if t'.cut != t.cut {
        var text := TruncatedText(TextOf(s).value, target - t.total, count);
        assert |text| >= |TRUNCATION_MARK| > 0;
        RetainedSnoc(t.cut, WithText(s, text, estimate(text)), estimate);
      }
    }
  }

  /** The reported total is what remains if and only if no statement needs a cut, and too low otherwise. */
  lemma ReportedTotalIsRightIff(body: seq<Statement>, target: int, estimate: string -> nat)
    requires IsPositive(estimate)
    ensures var t := Truncated(body, target, estimate);
      && t.total <= RetainedTokens(t.body, estimate)
      && (t.total == RetainedTokens(t.body, estimate) <==> !SomeNeedsCut(body, |body|, target, estimate))
  {
    var count := if body == [] then 1 else |body|;
    TruncatesIff(body, target, estimate);
    CutTokens(body, |body|, target, count, estimate);
    ReportedTotalLeavesOutTheCut(body, |body|, target, count, estimate);
  }

  /** On the whole pass: pruning leaves a body and a total that the input determines.  If that total
      exceeds the target and a statement needs a cut, the pass reports fewer tokens than remain;
      otherwise it returns just that body and that total. */
  lemma AggressiveTotalIsTooLowIff(body: seq<Statement>, total: int, target: int, estimate: string -> nat, k: nat,
                                   newBody: seq<Statement>, newTotal: int)
    requires IsPositive(estimate) && IsAggressive(body, total, target, estimate, k, newBody, newTotal)
    ensures var order := PruningOrder(body);
      var pruned, left := WithoutAll(body, order[..k]), total - Tokens(order[..k]);
      if left > target && SomeNeedsCut(pruned, |pruned|, target, estimate)
      then newTotal < RetainedTokens(newBody, estimate) else newBody == pruned && newTotal == left
  {
    var order := PruningOrder(body);
    var pruned := WithoutAll(body, order[..k]);
    TruncatesIff(pruned, target, estimate);
    ReportedTotalIsRightIff(pruned, target, estimate);
  }

  /** The estimate without a tokenizer: four characters a token. */
  function FourCharacters(text: string): nat {
    (|text| + 3) / 4
  }

  /** One instruction, too long for the target: the pass reports nothing at all and stays silent,
      although what is left of the text exceeds the target. */
  lemma AggressivePassCanBeSilent(s: Statement, total: int, target: nat) returns (newBody: seq<Statement>)
    requires s.Instruction? && TextOf(s).Some? && TokensOf(s, FourCharacters) > 80
    requires 4 <= target < total && target < TokensOf(s, FourCharacters) && 4 * target <= |TextOf(s).value|
    ensures IsAggressive([s], total, target, FourCharacters, 0, newBody, 0)
    ensures 0 <= target < RetainedTokens(newBody, FourCharacters)
  {
    var text := TruncatedText(TextOf(s).value, target, 1);
    var shorter := WithText(s, text, FourCharacters(text));
    OneStatement(s, target, FourCharacters);
    assert [s][1..] == [] && Contexts([s]) == [] + Contexts([]) == [];
    assert PruningOrder([s]) == [];
    newBody := [shorter];
    assert |text| == 4 * target + |TRUNCATION_MARK|;
    assert [shorter][1..] == [];
  }

  lemma OneStatement(s: Statement, target: nat, estimate: string -> nat)
    requires TextOf(s).Some? && TokensOf(s, estimate) > 80 && TokensOf(s, estimate) > target
    ensures var text := TruncatedText(TextOf(s).value, target, 1);
      Truncated([s], target, estimate)
        == Truncation([WithText(s, text, estimate(text))], 0, [WithText(s, text, estimate(text))])
  {
    assert [s][0] == s;
    assert TruncateFrom([s], 1, target, 1, estimate) == TruncateNext(Truncation([], 0, []), s, target, 1, estimate);
  }

  // ---------------------------------------------------------------- how much is kept

  lemma {:induction false} TruncationExtends(
      body: seq<Statement>, k: nat, n: nat, target: int, count: nat, estimate: string -> nat)
    requires k <= n <= |body| && count > 0
    ensures TruncateFrom(body, k, target, count, estimate).body <= TruncateFrom(body, n, target, count, estimate).body
    ensures TruncateFrom(body, k, target, count, estimate).cut <= TruncateFrom(body, n, target, count, estimate).cut
    decreases n
  {
    if k < n {
      TruncationExtends(body, k, n - 1, target, count, estimate);
      NextExtends(TruncateFrom(body, n - 1, target, count, estimate), body[n - 1], target, count, estimate);
    }
  }

  lemma NextExtends(t: Truncation, s: Statement, target: int, count: nat, estimate: string -> nat)
    requires count > 0
    ensures t.body <= TruncateNext(t, s, target, count, estimate).body
    ensures t.cut <= TruncateNext(t, s, target, count, estimate).cut
  {
  }

  /** `n` characters: as many as four for each token left by a fair share, at least 16, at most all. */
  ghost predicate IsCutLength(n: int, length: nat, spare: int, count: nat)
    requires count > 0
  {
    var share := spare * 4 / count;
    n == if length <= 16 || length <= share then length else if share <= 16 then 16 else share
  }

  /** The statement with this text, counted by the estimate. */
  ghost predicate HasText(s: Statement, text: string, estimate: string -> nat) {
    && TextOf(s) == Some(text) && s.metadata.tokens == Some(estimate(text))
  }

  ghost predicate IsCutAt(s: Statement, text: string, n: int, spare: int, count: nat, estimate: string -> nat)
    requires count > 0
  {
    && 0 <= n <= |text| && IsCutLength(n, |text|, spare, count)
    && HasText(s, text[..n] + " [...] (aggressively truncated)", estimate)
  }

  lemma NewText(s: Statement, text: string, spare: int, count: nat, estimate: string -> nat) returns (n: nat)
    requires TextOf(s).Some? && count > 0
    ensures var shorter := TruncatedText(text, spare, count);
      IsCutAt(WithText(s, shorter, estimate(shorter)), text, n, spare, count, estimate)
  {
    n := CutText(text, spare, count);
    var shorter := text[..n] + TRUNCATION_MARK;
    assert |shorter| > 0;
  }

  lemma NextCuts(t: Truncation, s: Statement, target: int, count: nat, estimate: string -> nat)
    requires count > 0 && TextOf(s).Some? && TokensOf(s, estimate) > 80 && t.total + TokensOf(s, estimate) > target
    ensures var text := TruncatedText(TextOf(s).value, target - t.total, count);
      && TruncateNext(t, s, target, count, estimate).body == t.body + [WithText(s, text, estimate(text))]
      && |TruncateNext(t, s, target, count, estimate).cut| > 0
  {
  }

  lemma ElementOfPrefix<T>(a: seq<T>, x: T, all: seq<T>)
    requires a + [x] <= all
    ensures |a| < |all| && all[|a|] == x
  {
    assert (a + [x])[|a|] == x;
  }

  /** The statement stands cut where the result was when the loop reached it. */
  lemma CutStands(body: seq<Statement>, k: nat, target: int, estimate: string -> nat)
    requires k < |body| && TextOf(body[k]).Some? && TokensOf(body[k], estimate) > 80
    requires TruncateFrom(body, k, target, |body|, estimate).total + TokensOf(body[k], estimate) > target
    ensures var before := TruncateFrom(body, k, target, |body|, estimate);
      var shorter := TruncatedText(TextOf(body[k]).value, target - before.total, |body|);
      && |before.body| < |TruncatedBody(body, target, estimate)|
      && TruncatedBody(body, target, estimate)[|before.body|] == WithText(body[k], shorter, estimate(shorter))
  {
    var before := TruncateFrom(body, k, target, |body|, estimate);
    var text := TruncatedText(TextOf(body[k]).value, target - before.total, |body|);
    NextCuts(before, body[k], target, |body|, estimate);
    TruncationExtends(body, k + 1, |body|, target, |body|, estimate);
    ElementOfPrefix(
      before.body, WithText(body[k], text, estimate(text)), TruncateFrom(body, |body|, target, |body|, estimate).body);
  }

  /** A text of more than 80 tokens that does not fit behind what was counted before is cut: of its
      characters the length above remains, for a fair share of the spare tokens among all statements. */
  lemma CutLength(body: seq<Statement>, k: nat, target: int, estimate: string -> nat) returns (n: nat)
    requires k < |body| && TextOf(body[k]).Some? && TokensOf(body[k], estimate) > 80
    requires TruncateFrom(body, k, target, |body|, estimate).total + TokensOf(body[k], estimate) > target
    ensures var before := TruncateFrom(body, k, target, |body|, estimate);
      var left := TruncatedBody(body, target, estimate);
      && |before.body| < |left| && left[|before.body|].id == body[k].id
      && IsCutAt(left[|before.body|], TextOf(body[k]).value, n, target - before.total, |body|, estimate)
  {
    CutStands(body, k, target, estimate);
    n := NewText(
      body[k], TextOf(body[k]).value, target - TruncateFrom(body, k, target, |body|, estimate).total, |body|, estimate);
  }

  /** Everything before the first text that needs a cut remains as it was, and is all that was counted. */
  lemma NothingBeforeFirstCut(body: seq<Statement>, k: nat, target: int, estimate: string -> nat)
    requires k < |body| && NeedsCut(body, k, target, estimate) && !SomeNeedsCut(body, k, target, estimate)
    ensures IsUncut(TruncateFrom(body, k, target, |body|, estimate), Remaining(body[..k]), estimate)
    ensures Remaining(body[..k]) <= TruncatedBody(body, target, estimate)
  {
    CutIff(body, k, target, |body|, estimate);
    TruncationExtends(body, k, |body|, target, |body|, estimate);
    TruncatesIff(body, target, estimate);
    assert SomeNeedsCut(body, |body|, target, estimate);
  }

  lemma FirstCutLength(body: seq<Statement>, k: nat, target: int, estimate: string -> nat) returns (n: nat)
    requires k < |body| && NeedsCut(body, k, target, estimate) && !SomeNeedsCut(body, k, target, estimate)
    ensures var before, left := Remaining(body[..k]), TruncatedBody(body, target, estimate);
      && |before| < |left| && left[|before|].id == body[k].id
      && IsCutAt(left[|before|], TextOf(body[k]).value, n, target - RetainedTokens(before, estimate), |body|, estimate)
  {
    NothingBeforeFirstCut(body, k, target, estimate);
    n := CutLength(body, k, target, estimate);
  }

  lemma CutText(text: string, spare: int, count: nat) returns (n: nat)
    requires count > 0
    ensures n <= |text| && IsCutLength(n, |text|, spare, count)
    ensures TruncatedText(text, spare, count) == text[..n] + TRUNCATION_MARK
  {
    var maxLen := Max(16, spare * 4 / count);
    n := if maxLen < |text| then maxLen else |text|;
    assert text[..|text|] == text;
  }

  // ------------------------------------------------------------------ what is dropped

  /** A context or instruction whose content is not a literal string, or is empty. */
  predicate IsTextless(s: Statement) {
    (s.Context? && IsWithoutText(s.content)) || (s.Instruction? && IsWithoutText(s.subject))
  }

  predicate IsWithoutText(e: Expr) {
    e.Literal? ==> e.value.Text? ==> e.value.text == ""
  }

  lemma {:induction false} RemainingLength(body: seq<Statement>)
    ensures |Remaining(body)| <= |body|
    ensures |Remaining(body)| < |body| <==> exists s | s in body :: IsTextless(s)
  {
    if body != [] {
      var init, last := body[..|body| - 1], body[|body| - 1];
      RemainingLength(init);
      assert body == init + [last];
      assert (exists s | s in body :: IsTextless(s)) <==> IsTextless(last) || exists s | s in init :: IsTextless(s);
    }
  }

  /** If something needs a cut, what remains is what has a text or needs none, cut or not. */
  lemma TruncatedIsCutFrom(body: seq<Statement>, target: int, estimate: string -> nat)
    ensures if SomeNeedsCut(body, |body|, target, estimate)
      then IsCutFrom(TruncatedBody(body, target, estimate), Remaining(body))
      else TruncatedBody(body, target, estimate) == body
  {
    TruncatesIff(body, target, estimate);
    TruncationKeepsOrder(body, |body|, target, if body == [] then 1 else |body|, estimate);
    assert body[..|body|] == body;
  }

  /** Statements disappear if and only if one has no text and another one needs a cut. */
  lemma TruncationDropsIff(body: seq<Statement>, target: int, estimate: string -> nat)
    ensures |TruncatedBody(body, target, estimate)| < |body|
      <==> SomeNeedsCut(body, |body|, target, estimate) && exists s | s in body :: IsTextless(s)
  {
    TruncatedIsCutFrom(body, target, estimate);
    RemainingLength(body);
  }

  /** A number that code generation would show is lost because a long text stands before it. */
  lemma NumberIsDropped(long: Statement, number: Statement, target: nat, estimate: string -> nat)
    requires TextOf(long).Some? && TokensOf(long, estimate) > 80 && TokensOf(long, estimate) > target
    requires number.Instruction? && number.subject.Literal?
    requires number.subject.value.Scalar? && number.subject.value.truthy
    ensures Parts(Lower(number)) == [number.subject.value.shown]
    ensures var left := TruncatedBody([long, number], target, estimate);
      |left| == 1 && left[0].id == long.id
  {
    assert Lower(number)[1..] == [];
    RemainingOfTwo(long, number);
    assert [long, number][0] == long && [long, number][..0] == [];
    assert NeedsCut([long, number], 0, target, estimate);
    TruncatedIsCutFrom([long, number], target, estimate);
    IdOfCut(TruncatedBody([long, number], target, estimate), long);
  }

  lemma RemainingOfTwo(s: Statement, textless: Statement)
    requires !IsTextless(s) && IsTextless(textless)
    ensures Remaining([s, textless]) == [s]
  {
    var body := [s, textless];
    assert body[..0] == [] && body[..1] == [s] && body[..2] == body;
    RemainingNext(body, 0);
    RemainingNext(body, 1);
  }

  lemma IdOfCut(left: seq<Statement>, s: Statement)
    requires IsCutFrom(left, [s])
    ensures |left| == 1 && left[0].id == s.id
  {
    assert [s][0] == s;
  }
}
