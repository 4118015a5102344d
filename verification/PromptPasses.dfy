/** The optimization passes and code generation of the prompt compiler. */
module PromptPasses {
  import opened Wrappers
  import opened Sequences
  import opened PromptAst

  // ------------------------------------------------------------ constant folding

  /** One literal for two: the texts joined, compressible if both are, from the start of `a` to the end of `b`. */
  function MergeLiteral(a: Expr, b: Expr): Expr
    requires a.Literal? && b.Literal?
  {
    Literal(a.id, Text(a.value.Shown() + b.value.Shown()), a.compressible && b.compressible,
            a.metadata.(endPos := b.metadata.endPos))
  }

  function FoldExpression(e: Expr): Expr {
    if e.BinaryOp? && e.operator.Plus? then
      var left, right := FoldExpression(e.left), FoldExpression(e.right);
      if left.Literal? && right.Literal? then MergeLiteral(left, right) else e.(left := left, right := right)
    else e
  }

  /** No '+' of two literals is left where folding looks: under nothing but '+'. */
  predicate Reduced(e: Expr) {
    e.BinaryOp? && e.operator.Plus? ==>
      Reduced(e.left) && Reduced(e.right) && !(e.left.Literal? && e.right.Literal?)
  }

  lemma {:induction false} FoldPreservesText(e: Expr, env: Environment)
    ensures Eval(FoldExpression(e), env) == Eval(e, env)
  {
    if e.BinaryOp? && e.operator.Plus? {
      FoldPreservesText(e.left, env);
      FoldPreservesText(e.right, env);
    }
  }

  lemma {:induction false} FoldReduces(e: Expr)
    ensures Reduced(FoldExpression(e))
  {
    if e.BinaryOp? && e.operator.Plus? {
      FoldReduces(e.left);
      FoldReduces(e.right);
    }
  }

  lemma {:induction false} ReducedIsFixed(e: Expr)
    ensures Reduced(e) <==> FoldExpression(e) == e
  {
    if e.BinaryOp? && e.operator.Plus? {
      ReducedIsFixed(e.left);
      ReducedIsFixed(e.right);
      FoldShrinks(e.left);
      FoldShrinks(e.right);
    }
  }

  function Size(e: Expr): nat {
    if e.BinaryOp? && e.operator.Plus? then 1 + Size(e.left) + Size(e.right) else 1
  }

  lemma {:induction false} FoldShrinks(e: Expr)
    ensures Size(FoldExpression(e)) <= Size(e)
  {
    if e.BinaryOp? && e.operator.Plus? {
      FoldShrinks(e.left);
      FoldShrinks(e.right);
    }
  }

  lemma {:induction false} FoldIsIdempotent(e: Expr)
    ensures FoldExpression(FoldExpression(e)) == FoldExpression(e)
  {
    FoldReduces(e);
    ReducedIsFixed(FoldExpression(e));
  }

  /** Literals joined by '+' alone. */
  predicate IsLiteralSum(e: Expr) {
    e.Literal? || (e.BinaryOp? && e.operator.Plus? && IsLiteralSum(e.left) && IsLiteralSum(e.right))
  }

  /** Folding yields a single literal exactly for sums of literals. */
  lemma {:induction false} FoldsToLiteralIff(e: Expr)
    ensures FoldExpression(e).Literal? <==> IsLiteralSum(e)
  {
    if e.BinaryOp? && e.operator.Plus? {
      FoldsToLiteralIff(e.left);
      FoldsToLiteralIff(e.right);
    }
  }

  function FoldStatement(s: Statement): Statement {
    match s
    case Instruction(_, _, subject, _, _) => s.(subject := FoldExpression(subject))
    case Context(_, content, _, _, _) => s.(content := FoldExpression(content))
    case Constraint(_, _, value, _, _) => s.(value := FoldExpression(value))
    case Other(_, _, _) => s
  }

  /** Folding a statement changes nothing but the expression, whose text stays. */
  lemma FoldingChangesExpressionOnly(s: Statement, env: Environment)
    ensures FoldStatement(s).id == s.id && FoldStatement(s).metadata == s.metadata
    ensures s.Instruction? ==>
      var t := FoldStatement(s);
      && t.Instruction? && t.directive == s.directive && t.dependencies == s.dependencies
      && Eval(t.subject, env) == Eval(s.subject, env) && Reduced(t.subject)
    ensures s.Context? ==>
      var t := FoldStatement(s);
      && t.Context? && t.priority == s.priority && t.required == s.required
      && Eval(t.content, env) == Eval(s.content, env) && Reduced(t.content)
    ensures s.Constraint? ==>
      var t := FoldStatement(s);
      && t.Constraint? && t.kind == s.kind && t.strict == s.strict
      && Eval(t.value, env) == Eval(s.value, env) && Reduced(t.value)
    ensures s.Other? ==> FoldStatement(s) == s
  {
    match s
    case Instruction(_, _, subject, _, _) => FoldPreservesText(subject, env); FoldReduces(subject);
    case Context(_, content, _, _, _) => FoldPreservesText(content, env); FoldReduces(content);
    case Constraint(_, _, value, _, _) => FoldPreservesText(value, env); FoldReduces(value);
    case Other(_, _, _) =>
  }

  function FoldAll(body: seq<Statement>): (r: seq<Statement>)
    ensures |r| == |body|
  {
    if body == [] then [] else [FoldStatement(body[0])] + FoldAll(body[1..])
  }

  predicate IsLiteralContext(s: Statement) {
    s.Context? && s.content.Literal?
  }

  /** The first context with the content of both; its id, priority and metadata stay. */
  function Merged(a: Statement, b: Statement): Statement
    requires IsLiteralContext(a) && IsLiteralContext(b)
  {
    a.(content := MergeLiteral(a.content, b.content))
  }

  /** A merged context is the first one, save that its literal holds the text of both, reaches to the end
      of the second and is compressible only if both are. */
  lemma MergedIsFirstWithBothTexts(a: Statement, b: Statement)
    requires IsLiteralContext(a) && IsLiteralContext(b)
    ensures var m := Merged(a, b);
      && m.Context? && m.id == a.id && m.priority == a.priority && m.required == a.required && m.metadata == a.metadata
      && m.content.Literal? && m.content.id == a.content.id
      && m.content.value == Text(a.content.value.Shown() + b.content.value.Shown())
      && (m.content.compressible <==> a.content.compressible && b.content.compressible)
      && m.content.metadata.startPos == a.content.metadata.startPos
      && m.content.metadata.endPos == b.content.metadata.endPos
  {
  }

  predicate IsPair(body: seq<Statement>, i: nat) {
    i + 1 < |body| && IsLiteralContext(body[i]) && IsLiteralContext(body[i + 1])
  }

  /** From `i` on, neighbouring literal contexts are merged two by two; the second of a pair is used up. */
  function MergePairs(body: seq<Statement>, i: nat := 0): seq<Statement>
    decreases |body| - i
  {
    if i >= |body| then []
    else if IsPair(body, i) then [Merged(body[i], body[i + 1])] + MergePairs(body, i + 2)
    else [body[i]] + MergePairs(body, i + 1)
  }

  lemma {:induction false} MergePairsOfSuffix(body: seq<Statement>, i: nat, k: nat)
    requires i <= |body|
    ensures MergePairs(body, i + k) == MergePairs(body[i..], k)
    decreases |body| - i - k
  {
    if i + k < |body| {
      MergePairsOfSuffix(body, i, if IsPair(body, i + k) then k + 2 else k + 1);
    }
  }

  ghost predicate AreLiteralContexts(run: seq<Statement>) {
    forall i | 0 <= i < |run| :: run[i].Context? && run[i].content.Literal?
  }

  /** The first two as one, then the next two, and so on, and the last one of an odd number as it is. */
  ghost predicate IsMergedByTwos(run: seq<Statement>, merged: seq<Statement>)
    requires AreLiteralContexts(run)
  {
    && |merged| == (|run| + 1) / 2
    && (forall k | 0 <= k < |run| / 2 :: merged[k] == Merged(run[2 * k], run[2 * k + 1]))
    && (|run| % 2 == 1 ==> merged[|run| / 2] == run[|run| - 1])
  }

  lemma TwoMore(run: seq<Statement>, more: seq<Statement>)
    requires |run| >= 2 && AreLiteralContexts(run) && IsMergedByTwos(run[2..], more)
    ensures IsMergedByTwos(run, [Merged(run[0], run[1])] + more)
  {
    var merged := [Merged(run[0], run[1])] + more;
    forall k | 0 <= k < |run| / 2 ensures merged[k] == Merged(run[2 * k], run[2 * k + 1]) {
      if k > 0 {
        assert more[k - 1] == Merged(run[2..][2 * (k - 1)], run[2..][2 * (k - 1) + 1]);
      }
    }
  }

  lemma MergePairsHead(body: seq<Statement>)
    requires body != []
    ensures MergePairs(body) ==
      if IsPair(body, 0) then [Merged(body[0], body[1])] + MergePairs(body[2..]) else [body[0]] + MergePairs(body[1..])
  {
    MergePairsOfSuffix(body, if IsPair(body, 0) then 2 else 1, 0);
  }

  /** Literal contexts that follow one another are merged by twos, and every other statement stays as it is. */
  lemma {:induction false} RunIsMergedByTwos(run: seq<Statement>, rest: seq<Statement>) returns (merged: seq<Statement>)
    requires AreLiteralContexts(run) && (rest == [] || !(rest[0].Context? && rest[0].content.Literal?))
    ensures IsMergedByTwos(run, merged) && MergePairs(run + rest) == merged + MergePairs(rest)
    ensures rest != [] ==> MergePairs(rest) == [rest[0]] + MergePairs(rest[1..])
  {
    if rest != [] {
      MergePairsHead(rest);
    }
    if |run| <= 1 {
      merged := run;
      ShortRun(run, rest);
    } else {
      var more := RunIsMergedByTwos(run[2..], rest);
      merged := [Merged(run[0], run[1])] + more;
      TwoMore(run, more);
      LongRun(run, rest, more);
    }
  }

  lemma LongRun(run: seq<Statement>, rest: seq<Statement>, more: seq<Statement>)
    requires |run| >= 2 && IsLiteralContext(run[0]) && IsLiteralContext(run[1])
    requires MergePairs(run[2..] + rest) == more + MergePairs(rest)
    ensures MergePairs(run + rest) == [Merged(run[0], run[1])] + more + MergePairs(rest)
  {
    MergePairsHead(run + rest);
    DropConcat(run, 2, rest);
    Associate([Merged(run[0], run[1])], more, MergePairs(rest));
  }

  lemma ShortRun(run: seq<Statement>, rest: seq<Statement>)
    requires |run| <= 1 && (rest == [] || !IsLiteralContext(rest[0]))
    ensures MergePairs(run + rest) == run + MergePairs(rest)
    ensures AreLiteralContexts(run) ==> IsMergedByTwos(run, run)
  {
    if run == [] {
      assert run + rest == rest;
    } else {
      MergePairsHead(run + rest);
      DropConcat(run, 1, rest);
      assert run[1..] + rest == rest;
    }
  }

  method FoldConstants(body: seq<Statement>) returns (mergedBody: seq<Statement>)
    ensures mergedBody == MergePairs(FoldAll(body))
  {
    var newBody := [];
    for i := 0 to |body|
      invariant newBody + FoldAll(body[i..]) == FoldAll(body)
    {
      assert body[i..][1..] == body[i + 1..];
      newBody := newBody + [FoldStatement(body[i])];
    }
    assert newBody == FoldAll(body);
    mergedBody := MergeContexts(newBody);
  }

  lemma Regroup<T>(a: seq<T>, x: T, b: seq<T>)
    ensures a + [x] + b == a + ([x] + b)
  {
  }

  method MergeContexts(newBody: seq<Statement>) returns (mergedBody: seq<Statement>)
    ensures mergedBody == MergePairs(newBody)
  {
    mergedBody := [];
    var i := 0;
    while i < |newBody|
      invariant mergedBody + MergePairs(newBody, i) == MergePairs(newBody)
    {
      if IsPair(newBody, i) {
        Regroup(mergedBody, Merged(newBody[i], newBody[i + 1]), MergePairs(newBody, i + 2));
        mergedBody := mergedBody + [Merged(newBody[i], newBody[i + 1])];
        i := i + 1;
      } else {
        Regroup(mergedBody, newBody[i], MergePairs(newBody, i + 1));
        mergedBody := mergedBody + [newBody[i]];
      }
      i := i + 1;
    }
  }

  /** A body as the text of its leading contexts, and every other statement with the text of the
      contexts that follow it. */
  datatype Layout = Layout(lead: string, rest: seq<(Statement, string)>)

  function LayoutOf(body: seq<Statement>, env: Environment): Layout {
    if body == [] then Layout("", [])
    else
      var after := LayoutOf(body[1..], env);
      if body[0].Context? then after.(lead := Eval(body[0].content, env) + after.lead)
      else Layout("", [(body[0], after.lead)] + after.rest)
  }

  /** Merging moves no text across another statement and leaves the other statements as they are. */
  lemma {:induction false} MergingKeepsLayout(body: seq<Statement>, i: nat, env: Environment)
    requires i <= |body|
    ensures LayoutOf(MergePairs(body, i), env) == LayoutOf(body[i..], env)
    decreases |body| - i
  {
    if i < |body| {
      if IsPair(body, i) {
        MergingKeepsLayout(body, i + 2, env);
        LayoutOfPair(body[i], body[i + 1], body[i + 2..], MergePairs(body, i + 2), env);
        assert body[i..] == [body[i], body[i + 1]] + body[i + 2..];
      } else {
        MergingKeepsLayout(body, i + 1, env);
        assert body[i..] == [body[i]] + body[i + 1..];
        assert MergePairs(body, i)[1..] == MergePairs(body, i + 1);
      }
    }
  }

  lemma LayoutOfPair(a: Statement, b: Statement, rest: seq<Statement>, merged: seq<Statement>, env: Environment)
    requires IsLiteralContext(a) && IsLiteralContext(b) && LayoutOf(merged, env) == LayoutOf(rest, env)
    ensures LayoutOf([Merged(a, b)] + merged, env) == LayoutOf([a, b] + rest, env)
  {
    var body := [a, b] + rest;
    assert ([Merged(a, b)] + merged)[1..] == merged;
    assert body[1..] == [b] + rest && body[1..][1..] == rest;
    var after := LayoutOf(rest, env).lead;
    assert Eval(a.content, env) + Eval(b.content, env) + after == Eval(a.content, env) + (Eval(b.content, env) + after);
  }

  // ------------------------------------------------------- dead code elimination

  predicate IsKept(s: Statement) {
    !(s.Context? && !s.required && s.priority < 3.0)
  }

  function Kept(body: seq<Statement>): seq<Statement> {
    if body == [] then []
    else if IsKept(body[0]) then [body[0]] + Kept(body[1..]) else Kept(body[1..])
  }

  function Tokens(body: seq<Statement>): nat {
    if body == [] then 0 else body[0].metadata.Tokens() + Tokens(body[1..])
  }

  /** The indices, in increasing order, of all statements but optional contexts of priority below 3. */
  ghost predicate IsSelection(body: seq<Statement>, at: seq<nat>) {
    && (forall i | 0 <= i < |at| :: at[i] < |body|)
    && (forall i, j | 0 <= i < j < |at| :: at[i] < at[j])
    && (forall k | 0 <= k < |body| :: k in at <==> !body[k].Context? || body[k].required || body[k].priority >= 3.0)
  }

  /** The statements of the body at these indices. */
  ghost predicate IsPicked(part: seq<Statement>, body: seq<Statement>, at: seq<nat>) {
    |part| == |at| && forall i | 0 <= i < |at| :: at[i] < |body| && part[i] == body[at[i]]
  }

  lemma {:induction false} KeptIsPicked(body: seq<Statement>) returns (at: seq<nat>)
    ensures IsSelection(body, at) && IsPicked(Kept(body), body, at)
  {
    if body == [] {
      at := [];
    } else {
      var init, last := body[..|body| - 1], body[|body| - 1];
      at := KeptIsPicked(init);
      KeptSnoc(init, last);
      assert body == init + [last];
      if IsKept(last) {
        SelectionGrows(init, at, last);
        at := at + [|init|];
      } else {
        SelectionStays(init, at, last);
        assert Kept(body) == Kept(init);
      }
    }
  }

  lemma SelectionStays(init: seq<Statement>, at: seq<nat>, last: Statement)
    requires IsSelection(init, at) && IsPicked(Kept(init), init, at) && !IsKept(last)
    ensures IsSelection(init + [last], at) && IsPicked(Kept(init), init + [last], at)
  {
    var body := init + [last];
    forall k | 0 <= k < |body| ensures k in at <==> !body[k].Context? || body[k].required || body[k].priority >= 3.0 {
      assert k < |init| ==> body[k] == init[k];
    }
  }

  lemma SelectionGrows(init: seq<Statement>, at: seq<nat>, last: Statement)
    requires IsSelection(init, at) && IsPicked(Kept(init), init, at) && IsKept(last)
    ensures IsSelection(init + [last], at + [|init|]) && IsPicked(Kept(init) + [last], init + [last], at + [|init|])
  {
    IndicesGrow(init, at, last);
    PickedGrows(Kept(init), init, at, last);
  }

  lemma IndicesGrow(init: seq<Statement>, at: seq<nat>, last: Statement)
    requires IsSelection(init, at) && IsKept(last)
    ensures IsSelection(init + [last], at + [|init|])
  {
    var grown, body := at + [|init|], init + [last];
    assert grown[|at|] == |init|;
    forall k | 0 <= k < |body|
      ensures k in grown <==> !body[k].Context? || body[k].required || body[k].priority >= 3.0
    {
      assert k < |init| ==> body[k] == init[k];
    }
  }

  lemma PickedGrows(part: seq<Statement>, init: seq<Statement>, at: seq<nat>, last: Statement)
    requires IsPicked(part, init, at)
    ensures IsPicked(part + [last], init + [last], at + [|init|])
  {
    var grown, body := at + [|init|], init + [last];
    forall i | 0 <= i < |grown| ensures grown[i] < |body| && (part + [last])[i] == body[grown[i]] {
      assert i < |at| ==> part[i] == init[at[i]];
    }
  }

  lemma {:induction false} KeptSnoc(body: seq<Statement>, s: Statement)
    ensures Kept(body + [s]) == Kept(body) + if IsKept(s) then [s] else []
  {
    if body == [] {
      assert [s][1..] == [] && body + [s] == [s];
    } else {
      KeptSnoc(body[1..], s);
      assert (body + [s])[1..] == body[1..] + [s];
    }
  }

  /** There is only one such sequence of indices. */
  lemma {:induction false} SelectionIsUnique(a: seq<nat>, b: seq<nat>)
    requires forall i, j | 0 <= i < j < |a| :: a[i] < a[j]
    requires forall i, j | 0 <= i < j < |b| :: b[i] < b[j]
    requires forall k :: k in a <==> k in b
    ensures a == b
  {
    assert |a| > 0 ==> a[0] in b;
    assert |b| > 0 ==> b[0] in a;
    if a != [] && b != [] {
      SameLast(a, b);
      var init, other, x := a[..|a| - 1], b[..|b| - 1], a[|a| - 1];
      forall k ensures k in init <==> k in other {
        assert k in init <==> k in a && k != x;
        assert k in other <==> k in b && k != x;
      }
      SelectionIsUnique(init, other);
      assert a == init + [x] && b == other + [x];
    }
  }

  lemma SameLast(a: seq<nat>, b: seq<nat>)
    requires a != [] && forall i, j | 0 <= i < j < |a| :: a[i] < a[j]
    requires b != [] && forall i, j | 0 <= i < j < |b| :: b[i] < b[j]
    requires forall k :: k in a <==> k in b
    ensures a[|a| - 1] == b[|b| - 1]
  {
    assert a[|a| - 1] in b && b[|b| - 1] in a;
  }

  /** What is kept are exactly the statements at the indices that the body determines. */
  lemma {:induction false} KeptIsSelection(body: seq<Statement>, at: seq<nat>, part: seq<Statement>)
    requires IsSelection(body, at) && IsPicked(part, body, at)
    ensures part == Kept(body)
  {
    var other := KeptIsPicked(body);
    forall k ensures k in at <==> k in other {
      if k in at || k in other {
        assert 0 <= k < |body|;
      }
    }
    SelectionIsUnique(at, other);
  }

  /** Filters in place: what stays are the statements at these indices, in their order; the tokens saved
      are the tokens that disappear. */
  method EliminateDeadCode(body: seq<Statement>) returns (filteredBody: seq<Statement>, tokensSaved: nat)
    ensures exists at :: IsSelection(body, at) && IsPicked(filteredBody, body, at)
    ensures filteredBody == Kept(body)
    ensures tokensSaved == Tokens(body) - Tokens(filteredBody)
  {
    filteredBody, tokensSaved := [], 0;
    for i := 0 to |body|
      invariant filteredBody + Kept(body[i..]) == Kept(body)
      invariant tokensSaved + Tokens(filteredBody) + Tokens(body[i..]) == Tokens(body)
    {
      assert body[i..][1..] == body[i + 1..];
      if IsKept(body[i]) {
        TokensConcat(filteredBody, [body[i]]);
        assert [body[i]][1..] == [];
        filteredBody := filteredBody + [body[i]];
      } else {
        tokensSaved := tokensSaved + body[i].metadata.Tokens();
      }
    }
    assert filteredBody == Kept(body);
    ghost var at := KeptIsPicked(body);
  }

  lemma {:induction false} TokensConcat(a: seq<Statement>, b: seq<Statement>)
    ensures Tokens(a + b) == Tokens(a) + Tokens(b)
  {
    if a == [] {
      assert a + b == b;
    } else {
      TokensConcat(a[1..], b);
      assert (a + b)[1..] == a[1..] + b;
    }
  }

  /** From `i` on, the tokens of the second contexts of merged pairs. */
  function DroppedTokens(body: seq<Statement>, i: nat := 0): nat
    decreases |body| - i
  {
    if i >= |body| then 0
    else if IsPair(body, i) then body[i + 1].metadata.Tokens() + DroppedTokens(body, i + 2)
    else DroppedTokens(body, i + 1)
  }

  /** A merged context counts only the tokens of its first part, although it holds the text of both. */
  lemma {:induction false} MergingDropsTokens(body: seq<Statement>, i: nat)
    requires i <= |body|
    ensures Tokens(body[i..]) == Tokens(MergePairs(body, i)) + DroppedTokens(body, i)
    decreases |body| - i
  {
    if i < |body| {
      assert body[i..][1..] == body[i + 1..];
      if IsPair(body, i) {
        MergingDropsTokens(body, i + 2);
        assert body[i + 1..][1..] == body[i + 2..];
        assert MergePairs(body, i)[1..] == MergePairs(body, i + 2);
      } else {
        MergingDropsTokens(body, i + 1);
        assert MergePairs(body, i)[1..] == MergePairs(body, i + 1);
      }
    }
  }

  // -------------------------------------------------------- context compression

  function LiteralText(e: Expr): Option<string> {
    if e.Literal? && e.value.Text? then Some(e.value.text) else None
  }

  /** The tokens that decide whether to compress: instructions count their subject on top of their metadata. */
  function EstimatedTokens(body: seq<Statement>, estimate: string -> nat): nat {
    if body == [] then 0
    else
      var s := body[0];
      var own := if s.metadata.tokens.Some? then s.metadata.tokens.value
                 else if s.Context? && LiteralText(s.content).Some? then estimate(LiteralText(s.content).value)
                 else 0;
      var subject := if s.Instruction? && LiteralText(s.subject).Some?
                     then estimate(LiteralText(s.subject).value) else 0;
      own + subject + EstimatedTokens(body[1..], estimate)
  }

  /** The tokens of what is left: metadata, or else an estimate of the literal text. */
  function TokensOf(s: Statement, estimate: string -> nat): nat {
    if s.metadata.tokens.Some? then s.metadata.tokens.value
    else if s.Context? && LiteralText(s.content).Some? then estimate(LiteralText(s.content).value)
    else if s.Instruction? && LiteralText(s.subject).Some? then estimate(LiteralText(s.subject).value)
    else 0
  }

  /** A count in the metadata is taken as it is; without one, only literal texts count. */
  lemma TokensAreCountedOrEstimated(s: Statement, text: string, estimate: string -> nat)
    ensures s.metadata.tokens.Some? ==> TokensOf(s, estimate) == s.metadata.tokens.value
    ensures s.metadata.tokens.None? && s.Context? && s.content.Literal? && s.content.value == Text(text) ==>
      TokensOf(s, estimate) == estimate(text)
    ensures s.metadata.tokens.None? && s.Instruction? && s.subject.Literal? && s.subject.value == Text(text) ==>
      TokensOf(s, estimate) == estimate(text)
    ensures s.metadata.tokens.None? && (s.Constraint? || s.Other?) ==> TokensOf(s, estimate) == 0
  {
  }

  function RetainedTokens(body: seq<Statement>, estimate: string -> nat): nat {
    if body == [] then 0 else TokensOf(body[0], estimate) + RetainedTokens(body[1..], estimate)
  }

  lemma {:induction false} RetainedAtMostEstimated(body: seq<Statement>, estimate: string -> nat)
    ensures RetainedTokens(body, estimate) <= EstimatedTokens(body, estimate)
  {
    if body != [] {
      RetainedAtMostEstimated(body[1..], estimate);
    }
  }

  /** Without a summarizer nothing is changed; the warning comes exactly when a target is set and
      what is left exceeds it. */
  method CompressContext(body: seq<Statement>, targetTokens: Option<nat>, estimate: string -> nat)
    returns (newBody: seq<Statement>, warned: bool)
    ensures newBody == body
    ensures warned <==>
      (targetTokens.Some? && targetTokens.value != 0 && RetainedTokens(body, estimate) > targetTokens.value)
  {
    RetainedAtMostEstimated(body, estimate);
    if targetTokens.None? || targetTokens.value == 0 || EstimatedTokens(body, estimate) <= targetTokens.value {
      return body, false;
    }
    newBody := [];
    var newTotalTokens := 0;
    for i := 0 to |body|
      invariant newBody == body[..i]
      invariant newTotalTokens + RetainedTokens(body[i..], estimate) == RetainedTokens(body, estimate)
    {
      assert body[i..][1..] == body[i + 1..];
      newTotalTokens := newTotalTokens + TokensOf(body[i], estimate);
      newBody := newBody + [body[i]];
    }
    warned := newTotalTokens > targetTokens.value;
  }

  // -------------------------------------------------------------- code generation

  datatype Opcode = PROMPT | CONTEXT

  /** `operand` is None where the source reads the value of an expression that is not a literal. */
  datatype IRInstruction = IRInstruction(
    id: string, opcode: Opcode, operand: Option<LiteralValue>, dependencies: seq<string>, tokens: nat)

  function LiteralOf(e: Expr): Option<LiteralValue> {
    if e.Literal? then Some(e.value) else None
  }

  /** Only instructions and contexts get an IR instruction. */
  function Lower(s: Statement): seq<IRInstruction> {
    match s
    case Instruction(id, _, subject, dependencies, metadata) =>
      [IRInstruction(id, PROMPT, LiteralOf(subject), dependencies, metadata.Tokens())]
    case Context(id, content, _, _, metadata) =>
      [IRInstruction(id, CONTEXT, LiteralOf(content), [], metadata.Tokens())]
    case _ => []
  }

  function LowerAll(body: seq<Statement>): seq<IRInstruction> {
    if body == [] then [] else Lower(body[0]) + LowerAll(body[1..])
  }

  /** Of every instruction and context, in order: its id, whether it is an instruction, its token count
      (0 when it is missing), the dependencies of an instruction, and the value of a literal. */
  ghost predicate IsLowered(ir: seq<IRInstruction>, body: seq<Statement>, at: seq<nat>) {
    && |ir| == |at| && (forall i | 0 <= i < |at| :: at[i] < |body|)
    && (forall i, j | 0 <= i < j < |at| :: at[i] < at[j])
    && (forall k | 0 <= k < |body| :: k in at <==> body[k].Instruction? || body[k].Context?)
    && (forall i | 0 <= i < |at| :: IsLoweredFrom(ir[i], body[at[i]]))
  }

  ghost predicate IsLoweredFrom(i: IRInstruction, s: Statement) {
    && i.id == s.id && i.tokens == (if s.metadata.tokens.Some? then s.metadata.tokens.value else 0)
    && (s.Instruction? ==> i.opcode == PROMPT && i.dependencies == s.dependencies)
    && (s.Context? ==> i.opcode == CONTEXT && i.dependencies == [])
    && (s.Instruction? && s.subject.Literal? ==> i.operand == Some(s.subject.value))
    && (s.Context? && s.content.Literal? ==> i.operand == Some(s.content.value))
  }

  lemma {:induction false} LowerAllSnoc(body: seq<Statement>, s: Statement)
    ensures LowerAll(body + [s]) == LowerAll(body) + Lower(s)
  {
    if body == [] {
      assert [s][1..] == [] && body + [s] == [s];
    } else {
      LowerAllSnoc(body[1..], s);
      assert (body + [s])[1..] == body[1..] + [s];
      Associate(Lower(body[0]), LowerAll(body[1..]), Lower(s));
    }
  }

  lemma LoweredMore(init: seq<Statement>, s: Statement, at: seq<nat>, ir: seq<IRInstruction>)
    requires IsLowered(ir, init, at)
    ensures IsLowered(ir + Lower(s), init + [s], at + if s.Instruction? || s.Context? then [|init|] else [])
  {
    var body, longer := init + [s], at + if s.Instruction? || s.Context? then [|init|] else [];
    var more := ir + Lower(s);
    assert |longer| > |at| ==> longer[|at|] == |init|;
    forall k | 0 <= k < |body| ensures k in longer <==> body[k].Instruction? || body[k].Context? {
      assert k < |init| ==> body[k] == init[k];
    }
    forall i | 0 <= i < |longer| ensures IsLoweredFrom(more[i], body[longer[i]]) {
      if i < |at| {
        assert IsLoweredFrom(ir[i], init[at[i]]);
      }
    }
  }

  lemma {:induction false} AllAreLowered(body: seq<Statement>) returns (at: seq<nat>)
    ensures IsLowered(LowerAll(body), body, at)
  {
    if body == [] {
      at := [];
    } else {
      var init, last := body[..|body| - 1], body[|body| - 1];
      at := AllAreLowered(init);
      LowerAllSnoc(init, last);
      LoweredMore(init, last, at, LowerAll(init));
      at := at + if last.Instruction? || last.Context? then [|init|] else [];
      assert body == init + [last];
    }
  }

  lemma DropConcat<T>(a: seq<T>, n: nat, b: seq<T>)
    requires n <= |a|
    ensures (a + b)[n..] == a[n..] + b
  {
  }

  lemma Associate<T>(a: seq<T>, b: seq<T>, c: seq<T>)
    ensures a + b + c == a + (b + c)
  {
  }

  method GenerateIR(body: seq<Statement>) returns (instructions: seq<IRInstruction>)
    ensures instructions == LowerAll(body)
    ensures exists at :: IsLowered(instructions, body, at)
  {
    ghost var at := AllAreLowered(body);
    instructions := [];
    for i := 0 to |body|
      invariant instructions + LowerAll(body[i..]) == LowerAll(body)
    {
      assert body[i..][1..] == body[i + 1..];
      Associate(instructions, Lower(body[i]), LowerAll(body[i + 1..]));
      instructions := instructions + Lower(body[i]);
    }
  }

  /** An operand contributes a part unless it counts as false. */
  predicate IsEmitted(instruction: IRInstruction) {
    instruction.operand.Some? && instruction.operand.value.Truthy()
  }

  function Parts(ir: seq<IRInstruction>): seq<string> {
    if ir == [] then []
    else if IsEmitted(ir[0]) then [ir[0].operand.value.Shown()] + Parts(ir[1..])
    else Parts(ir[1..])
  }

  /** Parts are separated by a blank line. */
  function Prompt(parts: seq<string>): string {
    Join(parts, "\n\n")
  }

  lemma PromptOfOne(x: string)
    ensures Prompt([x]) == x
  {
  }

  lemma PromptOfMore(x: string, rest: seq<string>)
    requires rest != []
    ensures Prompt([x] + rest) == x + "\n\n" + Prompt(rest)
  {
    assert ([x] + rest)[1..] == rest;
  }

  method GenerateCode(ir: seq<IRInstruction>) returns (code: string, parts: seq<string>)
    ensures parts == Parts(ir) && code == Prompt(parts)
  {
    parts := [];
    for i := 0 to |ir|
      invariant parts + Parts(ir[i..]) == Parts(ir)
    {
      assert ir[i..][1..] == ir[i + 1..];
      var value := ir[i].operand;
      if value.Some? && value.value.Truthy() {
        parts := parts + [value.value.Shown()];
      }
    }
    code := Prompt(parts);
  }
}
