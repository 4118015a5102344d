/** The compilation pipeline and the text that it preserves. */
module PromptCompiler {
  import opened Wrappers
  import opened Sequences
  import opened PromptAst
  import opened PromptPasses
  import opened PromptPruning

  function Concat(parts: seq<string>): string {
    if parts == [] then "" else parts[0] + Concat(parts[1..])
  }

  /** The expression that a statement contributes to the prompt, if any. */
  function Content(s: Statement): Option<Expr> {
    if s.Instruction? then Some(s.subject) else if s.Context? then Some(s.content) else None
  }

  /** The texts of instruction subjects and context contents, in order. */
  function TextsOf(body: seq<Statement>, env: Environment): seq<string> {
    if body == [] then []
    else
      var rest := TextsOf(body[1..], env);
      if Content(body[0]).Some? then [Eval(Content(body[0]).value, env)] + rest else rest
  }

  /** Code generation shows a literal unless it is a number or boolean that counts as false. */
  predicate IsShown(e: Expr) {
    e.Literal? && (e.value.Text? || e.value.truthy)
  }

  /** What folding turns into such a literal. */
  predicate FoldsToShown(e: Expr) {
    IsLiteralSum(e) && (e.Literal? ==> IsShown(e))
  }

  ghost predicate AllShown(body: seq<Statement>) {
    forall s | s in body && Content(s).Some? :: IsShown(Content(s).value)
  }

  ghost predicate AllFoldToShown(body: seq<Statement>) {
    forall s | s in body && Content(s).Some? :: FoldsToShown(Content(s).value)
  }

  /** The body that code generation sees when the aggressive pass is off. */
  function Optimized(body: seq<Statement>, level: nat): seq<Statement> {
    if level == 0 then body
    else if level == 1 then Kept(body)
    else MergePairs(FoldAll(Kept(body)))
  }

  /** Without a summarizer.  `astTokens` is the token count of the whole prompt; `ast` is what code
      generation sees. */
  method Compile(body: seq<Statement>, level: nat, preserveQuality: bool, targetTokens: Option<nat>,
                 astTokens: int, estimate: string -> nat)
    returns (optimizedPrompt: string, parts: seq<string>, ast: seq<Statement>)
    ensures optimizedPrompt == Prompt(parts) && parts == Parts(LowerAll(ast))
    ensures if level >= 3 && !preserveQuality && targetTokens.Some?
      then exists k, total ::
        IsAggressive(Optimized(body, level), astTokens, targetTokens.value, estimate, k, ast, total)
      else ast == Optimized(body, level)
    ensures level >= 1 && (level < 3 || preserveQuality || targetTokens.None?) && IsTextual(body, level) ==>
      forall at, part, env | IsSelection(body, at) && IsPicked(part, body, at) ::
        Concat(parts) == Concat(TextsOf(part, env))
    ensures level == 0 ==> ast == body
  {
    ast := body;
    if level > 0 {
      var deadCode, _ := EliminateDeadCode(ast);
      ast := deadCode;
      if level >= 2 {
        ast := FoldConstants(ast);
        var compressed, _ := CompressContext(ast, targetTokens, estimate);
        ast := compressed;
      }
      if level >= 3 && !preserveQuality && targetTokens.Some? {
        var newBody, total, saved, _ := AggressiveOptimization(ast, astTokens, targetTokens.value, estimate);
        ast := newBody;
        assert IsAggressive(Optimized(body, level), astTokens, targetTokens.value, estimate, |saved|, ast, total);
      }
    }
    var ir := GenerateIR(ast);
    optimizedPrompt, parts := GenerateCode(ir);
    if level >= 1 && (level < 3 || preserveQuality || targetTokens.None?) && IsTextual(body, level) {
      forall at, part, env | IsSelection(body, at) && IsPicked(part, body, at)
        ensures Concat(parts) == Concat(TextsOf(part, env))
      {
        CompilationPreservesText(body, level, env, at, part);
      }
    }
  }

  // ------------------------------------------------------------- text is preserved

  lemma {:induction false} PartsConcat(a: seq<IRInstruction>, b: seq<IRInstruction>)
    ensures Parts(a + b) == Parts(a) + Parts(b)
  {
    if a == [] {
      assert a + b == b;
    } else {
      PartsConcat(a[1..], b);
      assert (a + b)[1..] == a[1..] + b;
    }
  }

  lemma {:induction false} ConcatConcat(a: seq<string>, b: seq<string>)
    ensures Concat(a + b) == Concat(a) + Concat(b)
  {
    if a == [] {
      assert a + b == b;
    } else {
      ConcatConcat(a[1..], b);
      assert (a + b)[1..] == a[1..] + b;
      assert a[0] + (Concat(a[1..]) + Concat(b)) == a[0] + Concat(a[1..]) + Concat(b);
    }
  }

  /** Code generation emits exactly the texts of instructions and contexts, when they are shown literals. */
  lemma {:induction false} GeneratedText(body: seq<Statement>, env: Environment)
    requires AllShown(body)
    ensures Concat(Parts(LowerAll(body))) == Concat(TextsOf(body, env))
  {
    if body != [] {
      var s := body[0];
      assert body == [s] + body[1..];
      GeneratedText(body[1..], env);
      PartsConcat(Lower(s), LowerAll(body[1..]));
      ConcatConcat(Parts(Lower(s)), Parts(LowerAll(body[1..])));
      GeneratedOne(s, env);
    }
  }

  lemma GeneratedOne(s: Statement, env: Environment)
    requires Content(s).Some? ==> IsShown(Content(s).value)
    ensures Concat(Parts(Lower(s))) == if Content(s).Some? then Eval(Content(s).value, env) else ""
  {
    if Content(s).Some? {
      var lowered := Lower(s);
      assert lowered[1..] == [];
      var text := Eval(Content(s).value, env);
      assert [text][1..] == [] && text + "" == text;
    }
  }

  /** What a body contributes to the prompt, part by part. */
  function PartsOf(body: seq<Statement>): seq<string> {
    Parts(LowerAll(body))
  }

  lemma PartsOfMore(s: Statement, rest: seq<Statement>)
    ensures PartsOf([s] + rest) == Parts(Lower(s)) + PartsOf(rest)
  {
    assert ([s] + rest)[1..] == rest;
    PartsConcat(Lower(s), LowerAll(rest));
  }

  /** What a statement would contribute but is not shown. */
  function HiddenText(s: Statement, env: Environment): string {
    if Content(s).Some? && !IsShown(Content(s).value) then Eval(Content(s).value, env) else ""
  }

  function HiddenLength(body: seq<Statement>, env: Environment): nat {
    if body == [] then 0 else |HiddenText(body[0], env)| + HiddenLength(body[1..], env)
  }

  lemma GeneratedOrHidden(s: Statement, env: Environment)
    ensures Concat(Parts(Lower(s))) + HiddenText(s, env) == if Content(s).Some? then Eval(Content(s).value, env) else ""
  {
    if !Content(s).Some? || IsShown(Content(s).value) {
      GeneratedOne(s, env);
    } else {
      assert Lower(s)[1..] == [];
    }
  }

  lemma {:induction false} GeneratedLength(body: seq<Statement>, env: Environment)
    ensures |Concat(TextsOf(body, env))| == |Concat(PartsOf(body))| + HiddenLength(body, env)
    ensures HiddenLength(body, env) == 0 ==> Concat(TextsOf(body, env)) == Concat(PartsOf(body))
  {
    if body != [] {
      var s, rest := body[0], body[1..];
      assert body == [s] + rest;
      GeneratedLength(rest, env);
      PartsOfMore(s, rest);
      ConcatConcat(Parts(Lower(s)), PartsOf(rest));
      GeneratedOrHidden(s, env);
      assert TextsOf(body, env)
        == (if Content(s).Some? then [Eval(Content(s).value, env)] else []) + TextsOf(rest, env);
      if Content(s).Some? {
        assert ([Eval(Content(s).value, env)] + TextsOf(rest, env))[1..] == TextsOf(rest, env);
      }
    }
  }

  lemma {:induction false} HiddenIffNotEmpty(body: seq<Statement>, env: Environment)
    ensures HiddenLength(body, env) == 0 <==> forall s | s in body :: HiddenText(s, env) == ""
  {
    if body != [] {
      HiddenIffNotEmpty(body[1..], env);
      assert body == [body[0]] + body[1..];
    }
  }

  /** Code generation emits the texts of instructions and contexts if and only if every content that
      it does not show is empty: an expression that is not a literal, or a number or boolean that
      counts as false. */
  lemma GeneratedTextIff(body: seq<Statement>, env: Environment)
    ensures Concat(PartsOf(body)) == Concat(TextsOf(body, env)) <==> forall s | s in body :: HiddenText(s, env) == ""
  {
    GeneratedLength(body, env);
    HiddenIffNotEmpty(body, env);
  }

  /** What the passes keep is the text, whatever the contents: at levels 1 to 3 without the aggressive
      pass, the parts concatenate to the texts of what is kept if and only if code generation hides
      nothing of the optimized body. */
  lemma CompilationPreservesTextIff(body: seq<Statement>, level: nat, env: Environment,
                                    at: seq<nat>, part: seq<Statement>)
    requires level >= 1 && IsSelection(body, at) && IsPicked(part, body, at)
    ensures Concat(PartsOf(Optimized(body, level))) == Concat(TextsOf(part, env))
      <==> forall s | s in Optimized(body, level) :: HiddenText(s, env) == ""
  {
    KeptIsSelection(body, at, part);
    GeneratedTextIff(Optimized(body, level), env);
    if level > 1 {
      var folded := FoldAll(Kept(body));
      MergingPreservesText(folded, 0, env);
      assert folded[0..] == folded;
      FoldingPreservesTexts(Kept(body), env);
    }
  }

  lemma {:induction false} FoldingPreservesTexts(body: seq<Statement>, env: Environment)
    ensures TextsOf(FoldAll(body), env) == TextsOf(body, env)
  {
    if body != [] {
      FoldingPreservesTexts(body[1..], env);
      if Content(body[0]).Some? {
        FoldPreservesText(Content(body[0]).value, env);
      }
    }
  }

  lemma {:induction false} MergingPreservesText(body: seq<Statement>, i: nat, env: Environment)
    requires i <= |body|
    ensures Concat(TextsOf(MergePairs(body, i), env)) == Concat(TextsOf(body[i..], env))
    decreases |body| - i
  {
    if i < |body| {
      assert body[i..] == [body[i]] + body[i + 1..];
      if IsPair(body, i) {
        MergingPreservesText(body, i + 2, env);
        assert body[i..] == [body[i], body[i + 1]] + body[i + 2..];
        TextOfPair(body[i], body[i + 1], body[i + 2..], MergePairs(body, i + 2), env);
      } else {
        MergingPreservesText(body, i + 1, env);
        assert MergePairs(body, i)[1..] == MergePairs(body, i + 1);
      }
    }
  }

  lemma {:induction false} TextOfPair(a: Statement, b: Statement, rest: seq<Statement>, merged: seq<Statement>,
                   env: Environment)
    requires IsLiteralContext(a) && IsLiteralContext(b)
    requires Concat(TextsOf(merged, env)) == Concat(TextsOf(rest, env))
    ensures Concat(TextsOf([Merged(a, b)] + merged, env)) == Concat(TextsOf([a, b] + rest, env))
  {
    var body, x, y := [a, b] + rest, Eval(a.content, env), Eval(b.content, env);
    assert ([Merged(a, b)] + merged)[1..] == merged;
    assert body[1..] == [b] + rest && body[1..][1..] == rest;
    ConcatConcat([x + y], TextsOf(merged, env));
    ConcatConcat([x], [y] + TextsOf(rest, env));
    ConcatConcat([y], TextsOf(rest, env));
    assert x + y + Concat(TextsOf(rest, env)) == x + (y + Concat(TextsOf(rest, env)));
    assert [x + y][1..] == [] && [x][1..] == [] && [y][1..] == [];
  }

  lemma {:induction false} FoldingShows(body: seq<Statement>)
    requires AllFoldToShown(body)
    ensures AllShown(FoldAll(body))
  {
    if body != [] {
      assert body == [body[0]] + body[1..];
      FoldingShows(body[1..]);
      if Content(body[0]).Some? {
        FoldsToLiteralIff(Content(body[0]).value);
      }
    }
  }

  lemma {:induction false} MergingShows(body: seq<Statement>, i: nat)
    requires AllShown(body)
    ensures AllShown(MergePairs(body, i))
    decreases |body| - i
  {
    if i < |body| {
      MergingShows(body, if IsPair(body, i) then i + 2 else i + 1);
    }
  }

  /** The contents of what stays are shown by code generation, from level 2 on after folding. */
  ghost predicate IsTextual(body: seq<Statement>, level: nat) {
    forall s | s in body && Content(s).Some? && (!s.Context? || s.required || s.priority >= 3.0) ::
      if level == 1 then IsShown(Content(s).value) else FoldsToShown(Content(s).value)
  }

  lemma {:induction false} KeptElements(body: seq<Statement>)
    ensures forall s | s in Kept(body) :: s in body && IsKept(s)
  {
    if body != [] {
      KeptElements(body[1..]);
      assert body == [body[0]] + body[1..];
    }
  }

  /** At levels 1 to 3 without the aggressive pass, the emitted parts concatenate to the texts of the
      statements at the indices of every instruction and of every context that is required or has
      priority at least 3, in the order of the body: nothing else is lost, duplicated or reordered. */
  lemma CompilationPreservesText(body: seq<Statement>, level: nat, env: Environment, at: seq<nat>, part: seq<Statement>)
    requires level >= 1 && IsTextual(body, level)
    requires IsSelection(body, at) && IsPicked(part, body, at)
    ensures Concat(PartsOf(Optimized(body, level))) == Concat(TextsOf(part, env))
  {
    KeptIsSelection(body, at, part);
    KeptElements(body);
    if level == 1 {
      GeneratedText(part, env);
    } else {
      var folded := FoldAll(part);
      FoldingShows(part);
      MergingShows(folded, 0);
      GeneratedText(MergePairs(folded), env);
      MergingPreservesText(folded, 0, env);
      assert folded[0..] == folded;
      FoldingPreservesTexts(part, env);
    }
  }

  // ------------------------------------------------------- the separators that are lost

  /** Every instruction and context holds a string literal. */
  ghost predicate AllText(body: seq<Statement>) {
    forall s | s in body && Content(s).Some? :: IsText(Content(s).value)
  }

  predicate IsText(e: Expr) {
    e.Literal? && e.value.Text?
  }

  /** From `i` on, the merged pairs in which neither text is empty. */
  function Lost(body: seq<Statement>, i: nat := 0): nat
    decreases |body| - i
  {
    if i >= |body| then 0
    else if IsPair(body, i) then
      (if body[i].content.value.Shown() != "" && body[i + 1].content.value.Shown() != "" then 1 else 0)
      + Lost(body, i + 2)
    else Lost(body, i + 1)
  }

  lemma PartOfContext(s: Statement)
    requires IsLiteralContext(s) && IsText(s.content)
    ensures Parts(Lower(s)) == if s.content.value.text == "" then [] else [s.content.value.text]
  {
    assert Lower(s)[1..] == [];
  }

  ghost predicate IsMergedParts(before: seq<string>, after: seq<string>, lost: nat) {
    |before| == |after| + lost && lost <= |after| && (lost == 0 ==> before == after)
  }

  /** Merging gives up one part for every such pair, keeps one in its place, and otherwise changes none. */
  lemma {:induction false} PartsOfMerged(body: seq<Statement>, i: nat)
    requires i <= |body| && AllText(body)
    ensures IsMergedParts(PartsOf(body[i..]), PartsOf(MergePairs(body, i)), Lost(body, i))
    decreases |body| - i
  {
    if i < |body| {
      if IsPair(body, i) {
        PartsOfMerged(body, i + 2);
        assert body[i] in body && body[i + 1] in body;
        assert body[i..] == [body[i]] + ([body[i + 1]] + body[i + 2..]);
        MergedPair(body[i], body[i + 1], body[i + 2..], MergePairs(body, i + 2), Lost(body, i + 2));
      } else {
        PartsOfMerged(body, i + 1);
        assert body[i..] == [body[i]] + body[i + 1..];
        MergedMore(body[i], body[i + 1..], MergePairs(body, i + 1), Lost(body, i + 1));
      }
    } else {
      assert body[i..] == [];
    }
  }

  lemma MergedMore(s: Statement, rest: seq<Statement>, merged: seq<Statement>, lost: nat)
    requires IsMergedParts(PartsOf(rest), PartsOf(merged), lost)
    ensures IsMergedParts(PartsOf([s] + rest), PartsOf([s] + merged), lost)
  {
    PartsOfMore(s, rest);
    PartsOfMore(s, merged);
  }

  lemma MergedPair(a: Statement, b: Statement, rest: seq<Statement>, merged: seq<Statement>, lost: nat)
    requires IsLiteralContext(a) && IsLiteralContext(b) && IsText(a.content) && IsText(b.content)
    requires IsMergedParts(PartsOf(rest), PartsOf(merged), lost)
    ensures IsMergedParts(
      PartsOf([a] + ([b] + rest)), PartsOf([Merged(a, b)] + merged),
      (if a.content.value.text != "" && b.content.value.text != "" then 1 else 0) + lost)
  {
    PartsOfMore(a, [b] + rest);
    PartsOfMore(b, rest);
    PartsOfMore(Merged(a, b), merged);
    PartsOfPair(a, b);
    Prepended(Parts(Lower(a)), Parts(Lower(b)), Parts(Lower(Merged(a, b))), PartsOf(rest), PartsOf(merged), lost);
  }

  /** In front of merged parts, two parts for one, or the same parts. */
  lemma Prepended(a: seq<string>, b: seq<string>, m: seq<string>, before: seq<string>, after: seq<string>, lost: nat)
    requires IsMergedParts(before, after, lost)
    ensures |a + b| == 2 && |m| == 1 ==> IsMergedParts(a + (b + before), m + after, 1 + lost)
    ensures a + b == m ==> IsMergedParts(a + (b + before), m + after, lost)
  {
    assert a + (b + before) == a + b + before;
  }

  lemma PartsOfPair(a: Statement, b: Statement)
    requires IsLiteralContext(a) && IsLiteralContext(b) && IsText(a.content) && IsText(b.content)
    ensures var apart, merged := Parts(Lower(a)) + Parts(Lower(b)), Parts(Lower(Merged(a, b)));
      if a.content.value.text != "" && b.content.value.text != "" then |apart| == 2 && |merged| == 1
      else apart == merged
  {
    PartOfContext(a);
    PartOfContext(b);
    PartOfContext(Merged(a, b));
    var x, y := a.content.value.text, b.content.value.text;
    assert x == "" ==> x + y == y;
    assert y == "" ==> x + y == x;
  }

  lemma {:induction false} PromptLength(parts: seq<string>)
    ensures |Prompt(parts)| == |Concat(parts)| + if parts == [] then 0 else 2 * (|parts| - 1)
  {
    if |parts| > 1 {
      PromptLength(parts[1..]);
    } else if |parts| == 1 {
      assert parts[1..] == [];
    }
  }

  /** Merging shortens the prompt by the two characters of a separator for every such pair, and
      leaves it unchanged if and only if there is none. */
  lemma MergingDropsSeparators(body: seq<Statement>, env: Environment)
    requires AllText(body)
    ensures |Prompt(PartsOf(body))| == |Prompt(PartsOf(MergePairs(body)))| + 2 * Lost(body)
    ensures Prompt(PartsOf(body)) == Prompt(PartsOf(MergePairs(body))) <==> Lost(body) == 0
  {
    PartsOfMerged(body, 0);
    assert body[0..] == body;
    PromptLength(PartsOf(body));
    PromptLength(PartsOf(MergePairs(body)));
    MergingShows(body, 0);
    GeneratedText(body, env);
    GeneratedText(MergePairs(body), env);
    MergingPreservesText(body, 0, env);
  }

  lemma FoldingKeepsLiteral(s: Statement)
    requires Content(s).Some? ==> IsText(Content(s).value)
    ensures Lower(FoldStatement(s)) == Lower(s) && Content(FoldStatement(s)) == Content(s)
    ensures FoldStatement(s).Context? <==> s.Context?
  {
  }

  lemma {:induction false} FoldingKeepsParts(body: seq<Statement>)
    requires AllText(body)
    ensures AllText(FoldAll(body)) && PartsOf(FoldAll(body)) == PartsOf(body)
  {
    if body != [] {
      assert body == [body[0]] + body[1..];
      FoldingKeepsParts(body[1..]);
      FoldingKeepsLiteral(body[0]);
      PartsOfMore(body[0], body[1..]);
      PartsOfMore(FoldStatement(body[0]), FoldAll(body[1..]));
    }
  }

  lemma {:induction false} FoldAllAt(body: seq<Statement>)
    ensures forall i | 0 <= i < |body| :: FoldAll(body)[i] == FoldStatement(body[i])
  {
    if body != [] {
      FoldAllAt(body[1..]);
    }
  }

  lemma {:induction false} FoldingKeepsLost(body: seq<Statement>, folded: seq<Statement>, i: nat)
    requires AllText(body) && |folded| == |body| && forall k | 0 <= k < |body| :: folded[k] == FoldStatement(body[k])
    ensures Lost(folded, i) == Lost(body, i)
    decreases |body| - i
  {
    if i < |body| {
      FoldingKeepsLiteral(body[i]);
      if i + 1 < |body| {
        FoldingKeepsLiteral(body[i + 1]);
      }
      FoldingKeepsLost(body, folded, if IsPair(body, i) then i + 2 else i + 1);
    }
  }

  /** For string literals, levels 1 and 2 compile to prompts that differ by two characters for every
      pair of non-empty contexts that is merged, hence to the same prompt if and only if there is none. */
  lemma LevelsAgreeIff(body: seq<Statement>, env: Environment)
    requires AllText(Kept(body))
    ensures var level1, level2 := Prompt(PartsOf(Optimized(body, 1))), Prompt(PartsOf(Optimized(body, 2)));
      && |level1| == |level2| + 2 * Lost(Kept(body))
      && (level1 == level2 <==> Lost(Kept(body)) == 0)
  {
    var kept := Kept(body);
    FoldAllAt(kept);
    FoldingKeepsParts(kept);
    FoldingKeepsLost(kept, FoldAll(kept), 0);
    MergingDropsSeparators(FoldAll(kept), env);
  }

  /** For instance, two required contexts that are not empty: level 1 puts a blank line between them,
      level 2 nothing. */
  lemma MergingDropsSeparator(a: Statement, b: Statement)
    requires IsLiteralContext(a) && IsLiteralContext(b) && a.required && b.required
    requires IsText(a.content) && IsText(b.content) && a.content.value.text != "" && b.content.value.text != ""
    ensures Prompt(PartsOf(Optimized([a, b], 1))) == a.content.value.text + "\n\n" + b.content.value.text
    ensures Prompt(PartsOf(Optimized([a, b], 2))) == a.content.value.text + b.content.value.text
  {
    KeptTwo(a, b);
    TwoParts(a, b);
    assert FoldAll([a, b]) == [a, b] by {
      assert [a, b][1..] == [b] && [b][1..] == [] && FoldAll([b]) == [b];
    }
    assert MergePairs([a, b], 2) == [] && MergePairs([a, b]) == [Merged(a, b)];
    PartOfContext(Merged(a, b));
    PartsOfMore(Merged(a, b), []);
    assert [Merged(a, b)] + [] == [Merged(a, b)] && PartsOf([]) == [];
    var x, y := a.content.value.text, b.content.value.text;
    PromptOfOne(y);
    PromptOfMore(x, [y]);
    assert [x] + [y] == [x, y];
    PromptOfOne(x + y);
  }

  lemma TwoParts(a: Statement, b: Statement)
    requires IsLiteralContext(a) && IsLiteralContext(b)
    requires IsText(a.content) && IsText(b.content) && a.content.value.text != "" && b.content.value.text != ""
    ensures PartsOf([a, b]) == [a.content.value.text, b.content.value.text]
  {
    PartOfContext(a);
    PartOfContext(b);
    PartsOfMore(b, []);
    PartsOfMore(a, [b]);
    assert [b] + [] == [b] && [a] + [b] == [a, b] && PartsOf([]) == [];
  }

  lemma KeptTwo(a: Statement, b: Statement)
    requires IsKept(a) && IsKept(b)
    ensures Kept([a, b]) == [a, b]
  {
    assert [a, b][1..] == [b] && [b][1..] == [];
    assert Kept([]) == [] && Kept([b]) == [b] + [] == [b];
    assert Kept([a, b]) == [a] + [b];
  }
}
