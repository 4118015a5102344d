/** The aggressive pass of the prompt compiler: pruning contexts, then truncating long texts. */
module PromptPruning {
  import opened Wrappers
  import opened Sequences
  import opened PromptAst
  import opened PromptPasses

  // -------------------------------------------------------------------- ordering

  function Importance(s: Statement): real {
    if s.metadata.importance.Some? then s.metadata.importance.value else 0.0
  }

  /** Less important first; equally important, fewer tokens first. */
  predicate Precedes(a: Statement, b: Statement) {
    Importance(a) < Importance(b) || (Importance(a) == Importance(b) && a.metadata.Tokens() <= b.metadata.Tokens())
  }

  // --------------------------------------------------------------------- pruning

  function Contexts(body: seq<Statement>): seq<Statement> {
    if body == [] then [] else (if body[0].Context? then [body[0]] else []) + Contexts(body[1..])
  }

  /** The order in which contexts are removed. */
  function PruningOrder(body: seq<Statement>): seq<Statement> {
    Sorted(Contexts(body), Precedes)
  }

  lemma PrecedesIsTotal()
    ensures IsTotalOrder(Precedes)
  {
  }

  /** All contexts, in order, and those of equal importance and tokens as they stand in the body. */
  lemma PruningOrderIsSorted(body: seq<Statement>, c: Statement)
    ensures IsInOrder(PruningOrder(body), Precedes) && multiset(PruningOrder(body)) == multiset(Contexts(body))
    ensures Alike(PruningOrder(body), c, Precedes) == Alike(Contexts(body), c, Precedes)
  {
    PrecedesIsTotal();
    SortedIsSorted(Contexts(body), Precedes);
    SortedIsStable(Contexts(body), c, Precedes);
  }

  function TokenCounts(ss: seq<Statement>): (counts: seq<nat>)
    ensures |counts| == |ss|
  {
    if ss == [] then [] else TokenCounts(ss[..|ss| - 1]) + [ss[|ss| - 1].metadata.Tokens()]
  }

  function WithoutId(body: seq<Statement>, id: string): seq<Statement> {
    if body == [] then []
    else if body[0].id == id then WithoutId(body[1..], id)
    else [body[0]] + WithoutId(body[1..], id)
  }

  /** The statements that are not among `gone`, in their order. */
  function Survivors(body: seq<Statement>, gone: seq<Statement>): seq<Statement> {
    if body == [] then []
    else if body[0] in gone then Survivors(body[1..], gone)
    else [body[0]] + Survivors(body[1..], gone)
  }

  ghost predicate UniqueIds(body: seq<Statement>) {
    forall i, j | 0 <= i < |body| && 0 <= j < |body| && body[i].id == body[j].id :: i == j
  }

  /** `k` is where pruning in the given order stops: as soon as the target is met, or at the end. */
  ghost predicate StopsAt(order: seq<Statement>, total: int, target: int, k: nat) {
    && k <= |order|
    && (forall j | 0 <= j < k :: IsAbove(order, total, target, j))
    && (k == |order| || !IsAbove(order, total, target, k))
  }

  /** After removing the first `k` the total still exceeds the target. */
  ghost predicate IsAbove(order: seq<Statement>, total: int, target: int, k: nat)
    requires k <= |order|
  {
    total - Tokens(order[..k]) > target
  }

  lemma {:induction false} ContextsAreContexts(body: seq<Statement>)
    ensures forall s | s in Contexts(body) :: s.Context? && s in body
  {
    if body != [] {
      ContextsAreContexts(body[1..]);
      assert body == [body[0]] + body[1..];
    }
  }

  lemma {:induction false} SurvivorsElements(body: seq<Statement>, gone: seq<Statement>)
    ensures forall s :: s in Survivors(body, gone) <==> s in body && s !in gone
  {
    if body != [] {
      SurvivorsElements(body[1..], gone);
      assert body == [body[0]] + body[1..];
    }
  }

  /** In the body the id belongs to this statement alone. */
  ghost predicate Names(body: seq<Statement>, s: Statement) {
    forall x | x in body :: x.id == s.id <==> x == s
  }

  lemma UniqueIdNames(body: seq<Statement>, s: Statement)
    requires UniqueIds(body) && s in body
    ensures Names(body, s)
  {
    var j :| 0 <= j < |body| && body[j] == s;
    forall x | x in body && x.id == s.id ensures x == s {
      var i :| 0 <= i < |body| && body[i] == x;
    }
  }

  /** Removing by id removes one statement when ids are unique. */
  lemma {:induction false} WithoutIdIsSurvivors(body: seq<Statement>, gone: seq<Statement>, s: Statement)
    requires Names(body, s)
    ensures WithoutId(Survivors(body, gone), s.id) == Survivors(body, gone + [s])
  {
    if body != [] {
      var head := body[0];
      assert head in body && forall x | x in body[1..] :: x in body;
      WithoutIdIsSurvivors(body[1..], gone, s);
      assert head in gone + [s] <==> head in gone || head == s;
      if head !in gone {
        assert Survivors(body, gone) == [head] + Survivors(body[1..], gone);
        assert Survivors(body, gone)[1..] == Survivors(body[1..], gone);
      }
    }
  }

  lemma TokensNext(order: seq<Statement>, i: nat)
    requires i < |order|
    ensures Tokens(order[..i + 1]) == Tokens(order[..i]) + order[i].metadata.Tokens()
    ensures TokenCounts(order[..i + 1]) == TokenCounts(order[..i]) + [order[i].metadata.Tokens()]
  {
    assert order[..i + 1][..i] == order[..i];
    assert order[..i + 1] == order[..i] + [order[i]];
    TokensConcat(order[..i], [order[i]]);
    assert [order[i]][1..] == [];
  }

  lemma {:induction false} SurvivorsOfNothing(body: seq<Statement>)
    ensures Survivors(body, []) == body
  {
    if body != [] {
      SurvivorsOfNothing(body[1..]);
    }
  }

  /** Removing the ids of all of `gone`, one after the other. */
  function WithoutAll(body: seq<Statement>, gone: seq<Statement>): seq<Statement> {
    if gone == [] then body else WithoutId(WithoutAll(body, gone[..|gone| - 1]), gone[|gone| - 1].id)
  }

  /** With unique ids that removes these statements and no others, and keeps the order. */
  lemma {:induction false} WithoutAllIsSurvivors(body: seq<Statement>, gone: seq<Statement>)
    requires UniqueIds(body) && forall s | s in gone :: s in body
    ensures WithoutAll(body, gone) == Survivors(body, gone)
  {
    if gone == [] {
      SurvivorsOfNothing(body);
    } else {
      var init, last := gone[..|gone| - 1], gone[|gone| - 1];
      WithoutAllIsSurvivors(body, init);
      UniqueIdNames(body, last);
      WithoutIdIsSurvivors(body, init, last);
      assert gone == init + [last];
    }
  }

  lemma OrderOfContexts(body: seq<Statement>)
    ensures forall s | s in PruningOrder(body) :: s.Context? && s in body
  {
    SortedPermutes(Contexts(body), Precedes);
    ContextsAreContexts(body);
    forall s | s in PruningOrder(body) ensures s.Context? && s in body {
      assert s in multiset(PruningOrder(body));
    }
  }

  /** On the metadata: `a` is less important than `b`, a missing importance being 0, or equally important
      and no longer, a missing token count being 0. */
  ghost predicate MayGoFirst(a: Metadata, b: Metadata) {
    var i := match a.importance case None => 0.0 case Some(x) => x;
    var j := match b.importance case None => 0.0 case Some(x) => x;
    var m := match a.tokens case None => 0 case Some(n) => n;
    var n := match b.tokens case None => 0 case Some(n) => n;
    i < j || (i == j && m <= n)
  }

  lemma OrderIsByMetadata(body: seq<Statement>)
    ensures forall i, j | 0 <= i < j < |PruningOrder(body)| ::
      MayGoFirst(PruningOrder(body)[i].metadata, PruningOrder(body)[j].metadata)
  {
    PrecedesIsTotal();
    SortedIsSorted(Contexts(body), Precedes);
  }

  /** With unique ids, every statement that pruning removes may go before every context that it leaves. */
  ghost predicate RemovesLeastFirst(body: seq<Statement>, trimmedBody: seq<Statement>) {
    forall r, x | r in body && r !in trimmedBody && x in trimmedBody && x.Context? ::
      r.Context? && MayGoFirst(r.metadata, x.metadata)
  }

  lemma {:induction false} ContextsAreAll(body: seq<Statement>)
    ensures forall s :: s in Contexts(body) <==> s in body && s.Context?
  {
    if body != [] {
      ContextsAreAll(body[1..]);
      assert body == [body[0]] + body[1..];
    }
  }

  lemma PrefixGoesFirst(body: seq<Statement>, k: nat)
    requires UniqueIds(body) && k <= |PruningOrder(body)|
    ensures RemovesLeastFirst(body, WithoutAll(body, PruningOrder(body)[..k]))
  {
    var order := PruningOrder(body);
    PruningRemovesOnlyContexts(body, k);
    OrderIsByMetadata(body);
    SurvivorsElements(body, order[..k]);
    ContextsAreAll(body);
    SortedPermutes(Contexts(body), Precedes);
    assert forall i | 0 <= i < k :: order[i] in order[..k];
    forall r, x | r in order[..k] && x in body && x !in order[..k] && x.Context?
      ensures MayGoFirst(r.metadata, x.metadata)
    {
      assert x in multiset(order);
      var i :| 0 <= i < k && order[i] == r;
      var j :| 0 <= j < |order| && order[j] == x;
    }
  }

  /** Removes the ids of exactly the shortest prefix of the order that reaches the target, or of
      every context; the running total falls by what is reported as saved. */
  method PruneContexts(body: seq<Statement>, totalTokens: int, targetTokens: int)
    returns (trimmedBody: seq<Statement>, currentTokens: int, saved: seq<nat>)
    ensures var order := PruningOrder(body);
      && StopsAt(order, totalTokens, targetTokens, |saved|)
      && trimmedBody == WithoutAll(body, order[..|saved|])
      && currentTokens == totalTokens - Tokens(order[..|saved|])
      && saved == TokenCounts(order[..|saved|])
    ensures UniqueIds(body) ==> RemovesLeastFirst(body, trimmedBody)
  {
    trimmedBody, currentTokens, saved := PruneInOrder(body, PruningOrder(body), totalTokens, targetTokens);
    if UniqueIds(body) {
      PrefixGoesFirst(body, |saved|);
    }
  }

  method PruneInOrder(body: seq<Statement>, order: seq<Statement>, totalTokens: int, targetTokens: int)
    returns (trimmedBody: seq<Statement>, currentTokens: int, saved: seq<nat>)
    ensures StopsAt(order, totalTokens, targetTokens, |saved|)
    ensures trimmedBody == WithoutAll(body, order[..|saved|])
    ensures currentTokens == totalTokens - Tokens(order[..|saved|])
    ensures saved == TokenCounts(order[..|saved|])
  {
    trimmedBody, currentTokens, saved := body, totalTokens, [];
    var i := 0;
    while i < |order| && currentTokens > targetTokens
      invariant i <= |order|
      invariant forall j | 0 <= j < i :: IsAbove(order, totalTokens, targetTokens, j)
      invariant saved == TokenCounts(order[..i])
      invariant trimmedBody == WithoutAll(body, order[..i])
      invariant currentTokens == totalTokens - Tokens(order[..i])
    {
      var node := order[i];
      assert IsAbove(order, totalTokens, targetTokens, i);
      assert order[..i + 1][..i] == order[..i];
      TokensNext(order, i);
      trimmedBody := WithoutId(trimmedBody, node.id);
      currentTokens := currentTokens - node.metadata.Tokens();
      saved := saved + [node.metadata.Tokens()];
      i := i + 1;
    }
  }

  /** With unique ids, what pruning removed is that prefix itself: contexts only, the others in their order. */
  lemma PruningRemovesOnlyContexts(body: seq<Statement>, k: nat)
    requires UniqueIds(body) && k <= |PruningOrder(body)|
    ensures var gone := PruningOrder(body)[..k];
      && WithoutAll(body, gone) == Survivors(body, gone)
      && (forall s | s in body :: s !in Survivors(body, gone) <==> s in gone)
      && (forall s | s in gone :: s.Context? && s in body)
  {
    var gone := PruningOrder(body)[..k];
    OrderOfContexts(body);
    assert forall s | s in gone :: s in PruningOrder(body);
    WithoutAllIsSurvivors(body, gone);
    SurvivorsElements(body, gone);
  }

  /** Of two contexts without importance, of 5 and 50 tokens, the smaller goes when that is enough, in
      whichever order they stand. */
  lemma SmallerContextGoes(small: Statement, large: Statement)
    requires small.Context? && large.Context? && small.id != large.id
    requires small.metadata.importance == large.metadata.importance == None
    requires small.metadata.tokens == Some(5) && large.metadata.tokens == Some(50)
    ensures PruningOrder([small, large]) == PruningOrder([large, small]) == [small, large]
    ensures StopsAt([small, large], 103, 100, 1)
    ensures WithoutAll([small, large], [small]) == WithoutAll([large, small], [small]) == [large]
  {
    OrderOfTwo(small, large);
    OrderOfTwo(large, small);
    OneIsEnough(small, large);
    WithoutFirst(small, large, small);
    WithoutFirst(large, small, small);
  }

  lemma OneIsEnough(small: Statement, large: Statement)
    requires small.metadata.tokens == Some(5)
    ensures StopsAt([small, large], 103, 100, 1)
  {
    var order := [small, large];
    assert order[..0] == [] && order[..1] == [small] && [small][1..] == [];
    assert Tokens([small]) == 5 + Tokens([]) == 5;
    assert IsAbove(order, 103, 100, 0) && !IsAbove(order, 103, 100, 1);
  }

  lemma WithoutFirst(a: Statement, b: Statement, gone: Statement)
    requires a.id != b.id && (gone == a || gone == b)
    ensures WithoutAll([a, b], [gone]) == [if gone == a then b else a]
  {
    assert [gone][..0] == [] && WithoutAll([a, b], []) == [a, b];
    assert [a, b][1..] == [b] && [b][1..] == [];
    assert WithoutId([b], gone.id) == if gone == b then [] else [b];
  }

  lemma OrderOfTwo(a: Statement, b: Statement)
    requires a.Context? && b.Context?
    ensures PruningOrder([a, b]) == if Precedes(a, b) then [a, b] else [b, a]
  {
    assert [a, b][1..] == [b] && [b][1..] == [];
    assert Contexts([b]) == [b] && Contexts([a, b]) == [a, b];
    assert [a, b][..1] == [a] && [a][..0] == [] && Sorted([a], Precedes) == [a];
    assert Insert(b, [], Precedes) == [b];
  }

  /** Where the order stops is determined: pruning removes no context more and none less. */
  lemma StopIsUnique(order: seq<Statement>, total: int, target: int, j: nat, k: nat)
    requires StopsAt(order, total, target, j) && StopsAt(order, total, target, k)
    ensures j == k
  {
  }

  function SumOf(saved: seq<nat>): nat {
    if saved == [] then 0 else SumOf(saved[..|saved| - 1]) + saved[|saved| - 1]
  }

  /** The reported savings add up to the fall of the running total. */
  lemma {:induction false} SavingsAddUp(removed: seq<Statement>)
    ensures SumOf(TokenCounts(removed)) == Tokens(removed)
  {
    if removed != [] {
      var n := |removed| - 1;
      SavingsAddUp(removed[..n]);
      TokensNext(removed, n);
      assert removed[..n + 1] == removed;
    }
  }

  // ------------------------------------------------------------------ truncation

  const TRUNCATION_MARK := " [...] (aggressively truncated)"

  /** The string that truncation works on, if the statement has a literal one that is not empty. */
  function TextOf(s: Statement): Option<string> {
    var text := if s.Context? then LiteralText(s.content) else if s.Instruction? then LiteralText(s.subject) else None;
    if text == Some("") then None else text
  }

  predicate Truncatable(s: Statement) {
    s.Context? || s.Instruction?
  }

  function WithText(s: Statement, text: string, tokens: nat): Statement
    requires TextOf(s).Some?
  {
    var metadata := s.metadata.(tokens := Some(tokens));
    if s.Context? then s.(content := s.content.(value := Text(text)), metadata := metadata)
    else s.(subject := s.subject.(value := Text(text)), metadata := metadata)
  }

  function Max(a: int, b: int): int {
    if a < b then b else a
  }

  /** The beginning of the text, at least 16 characters of it, followed by the mark. */
  function TruncatedText(text: string, spare: int, count: nat): string
    requires count > 0
  {
    var maxLen := Max(16, spare * 4 / count);
    (if maxLen < |text| then text[..maxLen] else text) + TRUNCATION_MARK
  }

  /** What the loop has built, and what it has counted and cut. */
  datatype Truncation = Truncation(body: seq<Statement>, total: int, cut: seq<Statement>)

  /** One statement: a context or instruction without literal text is left out, a long one that does
      not fit is cut and not counted, everything else is kept and counted. */
  function TruncateNext(t: Truncation, s: Statement, target: int, count: nat, estimate: string -> nat): Truncation
    requires count > 0
  {
    if !Truncatable(s) then Truncation(t.body + [s], t.total + s.metadata.Tokens(), t.cut)
    else if TextOf(s).None? then t
    else
      var tokens := TokensOf(s, estimate);
      if tokens > 80 && t.total + tokens > target then
        var text := TruncatedText(TextOf(s).value, target - t.total, count);
        var shorter := WithText(s, text, estimate(text));
        Truncation(t.body + [shorter], t.total, t.cut + [shorter])
      else Truncation(t.body + [s], t.total + tokens, t.cut)
  }

  function TruncateFrom(body: seq<Statement>, k: nat, target: int, count: nat, estimate: string -> nat): Truncation
    requires k <= |body| && count > 0
  {
    if k == 0 then Truncation([], 0, [])
    else TruncateNext(TruncateFrom(body, k - 1, target, count, estimate), body[k - 1], target, count, estimate)
  }

  function Truncated(body: seq<Statement>, target: int, estimate: string -> nat): Truncation {
    TruncateFrom(body, |body|, target, if body == [] then 1 else |body|, estimate)
  }

  /** What truncation returns: the rebuilt body only if something was cut. */
  function TruncatedBody(body: seq<Statement>, target: int, estimate: string -> nat): seq<Statement> {
    var t := Truncated(body, target, estimate);
    if t.cut == [] then body else t.body
  }

  /** The second step of the pass; when nothing was cut the rebuilt body is thrown away. */
  method TruncateTexts(body: seq<Statement>, totalTokens: int, targetTokens: int, estimate: string -> nat)
    returns (newBody: seq<Statement>, newTotal: int)
    ensures newBody == TruncatedBody(body, targetTokens, estimate)
    ensures var t := Truncated(body, targetTokens, estimate); newTotal == if t.cut == [] then totalTokens else t.total
  {
    var compressedBody, newTokenTotal, transformed := [], 0, false;
    ghost var t := Truncation([], 0, []);
    for i := 0 to |body|
      invariant t == TruncateFrom(body, i, targetTokens, if body == [] then 1 else |body|, estimate)
      invariant compressedBody == t.body && newTokenTotal == t.total && (transformed <==> t.cut != [])
    {
      var node := body[i];
      t := TruncateNext(t, node, targetTokens, |body|, estimate);
      if !Truncatable(node) {
        compressedBody := compressedBody + [node];
        newTokenTotal := newTokenTotal + node.metadata.Tokens();
      } else if TextOf(node).Some? {
        var originalTokens := TokensOf(node, estimate);
        if originalTokens > 80 && newTokenTotal + originalTokens > targetTokens {
          var newValue := TruncatedText(TextOf(node).value, targetTokens - newTokenTotal, |body|);
          compressedBody := compressedBody + [WithText(node, newValue, estimate(newValue))];
          transformed := true;
        } else {
          compressedBody := compressedBody + [node];
          newTokenTotal := newTokenTotal + originalTokens;
        }
      }
    }
    newBody := if transformed then compressedBody else body;
    newTotal := if transformed then newTokenTotal else totalTokens;
  }

  lemma {:induction false} RetainedConcat(a: seq<Statement>, b: seq<Statement>, estimate: string -> nat)
    ensures RetainedTokens(a + b, estimate) == RetainedTokens(a, estimate) + RetainedTokens(b, estimate)
  {
    if a == [] {
      assert a + b == b;
    } else {
      RetainedConcat(a[1..], b, estimate);
      assert (a + b)[1..] == a[1..] + b;
    }
  }

  lemma RetainedSnoc(a: seq<Statement>, s: Statement, estimate: string -> nat)
    ensures RetainedTokens(a + [s], estimate) == RetainedTokens(a, estimate) + TokensOf(s, estimate)
  {
    RetainedConcat(a, [s], estimate);
    assert [s][1..] == [];
  }

  lemma NextTotal(t: Truncation, s: Statement, target: int, count: nat, estimate: string -> nat)
    requires count > 0
    ensures var t' := TruncateNext(t, s, target, count, estimate);
      RetainedTokens(t'.body, estimate) - t'.total - RetainedTokens(t'.cut, estimate)
        == RetainedTokens(t.body, estimate) - t.total - RetainedTokens(t.cut, estimate)
  {
    var t' := TruncateNext(t, s, target, count, estimate);
    if t'.cut != t.cut {
      RetainedSnoc(t.body, t'.cut[|t.cut|], estimate);
      RetainedSnoc(t.cut, t'.cut[|t.cut|], estimate);
    } else {
      RetainedSnoc(t.body, s, estimate);
    }
  }

  /** The total that is reported leaves out exactly the statements that were cut. */
  lemma {:induction false} ReportedTotalLeavesOutTheCut(
      body: seq<Statement>, k: nat, target: int, count: nat, estimate: string -> nat)
    requires k <= |body| && count > 0
    ensures var t := TruncateFrom(body, k, target, count, estimate);
      RetainedTokens(t.body, estimate) == t.total + RetainedTokens(t.cut, estimate)
  {
    if k > 0 {
      ReportedTotalLeavesOutTheCut(body, k - 1, target, count, estimate);
      NextTotal(TruncateFrom(body, k - 1, target, count, estimate), body[k - 1], target, count, estimate);
    }
  }

  /** A cut statement keeps its id and kind; its text is a prefix of the original followed by the mark. */
  ghost predicate IsCutOf(shorter: Statement, s: Statement) {
    && TextOf(s).Some? && shorter.id == s.id && (shorter.Context? <==> s.Context?)
    && exists n | 0 <= n <= |TextOf(s).value| ::
      shorter == WithText(s, TextOf(s).value[..n] + TRUNCATION_MARK, shorter.metadata.Tokens())
  }

  /** The statements that truncation keeps in some form. */
  function Remaining(body: seq<Statement>): seq<Statement> {
    if body == [] then []
    else
      var rest, last := Remaining(body[..|body| - 1]), body[|body| - 1];
      if Truncatable(last) && TextOf(last).None? then rest else rest + [last]
  }

  lemma {:induction false} RemainingNext(body: seq<Statement>, k: nat)
    requires k < |body|
    ensures Remaining(body[..k + 1]) == Remaining(body[..k]) +
      if Truncatable(body[k]) && TextOf(body[k]).None? then [] else [body[k]]
  {
    assert body[..k + 1][..k] == body[..k];
  }

  /** Statement by statement as it was, or cut. */
  ghost predicate IsCutFrom(shorter: seq<Statement>, body: seq<Statement>) {
    |shorter| == |body| && forall i | 0 <= i < |body| :: shorter[i] == body[i] || IsCutOf(shorter[i], body[i])
  }

  lemma TruncateNextKeepsOrder(t: Truncation, s: Statement, target: int, count: nat, estimate: string -> nat,
                               remaining: seq<Statement>)
    requires count > 0 && IsCutFrom(t.body, remaining)
    ensures IsCutFrom(
      TruncateNext(t, s, target, count, estimate).body,
      remaining + if Truncatable(s) && TextOf(s).None? then [] else [s])
  {
    assert remaining + [] == remaining;
    if Truncatable(s) && TextOf(s).Some? {
      var text := TextOf(s).value;
      var maxLen := Max(16, (target - t.total) * 4 / count);
      var n := if maxLen < |text| then maxLen else |text|;
      assert text[..n] + TRUNCATION_MARK == TruncatedText(text, target - t.total, count);
    }
  }

  /** The result holds, in order, every statement except contexts and instructions without literal
      text, each as it was or cut. */
  lemma {:induction false} TruncationKeepsOrder(
      body: seq<Statement>, k: nat, target: int, count: nat, estimate: string -> nat)
    requires k <= |body| && count > 0
    ensures IsCutFrom(TruncateFrom(body, k, target, count, estimate).body, Remaining(body[..k]))
  {
    if k > 0 {
      TruncationKeepsOrder(body, k - 1, target, count, estimate);
      RemainingNext(body, k - 1);
      TruncateNextKeepsOrder(
        TruncateFrom(body, k - 1, target, count, estimate), body[k - 1], target, count, estimate,
        Remaining(body[..k - 1]));
    }
  }

  // -------------------------------------------------------------- the whole pass

  /** The body and total after pruning the first `k` of the order and, if that was not enough, truncating. */
  ghost predicate IsAggressive(body: seq<Statement>, total: int, target: int, estimate: string -> nat, k: nat,
                               newBody: seq<Statement>, newTotal: int)
  {
    var order := PruningOrder(body);
    && StopsAt(order, total, target, k)
    && var pruned, left := WithoutAll(body, order[..k]), total - Tokens(order[..k]);
      var t := Truncated(pruned, target, estimate);
      if left <= target || t.cut == [] then newBody == pruned && newTotal == left
      else newBody == t.body && newTotal == t.total
  }

  method AggressiveOptimization(body: seq<Statement>, totalTokens: int, targetTokens: int, estimate: string -> nat)
    returns (newBody: seq<Statement>, newTotal: int, saved: seq<nat>, warned: bool)
    ensures IsAggressive(body, totalTokens, targetTokens, estimate, |saved|, newBody, newTotal)
    ensures SumOf(saved) == Tokens(PruningOrder(body)[..|saved|])
    ensures UniqueIds(body) ==> RemovesLeastFirst(body, WithoutAll(body, PruningOrder(body)[..|saved|]))
    ensures warned <==> newTotal > targetTokens
  {
    newBody, newTotal, saved := body, totalTokens, [];
    if newTotal > targetTokens {
      newBody, newTotal, saved := PruneContexts(body, totalTokens, targetTokens);
    } else {
      assert !IsAbove(PruningOrder(body), totalTokens, targetTokens, 0);
    }
    SavingsAddUp(PruningOrder(body)[..|saved|]);
    if UniqueIds(body) {
      PrefixGoesFirst(body, |saved|);
    }
    if newTotal > targetTokens {
      var truncated, total := TruncateTexts(newBody, newTotal, targetTokens, estimate);
      newBody, newTotal := truncated, total;
    }
    warned := newTotal > targetTokens;
  }
}
