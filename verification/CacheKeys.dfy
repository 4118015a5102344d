/** Cache keys and what they distinguish. */
module CacheKeys {
  import opened Wrappers
  import opened Sequences

  /** Whom a response is cached for; a missing or empty component stands for its default. */
  datatype Identity = Identity(userId: Option<string>, model: Option<string>, provider: Option<string>)
  {
    function User(): string { OrElse(userId, "anonymous") }
    function Model(): string { OrElse(model, "unknown") }
    function Provider(): string { OrElse(provider, "unknown") }
  }

  function OrElse(o: Option<string>, default: string): string {
    if o.None? || o.value == "" then default else o.value
  }

  /** `hash` stands for the truncated digest of the content. */
  function GenerateCacheKey(content: string, who: Identity, hash: string -> string): string {
    Join(["cache:", who.Provider(), who.Model(), who.User(), hash(content)], ":")
  }

  function DedupKey(prompt: string, md5: string -> string): string {
    "dedup:" + md5(prompt)
  }

  function SemanticKey(exactKey: string): string {
    "semantic:" + exactKey
  }

  predicate ColonFree(s: string) {
    ':' !in s
  }

  /** Provider, model and user as they appear in a key. */
  function Joined(p: string, m: string, u: string): string {
    p + ":" + m + ":" + u
  }

  function Owner(who: Identity): string {
    Joined(who.Provider(), who.Model(), who.User())
  }

  /** A colon that can be read as a separator: not at the outer ends, and not the whole model. */
  predicate Splits(p: string, m: string, u: string)
    requires p != "" && u != ""
  {
    ':' in p[1..] || (':' in m && |m| > 1) || ':' in u[..|u| - 1]
  }

  predicate IsConfusable(who: Identity) {
    Splits(who.Provider(), who.Model(), who.User())
  }

  lemma KeyText(content: string, who: Identity, hash: string -> string)
    ensures GenerateCacheKey(content, who, hash) == "cache:" + ":" + Owner(who) + ":" + hash(content)
  {
    var p, m, u, h := who.Provider(), who.Model(), who.User(), hash(content);
    JoinMore(u, [h]);
    JoinMore(m, [u, h]);
    JoinMore(p, [m, u, h]);
    JoinMore("cache:", [p, m, u, h]);
    assert ["cache:"] + [p, m, u, h] == ["cache:", p, m, u, h];
    assert [p] + [m, u, h] == [p, m, u, h] && [m] + [u, h] == [m, u, h] && [u] + [h] == [u, h];
    assert p + ":" + (m + ":" + (u + ":" + h)) == Joined(p, m, u) + ":" + h;
  }

  lemma JoinMore(x: string, rest: seq<string>)
    requires rest != []
    ensures Join([x] + rest, ":") == x + ":" + Join(rest, ":")
  {
    assert ([x] + rest)[1..] == rest;
  }

  lemma LastColonSplits(x: string, h: string, y: string, k: string)
    requires ColonFree(h) && ColonFree(k) && x + ":" + h == y + ":" + k
    ensures x == y && h == k
  {
    var s, t := x + ":" + h, y + ":" + k;
    assert s[|x|] == ':' && t[|y|] == ':';
    assert forall i | |x| < i < |s| :: s[i] == h[i - |x| - 1];
    assert forall i | |y| < i < |t| :: t[i] == k[i - |y| - 1];
    assert |x| == |y|;
    assert x == s[..|x|] && y == t[..|y|] && h == s[|x| + 1..] && k == t[|y| + 1..];
  }

  /** Keys with colon-free digests agree exactly for the same digest and the same joined components. */
  lemma KeysAgreeByText(p: string, v: Identity, q: string, w: Identity, hash: string -> string)
    requires ColonFree(hash(p)) && ColonFree(hash(q))
    ensures GenerateCacheKey(p, v, hash) == GenerateCacheKey(q, w, hash)
      <==> hash(p) == hash(q) && Owner(v) == Owner(w)
  {
    KeyText(p, v, hash);
    KeyText(q, w, hash);
    var prefix := "cache:" + ":";
    if GenerateCacheKey(p, v, hash) == GenerateCacheKey(q, w, hash) {
      LastColonSplits(prefix + Owner(v), hash(p), prefix + Owner(w), hash(q));
      assert Owner(v) == (prefix + Owner(v))[|prefix|..] && Owner(w) == (prefix + Owner(w))[|prefix|..];
    }
  }

  // -------------------------------------------------- which identities share keys

  /** Without a colon that splits, the only colons that can separate are the two that do. */
  lemma OnlySeparators(p: string, m: string, u: string, i: nat)
    requires p != "" && m != "" && u != "" && !Splits(p, m, u)
    requires var k := Joined(p, m, u); 1 <= i < |k| - 1 && k[i] == ':'
    ensures i == |p| || i == |p| + 1 + |m| || (m == ":" && i == |p| + 1)
  {
    var k := Joined(p, m, u);
    assert forall j | 1 <= j < |p| :: k[j] == p[1..][j - 1];
    assert forall j | |p| < j < |p| + 1 + |m| :: k[j] == m[j - |p| - 1];
    assert forall j | |p| + 1 + |m| < j < |k| - 1 :: k[j] == u[..|u| - 1][j - |p| - |m| - 2];
  }

  lemma OneReading(p: string, m: string, u: string, p2: string, m2: string, u2: string)
    requires p != "" && m != "" && u != "" && p2 != "" && m2 != "" && u2 != ""
    requires !Splits(p, m, u) && Joined(p, m, u) == Joined(p2, m2, u2)
    ensures p2 == p && m2 == m && u2 == u
  {
    var k, i, j := Joined(p, m, u), |p2|, |p2| + 1 + |m2|;
    var k2 := Joined(p2, m2, u2);
    assert k2[i] == ':' && k2[j] == ':' && |k2| == j + 1 + |u2|;
    OnlySeparators(p, m, u, i);
    OnlySeparators(p, m, u, j);
    assert i == |p| && j == |p| + 1 + |m|;
    assert p == k[..i] && m == k[i + 1..j] && u == k[j + 1..];
    assert p2 == k2[..i] && m2 == k2[i + 1..j] && u2 == k2[j + 1..];
  }

  /** A colon that splits gives another reading of the same text. */
  lemma OtherReading(p: string, m: string, u: string) returns (p2: string, m2: string, u2: string)
    requires p != "" && m != "" && u != "" && Splits(p, m, u)
    ensures p2 != "" && m2 != "" && u2 != "" && Joined(p2, m2, u2) == Joined(p, m, u) && (p2 != p || u2 != u)
  {
    if ':' in p[1..] {
      var a :| 0 <= a < |p[1..]| && p[1..][a] == ':';
      p2, m2, u2 := p[..a + 1], p[a + 2..] + ":" + m, u;
      assert p == p2 + ":" + p[a + 2..];
    } else if ':' in m && |m| > 1 {
      var b :| 0 <= b < |m| && m[b] == ':';
      if b == 0 {
        p2, m2, u2 := p + ":", m[1..], u;
        assert m == ":" + m[1..];
      } else {
        p2, m2, u2 := p, m[..b], m[b + 1..] + ":" + u;
        assert m == m[..b] + ":" + m[b + 1..];
      }
    } else {
      var c :| 0 <= c < |u| - 1 && u[..|u| - 1][c] == ':';
      p2, m2, u2 := p, m + ":" + u[..c], u[c + 1..];
      assert u == u[..c] + ":" + u2;
    }
  }

  ghost predicate SameIdentity(v: Identity, w: Identity) {
    v.Provider() == w.Provider() && v.Model() == w.Model() && v.User() == w.User()
  }

  /** An identity shares its keys with another one if and only if a colon splits it. */
  lemma SharesKeysIff(prompt: string, v: Identity, hash: string -> string)
    ensures (exists w :: !SameIdentity(v, w) && GenerateCacheKey(prompt, w, hash) == GenerateCacheKey(prompt, v, hash))
      <==> IsConfusable(v)
  {
    KeyText(prompt, v, hash);
    if IsConfusable(v) {
      var p, m, u := OtherReading(v.Provider(), v.Model(), v.User());
      var w := Identity(Some(u), Some(m), Some(p));
      KeyText(prompt, w, hash);
      assert !SameIdentity(v, w) && GenerateCacheKey(prompt, w, hash) == GenerateCacheKey(prompt, v, hash);
    } else {
      forall w | GenerateCacheKey(prompt, w, hash) == GenerateCacheKey(prompt, v, hash) ensures SameIdentity(v, w) {
        KeyText(prompt, w, hash);
        SameMiddle("cache:" + ":", Owner(v), Owner(w), ":", hash(prompt));
        SameOwner(v, w);
      }
    }
  }

  lemma SameMiddle(a: string, x: string, y: string, b: string, c: string)
    requires a + x + b + c == a + y + b + c
    ensures x == y
  {
    var s, t := a + x + b + c, a + y + b + c;
    assert x == s[|a|..|a| + |x|] && y == t[|a|..|a| + |y|];
  }

  lemma SameOwner(v: Identity, w: Identity)
    requires !IsConfusable(v) && Owner(v) == Owner(w)
    ensures SameIdentity(v, w)
  {
    OneReading(v.Provider(), v.Model(), v.User(), w.Provider(), w.Model(), w.User());
  }

  /** Keys of an identity that no colon splits agree with others, whatever colons those have,
      exactly for the same digest, provider, model and user. */
  lemma KeysAgreeIff(p: string, v: Identity, q: string, w: Identity, hash: string -> string)
    requires ColonFree(hash(p)) && ColonFree(hash(q)) && !IsConfusable(v)
    ensures GenerateCacheKey(p, v, hash) == GenerateCacheKey(q, w, hash)
      <==> hash(p) == hash(q) && SameIdentity(v, w)
  {
    KeysAgreeByText(p, v, q, w, hash);
    if Owner(v) == Owner(w) {
      SameOwner(v, w);
    }
  }

  /** For instance, moving a colon from provider to model keeps the key. */
  lemma ColonsConfuse(prompt: string, hash: string -> string)
    ensures var v := Identity(None, Some("c"), Some("a:b")); var w := Identity(None, Some("b:c"), Some("a"));
      !SameIdentity(v, w) && GenerateCacheKey(prompt, v, hash) == GenerateCacheKey(prompt, w, hash)
  {
    var v, w := Identity(None, Some("c"), Some("a:b")), Identity(None, Some("b:c"), Some("a"));
    KeyText(prompt, v, hash);
    KeyText(prompt, w, hash);
    assert Owner(v) == "a:b:c:anonymous" == Owner(w);
  }

  /** What stands for a missing component, and for an empty one. */
  lemma DefaultsInKeys(prompt: string, who: Identity, hash: string -> string)
    requires who.userId == None || who.userId == Some("")
    requires who.model == None || who.model == Some("")
    requires who.provider == None || who.provider == Some("")
    ensures GenerateCacheKey(prompt, who, hash) == "cache::unknown:unknown:anonymous:" + hash(prompt)
  {
    KeyText(prompt, who, hash);
    assert Owner(who) == "unknown:unknown:anonymous";
  }

  /** Given components stand in a key as they are: provider, model, user, digest. */
  lemma ComponentsInKeys(prompt: string, p: string, m: string, u: string, hash: string -> string)
    requires p != "" && m != "" && u != ""
    ensures GenerateCacheKey(prompt, Identity(Some(u), Some(m), Some(p)), hash)
      == "cache:" + ":" + p + ":" + m + ":" + u + ":" + hash(prompt)
  {
    KeyText(prompt, Identity(Some(u), Some(m), Some(p)), hash);
    var a, d := "cache:" + ":", ":" + hash(prompt);
    assert a + (p + ":" + m + ":" + u) == a + p + ":" + m + ":" + u;
  }

  /** The three kinds of keys never meet. */
  lemma KeyKindsDiffer(p: string, who: Identity, q: string, exactKey: string, hash: string -> string,
                       md5: string -> string)
    ensures GenerateCacheKey(p, who, hash) != DedupKey(q, md5)
    ensures GenerateCacheKey(p, who, hash) != SemanticKey(exactKey)
    ensures DedupKey(q, md5) != SemanticKey(exactKey)
  {
    assert GenerateCacheKey(p, who, hash)[0] == 'c' && DedupKey(q, md5)[0] == 'd' && SemanticKey(exactKey)[0] == 's';
  }
}
