/** The cache service over its in-memory client. */
module RedisServices {
  import opened Wrappers
  import opened Sequences
  import opened CacheKeys
  import opened Similarity
  import opened CacheRuns

  datatype Match = Match(data: string, similarity: real)

  /** Most similar first. */
  predicate IsAsSimilar(a: Match, b: Match) {
    a.similarity >= b.similarity
  }

  lemma InsertedMatches(m: Match, sorted: seq<Match>)
    requires IsInOrder(sorted, IsAsSimilar)
    ensures IsInOrder(Insert(m, sorted, IsAsSimilar), IsAsSimilar)
    ensures forall x :: x in Insert(m, sorted, IsAsSimilar) <==> x in sorted || x == m
  {
    InsertKeepsOrder(m, sorted, IsAsSimilar);
    InsertPermutes(m, sorted, IsAsSimilar);
    forall x ensures x in Insert(m, sorted, IsAsSimilar) <==> x in sorted || x == m {
      assert x in Insert(m, sorted, IsAsSimilar) <==> x in multiset(Insert(m, sorted, IsAsSimilar));
    }
  }

  lemma CutIsLower(ms: seq<Match>, n: nat)
    requires IsInOrder(ms, IsAsSimilar) && 0 < n
    ensures |ms| > n ==> forall m | m in ms :: m in ms[..n] || m.similarity <= ms[n - 1].similarity
  {
    if |ms| > n {
      assert forall m | m in ms :: m in ms[..n] || m in ms[n..];
    }
  }

  class RedisService {
    var inMemoryCache: Cache
    const services: Services

    constructor (services: Services)
      ensures this.services == services && inMemoryCache == map[]
    {
      this.services, inMemoryCache := services, map[];
    }

    // -------------------------------------------------------------- the client

    /** A look-up in the map, which drops what was not used for too long. */
    method LookUp(key: string, now: int) returns (slot: Option<Slot>)
      modifies this
      ensures slot == if key in old(inMemoryCache) && IsFresh(old(inMemoryCache)[key], now)
        then Some(old(inMemoryCache)[key]) else None
      ensures inMemoryCache == Aged(old(inMemoryCache), key, now)
    {
      if key !in inMemoryCache {
        return None;
      }
      var found := inMemoryCache[key];
      if !IsFresh(found, now) {
        inMemoryCache := inMemoryCache - {key};
        return None;
      }
      inMemoryCache := inMemoryCache[key := found.(used := now)];
      return Some(found);
    }

    method Get(key: string, now: int) returns (value: Option<Stored>)
      modifies this
      ensures value == Live(old(inMemoryCache), key, now)
      ensures inMemoryCache == Touch(old(inMemoryCache), key, now)
    {
      var entry := LookUp(key, now);
      if entry.Some? && entry.value.expiry > now {
        return Some(entry.value.value);
      }
      if entry.Some? {
        inMemoryCache := inMemoryCache - {key};
      }
      return None;
    }

    method SetExpiring(key: string, ttl: nat, value: Stored, now: int)
      modifies this
      ensures inMemoryCache == SetEx(old(inMemoryCache), key, ttl, value, now)
    {
      inMemoryCache := inMemoryCache[key := Slot(value, now + ttl * 1000, now)];
    }

    method TimeToLive(key: string, now: int) returns (ttl: int)
      modifies this
      ensures ttl == Ttl(old(inMemoryCache), key, now)
      ensures ttl == -2 <==> Live(old(inMemoryCache), key, now).None?
      ensures ttl != -2 ==> 0 <= 1000 * ttl <= old(inMemoryCache[key]).expiry - now < 1000 * ttl + 1000
      ensures inMemoryCache == Aged(old(inMemoryCache), key, now)
    {
      var entry := LookUp(key, now);
      if entry.Some? && entry.value.expiry > now {
        return (entry.value.expiry - now) / 1000;
      }
      return -2;
    }

    // ------------------------------------------------------------- the service

    method UpdateCacheMetadata(key: string, now: int)
      modifies this
      ensures inMemoryCache == MetadataUpdated(old(inMemoryCache), key, now)
    {
      var entry := Get(key, now);
      if entry.Some? {
        var ttl := TimeToLive(key, now);
        if ttl > 0 {
          SetExpiring(key, ttl, Refreshed(entry.value, now), now);
        }
      }
    }

    method StoreCache(op: Op)
      requires op.Store?
      modifies this
      ensures inMemoryCache == Step(old(inMemoryCache), op, services)
    {
      var exactKey := GenerateCacheKey(op.prompt, op.who, services.hash);
      var cacheEntry := CacheEntry(exactKey, op.response, EntryMetadata(op.who, op.at, op.ttl, 0, op.at));
      SetExpiring(exactKey, op.ttl, Exact(cacheEntry), op.at);
      if op.dedup {
        SetExpiring(DedupKey(op.prompt, services.md5), DEDUP_TTL, Dedup(op.response), op.at);
      }
      if op.semantic {
        var embedding := services.embed(op.prompt);
        SetExpiring(SemanticKey(exactKey), SEMANTIC_TTL, Semantic(cacheEntry, embedding), op.at);
      }
    }

    /** The five best matches, most similar first, or all if there are fewer. */
    method FindSemanticMatches(op: Op) returns (matches: seq<Match>)
      requires op.Check?
      modifies this
      ensures inMemoryCache == SearchSemantic(old(inMemoryCache), op.at)
      ensures |matches| <= 5 && IsInOrder(matches, IsAsSimilar)
      ensures forall m | m in matches :: IsMatch(old(inMemoryCache), op, m)
      ensures forall key | Eligible(old(inMemoryCache), op, services, key) ::
        MatchAt(old(inMemoryCache), op, services, key) in matches
        || (|matches| == 5 && Score(old(inMemoryCache), op, services, key) <= matches[4].similarity)
    {
      ghost var before := inMemoryCache;
      var keys := set key | key in inMemoryCache && IsSearched(inMemoryCache, key, op.at);
      ghost var all := keys;
      var found: seq<Match> := [];
      while keys != {}
        invariant keys <= all && forall key | key in all :: key in before
        invariant inMemoryCache == map key | key in before && (key !in all - keys || before[key].expiry > op.at) ::
            if key in all - keys then before[key].(used := op.at) else before[key]
        invariant IsInOrder(found, IsAsSimilar)
        invariant forall m | m in found :: IsMatch(before, op, m)
        invariant forall key | key in all - keys && Eligible(before, op, services, key) ::
          MatchAt(before, op, services, key) in found
        decreases keys
      {
        var key :| key in keys;
        keys := keys - {key};
        found := AddMatch(before, op, key, found);
      }
      assert forall key | Eligible(before, op, services, key) :: key in all;
      matches := if |found| <= 5 then found else found[..5];
      assert forall m | m in matches :: m in found;
      CutIsLower(found, 5);
    }

    ghost predicate IsMatch(c: Cache, op: Op, m: Match)
      requires op.Check?
    {
      exists key :: Eligible(c, op, services, key) && m == MatchAt(c, op, services, key)
    }

    /** Looks at one key and files its entry if it is eligible. */
    method AddMatch(ghost before: Cache, op: Op, key: string, found: seq<Match>) returns (extended: seq<Match>)
      requires op.Check? && IsSemanticKey(key)
      requires key in inMemoryCache && key in before && inMemoryCache[key] == before[key]
      requires IsInOrder(found, IsAsSimilar)
      modifies this
      ensures inMemoryCache == Touch(old(inMemoryCache), key, op.at)
      ensures IsInOrder(extended, IsAsSimilar)
      ensures forall m :: m in extended <==>
        m in found || (Eligible(before, op, services, key) && m == MatchAt(before, op, services, key))
    {
      var entry := Get(key, op.at);
      if entry.None? || !entry.value.Semantic? {
        return found;
      }
      var cached := entry.value;
      if !PassesFilter(op.who.userId, cached.entry.metadata.who.userId)
        || !PassesFilter(op.who.model, cached.entry.metadata.who.model)
        || !PassesFilter(op.who.provider, cached.entry.metadata.who.provider) {
        return found;
      }
      var similarity := CosineSimilarity(services.embed(op.prompt), cached.embedding, services.sqrt);
      if similarity < op.threshold {
        return found;
      }
      InsertedMatches(Match(cached.entry.value, similarity), found);
      return Insert(Match(cached.entry.value, similarity), found, IsAsSimilar);
    }

    /** Exact match, then deduplication, then similarity. */
    method CheckCache(op: Op) returns (r: Answer)
      requires op.Check?
      requires Sound(inMemoryCache, op)
      modifies this
      ensures inMemoryCache == Step(old(inMemoryCache), op, services)
      ensures MayReturn(old(inMemoryCache), op, services, r)
    {
      var exactKey := GenerateCacheKey(op.prompt, op.who, services.hash);
      var dedupKey := DedupKey(op.prompt, services.md5);
      KeyKindsDiffer(op.prompt, op.who, op.prompt, exactKey, services.hash, services.md5);
      var exactMatch := Get(exactKey, op.at);
      if exactMatch.Some? {
        UpdateCacheMetadata(exactKey, op.at);
        return ExactHit(exactMatch.value.entry);
      }
      if op.dedup {
        var dedupData := Get(dedupKey, op.at);
        if dedupData.Some? {
          return DedupHit(dedupData.value.response);
        }
      }
      if op.semantic {
        TouchKeepsEligible(old(inMemoryCache), inMemoryCache, op, exactKey, dedupKey);
        r := CheckSemantic(op);
        return;
      }
      return Miss;
    }

    /** The third strategy: the most similar of the eligible entries, if there is one. */
    method CheckSemantic(op: Op) returns (r: Answer)
      requires op.Check?
      modifies this
      ensures inMemoryCache == SearchSemantic(old(inMemoryCache), op.at)
      ensures if exists key :: Eligible(old(inMemoryCache), op, services, key) then
          exists key :: IsBestMatch(old(inMemoryCache), op, services, key)
            && r == AnswerAt(old(inMemoryCache), op, services, key)
        else r == Miss
    {
      ghost var c := inMemoryCache;
      var matches := FindSemanticMatches(op);
      if matches == [] {
        return Miss;
      }
      assert matches[0] in matches;
      ghost var key :| Eligible(c, op, services, key) && matches[0] == MatchAt(c, op, services, key);
      forall other | Eligible(c, op, services, other) ensures Score(c, op, services, other) <= matches[0].similarity {
        assert forall m | m in matches :: m.similarity <= matches[0].similarity;
      }
      assert IsBestMatch(c, op, services, key);
      return SemanticHit(matches[0].data, matches[0].similarity);
    }

    /** Exact and deduplication keys hold what stores put there. */
    ghost predicate Sound(c: Cache, op: Op) {
      var exactKey, dedupKey := GenerateCacheKey(op.prompt, op.who, services.hash), DedupKey(op.prompt, services.md5);
      (exactKey in c ==> c[exactKey].value.Exact?) && (dedupKey in c ==> c[dedupKey].value.Dedup?)
    }

    lemma TouchKeepsEligible(c: Cache, c': Cache, op: Op, exactKey: string, dedupKey: string)
      requires op.Check? && exactKey == ExactKeyOf(op, services) && dedupKey == DedupKey(op.prompt, services.md5)
      requires var c1 := Touch(c, exactKey, op.at); c' == if op.dedup then Touch(c1, dedupKey, op.at) else c1
      ensures forall key :: Eligible(c, op, services, key) <==> Eligible(c', op, services, key)
      ensures forall key | Eligible(c, op, services, key) ::
        MatchAt(c, op, services, key) == MatchAt(c', op, services, key)
    {
      assert exactKey[0] == 'c' && dedupKey[0] == 'd';
      assert forall key | IsSemanticKey(key) :: key[0] == 's';
    }
  }

  function AnswerAt(c: Cache, op: Op, sv: Services, key: string): Answer
    requires op.Check? && Eligible(c, op, sv, key)
  {
    SemanticHit(c[key].value.entry.value, Score(c, op, sv, key))
  }

  function MatchAt(c: Cache, op: Op, sv: Services, key: string): Match
    requires op.Check? && Eligible(c, op, sv, key)
  {
    Match(c[key].value.entry.value, Score(c, op, sv, key))
  }

  /** In every sequential run the cache is sound for the next check. */
  lemma RunIsSound(ops: seq<Op>, service: RedisService, op: Op)
    requires Timely(ops + [op])
    ensures service.Sound(Run(ops, service.services), op)
  {
    if ops != [] {
      TimelyPrefix(ops, op);
      ExactRun(ops, service.services, op.prompt, op.who);
      DedupRun(ops, service.services, op.prompt);
    }
  }
}
