/** The cache as a map with expiry, the effect of storing and checking, and what sequential runs guarantee. */
module CacheRuns {
  import opened Wrappers
  import opened CacheKeys
  import opened Similarity

  const DEDUP_TTL: nat := 300
  const SEMANTIC_TTL: nat := 86400
  const MAX_AGE: nat := 3600000

  datatype EntryMetadata = EntryMetadata(who: Identity, timestamp: int, ttl: nat, hits: nat, lastAccessed: int)

  datatype CacheEntry = CacheEntry(key: string, value: string, metadata: EntryMetadata)

  datatype Stored = Exact(entry: CacheEntry) | Dedup(response: string) | Semantic(entry: CacheEntry, embedding: Vector)

  /** Expiry is in milliseconds, times to live are in seconds; `used` is the time of the last use. */
  datatype Slot = Slot(value: Stored, expiry: int, used: int)

  type Cache = map<string, Slot>

  /** The outside functions: digests, the embedding model and the square root. */
  datatype Services = Services(
    hash: string -> string, md5: string -> string, embed: string -> Vector, sqrt: real -> real)

  datatype Op =
    | Store(at: int, prompt: string, who: Identity, response: string, ttl: nat, dedup: bool, semantic: bool)
    | Check(at: int, prompt: string, who: Identity, dedup: bool, semantic: bool, threshold: real)

  // ------------------------------------------------------------------ primitives

  /** The in-memory map forgets what has not been used for an hour, whatever its own expiry. */
  predicate IsFresh(slot: Slot, now: int) {
    now - slot.used <= MAX_AGE
  }

  function Live(c: Cache, key: string, now: int): Option<Stored> {
    if key in c && IsFresh(c[key], now) && c[key].expiry > now then Some(c[key].value) else None
  }

  /** Looking a key up in the map drops it when it was not used for too long, and is a use of it. */
  function Aged(c: Cache, key: string, now: int): Cache {
    if key !in c then c else if IsFresh(c[key], now) then c[key := c[key].(used := now)] else c - {key}
  }

  /** Reading a key drops it when it has expired as well. */
  function Touch(c: Cache, key: string, now: int): Cache {
    if Live(c, key, now).Some? then Aged(c, key, now) else c - {key}
  }

  function SetEx(c: Cache, key: string, ttl: nat, value: Stored, now: int): Cache {
    c[key := Slot(value, now + ttl * 1000, now)]
  }

  /** Whole seconds left, or -2 without a live entry. */
  function Ttl(c: Cache, key: string, now: int): int {
    if Live(c, key, now).Some? then (c[key].expiry - now) / 1000 else -2
  }

  /** The value with its metadata rewritten; the number of hits is set to 1, whatever it was. */
  function Refreshed(v: Stored, now: int): Stored {
    if v.Exact? then Exact(v.entry.(metadata := v.entry.metadata.(hits := 1, lastAccessed := now))) else v
  }

  function MetadataUpdated(c: Cache, key: string, now: int): Cache {
    var left := Ttl(c, key, now);
    if left > 0 then SetEx(c, key, left, Refreshed(c[key].value, now), now) else Touch(c, key, now)
  }

  predicate IsSemanticKey(key: string) {
    "semantic:" <= key
  }

  /** The keys that a similarity search looks at. */
  predicate IsSearched(c: Cache, key: string, now: int) {
    IsSemanticKey(key) && key in c && IsFresh(c[key], now)
  }

  /** A similarity search uses every one of them that is live, and drops the others. */
  function SearchSemantic(c: Cache, now: int): Cache {
    map key | key in c && (!IsSearched(c, key, now) || c[key].expiry > now) ::
      if IsSearched(c, key, now) then c[key].(used := now) else c[key]
  }

  function ExactKeyOf(op: Op, sv: Services): string {
    GenerateCacheKey(op.prompt, op.who, sv.hash)
  }

  function EntryOf(op: Op, sv: Services): CacheEntry
    requires op.Store?
  {
    CacheEntry(ExactKeyOf(op, sv), op.response, EntryMetadata(op.who, op.at, op.ttl, 0, op.at))
  }

  // ------------------------------------------------------------- one operation

  function Stores(c: Cache, op: Op, sv: Services): Cache
    requires op.Store?
  {
    var key := ExactKeyOf(op, sv);
    var c1 := SetEx(c, key, op.ttl, Exact(EntryOf(op, sv)), op.at);
    var c2 := if op.dedup then SetEx(c1, DedupKey(op.prompt, sv.md5), DEDUP_TTL, Dedup(op.response), op.at) else c1;
    if op.semantic
    then SetEx(c2, SemanticKey(key), SEMANTIC_TTL, Semantic(EntryOf(op, sv), sv.embed(op.prompt)), op.at)
    else c2
  }

  /** Does the check come to a similarity search? */
  predicate Searches(c: Cache, op: Op, sv: Services)
    requires op.Check?
  {
    && op.semantic && Live(c, ExactKeyOf(op, sv), op.at).None?
    && !(op.dedup && Live(c, DedupKey(op.prompt, sv.md5), op.at).Some?)
  }

  function Checks(c: Cache, op: Op, sv: Services): Cache
    requires op.Check?
  {
    var key, dedupKey := ExactKeyOf(op, sv), DedupKey(op.prompt, sv.md5);
    if Live(c, key, op.at).Some? then MetadataUpdated(c, key, op.at)
    else
      var c1 := Touch(c, key, op.at);
      var c2 := if op.dedup then Touch(c1, dedupKey, op.at) else c1;
      if Searches(c, op, sv) then SearchSemantic(c2, op.at) else c2
  }

  function Step(c: Cache, op: Op, sv: Services): Cache {
    if op.Store? then Stores(c, op, sv) else Checks(c, op, sv)
  }

  function Run(ops: seq<Op>, sv: Services): Cache {
    if ops == [] then map[] else Step(Run(ops[..|ops| - 1], sv), ops[|ops| - 1], sv)
  }

  /** What a check returns: an exact hit carries the whole entry, the others only the response. */
  datatype Answer =
    | Miss
    | ExactHit(entry: CacheEntry)
    | DedupHit(response: string)
    | SemanticHit(response: string, similarity: real)

  predicate PassesFilter(wanted: Option<string>, found: Option<string>) {
    wanted.None? || wanted.value == "" || found == wanted
  }

  /** A live semantic entry that passes the filters and is similar enough. */
  predicate Eligible(c: Cache, op: Op, sv: Services, key: string)
    requires op.Check?
  {
    && IsSemanticKey(key) && Live(c, key, op.at).Some? && c[key].value.Semantic?
    && PassesFilter(op.who.userId, c[key].value.entry.metadata.who.userId)
    && PassesFilter(op.who.model, c[key].value.entry.metadata.who.model)
    && PassesFilter(op.who.provider, c[key].value.entry.metadata.who.provider)
    && Score(c, op, sv, key) >= op.threshold
  }

  function Score(c: Cache, op: Op, sv: Services, key: string): real
    requires op.Check? && key in c && c[key].value.Semantic?
  {
    Cosine(sv.embed(op.prompt), c[key].value.embedding, sv.sqrt)
  }

  ghost predicate IsBestMatch(c: Cache, op: Op, sv: Services, key: string)
    requires op.Check?
  {
    && Eligible(c, op, sv, key)
    && forall other | Eligible(c, op, sv, other) :: Score(c, op, sv, other) <= Score(c, op, sv, key)
  }

  /** May the check return `r`?  Only between equally similar matches there is a choice. */
  ghost predicate MayReturn(c: Cache, op: Op, sv: Services, r: Answer)
    requires op.Check?
  {
    var exact := Live(c, ExactKeyOf(op, sv), op.at);
    var dedup := Live(c, DedupKey(op.prompt, sv.md5), op.at);
    if exact.Some? && exact.value.Exact? then r == ExactHit(exact.value.entry)
    else if op.dedup && dedup.Some? && dedup.value.Dedup? then r == DedupHit(dedup.value.response)
    else if op.semantic && exists key :: Eligible(c, op, sv, key) then
      exists key :: IsBestMatch(c, op, sv, key)
        && r == SemanticHit(c[key].value.entry.value, Score(c, op, sv, key))
    else r == Miss
  }

  // ------------------------------------------------------------------ what counts

  ghost predicate Timely(ops: seq<Op>) {
    forall i, j | 0 <= i < j < |ops| :: ops[i].at <= ops[j].at
  }

  /** The last store under an exact key. */
  function LatestStore(ops: seq<Op>, key: string, sv: Services): (latest: Option<Op>)
    ensures latest.Some? ==> latest.value in ops && latest.value.Store? && ExactKeyOf(latest.value, sv) == key
  {
    if ops == [] then None
    else
      var last := ops[|ops| - 1];
      if last.Store? && ExactKeyOf(last, sv) == key then Some(last) else LatestStore(ops[..|ops| - 1], key, sv)
  }

  /** How an exact key was used since the last store under it: the number of checks, the time of the
      last use, and the longest time between two uses. */
  datatype Usage = Usage(checks: nat, last: int, pause: int)

  function NextUsage(u: Usage, op: Op, key: string, sv: Services): Usage {
    if ExactKeyOf(op, sv) != key then u
    else if op.Store? then Usage(0, op.at, 0)
    else Usage(u.checks + 1, op.at, if u.pause < op.at - u.last then op.at - u.last else u.pause)
  }

  function UsageSince(ops: seq<Op>, key: string, sv: Services): Usage {
    if ops == [] then Usage(0, 0, 0)
    else NextUsage(UsageSince(ops[..|ops| - 1], key, sv), ops[|ops| - 1], key, sv)
  }

  /** The last store for deduplication under a key. */
  function LatestDedup(ops: seq<Op>, key: string, sv: Services): (latest: Option<Op>)
    ensures latest.Some? ==>
      latest.value in ops && latest.value.Store? && latest.value.dedup && DedupKey(latest.value.prompt, sv.md5) == key
  {
    if ops == [] then None
    else
      var last := ops[|ops| - 1];
      if last.Store? && last.dedup && DedupKey(last.prompt, sv.md5) == key then Some(last)
      else LatestDedup(ops[..|ops| - 1], key, sv)
  }

  // ------------------------------------------------------------------ exact hits

  /** However many checks there were, at most one hit is on record: none before the first check, and
      one after any, unless there was less than a second left for it to be written. */
  ghost predicate HitsAreCapped(hits: nat, checks: nat, expiry: int, now: int) {
    hits <= 1 && (checks == 0 ==> hits == 0) && (checks > 0 && hits == 0 ==> expiry < now + 1000)
  }

  /** What the cache holds under an exact key: the latest response, expiring no later than its time to
      live says and at most a second earlier for every check since.  It is there until then, unless
      it was not used for too long. */
  ghost predicate HoldsLatest(c: Cache, key: string, latest: Option<Op>, u: Usage, now: int) {
    match latest
    case None => key !in c
    case Some(op) =>
      op.Store? &&
      var expiry := op.at + op.ttl * 1000;
      if key in c then
        && c[key].value.Exact? && c[key].value.entry.value == op.response && c[key].value.entry.metadata.who == op.who
        && c[key].value.entry.key == key && c[key].value.entry.metadata.timestamp == op.at
        && c[key].value.entry.metadata.ttl == op.ttl && op.at <= c[key].value.entry.metadata.lastAccessed <= now
        && expiry - 1000 * u.checks <= c[key].expiry <= expiry
        && c[key].used == u.last && u.pause <= MAX_AGE
        && HitsAreCapped(c[key].value.entry.metadata.hits, u.checks, c[key].expiry, now)
      else expiry - 1000 * u.checks <= now || u.pause > MAX_AGE
  }

  /** A rewrite of metadata keeps the value and never moves the expiry later, nor a second earlier. */
  lemma RewriteKeepsValue(c: Cache, key: string, now: int)
    requires Live(c, key, now).Some? && c[key].value.Exact?
    ensures var c' := MetadataUpdated(c, key, now);
      && key in c' && c'[key].value.Exact?
      && c'[key].value.entry.value == c[key].value.entry.value
      && c'[key].value.entry.key == c[key].value.entry.key
      && c'[key].value.entry.metadata.who == c[key].value.entry.metadata.who
      && c'[key].value.entry.metadata.timestamp == c[key].value.entry.metadata.timestamp
      && c'[key].value.entry.metadata.ttl == c[key].value.entry.metadata.ttl
      && c[key].expiry - 1000 < c'[key].expiry <= c[key].expiry
      && (c[key].expiry >= now + 1000 ==>
        c'[key].value.entry.metadata.hits == 1 && c'[key].value.entry.metadata.lastAccessed == now)
      && (c[key].expiry < now + 1000 ==> c'[key] == c[key].(used := now))
      && c'[key].used == now
      && c' - {key} == c - {key}
  {
  }

  lemma ExactStep(c: Cache, key: string, latest: Option<Op>, u: Usage, before: int, op: Op, sv: Services,
                  p: string, who: Identity)
    requires key == GenerateCacheKey(p, who, sv.hash)
    requires HoldsLatest(c, key, latest, u, before) && before <= op.at
    ensures HoldsLatest(
      Step(c, op, sv), key, if ExactKeyOf(op, sv) == key && op.Store? then Some(op) else latest,
      NextUsage(u, op, key, sv), op.at)
  {
    KeyKindsDiffer(p, who, op.prompt, ExactKeyOf(op, sv), sv.hash, sv.md5);
    assert !IsSemanticKey(key) by {
      assert key[0] == 'c';
    }
    if op.Check? && ExactKeyOf(op, sv) == key && Live(c, key, op.at).Some? && latest.Some? {
      RewriteKeepsValue(c, key, op.at);
    }
  }

  lemma {:induction false} ExactRun(ops: seq<Op>, sv: Services, p: string, who: Identity)
    requires Timely(ops) && ops != []
    ensures var key := GenerateCacheKey(p, who, sv.hash);
      HoldsLatest(Run(ops, sv), key, LatestStore(ops, key, sv), UsageSince(ops, key, sv), ops[|ops| - 1].at)
  {
    var key, init, last := GenerateCacheKey(p, who, sv.hash), ops[..|ops| - 1], ops[|ops| - 1];
    if init == [] {
      ExactStep(map[], key, None, Usage(0, 0, 0), last.at, last, sv, p, who);
    } else {
      ExactRun(init, sv, p, who);
      ExactStep(Run(init, sv), key, LatestStore(init, key, sv), UsageSince(init, key, sv),
                init[|init| - 1].at, last, sv, p, who);
    }
  }

  // ----------------------------------------------------------- deduplication hits

  ghost predicate HoldsDedup(c: Cache, key: string, latest: Option<Op>, now: int) {
    match latest
    case None => key !in c
    case Some(op) =>
      op.Store? &&
      var expiry := op.at + DEDUP_TTL * 1000;
      if key in c then c[key] == Slot(Dedup(op.response), expiry, c[key].used) && op.at <= c[key].used <= now
      else expiry <= now
  }

  lemma DedupStep(c: Cache, q: string, latest: Option<Op>, before: int, op: Op, sv: Services)
    requires var key := DedupKey(q, sv.md5); HoldsDedup(c, key, latest, before) && before <= op.at
    ensures var key := DedupKey(q, sv.md5);
      HoldsDedup(Step(c, op, sv), key,
                 if op.Store? && op.dedup && DedupKey(op.prompt, sv.md5) == key then Some(op) else latest, op.at)
  {
    KeyKindsDiffer(op.prompt, op.who, q, ExactKeyOf(op, sv), sv.hash, sv.md5);
    assert !IsSemanticKey(DedupKey(q, sv.md5)) by {
      assert DedupKey(q, sv.md5)[0] == 'd';
    }
  }

  lemma {:induction false} DedupRun(ops: seq<Op>, sv: Services, q: string)
    requires Timely(ops) && ops != []
    ensures var key := DedupKey(q, sv.md5);
      HoldsDedup(Run(ops, sv), key, LatestDedup(ops, key, sv), ops[|ops| - 1].at)
  {
    var init, last := ops[..|ops| - 1], ops[|ops| - 1];
    if init == [] {
      DedupStep(map[], q, None, last.at, last, sv);
    } else {
      DedupRun(init, sv, q);
      DedupStep(Run(init, sv), q, LatestDedup(init, DedupKey(q, sv.md5), sv), init[|init| - 1].at, last, sv);
    }
  }

  // --------------------------------------------------------------------- theorems

  /** The digests of two prompts do not collide. */
  ghost predicate NoCollision(p: string, q: string, digest: string -> string) {
    digest(p) == digest(q) ==> p == q
  }

  ghost predicate NoCollisions(ops: seq<Op>, p: string, who: Identity, sv: Services) {
    && !IsConfusable(who) && ColonFree(sv.hash(p))
    && forall op | op in ops ::
      ColonFree(sv.hash(op.prompt)) && NoCollision(op.prompt, p, sv.hash)
  }

  /** More than a second is left for every check, and no hour has passed without use. */
  predicate IsCertain(latest: Op, u: Usage, now: int)
    requires latest.Store?
  {
    now < latest.at + latest.ttl * 1000 - 1000 * u.checks && u.pause <= 3600000 && now - u.last <= 3600000
  }

  /** An exact hit carries the response stored last for the same prompt, provider, model and user,
      and that response has neither outlived its time nor gone unused for an hour; conversely the hit is
      certain as long as it has not, and the time left exceeds a second for every check since. */
  lemma ExactHitIsLatest(ops: seq<Op>, check: Op, sv: Services, r: Answer)
    requires check.Check? && Timely(ops + [check]) && NoCollisions(ops, check.prompt, check.who, sv)
    requires MayReturn(Run(ops, sv), check, sv, r)
    ensures var key := ExactKeyOf(check, sv); var latest, u := LatestStore(ops, key, sv), UsageSince(ops, key, sv);
      && (r.ExactHit? ==>
        && latest.Some? && latest.value.prompt == check.prompt && SameIdentity(latest.value.who, check.who)
        && r.entry.value == latest.value.response && check.at < latest.value.at + latest.value.ttl * 1000
        && u.pause <= 3600000 && check.at - u.last <= 3600000)
      && (latest.Some? && IsCertain(latest.value, u, check.at) ==> r.ExactHit?)
  {
    var key := ExactKeyOf(check, sv);
    if ops == [] {
      return;
    }
    TimelyPrefix(ops, check);
    ExactRun(ops, sv, check.prompt, check.who);
    var latest := LatestStore(ops, key, sv);
    if latest.Some? {
      assert latest.value in ops;
      KeysAgreeIff(check.prompt, check.who, latest.value.prompt, latest.value.who, sv.hash);
    }
  }

  /** For a time to live of at most an hour the hit is certain however rarely the entry is used. */
  lemma ExactHitIsCertain(ops: seq<Op>, check: Op, sv: Services, r: Answer)
    requires check.Check? && Timely(ops + [check]) && NoCollisions(ops, check.prompt, check.who, sv)
    requires MayReturn(Run(ops, sv), check, sv, r)
    requires var key := ExactKeyOf(check, sv); var latest, u := LatestStore(ops, key, sv), UsageSince(ops, key, sv);
      latest.Some? && latest.value.ttl <= 3600
      && check.at < latest.value.at + latest.value.ttl * 1000 - 1000 * u.checks
    ensures r.ExactHit?
  {
    var key := ExactKeyOf(check, sv);
    TimelyPrefix(ops, check);
    UsageIsRecent(ops, key, sv);
    ExactHitIsLatest(ops, check, sv, r);
  }

  /** Uses since the last store are no earlier than it and no later than now, and so are their pauses. */
  lemma {:induction false} UsageIsRecent(ops: seq<Op>, key: string, sv: Services)
    requires Timely(ops)
    ensures var latest, u := LatestStore(ops, key, sv), UsageSince(ops, key, sv);
      latest.Some? ==>
        0 <= u.pause <= u.last - latest.value.at && latest.value.at <= u.last <= ops[|ops| - 1].at
  {
    if ops != [] {
      UsageIsRecent(ops[..|ops| - 1], key, sv);
    }
  }

  lemma TimelyPrefix(ops: seq<Op>, op: Op)
    requires Timely(ops + [op])
    ensures Timely(ops) && (ops != [] ==> ops[|ops| - 1].at <= op.at)
  {
    var all := ops + [op];
    assert all[|ops|] == op && (ops != [] ==> all[|ops| - 1] == ops[|ops| - 1]);
    forall i, j | 0 <= i < j < |ops| ensures ops[i].at <= ops[j].at {
      assert all[i] == ops[i] && all[j] == ops[j];
    }
  }

  /** When there is no exact hit, deduplication hits exactly while the response stored last for that
      prompt with deduplication on, by whomever, is younger than five minutes, and carries it. */
  lemma DedupHitIsLatest(ops: seq<Op>, check: Op, sv: Services, r: Answer)
    requires check.Check? && Timely(ops + [check])
    requires forall op | op in ops :: NoCollision(op.prompt, check.prompt, sv.md5)
    requires MayReturn(Run(ops, sv), check, sv, r) && !r.ExactHit?
    ensures var latest := LatestDedup(ops, DedupKey(check.prompt, sv.md5), sv);
      && (r.DedupHit? <==>
        check.dedup && latest.Some? && check.at < latest.value.at + 300000)
      && (r.DedupHit? ==> latest.value.prompt == check.prompt && r.response == latest.value.response)
  {
    var key := DedupKey(check.prompt, sv.md5);
    if ops == [] {
      return;
    }
    TimelyPrefix(ops, check);
    ExactRun(ops, sv, check.prompt, check.who);
    DedupRun(ops, sv, check.prompt);
    var latest := LatestDedup(ops, key, sv);
    if latest.Some? {
      assert latest.value in ops;
      assert sv.md5(latest.value.prompt) == DedupKey(latest.value.prompt, sv.md5)[|"dedup:"|..];
      assert sv.md5(check.prompt) == key[|"dedup:"|..];
    }
  }

  // ------------------------------------------------------------------ semantic hits

  /** The last store for similarity search under a key. */
  function LatestSemantic(ops: seq<Op>, key: string, sv: Services): (latest: Option<Op>)
    ensures latest.Some? ==>
      latest.value in ops && latest.value.Store? && latest.value.semantic
      && SemanticKey(ExactKeyOf(latest.value, sv)) == key
  {
    if ops == [] then None
    else
      var last := ops[|ops| - 1];
      if last.Store? && last.semantic && SemanticKey(ExactKeyOf(last, sv)) == key then Some(last)
      else LatestSemantic(ops[..|ops| - 1], key, sv)
  }

  /** When an entry for similarity search was last used: stored, or found fresh by a search. */
  function LastSearch(ops: seq<Op>, key: string, sv: Services): int {
    if ops == [] then 0
    else NextSearch(LastSearch(ops[..|ops| - 1], key, sv), Run(ops[..|ops| - 1], sv), ops[|ops| - 1], key, sv)
  }

  function NextSearch(used: int, c: Cache, op: Op, key: string, sv: Services): int {
    if op.Store? then (if op.semantic && SemanticKey(ExactKeyOf(op, sv)) == key then op.at else used)
    else if Searches(c, op, sv) && op.at - used <= MAX_AGE then op.at
    else used
  }

  function SemanticSlot(op: Op, used: int, sv: Services): Slot
    requires op.Store?
  {
    Slot(Semantic(EntryOf(op, sv), sv.embed(op.prompt)), op.at + SEMANTIC_TTL * 1000, used)
  }

  /** Under a semantic key there is what the latest such store put there, until a day is over. */
  ghost predicate HoldsSemantic(c: Cache, key: string, latest: Option<Op>, used: int, now: int, sv: Services) {
    match latest
    case None => key !in c
    case Some(op) =>
      op.Store? && if key in c then c[key] == SemanticSlot(op, used, sv) else SemanticSlot(op, used, sv).expiry <= now
  }

  lemma SemanticStep(c: Cache, key: string, latest: Option<Op>, used: int, before: int, op: Op, sv: Services)
    requires IsSemanticKey(key) && HoldsSemantic(c, key, latest, used, before, sv) && before <= op.at
    ensures HoldsSemantic(
      Step(c, op, sv), key,
      if op.Store? && op.semantic && SemanticKey(ExactKeyOf(op, sv)) == key then Some(op) else latest,
      NextSearch(used, c, op, key, sv), op.at, sv)
  {
    OtherKeysAreNotSemantic(op, sv);
  }

  lemma OtherKeysAreNotSemantic(op: Op, sv: Services)
    ensures !IsSemanticKey(ExactKeyOf(op, sv)) && !IsSemanticKey(DedupKey(op.prompt, sv.md5))
    ensures IsSemanticKey(SemanticKey(ExactKeyOf(op, sv)))
  {
    assert ExactKeyOf(op, sv)[0] == 'c' && DedupKey(op.prompt, sv.md5)[0] == 'd';
  }

  lemma {:induction false} SemanticRun(ops: seq<Op>, sv: Services, key: string)
    requires Timely(ops) && ops != [] && IsSemanticKey(key)
    ensures HoldsSemantic(
      Run(ops, sv), key, LatestSemantic(ops, key, sv), LastSearch(ops, key, sv), ops[|ops| - 1].at, sv)
  {
    var init, last := ops[..|ops| - 1], ops[|ops| - 1];
    if init == [] {
      SemanticStep(map[], key, None, 0, last.at, last, sv);
    } else {
      SemanticRun(init, sv, key);
      SemanticStep(
        Run(init, sv), key, LatestSemantic(init, key, sv), LastSearch(init, key, sv), init[|init| - 1].at, last, sv);
    }
  }

  function Closeness(op: Op, stored: Op, sv: Services): real {
    Cosine(sv.embed(op.prompt), sv.embed(stored.prompt), sv.sqrt)
  }

  /** `stored` is the latest store for similarity search under its key, younger than a day and searched
      within the last hour, passes the filters of the check and is as similar as it asks for. */
  ghost predicate IsCandidate(ops: seq<Op>, check: Op, stored: Op, sv: Services)
    requires check.Check?
  {
    && stored.Store? && stored.semantic
    && LatestSemantic(ops, SemanticKey(ExactKeyOf(stored, sv)), sv) == Some(stored)
    && check.at < stored.at + 86400000
    && check.at - LastSearch(ops, SemanticKey(ExactKeyOf(stored, sv)), sv) <= 3600000
    && (check.who.userId == None || check.who.userId == Some("") || stored.who.userId == check.who.userId)
    && (check.who.model == None || check.who.model == Some("") || stored.who.model == check.who.model)
    && (check.who.provider == None || check.who.provider == Some("") || stored.who.provider == check.who.provider)
    && Closeness(check, stored, sv) >= check.threshold
  }

  /** What is eligible in the cache is what the run makes a candidate. */
  lemma EligibleIffCandidate(ops: seq<Op>, check: Op, sv: Services, key: string)
    requires check.Check? && Timely(ops + [check])
    ensures var c, latest := Run(ops, sv), LatestSemantic(ops, key, sv);
      && (Eligible(c, check, sv, key) <==> latest.Some? && IsCandidate(ops, check, latest.value, sv))
      && (Eligible(c, check, sv, key) ==>
        && c[key].value.entry.value == latest.value.response
        && Score(c, check, sv, key) == Closeness(check, latest.value, sv))
  {
    TimelyPrefix(ops, check);
    var latest := LatestSemantic(ops, key, sv);
    if latest.Some? {
      OtherKeysAreNotSemantic(latest.value, sv);
    }
    if ops != [] && IsSemanticKey(key) {
      SemanticRun(ops, sv, key);
    }
  }

  /** When there is neither an exact nor a deduplication hit, similarity search hits exactly if it is
      on and there is a candidate.  It then carries the response of a candidate, hence the latest
      under its key, and no candidate is more similar. */
  lemma SemanticHitIsLatestAndBest(ops: seq<Op>, check: Op, sv: Services, r: Answer)
    requires check.Check? && Timely(ops + [check]) && MayReturn(Run(ops, sv), check, sv, r)
    requires !r.ExactHit? && !r.DedupHit?
    ensures r.SemanticHit? <==> check.semantic && exists stored :: IsCandidate(ops, check, stored, sv)
    ensures r.SemanticHit? ==>
      && (exists stored :: IsCandidate(ops, check, stored, sv) && IsAnswer(check, stored, sv, r))
      && (forall stored | IsCandidate(ops, check, stored, sv) :: Closeness(check, stored, sv) <= r.similarity)
  {
    var c := Run(ops, sv);
    forall stored | IsCandidate(ops, check, stored, sv)
      ensures Eligible(c, check, sv, SemanticKey(ExactKeyOf(stored, sv)))
      ensures Score(c, check, sv, SemanticKey(ExactKeyOf(stored, sv))) == Closeness(check, stored, sv)
    {
      EligibleIffCandidate(ops, check, sv, SemanticKey(ExactKeyOf(stored, sv)));
    }
    if r.SemanticHit? {
      var key :| IsBestMatch(c, check, sv, key) && r == SemanticHit(c[key].value.entry.value, Score(c, check, sv, key));
      EligibleIffCandidate(ops, check, sv, key);
      assert IsAnswer(check, LatestSemantic(ops, key, sv).value, sv, r);
    }
  }

  ghost predicate IsAnswer(check: Op, stored: Op, sv: Services, r: Answer) {
    stored.Store? && r == SemanticHit(stored.response, Closeness(check, stored, sv))
  }

  /** A search for a user, model or provider finds only what was stored for exactly that one; a filter that
      is missing or empty excludes nothing. */
  lemma SemanticHitIsForTheAsker(ops: seq<Op>, check: Op, sv: Services, r: Answer)
    requires check.Check? && Timely(ops + [check]) && MayReturn(Run(ops, sv), check, sv, r) && r.SemanticHit?
    ensures exists stored | stored in ops ::
      && stored.Store? && stored.semantic && stored.response == r.response
      && (check.who.userId.Some? && check.who.userId.value != "" ==> stored.who.userId == check.who.userId)
      && (check.who.model.Some? && check.who.model.value != "" ==> stored.who.model == check.who.model)
      && (check.who.provider.Some? && check.who.provider.value != "" ==> stored.who.provider == check.who.provider)
  {
    SemanticHitIsLatestAndBest(ops, check, sv, r);
    var stored :| IsCandidate(ops, check, stored, sv) && IsAnswer(check, stored, sv, r);
    assert stored in ops;
  }

  /** Its similarity is at least the threshold and at most 1. */
  lemma SemanticHitIsBounded(ops: seq<Op>, check: Op, sv: Services, r: Answer)
    requires check.Check? && Timely(ops + [check]) && MayReturn(Run(ops, sv), check, sv, r) && r.SemanticHit?
    requires forall p: string :: IsRoot(sv.sqrt, Dot(sv.embed(p), sv.embed(p)))
    ensures check.threshold <= r.similarity <= 1.0
  {
    SemanticHitIsLatestAndBest(ops, check, sv, r);
    var stored :| IsCandidate(ops, check, stored, sv) && IsAnswer(check, stored, sv, r);
    CosineIsBounded(sv.embed(check.prompt), sv.embed(stored.prompt), sv.sqrt);
  }
}
