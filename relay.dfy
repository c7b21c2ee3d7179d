/** The relay decisions of src/relay/relayCore.ts. `RelayCore` owns one
    dedupe cache and two token buckets. A Minecraft chat line is deduped on
    its raw text, stripped of formatting codes, rate limited and formatted
    for Discord. A Discord message is sanitized, dropped when blank, rate
    limited, split into chunks and turned into one argument list per chunk
    from the send template. The handlers return what the relay would send
    instead of sending it. */
module Relay {
  import opened Text
  import Splitter
  import DedupeCache
  import RateLimit
  import Sanitize

  /** The `relay` and `pm2.sendArgsTemplate` parts of the configuration. */
  datatype RelayConfig = RelayConfig(
    mentionPolicy: Sanitize.MentionPolicy,
    maxDiscordLen: int,
    maxMcLen: int,
    rateLimitPerSec: real,
    rateLimitBurst: int,
    dedupeTtlSec: int,
    dedupeMaxEntries: int,
    sendArgsTemplate: seq<string>)

  /** The constraints src/config/types.ts places on those fields. */
  predicate ValidConfig(c: RelayConfig) {
    c.maxDiscordLen > 0 && c.maxMcLen > 0 && c.rateLimitPerSec > 0.0 && c.rateLimitBurst > 0
    && c.dedupeTtlSec > 0 && c.dedupeMaxEntries > 0 && |c.sendArgsTemplate| >= 1
  }

  /** The relay's state: the dedupe cache and the two buckets. */
  datatype Channels = Channels(
    cache: seq<DedupeCache.Entry>,
    mcBucket: RateLimit.Bucket,
    discordBucket: RateLimit.Bucket)

  datatype McOutcome = Duplicate | McRateLimited | Posted(payload: string)

  datatype DiscordOutcome = Blank | Throttled | Delivered(sends: seq<seq<string>>)

  datatype McStep = McStep(next: Channels, outcome: McOutcome)

  datatype DiscordStep = DiscordStep(next: Channels, outcome: DiscordOutcome)

  /** The dedupe key of a Minecraft chat line: the raw, unstripped text. */
  function DedupeKey(user: string, message: string): string {
    user + ":" + message
  }

  /** The Discord message for a relayed chat line. */
  function DiscordPayload(user: string, message: string): string {
    "**" + user + "**: " + Sanitize.StripMcFormatting(message, Sanitize.SourceMarker)
  }

  /** One template argument: the first `{username}` becomes the user, then
      the first `{message}` of the result becomes the chunk. */
  function Substitute(arg: string, user: string, message: string): string {
    ReplaceFirst(ReplaceFirst(arg, "{username}", user), "{message}", message)
  }

  /** `template.map(...)` in `sendToMc`. */
  function SendArgs(template: seq<string>, user: string, message: string): (r: seq<string>)
    ensures |r| == |template|
  {
    seq(|template|, k requires 0 <= k < |template| => Substitute(template[k], user, message))
  }

  /** The argument lists for the chunks, one per chunk, in chunk order. */
  function Deliveries(template: seq<string>, user: string, parts: seq<string>): (r: seq<seq<string>>)
    ensures |r| == |parts|
  {
    seq(|parts|, k requires 0 <= k < |parts| => SendArgs(template, user, parts[k]))
  }

  /** The bucket both directions start with: the constructor passes
      `(rateLimitBurst, rateLimitPerSec)` to `TokenBucket(perSec, burst)`, so
      the refill rate is the burst and the capacity is the per-second rate. */
  function StartBucket(c: RelayConfig, now: int): RateLimit.Bucket {
    RateLimit.Fresh(c.rateLimitBurst as real, c.rateLimitPerSec, now)
  }

  /** The Minecraft-to-Discord handler on the relay's state. */
  function McToDiscord(c: RelayConfig, st: Channels, user: string, message: string, now: int): McStep {
    var v := DedupeCache.Admit(st.cache, DedupeKey(user, message), now, c.dedupeTtlSec * 1000, c.dedupeMaxEntries);
    if !v.relay then McStep(st.(cache := v.cache), Duplicate)
    else
      var t := RateLimit.Taken(st.discordBucket, 1.0, now);
      var next := st.(cache := v.cache, discordBucket := t.bucket);
      if !t.ok then McStep(next, McRateLimited)
      else McStep(next, Posted(DiscordPayload(user, message)))
  }

  /** The Discord-to-Minecraft handler on the relay's state. */
  function DiscordToMc(c: RelayConfig, st: Channels, user: string, content: string, now: int): DiscordStep {
    var clean := Sanitize.SanitizeDiscordToMc(content, c.mentionPolicy);
    if Trim(clean) == [] then DiscordStep(st, Blank)
    else
      var t := RateLimit.Taken(st.mcBucket, 1.0, now);
      var next := st.(mcBucket := t.bucket);
      if !t.ok then DiscordStep(next, Throttled)
      else DiscordStep(next, Delivered(Deliveries(c.sendArgsTemplate, user, Splitter.Split(clean, c.maxMcLen, ""))))
  }

  /** The `for (const part of parts) await this.sendToMc(user, part)` loop:
      the argument lists it hands to `pm2Send`, one per chunk, in order. */
  method SendAll(template: seq<string>, user: string, parts: seq<string>) returns (sends: seq<seq<string>>)
    ensures sends == Deliveries(template, user, parts)
  {
    sends := [];
    for i := 0 to |parts|
      invariant |sends| == i
      invariant forall k :: 0 <= k < i ==> sends[k] == SendArgs(template, user, parts[k])
    {
      var args := SendArgs(template, user, parts[i]);
      sends := sends + [args];
    }
  }

  class RelayCore {
    const config: RelayConfig
    const dedupe: DedupeCache.Dedupe
    const mcRateLimit: RateLimit.TokenBucket
    const discordRateLimit: RateLimit.TokenBucket

    ghost predicate Valid()
      reads this, dedupe
    {
      ValidConfig(config) && mcRateLimit != discordRateLimit && dedupe.Valid()
      && dedupe.ttlMs == config.dedupeTtlSec * 1000 && dedupe.maxEntries == config.dedupeMaxEntries
    }

    function State(): Channels
      reads this, dedupe, mcRateLimit, discordRateLimit
    {
      Channels(dedupe.cache, mcRateLimit.State(), discordRateLimit.State())
    }

    /** Two distinct buckets built from the same arguments, and an empty cache.
        The configuration is one that the schema of src/config/types.ts
        admits: every limit positive and a non-empty argument template. */
    constructor (config: RelayConfig, now: int)
      requires ValidConfig(config)
      ensures this.config == config && Valid()
      ensures State() == Channels([], StartBucket(config, now), StartBucket(config, now))
      ensures fresh(dedupe) && fresh(mcRateLimit) && fresh(discordRateLimit)
    {
      this.config := config;
      dedupe := new DedupeCache.Dedupe(config.dedupeTtlSec * 1000, config.dedupeMaxEntries);
      mcRateLimit := new RateLimit.TokenBucket(config.rateLimitBurst as real, config.rateLimitPerSec, now);
      discordRateLimit := new RateLimit.TokenBucket(config.rateLimitBurst as real, config.rateLimitPerSec, now);
    }

    /** The `chat` handler: dedupe, strip, rate limit, format. */
    method OnMinecraftChat(user: string, message: string, now: int) returns (outcome: McOutcome)
      requires Valid()
      modifies dedupe, discordRateLimit
      ensures Valid()
      ensures McStep(State(), outcome) == McToDiscord(config, old(State()), user, message, now)
      ensures old(dedupe.MonotoneAt(now)) ==> dedupe.MonotoneAt(now)
    {
      var hash := user + ":" + message;
      var relay := dedupe.ShouldRelay(hash, now);
      if !relay {
        return Duplicate;
      }
      var cleanMsg := Sanitize.StripMcFormatting(message, Sanitize.SourceMarker);
      var ok := discordRateLimit.TryTake(1.0, now);
      if !ok {
        return McRateLimited;
      }
      return Posted("**" + user + "**: " + cleanMsg);
    }

    /** The `message` handler: sanitize, drop blank text, rate limit, split,
        and build one argument list per chunk. */
    method OnDiscordMessage(user: string, content: string, now: int) returns (outcome: DiscordOutcome)
      requires Valid()
      modifies mcRateLimit
      ensures Valid()
      ensures DiscordStep(State(), outcome) == DiscordToMc(config, old(State()), user, content, now)
    {
      ghost var st := State();
      var clean := Sanitize.SanitizeDiscordToMc(content, config.mentionPolicy);
      if Trim(clean) == [] {
        return Blank;
      }
      var ok := mcRateLimit.TryTake(1.0, now);
      ghost var t := RateLimit.Taken(st.mcBucket, 1.0, now);
      assert State() == st.(mcBucket := t.bucket) && ok == t.ok;
      if !ok {
        return Throttled;
      }
      var parts := Splitter.SplitMessage(clean, config.maxMcLen, "");
      var sends := SendAll(config.sendArgsTemplate, user, parts);
      return Delivered(sends);
    }
  }

  // ---------------------------------------------------------------------
  // Minecraft to Discord
  // ---------------------------------------------------------------------

  /** A line whose raw key is still live is dropped before the rate limiter
      is consulted: no token is taken and only the cleanup happens. */
  lemma DuplicateTakesNoToken(c: RelayConfig, st: Channels, user: string, message: string, now: int)
    requires DedupeCache.Has(DedupeCache.Live(st.cache, now), DedupeKey(user, message))
    ensures var r := McToDiscord(c, st, user, message, now);
      r.outcome == Duplicate && r.next.discordBucket == st.discordBucket
      && r.next.mcBucket == st.mcBucket && r.next.cache == DedupeCache.Live(st.cache, now)
  {
  }

  /** A line that passes dedupe but hits the rate limit is still recorded:
      the same line again within the TTL is dropped as a duplicate. */
  lemma RateLimitedStillRecorded(c: RelayConfig, st: Channels, user: string, message: string, now: int, later: int)
    requires c.dedupeMaxEntries >= 1 && now <= later <= now + c.dedupeTtlSec * 1000
    requires !DedupeCache.Has(DedupeCache.Live(st.cache, now), DedupeKey(user, message))
    requires !RateLimit.Taken(st.discordBucket, 1.0, now).ok
    ensures var r := McToDiscord(c, st, user, message, now);
      r.outcome == McRateLimited && McToDiscord(c, r.next, user, message, later).outcome == Duplicate
  {
    DedupeCache.RepeatWithinTtlBlocked(st.cache, DedupeKey(user, message), now, later,
                                       c.dedupeTtlSec * 1000, c.dedupeMaxEntries);
  }

  /** A line is posted exactly when its key is not live and a token is
      available, as the bold user name, a colon and the stripped text. */
  lemma PostedIffFreshAndToken(c: RelayConfig, st: Channels, user: string, message: string, now: int)
    ensures var r := McToDiscord(c, st, user, message, now);
      (r.outcome.Posted? <==>
         !DedupeCache.Has(DedupeCache.Live(st.cache, now), DedupeKey(user, message))
         && RateLimit.Taken(st.discordBucket, 1.0, now).ok)
      && (r.outcome.Posted? ==>
            r.outcome.payload == "**" + user + "**: " + Sanitize.StripMcFormatting(message, Sanitize.SourceMarker))
      && r.next.mcBucket == st.mcBucket
  {
  }

  /** The dedupe key is the raw text: two different lines of one user never
      share a key, even when they strip to the same text. */
  lemma KeyIsRaw(user: string, m1: string, m2: string)
    requires m1 != m2
    ensures DedupeKey(user, m1) != DedupeKey(user, m2)
  {
    assert DedupeKey(user, m1)[|user| + 1..] == m1;
    assert DedupeKey(user, m2)[|user| + 1..] == m2;
  }

  // ---------------------------------------------------------------------
  // Discord to Minecraft
  // ---------------------------------------------------------------------

  /** Text that sanitizes to nothing sends nothing and changes nothing. */
  lemma BlankTakesNoToken(c: RelayConfig, st: Channels, user: string, content: string, now: int)
    requires Sanitize.SanitizeDiscordToMc(content, c.mentionPolicy) == []
    ensures DiscordToMc(c, st, user, content, now) == DiscordStep(st, Blank)
  {
    assert Trim([]) == [] by { TrimOfTrimmed([]); }
  }

  /** A non-blank message takes exactly one token, however many chunks it
      has; there is no dedupe on this path, and the other bucket is untouched. */
  lemma OneTokenPerMessage(c: RelayConfig, st: Channels, user: string, content: string, now: int)
    requires Sanitize.SanitizeDiscordToMc(content, c.mentionPolicy) != []
    ensures var r := DiscordToMc(c, st, user, content, now);
      var t := RateLimit.Taken(st.mcBucket, 1.0, now);
      r.next == st.(mcBucket := t.bucket) && (r.outcome.Delivered? <==> t.ok)
      && (r.outcome.Throttled? <==> !t.ok)
  {
    var clean := Sanitize.SanitizeDiscordToMc(content, c.mentionPolicy);
    Sanitize.SanitizedIsClean(content, c.mentionPolicy);
    TrimOfTrimmed(clean);
  }

  /** Delivered chunks go out in `splitMessage` order, one argument list per
      chunk. When no word is longer than `maxMcLen`, each chunk fits and the
      chunks joined with spaces give back the sanitized text if it has no
      empty word. */
  lemma DeliveredChunks(c: RelayConfig, st: Channels, user: string, content: string, now: int)
    requires c.maxMcLen > 0
    requires DiscordToMc(c, st, user, content, now).outcome.Delivered?
    ensures var clean := Sanitize.SanitizeDiscordToMc(content, c.mentionPolicy);
      var parts := Splitter.Split(clean, c.maxMcLen, "");
      var sends := DiscordToMc(c, st, user, content, now).outcome.sends;
      |sends| == |parts|
      && (forall k :: 0 <= k < |parts| ==> sends[k] == SendArgs(c.sendArgsTemplate, user, parts[k]))
      && (Splitter.NoLongWord(SplitOn(clean, ' '), c.maxMcLen) ==>
            forall k :: 0 <= k < |parts| ==> |parts[k]| <= c.maxMcLen)
      && (Splitter.NoLongWord(SplitOn(clean, ' '), c.maxMcLen) && Splitter.NoEmptyWord(SplitOn(clean, ' ')) ==>
            Join(Splitter.Bodies(parts, ""), ' ') == clean)
  {
    var clean := Sanitize.SanitizeDiscordToMc(content, c.mentionPolicy);
    if Splitter.NoLongWord(SplitOn(clean, ' '), c.maxMcLen) {
      Splitter.ChunkBound(clean, c.maxMcLen, "");
      if Splitter.NoEmptyWord(SplitOn(clean, ' ')) {
        Splitter.RoundTrip(clean, c.maxMcLen, "");
      }
    }
  }

  // ---------------------------------------------------------------------
  // The rate limiter as the constructor builds it
  // ---------------------------------------------------------------------

  /** Both directions start from the same bucket: capacity `rateLimitPerSec`
      and refill rate `rateLimitBurst`, full. */
  lemma StartBucketSwapsArguments(c: RelayConfig, now: int)
    requires ValidConfig(c)
    ensures var b := StartBucket(c, now);
      b.burst == c.rateLimitPerSec && b.perSec == c.rateLimitBurst as real
      && b.tokens == c.rateLimitPerSec && RateLimit.Valid(b)
  {
  }

  /** Because of the swap, a configuration with `rateLimitPerSec` below 1
      never relays anything in either direction: a bucket that stays valid
      never holds a whole token. */
  lemma LowRateBlocksEverything(c: RelayConfig, b: RateLimit.Bucket, now: int)
    requires RateLimit.Valid(b) && b.burst == c.rateLimitPerSec && c.rateLimitPerSec < 1.0
    ensures !RateLimit.Taken(b, 1.0, now).ok
    ensures RateLimit.Valid(RateLimit.Taken(b, 1.0, now).bucket)
    ensures RateLimit.Taken(b, 1.0, now).bucket.burst == b.burst
  {
    RateLimit.RefillBounds(b, now);
    RateLimit.TakeKeepsValid(b, 1.0, now);
  }

  /** The first message of a fresh relay passes exactly when
      `rateLimitPerSec >= 1`. */
  lemma FirstMessageNeedsRateAtLeastOne(c: RelayConfig, now: int)
    requires ValidConfig(c)
    ensures RateLimit.Taken(StartBucket(c, now), 1.0, now).ok <==> c.rateLimitPerSec >= 1.0
  {
  }

  // ---------------------------------------------------------------------
  // Template substitution
  // ---------------------------------------------------------------------

  /** Replacing the first occurrence of a pattern whose first character does
      not occur before it. */
  lemma ReplaceAfterPlain(a: string, pat: string, rest: string, rep: string)
    requires pat != [] && pat[0] !in a
    ensures ReplaceFirst(a + pat + rest, pat, rep) == a + rep + rest
  {
    var s := a + pat + rest;
    assert s[|a|..|a| + |pat|] == pat;
    assert OccursAt(s, pat, |a|);
    forall j | 0 <= j < |a|
      ensures !OccursAt(s, pat, j)
    {
      assert j + |pat| <= |s| ==> s[j..j + |pat|][0] == a[j];
    }
    assert s[..|a|] == a && s[|a| + |pat|..] == rest;
  }

  lemma FoundAtHead(pat: string, rest: string)
    requires pat != []
    ensures IndexOf(pat + rest, pat, 0) == 0
  {
    assert (pat + rest)[0..|pat|] == pat;
  }

  /** Replacing a pattern at the very start. */
  lemma ReplaceHead(pat: string, rest: string, rep: string)
    requires pat != []
    ensures ReplaceFirst(pat + rest, pat, rep) == rep + rest
  {
    FoundAtHead(pat, rest);
    var s := pat + rest;
    assert s[..0] == [] && s[|pat|..] == rest;
  }

  /** Two placeholders that start with the same character, separated by
      text without it, filled by a value without it: both are replaced. */
  lemma FillSeparated(up: string, mp: string, sep: string, user: string, message: string)
    requires up != [] && mp != [] && up[0] == mp[0] && up[0] !in sep && up[0] !in user
    ensures ReplaceFirst(ReplaceFirst(up + sep + mp, up, user), mp, message) == user + sep + message
  {
    var rest := sep + mp;
    assert up + sep + mp == up + rest;
    ReplaceHead(up, rest, user);
    var a := user + sep;
    assert user + rest == a + mp + [];
    assert mp[0] !in a;
    ReplaceAfterPlain(a, mp, [], message);
    assert a + message + [] == user + sep + message;
  }

  /** A user name placeholder filled with the message placeholder. */
  lemma FillWithPlaceholder(up: string, mp: string, sep: string, message: string)
    requires up != [] && mp != []
    ensures ReplaceFirst(ReplaceFirst(up + sep + mp, up, mp), mp, message) == message + sep + mp
  {
    var rest := sep + mp;
    assert up + sep + mp == up + rest;
    ReplaceHead(up, rest, mp);
    ReplaceHead(mp, rest, message);
    assert message + rest == message + sep + mp;
  }

  lemma UserMessageArg(arg: string)
    requires arg == "{username}: {message}"
    ensures arg == "{username}" + ": " + "{message}"
    ensures '{' !in ": " && "{username}"[0] == '{' && "{message}"[0] == '{'
  {
  }

  /** `"{username}: {message}"` becomes `user: message` for a user name
      without `{`. */
  lemma UserThenMessage(arg: string, user: string, message: string)
    requires arg == "{username}: {message}" && '{' !in user
    ensures Substitute(arg, user, message) == user + ": " + message
  {
    UserMessageArg(arg);
    FillSeparated("{username}", "{message}", ": ", user, message);
  }

  /** The user name is substituted first, so a user named `{message}` takes
      the message's place and the real placeholder stays in the output. */
  lemma UserNamedPlaceholder(arg: string, user: string, message: string)
    requires arg == "{username}: {message}" && user == "{message}"
    ensures Substitute(arg, user, message) == message + ": {message}"
  {
    UserMessageArg(arg);
    FillWithPlaceholder("{username}", "{message}", ": ", message);
  }
}
