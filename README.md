# BedrockPhoenix relay core in Dafny

BedrockPhoenix bridges the chat of a Minecraft Bedrock server and a Discord
channel. This project models the decision core of that bridge and proves
properties of the model:

- **Splitter** (`src/relay/split.ts`): `splitMessage` cuts an outgoing
  message into prefixed chunks. It greedily wraps words and hard-splits a
  word that is too long on its own.
- **DedupeCache** (`src/relay/dedupe.ts`): the `Dedupe` class. It keeps an
  insertion-ordered map from message key to expiry and drops repeated
  messages within a TTL. It evicts the oldest key once over its size limit.
- **RateLimit** (`src/relay/rateLimit.ts`): the `TokenBucket` class. Tokens
  refill continuously up to a capacity.
- **Sanitize** (`src/relay/sanitize.ts`): `stripMcFormatting` deletes
  Minecraft colour codes. `sanitizeDiscordToMc` collapses newlines,
  neutralises `@everyone`/`@here`, deletes role mentions, deletes user
  mentions under the `none` policy, strips markdown and trims. Each global
  regular expression is a left-to-right scanner.
- **PresenceRoster** (`src/mc/presence.ts`): the `Presence` class. It keeps
  a roster of players keyed by xuid, in map insertion order, and prunes
  players not seen within the expiration window.
- **Relay** (`src/relay/relayCore.ts`): the `RelayCore` class.
  - Its constructor builds the cache and the two buckets.
  - The Minecraft-to-Discord handler dedupes, strips, rate limits and
    formats.
  - The Discord-to-Minecraft handler sanitizes, drops blank text, rate
    limits, splits and builds one argument list per chunk from the send
    template.
- **Cli** (`src/cli.ts`): `parseArgs`, the `--key value` reader.
- **Text** holds the JavaScript string primitives these rely on (`split`,
  `join`, `trim`, first-occurrence `replace`), stated on `seq<char>`.

Code that updates state in place is modelled as classes.
- Each method `ensures` its new state as a function of the old state.
- Properties are proved as lemmas about those functions.
- Every `Date.now()` is a `now` parameter in milliseconds. One handler call
  uses one instant: the separate clock reads of `Dedupe.shouldRelay` and of
  `TokenBucket.tryTake` within one event are taken to agree.
- Events that `Presence` emits, and the messages and argument lists the
  relay would send, are returned to the caller instead.

The model follows the code where the project's documentation says
otherwise:
- The roster is keyed by xuid and read in map insertion order, not by name
  in lexicographic order.
- There is no loop-guard marker check on relayed text.
- A chunk can be longer than `maxLen`: `Splitter.LongWordAfterChunkOverflows`
  exhibits one.
- Text made only of spaces gives `[]` when it is longer than the width and
  `[prefix + text]` otherwise.
- `RelayCore` passes `(rateLimitBurst, rateLimitPerSec)` to the
  `TokenBucket(perSec, burst)` constructor. Both buckets therefore have
  capacity `rateLimitPerSec` and refill rate `rateLimitBurst`, and the model
  keeps this swap.
- The regular expression on line 3 of `src/relay/sanitize.ts` spells the two
  characters U+0E22 U+0E07, not the section sign U+00A7 its comment names.
  `StripMcFormatting` takes the marker as a parameter:
  - the relay uses `SourceMarker`, as written;
  - the lemmas show what each marker does to a section-sign colour code.
- A dedupe hit does not refresh the entry's expiry or its place in the
  eviction order (`DedupeCache.HitChangesOnlyCleanup`).
- The dedupe key is the raw `user:message`, not a digest of the processed
  text (`Relay.KeyIsRaw`).
- Mentions are deleted, not replaced by a zero-width joiner and a category
  word; `@everyone` and `@here` only lose their `@`
  (`Sanitize.BroadcastLosesAt`, `Sanitize.UserMentionDeleted`).
- Role mentions are deleted under every policy, `all` included
  (`Sanitize.RoleMentionDeleted`, `Sanitize.UsersSameAsAll`).
- Sanitizing collapses CR/LF runs only: runs of other whitespace are kept,
  and no normalisation step is claimed to be idempotent.

## Model

| member | source | states |
|---|---|---|
| Text.SplitOn | src/relay/split.ts:17 | `text.split(" ")`: at least one piece, no piece holds the separator, and joining the pieces with it gives the input back |
| Text.SplitOnJoin | src/relay/split.ts:17 | splitting a join of separator-free pieces gives the pieces back |
| Text.Trim | src/relay/sanitize.ts:49 | `trim()` returns an inner slice that neither starts nor ends with ECMAScript whitespace, and everything cut off is whitespace |
| Text.TrimDropsTrailing | src/relay/sanitize.ts:49 | trailing whitespace after text with non-space ends is exactly what `trim()` removes |
| Text.ReplaceFirst | src/relay/relayCore.ts:116 | `replace` with a string pattern: unchanged when the pattern is absent, otherwise only the first occurrence is replaced |
| Splitter.HardSplit | src/relay/split.ts:29-34 | the hard-split slices are all exactly `effectiveMax` long; the remainder has 1..`effectiveMax` characters; slices and remainder spell the word |
| Splitter.PushSlices | src/relay/split.ts:29-34 | the inner `while` loop pushes the prefixed slices of the hard split and leaves its remainder |
| Splitter.SplitMessage | src/relay/split.ts:1-46 | the imperative `splitMessage` computes exactly `Split(text, maxLen, prefix)` |
| Splitter.DegenerateIsOneTruncatedChunk | src/relay/split.ts:6-10 | when the prefix leaves no room, the result is one unprefixed chunk of the first `min(maxLen, len)` characters |
| Splitter.ShortTextIsOneChunk | src/relay/split.ts:12-14 | text that fits is `[prefix + text]`; empty text gives `[prefix]` |
| Splitter.ChunksFitOrAreWords | src/relay/split.ts:20-45 | every chunk starts with the prefix, and its body fits the width or is one whole space-separated word |
| Splitter.ChunkBound | src/relay/split.ts:20-45 | when no word is longer than the width, every chunk is prefixed and at most `maxLen` long |
| Splitter.LongWordAfterChunkOverflows | src/relay/split.ts:22-25 | "ab cdefgh" at width 3 gives `["ab", "cdefgh"]`: a long word that meets a non-empty chunk is emitted unsplit |
| Splitter.RoundTrip | src/relay/split.ts:16-45 | with no empty word and none longer than the width, the chunk bodies joined with single spaces give back the text |
| Splitter.OnlySpacesGivesNothing | src/relay/split.ts:16-45 | text made only of spaces and longer than the width gives no chunk |
| Splitter.PartsOnlyGrow | src/relay/split.ts:20-39 | chunks already emitted stay at the head of the result: later words only append |
| Splitter.TwoWords | src/relay/split.ts:22-25 | two words that do not fit together, the first fitting alone, give two prefixed chunks |
| Splitter.TwoSlices | src/relay/split.ts:29-34 | a word between one and two widths long is cut into a full slice and the remainder |
| Splitter.ScenarioWordWrap | test/split.test.ts:8-20 | the 43-character sentence at width 10 begins `["This is a", "long", "message"]` |
| Splitter.ScenarioHardSplit | test/split.test.ts:22-24 | "AAAAABBBBB" at width 5 gives `["AAAAA", "BBBBB"]` |
| Splitter.ScenarioPrefix | test/split.test.ts:26-31 | "12345 67890" with maxLen 10 and prefix "PRE: " gives `["PRE: 12345", "PRE: 67890"]` |
| DedupeCache.Live | src/relay/dedupe.ts:29-47 | cleanup keeps a suffix of the cache; everything cut off had expired; the first kept entry is unexpired |
| DedupeCache.Dedupe.constructor | src/relay/dedupe.ts:1-7 | an empty cache with the given TTL and limit |
| DedupeCache.Dedupe.Cleanup | src/relay/dedupe.ts:29-47 | the entry loop with its early `break` leaves exactly `Live(cache, now)` |
| DedupeCache.Dedupe.ShouldRelay | src/relay/dedupe.ts:9-27 | the answer and the new cache are `Admit(old cache, hash, now, ttl, max)`; distinct keys and expiry order are kept |
| DedupeCache.AdmitKeepsDistinct | src/relay/dedupe.ts:13-18 | the map never holds a key twice |
| DedupeCache.CleanupExact | src/relay/dedupe.ts:33-46 | in a cache in expiry order, cleanup removes an entry exactly when its expiry is before `now` |
| DedupeCache.CleanupMissesOutOfOrder | src/relay/dedupe.ts:33-46 | out of order, the early `break` keeps an expired entry |
| DedupeCache.NewKeyIsRecorded | src/relay/dedupe.ts:17-18 | an absent key is relayed and recorded last with expiry `now + ttl` |
| DedupeCache.HitChangesOnlyCleanup | src/relay/dedupe.ts:11-15 | a live key is refused; the cache is only cleaned, so its expiry is not refreshed |
| DedupeCache.RepeatWithinTtlBlocked | src/relay/dedupe.ts:9-27 | a key relayed at `now` is refused at every time up to `now + ttl` |
| DedupeCache.ExpiredKeyRelayedAgain | src/relay/dedupe.ts:33-36 | once the TTL has passed, the same key is relayed again |
| DedupeCache.AdmitAddsOnlyHash | src/relay/dedupe.ts:9-27 | a call adds no key other than `hash` |
| DedupeCache.DistinctHashesIndependent | test/dedupe.test.ts:10-14 | a second, never-seen key is relayed right after the first |
| DedupeCache.SizeBounded | src/relay/dedupe.ts:20-24 | with no empty key, the cache never exceeds `maxEntries` |
| DedupeCache.EmptyFirstKeyOverflows | src/relay/dedupe.ts:22-23 | an empty first key fails `if (firstKey)`, is never evicted, and the cache outgrows the limit |
| DedupeCache.AdmitKeepsOrder | src/relay/dedupe.ts:37-44 | recording at `now` keeps expiries in insertion order, which the early `break` relies on |
| DedupeCache.ScenarioEviction | test/dedupe.test.ts:23-33 | limit 2, keys A, B, C: A has been evicted and is new again, while C is refused |
| RateLimit.Fresh | src/relay/rateLimit.ts:7-12 | a new bucket is full and its refill time is the creation time |
| RateLimit.TokenBucket.constructor | src/relay/rateLimit.ts:7-12 | the object's state is `Fresh(perSec, burst, now)` |
| RateLimit.TokenBucket.TryTake | src/relay/rateLimit.ts:14-21 | the answer and new state are `Taken(old state, count, now)` |
| RateLimit.TokenBucket.Refill | src/relay/rateLimit.ts:23-31 | the new state is `Refilled(old state, now)` |
| RateLimit.FreshIsFull | src/relay/rateLimit.ts:7-12 | a fresh bucket with non-negative rate and capacity satisfies `0 <= tokens <= burst` |
| RateLimit.RefillBounds | src/relay/rateLimit.ts:23-31 | refill keeps the invariant, never loses tokens, and never passes `burst` |
| RateLimit.RefillAddsElapsedTimesRate | src/relay/rateLimit.ts:24-30 | refill adds elapsed seconds times the rate, capped at `burst`, and moves `lastRefill` to `now` |
| RateLimit.BackwardsClockGainsNothing | src/relay/rateLimit.ts:24-27 | a clock that stands still or goes back refills nothing |
| RateLimit.TakeIffEnough | src/relay/rateLimit.ts:14-21 | a take succeeds iff the refilled bucket holds `count`; it then removes exactly `count` |
| RateLimit.TakeKeepsValid | src/relay/rateLimit.ts:14-31 | a non-negative take keeps `0 <= tokens <= burst` |
| RateLimit.NegativeCountOverfills | src/relay/rateLimit.ts:16-17 | a negative count is not refused and pushes the tokens past the capacity |
| RateLimit.UnitTakesCount | src/relay/rateLimit.ts:14-21 | `k` unit takes at one instant remove `k` tokens while there are enough |
| RateLimit.ExactlyBurstTakes | src/relay/rateLimit.ts:7-21 | a full bucket of integer capacity `n` serves exactly `n` unit takes at once |
| RateLimit.ScenarioRefill | src/relay/rateLimit.ts:14-31 | capacity 10 at 10/s: emptied, refused, and after 150 ms one take passes, leaving 0.5 |
| Sanitize.StripMcFormatting | src/relay/sanitize.ts:1-4 | deleting marker-plus-character never lengthens the text |
| Sanitize.KeepsUncodedPrefix | src/relay/sanitize.ts:3 | positions with no colour code are kept as they are |
| Sanitize.NoMarkerUnchanged | src/relay/sanitize.ts:3 | text without the marker comes back unchanged |
| Sanitize.CodeRemoved | src/relay/sanitize.ts:3 | a marker and the next character disappear together |
| Sanitize.MarkerBeforeTerminatorKept | src/relay/sanitize.ts:3 | `.` does not match a line terminator, so a marker before one stays |
| Sanitize.StripKeepsPlainPrefix | src/relay/sanitize.ts:3 | text before the first marker character passes through |
| Sanitize.TwoCodesRemoved | src/relay/sanitize.ts:3 | two codes around plain text leave only the plain text |
| Sanitize.SourceMarkerKeepsSectionCodes | src/relay/sanitize.ts:2-3 | with the marker as written, "§aHello" is left unchanged |
| Sanitize.SectionSignStripsCodes | src/relay/sanitize.ts:2-3 | with the section sign, "§aHello §bWorld" becomes "Hello World" |
| Sanitize.CollapseNewlines | src/relay/sanitize.ts:13 | the result contains no CR and no LF |
| Sanitize.CollapseChars | src/relay/sanitize.ts:13 | every character of the result is a space or comes from the input |
| Sanitize.CollapseKeepsPlain | src/relay/sanitize.ts:13 | text without CR or LF passes unchanged |
| Sanitize.CollapsePlainPrefix | src/relay/sanitize.ts:13 | text without CR or LF in front is copied, and the pass continues after it as if it started there |
| Sanitize.CollapseRun | src/relay/sanitize.ts:13 | a non-empty run of CR and LF followed by a character that is neither gives one space, or nothing when a run was already open |
| Sanitize.CollapseRunToOneSpace | src/relay/sanitize.ts:13 | each maximal run of CR and LF becomes exactly one space: `a + run + b` gives `a + " " +` the pass over `b` |
| Sanitize.ScenarioRunCollapses | src/relay/sanitize.ts:13 | `"a\r\n\nb"` becomes `"a b"` |
| Sanitize.NeutralizeChars | src/relay/sanitize.ts:19 | the broadcast pass adds no character |
| Sanitize.BroadcastLosesAt | src/relay/sanitize.ts:19 | `@everyone` and `@here` lose the `@` and keep the word |
| Sanitize.NeutralizeKeepsPlainPrefix | src/relay/sanitize.ts:19 | text before the first `@` passes through the broadcast pass |
| Sanitize.BroadcastStepPlain | src/relay/sanitize.ts:19 | without `@everyone` or `@here` at the scan position, the first character is kept, whatever it is |
| Sanitize.BroadcastKeepsUnmatchedPrefix | src/relay/sanitize.ts:19 | positions at which neither `@everyone` nor `@here` starts are kept, so only the `@` of a broadcast word is ever removed |
| Sanitize.NoBroadcastUnchanged | src/relay/sanitize.ts:19 | text in which neither broadcast word starts anywhere is unchanged, every other `@` included |
| Sanitize.ScenarioOtherAtKept | src/relay/sanitize.ts:19 | `"@alice"` and `"a@b"` pass unchanged |
| Sanitize.DoubleAtSurvives | src/relay/sanitize.ts:19 | the pass runs once: "@@everyone" sanitizes to "@everyone" |
| Sanitize.RoleMentionDeleted | src/relay/sanitize.ts:22 | `<@&digits>` is deleted whole |
| Sanitize.RoleOpeningKept | src/relay/sanitize.ts:22 | `<@&` not followed by a digit passes through the role pass |
| Sanitize.RoleOuterKept | src/relay/sanitize.ts:22 | in `<@&` + a role mention + rest, the opening is kept and the inner mention deleted |
| Sanitize.RoleMentionRebuilt | src/relay/sanitize.ts:22 | the pass scans once: a role mention nested in the opening of another leaves the role mention `<@&e>` behind |
| Sanitize.ScenarioRoleMentionRebuilt | src/relay/sanitize.ts:22 | `"<@&<@&1>2>"` comes out of the role pass as `"<@&2>"` |
| Sanitize.RolesKeepPlainPrefix | src/relay/sanitize.ts:22 | text before the first `<` passes through the role pass |
| Sanitize.RoleStepPlain | src/relay/sanitize.ts:22 | without a role mention at the scan position, the first character is kept |
| Sanitize.RolesKeepUnmatchedPrefix | src/relay/sanitize.ts:22 | positions at which no role mention starts are kept |
| Sanitize.NoRoleMentionUnchanged | src/relay/sanitize.ts:22 | text in which no role mention starts is unchanged |
| Sanitize.UserMentionDeleted | src/relay/sanitize.ts:31 | `<@digits>` and `<@!digits>` are deleted whole |
| Sanitize.UsersKeepPlainPrefix | src/relay/sanitize.ts:31 | text before the first `<` passes through the user-mention pass |
| Sanitize.UserStepPlain | src/relay/sanitize.ts:31 | without a user mention at the scan position, the first character is kept |
| Sanitize.UsersKeepUnmatchedPrefix | src/relay/sanitize.ts:31 | positions at which no user mention starts are kept |
| Sanitize.NoUserMentionUnchanged | src/relay/sanitize.ts:31 | text in which no user mention starts is unchanged |
| Sanitize.ScenarioHeartKept | src/relay/sanitize.ts:22-31 | `"I <3 you"` passes both mention passes unchanged |
| Sanitize.MarkdownChars | src/relay/sanitize.ts:47 | the markdown pass leaves no markdown character (`*`, `_`, `~`, backtick, pipe) and adds none |
| Sanitize.MarkdownKeepsPlainPrefix | src/relay/sanitize.ts:47 | non-markdown text passes through the markdown pass |
| Sanitize.SanitizedIsClean | src/relay/sanitize.ts:6-50 | the sanitized text has no CR, LF or markdown character and no whitespace at either end |
| Sanitize.UsersSameAsAll | src/relay/sanitize.ts:25-41 | the `users` and `all` policies give the same result on every text |
| Sanitize.PlainTextUnchanged | src/relay/sanitize.ts:6-50 | trimmed text without CR, LF, `@`, `<` or markdown is unchanged by every policy |
| Sanitize.MarkdownShieldsBroadcast | src/relay/sanitize.ts:19-47 | a markdown character between `@` and a word hides it from the broadcast pass and is then deleted, so the `@` stays |
| Sanitize.StarredAtSurvives | src/relay/sanitize.ts:19-47 | "@*everyone" sanitizes to "@everyone" under every policy |
| Sanitize.MentionDeletedAfterWord | src/relay/sanitize.ts:25-49 | under `none`, a user mention after a word is deleted and the trim drops the space |
| Sanitize.MentionKeptAfterWord | src/relay/sanitize.ts:32-41 | under `users` or `all`, a user mention after a word is kept |
| Sanitize.ScenarioUserMention | src/relay/sanitize.ts:25-49 | "hi <@123>" gives "hi" under `none` and stays itself under `users` |
| PresenceRoster.Xuids | src/mc/presence.ts:10 | the keys in iteration order, one per record |
| PresenceRoster.Usernames | src/mc/presence.ts:46 | the roster lists each record's username, in map order |
| PresenceRoster.Presence.constructor | src/mc/presence.ts:9-14 | an empty roster with the given expiration |
| PresenceRoster.Presence.AddPlayer | src/mc/presence.ts:16-27 | stores `(xuid, username, now)` with `set`; emits `playerAdded` only for an absent xuid |
| PresenceRoster.Presence.RemovePlayer | src/mc/presence.ts:29-35 | deletes a present record and emits `playerRemoved` with the stored username; otherwise does nothing |
| PresenceRoster.Presence.Touch | src/mc/presence.ts:37-42 | refreshes `lastSeen` of a present record |
| PresenceRoster.Presence.Prune | src/mc/presence.ts:49-57 | the loop that deletes during iteration leaves `Survivors(old)` and emits `PruneEvents(old)` |
| PresenceRoster.Presence.GetRoster | src/mc/presence.ts:44-47 | prunes, then returns the surviving usernames in map order |
| PresenceRoster.LookupNone | src/mc/presence.ts:17 | `get` finds nothing iff no record has the xuid |
| PresenceRoster.LookupAt | src/mc/presence.ts:17 | `get` returns the one record stored for the xuid |
| PresenceRoster.PutLookup | src/mc/presence.ts:18-22 | after `set`, the xuid maps to the new record and every other xuid is unchanged |
| PresenceRoster.PutPresent | src/mc/presence.ts:18-22 | `set` on a present xuid replaces the record where it stands |
| PresenceRoster.PutAbsent | src/mc/presence.ts:18-22 | `set` on an absent xuid appends the record |
| PresenceRoster.PutKeepsDistinct | src/mc/presence.ts:18-22 | `set` keeps one record per xuid |
| PresenceRoster.DeleteAt | src/mc/presence.ts:32 | `delete` removes exactly that record and keeps the rest in order |
| PresenceRoster.DeleteAbsent | src/mc/presence.ts:29-35 | deleting an absent xuid changes nothing |
| PresenceRoster.DeleteKeepsDistinct | src/mc/presence.ts:32 | `delete` keeps one record per xuid |
| PresenceRoster.DeleteLookup | src/mc/presence.ts:32 | after `delete`, the xuid is gone and every other xuid keeps its record |
| PresenceRoster.TouchAt | src/mc/presence.ts:38-41 | touching changes only that record's `lastSeen` |
| PresenceRoster.TouchAbsent | src/mc/presence.ts:37-42 | touching an absent xuid adds no player |
| PresenceRoster.TouchedKeepsXuids | src/mc/presence.ts:37-42 | touching keeps the keys and their order |
| PresenceRoster.AddPlayerEffect | src/mc/presence.ts:16-27 | the xuid maps to `(username, now)`, other xuids keep their records, and "absent" means no record has the xuid |
| PresenceRoster.ReAddKeepsOrder | src/mc/presence.ts:18-22 | re-adding a present xuid keeps the key order; a new xuid goes last |
| PresenceRoster.RemovePlayerEffect | src/mc/presence.ts:29-35 | removal finds the stored record and removes exactly it, in place |
| PresenceRoster.TouchEffect | src/mc/presence.ts:37-42 | `touch` on a present xuid changes only that record's `lastSeen` |
| PresenceRoster.SurvivorsFrom | src/mc/presence.ts:49-57 | what prune keeps comes from the roster and has not expired |
| PresenceRoster.PruneAdvance | src/mc/presence.ts:51-55 | deleting the current entry during iteration removes exactly that entry and adds its event |
| PresenceRoster.SurvivorsKeepDistinct | src/mc/presence.ts:49-57 | prune keeps one record per xuid |
| PresenceRoster.PruneLookup | src/mc/presence.ts:49-57 | after prune, a xuid keeps its record iff it was present and not expired |
| PresenceRoster.PruneEventsExact | src/mc/presence.ts:51-55 | one `playerRemoved` per removed record, each naming an expired record, and every expired record has one |
| PresenceRoster.BoundaryEntryStays | src/mc/presence.ts:52 | a record seen exactly `expirationMs` ago survives; 1 ms later it is removed |
| PresenceRoster.SharedUsernameListedTwice | src/mc/presence.ts:44-47 | two xuids with the same username both appear in the roster |
| Relay.RelayCore.constructor | src/relay/relayCore.ts:29-42 | for a configuration the schema admits (`ValidConfig`, kept in `Valid`): an empty cache with TTL `dedupeTtlSec * 1000` and limit `dedupeMaxEntries`, and two distinct buckets built with the swapped arguments |
| Relay.RelayCore.OnMinecraftChat | src/relay/relayCore.ts:54-71 | the outcome and new state are `McToDiscord(config, old state, ...)`; the Discord-to-Minecraft bucket is untouched; a cache in expiry order at `now` stays so |
| Relay.RelayCore.OnDiscordMessage | src/relay/relayCore.ts:74-99 | the outcome and new state are `DiscordToMc(config, old state, ...)`; the cache and the other bucket are untouched |
| Relay.SendAll | src/relay/relayCore.ts:96-98 | the send loop produces one argument list per chunk, in chunk order |
| Relay.DuplicateTakesNoToken | src/relay/relayCore.ts:56-58 | a duplicate line is dropped before the rate limiter; no bucket changes and the cache is only cleaned |
| Relay.RateLimitedStillRecorded | src/relay/relayCore.ts:56-67 | a line that passes dedupe but is rate limited is still recorded, so a retry within the TTL is a duplicate |
| Relay.PostedIffFreshAndToken | src/relay/relayCore.ts:54-71 | a line is posted iff its key is not live and a token is available, as `**user**: ` and the stripped text |
| Relay.KeyIsRaw | src/relay/relayCore.ts:56 | the dedupe key is the unstripped text, so two different lines of one user never share a key |
| Relay.BlankTakesNoToken | src/relay/relayCore.ts:79-83 | text that sanitizes to nothing sends nothing and changes no state |
| Relay.OneTokenPerMessage | src/relay/relayCore.ts:83-90 | a non-blank message takes one token whatever its chunk count; it is delivered iff the take succeeds |
| Relay.DeliveredChunks | src/relay/relayCore.ts:92-98 | one send per `splitMessage(clean, maxMcLen)` chunk, in order; chunks fit `maxMcLen` when no word is longer; their join gives back the sanitized text |
| Relay.StartBucketSwapsArguments | src/relay/relayCore.ts:34-42 | both buckets start full with capacity `rateLimitPerSec` and refill rate `rateLimitBurst` |
| Relay.LowRateBlocksEverything | src/relay/relayCore.ts:34-42 | because of the swap, a `rateLimitPerSec` below 1 means no take of one token ever succeeds |
| Relay.FirstMessageNeedsRateAtLeastOne | src/relay/relayCore.ts:34-42 | the first message passes iff `rateLimitPerSec >= 1` |
| Relay.ReplaceAfterPlain | src/relay/relayCore.ts:116 | the first occurrence, not an earlier partial one, is the one replaced |
| Relay.FillSeparated | src/relay/relayCore.ts:114-117 | after `{username}` then `{message}` replacement, both placeholders are filled when the user name does not reintroduce `{` |
| Relay.UserThenMessage | src/relay/relayCore.ts:114-117 | `"{username}: {message}"` becomes `user: message` for a user name without `{` |
| Relay.UserNamedPlaceholder | src/relay/relayCore.ts:114-117 | a user named `{message}` takes the message's place, and the real placeholder stays |
| Cli.ParseArgs | src/cli.ts:71-81 | the loop that bumps `i` inside its body computes `Parse(args)` |
| Cli.KeyTakesNextToken | src/cli.ts:75-78 | a `--key` takes the next token as its value, and that token is skipped; a later assignment to the key wins |
| Cli.DashedValueConsumed | src/cli.ts:76-77 | a value that starts with `--` is consumed as a value and never read as a key |
| Cli.NonKeyIgnored | src/cli.ts:75 | a token that is neither a key nor a value is ignored |
| Cli.TrailingKeyAbsent | src/cli.ts:76 | a trailing `--key` maps to an absent value |
| Cli.ParseAppend | src/cli.ts:73-79 | after a prefix that ends on a token boundary, the scan starts afresh and the later assignments win |
| Cli.LaterDuplicateWins | src/cli.ts:76 | a key repeated at the end overwrites what the earlier tokens gave it |
| Cli.ParsedFromTokens | src/cli.ts:73-79 | every key is a `--` token minus its dashes, and every value present is a token of the input |
| Cli.ScenarioTwoKeys | src/cli.ts:71-81 | `--config a.json --target mc` reads both keys |

## Left out

- I/O and concurrency are not modelled:
  - the Discord gateway, the Bedrock client, `pm2Send`, `doc.react`, the logger;
  - the asynchronous ordering of the sends.
  The handlers return the decision and the payloads.
- `handleCommand`, the event wiring in `start()`, `resolvePm2Id`, `run` in `src/cli.ts` and `src/main.ts` are wiring or I/O and are not part of this model.
- `Presence` extends `EventEmitter`. Its events are returned as a sequence in emission order, and listeners are not modelled.
- Relay.RelayCore.OnMinecraftChat: `consume()` is not defined by the `TokenBucket` in `src/relay/rateLimit.ts`. Both handlers model it as `tryTake(1, now)`.
- `maxDiscordLen` is carried but unused, because the code never bounds the Discord payload. The zod schema in `src/config/types.ts` appears only as `ValidConfig`.
- Relay.Substitute: the replacement is inserted literally. `$&`, `$1` and the other `$` patterns of `String.prototype.replace` are not expanded.
- JavaScript numbers are exact reals, not IEEE doubles. Times are unbounded integers.
- Strings are sequences of Unicode scalar values throughout the model, not of UTF-16 code units. A character outside the Basic Multilingual Plane is one element here and two in JavaScript.
- Splitter.Split: lengths count Unicode characters, not UTF-16 code units. A character outside the Basic Multilingual Plane counts 1 here and 2 in JavaScript.
- Sanitize.StripMcFormatting: the regular expression has no `u` flag, so its `.` matches one UTF-16 code unit. For the marker followed by a character outside the Basic Multilingual Plane, such as U+1F600, JavaScript deletes only the high surrogate and leaves a lone low surrogate; the model deletes the whole character.
- DedupeCache.SizeBounded, DedupeCache.CleanupExact: these ordering results are stated on the cache. `Relay.RelayCore.Valid` does not carry `MonotoneAt`, because the handlers accept any `now`; `Relay.RelayCore.OnMinecraftChat` only ensures that it keeps `MonotoneAt(now)` when it held before the call.
- Sanitize.IsDigit: `\d` is the ASCII digits. Other regular-expression features are not modelled; only the patterns the file uses are written out as scanners.
- Cli.Parse: the result is a map. A `--__proto__` key and the other special properties of a plain JavaScript object are not modelled.
- The tests below exercise APIs that the modelled files do not define, so they are not part of this model:
  - `test/presence.test.ts`;
  - `test/sanitize.test.ts`;
  - `test/stripCodes.test.ts`;
  - `test/rateLimit.test.ts`: `consume`, and a different constructor argument order.
