# PiBot: verified models

Dafny models of the parts of PiBot that keep state, run concurrently or work on bytes, with proofs
of what they promise over all inputs and all runs.  `dafny verify dfyconfig.toml` checks everything.

| file | models |
|---|---|
| `ArchiveCache.dfy` | the git archive cache: threads, URL locks, cache lock, sweeper, clock and disk as one step system |
| `ArchiveCacheRuns.dfy`, `ArchiveCacheCalls.dfy` | runs of it that do happen, and when a call succeeds |
| `Bytes.dfy`, `Utf8.dfy`, `Sanitizer.dfy`, `Clipping.dfy` | the UTF-8 codec, the sanitiser for AI prompts, clipping at character boundaries |
| `Tokenizer.dfy` | cutting messages into words and arguments |
| `Search.dfy`, `KeywordFilter.dfy`, `Moderator.dfy` | the auto-moderator: case fold, phrase search, sliding-window spam check with lazy pruning |
| `Json.dfy`, `LogRecords.dfy`, `Numbers.dfy` | log records, their escapers and a reader for them |
| `Substitution.dfy`, `Triggers.dfy`, `RpService.dfy` | the RP service: templates, trigger normalisation, the command store over whole runs |
| `Callbacks.dfy`, `Updates.dfy`, `Broadcast.dfy` | the callback tables of the Telegram client, what becomes of each send over the updates, and `/gnotify` on top of them |
| `Ranks.dfy`, `Throttle.dfy` | `/rank` in flight, the rate limit, the short chat memory |
| `Tables.dfy`, `Toml.dfy`, `ConfigFile.dfy` | merging, writing and reloading the configuration |
| `Wrappers.dfy` | optional values and choice from a set |

Code that updates objects in place is modelled by classes whose methods are proved against
functions of the old state; index loops are loops.  The properties are then proved about those
functions.  Concurrency is a step system: any thread or event may run between any two steps.

Where the code and its description disagree, the model follows the code:

- `tracked_count_` (automoderator.cpp:219) is not lowered by the per-user erase, so it exceeds the
  timestamps held by those dropped since the last prune that ran: `Moderator.CountIsTotalAndDropped`,
  with an input in `Moderator.CountCanExceed`.
- A message that is older than one already seen may not be judged by the count of its window:
  `Moderator.CountedIffNoneLater` says exactly when it is.
- The comment that regular letters, punctuation and emoji are never in the table of combining marks
  (helpers.cpp:172) is not true of all of them, and the table of breaking characters (helpers.cpp:191)
  holds the joiner of emoji sequences: `Sanitizer.TablesDropMore`.  What passes is exactly
  `Sanitizer.SanitizeIsReadable`.
- The decoder of helpers.cpp accepts overlong forms, surrogates and values up to 0x1FFFFF, and a
  lead byte too close to the end makes it drop the rest of the text.  `Utf8.ReadsRfcCharIff` and
  `Utf8.StrayByteIsDroppedIff` say exactly when; theorems are about the decoder as written unless
  they say well-formed.
- `toLower` of rp_service.cpp does not pass through two-byte code points below U+0400: it moves them
  up by 0x400.  `Triggers.LowerIsIntendedIff` says exactly when its comment is right, and
  `Triggers.LowerIdempotentIff` when it is idempotent.  Its third branch can never be taken.
- Sequential template replacement is not simultaneous substitution for every mention:
  `Substitution.SequentialIsSimultaneousIffSafe` gives the exact condition.
- A rank can be granted by somebody who holds no higher one when the configuration lowers the
  required rank of `/rank` below owner: `Ranks.LowerIffRequiredAtMostOne`.
- Tables without scalars are lost by the configuration build, `ConfigFile.LoadsAllIffFull`, and a
  second build can bring back what one of them hid: `ConfigFile.SecondBuildWritesTheSame`.
- Developers can take ownership away: `Ranks.OwnerIsSafeIff`.

Three results are stronger than one might expect: the rate bound needs no assumption on the clock,
owners are preserved for every required rank, not only for the default one, and a verdict is the
counted one whatever the order of the messages before it, if none of them is later.

## Model

| member | source | states |
|---|---|---|
| `ArchiveCache.StepKeepsInv` | tools-service/src/service/git_cloner.cpp:131-251 | every step of every thread, of the sweeper, of the outside tools and of the clock keeps the invariant that relates locks, cache, disk and program counters |
| `ArchiveCache.RunKeepsInv` | tools-service/src/service/git_cloner.cpp:131-251 | the invariant holds in every state of every interleaving of any number of clone calls, sweeps and clock ticks |
| `ArchiveCache.OneThreadPerUrl` | tools-service/src/service/git_cloner.cpp:154-156 | at most one thread is past the lock of a URL, so a repository is never cloned twice at once |
| `ArchiveCache.CachedMeansArchived` | tools-service/src/service/git_cloner.cpp:217-230 | whenever the cache lock is free, every cached key has its archive on disk, nonempty and at most `max_bytes_`; the only exception while it is held is the entry a sweep is just erasing |
| `ArchiveCache.LeftoversAreGuarded` | tools-service/src/service/git_cloner.cpp:181-225 | an archive or `.src` directory of an uncached key exists only while some thread holds that URL's lock |
| `ArchiveCache.ExitLeavesDiskEqualCache` | tools-service/src/service/git_cloner.cpp:193-236 | every way out of a call, success or any error, leaves no clone directory and an archive exactly when the key is cached (up to a sweep in progress) |
| `ArchiveCache.QuietDiskIsTheCache` | tools-service/src/service/git_cloner.cpp:142-251 | with no call past a URL lock and no holder of the cache lock, the disk is exactly the cached archives |
| `ArchiveCache.GrantsStay` | tools-service/src/service/git_cloner.cpp:166-172 | the history of archives handed out only grows along a run |
| `ArchiveCache.GrantedArchiveStays` | tools-service/src/service/git_cloner.cpp:158-178 | an archive handed out with its entry stamped T is there and cached while the clock is below T + ttl: no step of any other call or sweep up to then deletes or writes it, and the stamp of its entry never goes back |
| `ArchiveCache.SuccessIsGranted` | tools-service/src/service/git_cloner.cpp:168-172 | a successful call returns an archive that was handed out for its own URL, so the availability bound applies to it |
| `ArchiveCache.ClonesOnlyAfterExpiry` | tools-service/src/service/git_cloner.cpp:173-193 | git runs for a URL only when every archive ever handed out for it has outlived its time |
| `ArchiveCache.HitsAreFresh` | tools-service/src/service/git_cloner.cpp:162-173 | a cache hit happens only below the ttl, serves the file on disk and sets the stamp to the clock just read |
| `ArchiveCache.NothingToCleanUp` | tools-service/src/service/git_cloner.cpp:187-189 | the leftovers removed before cloning are in fact never there: no earlier attempt leaves any |
| `ArchiveCache.SweepLeavesOnlyFresh` | tools-service/src/service/git_cloner.cpp:239-251 | when a sweep ends no entry is left that was expired at the clock it read |
| `ArchiveCache.NeverStuck` | tools-service/src/service/git_cloner.cpp:142-251 | while any call or sweep is under way some thread can take a step: URL locks and the cache lock never deadlock |
| `ArchiveCacheCalls.SucceedsIff` | tools-service/src/service/git_cloner.cpp:158-236 | in every interleaving a call hands out an archive if and only if it found an entry younger than the ttl, or its last git step and its last zip step both ended well and its archive was then of 1 to `max_bytes_` bytes; the entry is stamped with the clock that call read last |
| `ArchiveCacheRuns.CloneCanSucceed` | tools-service/src/service/git_cloner.cpp:142-237 | for every URL in use and every limit of at least one byte some run ends in a call that succeeds and hands its archive out, so the bounds above are about runs that happen |
| `ArchiveCacheRuns.SecondCallCanHit` | tools-service/src/service/git_cloner.cpp:161-173 | with a positive ttl some run goes on to serve a second call from the cache, below the time bound of the first |
| `Bytes.MasksAreRanges` | core/src/utils/helpers.cpp:119-138 | the masks of the decoder select exactly the byte ranges and remainders used in the model |
| `Bytes.ShiftsAreArithmetic` | core/src/utils/helpers.cpp:142 | shifting in six bits is multiplying by 64 and adding |
| `Bytes.SplitsAreArithmetic` | core/src/utils/helpers.cpp:148-164 | the shifts and masks of the encoder are divisions and remainders |
| `Utf8.First` | core/src/utils/helpers.cpp:111-146 | decoding always makes progress and never reads past the end |
| `Utf8.DecodePoint` | core/src/utils/helpers.cpp:111-146 | the loop that advances the index in place reads what `First` reads at that place, for every byte string |
| `Utf8.DecodeEncode` | core/src/utils/helpers.cpp:111-164 | decode(encode(cp)) = cp for every cp up to 0x1FFFFF, whatever bytes follow |
| `Utf8.FirstBounds` | core/src/utils/helpers.cpp:136-145 | every code point read is at most 0x1FFFFF and its encoding is never longer than the bytes it was read from |
| `Utf8.DecodeEncodeAll` | core/src/utils/helpers.cpp:111-164 | encoded text decodes without errors to exactly its code points |
| `Utf8.PrefixDecodes` | core/src/utils/helpers.cpp:111-164 | a byte prefix of encoded text that is itself encoded text is a code point prefix |
| `Utf8.BoundaryIsNotCont` | core/src/utils/helpers.cpp:246-252 | inside encoded text the bytes that are no continuation bytes are exactly the character starts |
| `Utf8.GrammarCharDecodes` | core/src/utils/helpers.cpp:111-146 | each byte sequence of the grammar of section 4 of RFC 3629 decodes to one scalar value that encodes back to it |
| `Utf8.ReadsRfcCharIff` | core/src/utils/helpers.cpp:111-146 | exactly how lenient the decoder is: the text begins with a character of RFC 3629 if and only if the decoder reads a scalar value whose encoding is as long as what it consumed |
| `Utf8.StrayByteIsDroppedIff` | core/src/utils/helpers.cpp:128-141 | a stray byte before encoded text costs nothing but itself if and only if it is no character itself and no lead byte too close to the end |
| `Utf8.WellFormedIffGrammar` | core/src/utils/helpers.cpp:148-164 | text is encoded scalar values (section 3 of RFC 3629) exactly when it follows the grammar of section 4 |
| `Utf8.WellFormedIffScalar` | core/src/utils/helpers.cpp:148-164 | well-formed text is text that is its own re-encoding and has neither surrogates nor values above U+10FFFF |
| `Sanitizer.SanitizeForAi` | core/src/utils/helpers.cpp:229-240 | the loop terminates and its result is `Sanitize`, for every byte string |
| `Sanitizer.SanitizeKeeps` | core/src/utils/helpers.cpp:205-240 | the result encodes, in order, exactly the valid decoded code points of the input that are not dropped |
| `Sanitizer.SanitizedDecodes` | core/src/utils/helpers.cpp:229-240 | the result decodes without errors to those code points |
| `Sanitizer.SanitizeIdempotent` | core/src/utils/helpers.cpp:229-240 | sanitising twice is sanitising once, for every byte string |
| `Sanitizer.SanitizeNeverGrows` | core/src/utils/helpers.cpp:229-240 | the result is never longer than the input, overlong forms included |
| `Sanitizer.SanitizeFixes` | core/src/utils/helpers.cpp:229-240 | text is left alone exactly when it is its own re-encoding and has nothing to drop |
| `Sanitizer.InRangesMeans` | core/src/utils/helpers.cpp:205-212 | the range search finds a code point exactly when some range contains it |
| `Sanitizer.PlainIsKept` | core/src/utils/helpers.cpp:172-225 | ASCII, Latin and Cyrillic letters, common dashes and quotes and the main emoji blocks, as listed in `IsPlain`, are untouched by the tables |
| `Sanitizer.PlainTextPasses` | core/src/utils/helpers.cpp:229-240 | so text made of these listed code points passes unchanged |
| `Sanitizer.TablesDropMore` | core/src/utils/helpers.cpp:172-203 | the first table also holds punctuation (U+05BE) and a letter (U+06E5), the second one the joiner of emoji sequences (U+200D) |
| `Sanitizer.DroppedIff` | core/src/utils/helpers.cpp:172-225 | a code point alone is dropped if and only if it is a C0 control other than newline, DEL, a C1 control, or in one of the combining, bidi and format blocks, written out as intervals; else it comes back unchanged |
| `Sanitizer.SanitizeIsReadable` | core/src/utils/helpers.cpp:172-240 | in any byte string the valid code points outside these intervals stay, in order, and nothing else does |
| `Clipping.TruncateUtf8` | core/src/utils/helpers.cpp:242-254 | the backward loop computes `Clip` |
| `Clipping.MessagePreview` | auto-mod/src/automoderator.cpp:126-135 | `message_preview` computes the same `Clip`: the two implementations agree on every input |
| `Clipping.ClipKeepsWholePoints` | core/src/utils/helpers.cpp:242-254 | encoded text is clipped to a whole number of code points within the limit |
| `Clipping.ClipOfWellFormed` | core/src/utils/helpers.cpp:242-254 | on well-formed text the clip is the longest well-formed prefix of at most `maxBytes` bytes |
| `Clipping.ClipOfSanitized` | core/src/utils/helpers.cpp:229-254 | clipping a sanitised text leaves it a fixed point of the sanitiser |
| `Tokenizer.SplitCommand` | core/src/utils/helpers.cpp:9-25 | the nested loops compute `Split` |
| `Tokenizer.SplitIffTokens` | core/src/utils/helpers.cpp:9-25 | the tokens are the only nonempty whitespace-free words that, interleaved with whitespace gaps, rebuild the text |
| `Tokenizer.RawArgsAfterCommand` | core/src/commands/moderation_commands.cpp:165-175 | the index loops compute `RawArgs`, failing exactly where `substr` would throw |
| `Tokenizer.RawArgsSplit` | core/src/commands/moderation_commands.cpp:165-190 | the raw arguments are the text behind whitespace, the command token and more whitespace, byte for byte; splitting them gives the remaining tokens, and they are empty exactly when there is none |
| `Tokenizer.ResponseAfterTrigger` | core/src/commands/moderation_commands.cpp:209-216 | the index loop computes `Response`, failing exactly where `substr` would throw |
| `Tokenizer.ResponseSplit` | core/src/commands/moderation_commands.cpp:209-216 | the response is the argument text behind the trigger and whitespace, byte for byte; splitting it gives the remaining arguments, and it is empty exactly when there is none |
| `Tokenizer.ExtractTrigger` | rp-service/src/service/command_matcher.h:11-23 | the two loops compute `FirstWord` |
| `Tokenizer.FirstWordIsToken` | rp-service/src/service/command_matcher.h:11-23 | the trigger is the first token, free of whitespace, and empty exactly when there is no token |
| `KeywordFilter.AppendLowerCyrillic` | auto-mod/src/automoderator.cpp:26-47 | appends the folded pair, or says that the pair is left as it is |
| `KeywordFilter.ToLowerUtf8` | auto-mod/src/automoderator.cpp:54-82 | the loop computes `Fold` |
| `KeywordFilter.FoldKeepsLength` | auto-mod/src/automoderator.cpp:54-82 | on every byte string the fold keeps the length |
| `KeywordFilter.FoldIdempotent` | auto-mod/src/automoderator.cpp:54-82 | on every byte string folding twice is folding once |
| `KeywordFilter.FoldLowersPoints` | auto-mod/src/automoderator.cpp:26-82 | on encoded text the fold lowers A-Z, the letters U+0410 to U+042F and U+0401, and fixes every other code point |
| `KeywordFilter.FoldOfWellFormed` | auto-mod/src/automoderator.cpp:54-82 | well-formed text stays well-formed and decoding commutes with the fold |
| `KeywordFilter.SearchAgrees` | auto-mod/src/automoderator.cpp:241-248 | byte search in encoded text succeeds exactly when the pattern occurs as a run of code points |
| `KeywordFilter.MatchFilter` | auto-mod/src/automoderator.cpp:241-248 | the loop returns the first pattern that occurs, or nothing |
| `KeywordFilter.FilterMeansPhrases` | auto-mod/src/automoderator.cpp:241-248 | for every well-formed message the byte fold and byte search report the first listed phrase that the lowered code points contain |
| `KeywordFilter.PhraseIffSome` | auto-mod/src/automoderator.cpp:241-248 | something is reported exactly when some phrase occurs |
| `KeywordFilter.FiltersIff` | auto-mod/src/automoderator.cpp:193-248 | a well-formed message is filtered if and only if its lowered code points contain some listed phrase |
| `KeywordFilter.PatternsAreLower` | auto-mod/src/automoderator.cpp:12-20 | the listed phrases are already lower case |
| `Search.Find` | auto-mod/src/automoderator.cpp:241-248 | the first occurrence at or after a position, or none |
| `Moderator.AutoModerator.ProcessMessage` | auto-mod/src/automoderator.cpp:188-232 | the verdict and the new trackers and counter of one call, filter first |
| `Moderator.MutedForGoodIff` | auto-mod/src/automoderator.cpp:188-199 | with the phrases of the source, whatever is remembered, a well-formed message is muted for good and deleted if and only if its lowered code points contain a phrase, and then leaves the memory as it was |
| `Moderator.AutoModerator.PruneLocked` | auto-mod/src/automoderator.cpp:250-281 | nothing below the cap; above it every tracker trimmed, empty ones removed and the counter recounted |
| `Moderator.PruneChats` | auto-mod/src/automoderator.cpp:256-274 | the erase loops leave exactly the chats and users with timestamps inside the window |
| `Moderator.CountAll` | auto-mod/src/automoderator.cpp:275-280 | the recount is the number of timestamps held |
| `Moderator.VerdictIsCount` | auto-mod/src/automoderator.cpp:188-232 | unless a later message came first, every verdict is that of counting the unfiltered messages of that chat and user in the full history later than t - window, plus this one, in whatever order that history came |
| `Moderator.CapChangesNothing` | auto-mod/src/automoderator.cpp:250-253 | the cap of the prune never changes a decision |
| `Moderator.OrderIsNeeded` | auto-mod/src/automoderator.cpp:214-217 | for every window and all times t < h, with any phrase list that lets the empty text pass, empty messages at h - window and h make the verdict at t differ from the count |
| `Moderator.CountedIffNoneLater` | auto-mod/src/automoderator.cpp:188-232 | with the phrases of the source, at time t all histories up to h give the counted verdict, for all settings with a given positive window, if and only if h <= t |
| `Moderator.EmptyTextPasses` | auto-mod/src/automoderator.cpp:193-194 | the empty text holds none of these phrases, so the messages of the failing runs reach the spam check |
| `Moderator.TotalAfterWrite` | auto-mod/src/automoderator.cpp:208-219 | writing one tracker changes the total by the change of that tracker |
| `Moderator.CountIsTotalAndDropped` | auto-mod/src/automoderator.cpp:206-226 | in every reachable state, for any order of calls, the counter is the number of timestamps held plus those dropped by per-user erases since the last prune that ran, so it is exact if and only if none was dropped |
| `Moderator.CountIsUpperBound` | auto-mod/src/automoderator.cpp:206-226 | so it is always at least the number of timestamps held |
| `Moderator.CountCanExceed` | auto-mod/src/automoderator.cpp:214-219 | two empty messages of one user a window apart, with any phrase list that lets them pass: one timestamp is held and two are counted |
| `Moderator.PruneIsExact` | auto-mod/src/automoderator.cpp:255-280 | right after a prune that ran the counter is exact, nothing empty is kept and every timestamp is later than the cutoff |
| `Moderator.PrunesIffMutedBeyondCap` | auto-mod/src/automoderator.cpp:201-281 | a message that passes the filter prunes if and only if it is muted with the counter beyond the cap: then all timestamps left are inside the window, else nobody else's tracker is touched |
| `Substitution.ReplaceAll` | rp-service/src/service/variable_substitutor.h:9-20 | the in-place loop terminates even when `to` contains `from`, and is one left-to-right pass; an empty `from` changes nothing |
| `Substitution.SplitExists` | rp-service/src/service/variable_substitutor.h:16-19 | every text splits at the leftmost non-overlapping occurrences of the pattern |
| `Substitution.SplitIsUnique` | rp-service/src/service/variable_substitutor.h:16-19 | and in only one way |
| `Substitution.ReplacesLeftmost` | rp-service/src/service/variable_substitutor.h:9-20 | replaceAll replaces exactly these occurrences and keeps everything between them |
| `Substitution.SubstituteVariables` | rp-service/src/service/variable_substitutor.h:22-32 | the three passes in order |
| `Substitution.PassIsOneMoreRule` | rp-service/src/service/variable_substitutor.h:28-30 | a pass after a simultaneous substitution is one more rule of it, for all brace-led patterns when no insertion can overlap the new pattern |
| `Substitution.SafeSuffices` | rp-service/src/service/variable_substitutor.h:22-32 | for a safe mention the sequential passes equal the simultaneous substitution, for every template and second mention |
| `Substitution.UnsafeDiffers` | rp-service/src/service/variable_substitutor.h:22-32 | for every unsafe mention there is a template on which they differ |
| `Substitution.SequentialIsSimultaneousIffSafe` | rp-service/src/service/variable_substitutor.h:22-32 | the three passes equal one simultaneous substitution for all templates and second mentions if and only if the mention can share no byte with an occurrence of {mention} or {mention2} (being {mention} itself is harmless) |
| `Substitution.OrdinaryIsSafe` | rp-service/src/service/variable_substitutor.h:22-32 | a mention without braces and with some character outside {}mention12 is safe |
| `Substitution.FramedIsSafeIff` | rp-service/src/service/variable_substitutor.h:22-32 | a mention whose first and last bytes are foreign to placeholders is safe exactly when it contains neither placeholder |
| `Substitution.IdIsSafeIff` | rp-service/src/service/rp_service.cpp:173 | a decimal id is safe exactly when it is not 2 |
| `Substitution.MentionUser` | core/src/utils/helpers.cpp:92-102 | the escape loop and the link around it |
| `Substitution.EscapeShowsName` | core/src/utils/helpers.cpp:95-100 | whatever the name, the escaped one starts no markup, and Markdown shows it as the name |
| `Substitution.EscapeContains` | core/src/utils/helpers.cpp:95-100 | escaping a display name neither makes nor breaks a placeholder |
| `Substitution.NamedMentionIsSafeIff` | core/src/utils/helpers.cpp:92-102 | a mention by display name is safe exactly when the name contains neither {mention} nor {mention2} |
| `Triggers.OrIsAddition` | rp-service/src/service/rp_service.cpp:49-50 | `0xD0 \|` always sets the bit worth 0x400, so the two bytes are those of the model |
| `Triggers.ToLower` | rp-service/src/service/rp_service.cpp:26-58 | the loop computes `Lower` |
| `Triggers.LowerKeepsLength` | rp-service/src/service/rp_service.cpp:26-58 | on every byte string the fold keeps the length |
| `Triggers.LowerIdempotentIff` | rp-service/src/service/rp_service.cpp:37-51 | folding twice is folding once exactly when no sequence read as a pair has a value below 0x30 |
| `Triggers.LowerMapsPoints` | rp-service/src/service/rp_service.cpp:26-58 | on encoded text the fold maps code points one by one: A-Z and U+0400 to U+042F lowered, U+0080 to U+03FF moved up by 0x400, the rest fixed |
| `Triggers.LowerOfWellFormed` | rp-service/src/service/rp_service.cpp:26-58 | well-formed text stays well-formed |
| `Triggers.LowerIsIntendedIff` | rp-service/src/service/rp_service.cpp:23-25 | the comment that other code points pass through is right exactly for text without code points in U+0080 to U+03FF |
| `Triggers.Trim` | rp-service/src/service/rp_service.cpp:60-70 | the two loops compute `TrimOf` |
| `Triggers.TrimSplits` | rp-service/src/service/rp_service.cpp:60-70 | trim takes whitespace off both ends, and all of it |
| `Triggers.NormalizeTrigger` | rp-service/src/service/rp_service.cpp:74-76 | trim, then fold |
| `Triggers.NormalIsTrimmed` | rp-service/src/service/rp_service.cpp:74-76 | normalising keeps the length of the trimmed trigger and leaves nothing to trim |
| `Triggers.NormalIdempotentIff` | rp-service/src/service/rp_service.cpp:74-76 | a normal form is its own normal form exactly when no two bytes of the trimmed trigger are read as a pair with a value below 0x30 |
| `Triggers.NormalIdempotent` | rp-service/src/service/rp_service.cpp:74-76 | so normalising is idempotent on well-formed triggers |
| `Triggers.OneWordIff` | rp-service/src/service/rp_service.cpp:60-70 | a text has one word if and only if its trimmed text is a nonempty one without whitespace, and that is the word |
| `Triggers.NormalIsWordIff` | rp-service/src/service/rp_service.cpp:72-88 | the normal form of a one-word trigger is one word of the same length; for a well-formed trigger it is one word only then |
| `RpService.RpService.SeedDefaults` | rp-service/src/service/rp_service.cpp:138-156 | seeds once, and only when there are defaults; adds what is missing and keeps what is there |
| `RpService.AddMissing` | rp-service/src/service/rp_service.cpp:152-154 | offering every default with set-if-absent, in any order, yields the defaults overridden by the existing commands |
| `RpService.RpService.Match` | rp-service/src/service/rp_service.cpp:158-184 | the answer to a message and the seeded store |
| `RpService.RpService.AddCommand` | rp-service/src/service/rp_service.cpp:186-206 | validation, seeding, the test for an existing command, and the new store |
| `RpService.RpService.RemoveCommand` | rp-service/src/service/rp_service.cpp:208-217 | success exactly for a valid trigger that is there, and the new store |
| `RpService.RpService.EditCommand` | rp-service/src/service/rp_service.cpp:219-236 | success exactly for valid input and an existing command, and the new store |
| `RpService.RpService.ListCommands` | rp-service/src/service/rp_service.cpp:238-241 | the seeded commands |
| `RpService.SeedingKeepsValues` | rp-service/src/service/rp_service.cpp:150-155 | seeding, whenever it happens, changes no existing value in any chat |
| `RpService.NonemptyMeansSeededIff` | rp-service/src/service/rp_service.cpp:138-156 | over all runs from an empty store a nonempty command set implies the seeded flag, if and only if the fixed defaults are nonempty |
| `RpService.RemovedStaysAbsent` | rp-service/src/service/rp_service.cpp:138-217 | a successfully removed trigger stays absent in every further run until a successful add of it: seeding never revives it |
| `RpService.RemoveThenNoMatch` | rp-service/src/service/rp_service.cpp:158-217 | and no message whose first word has that normal form is answered |
| `RpService.AddThenMatch` | rp-service/src/service/rp_service.cpp:158-236 | after a successful add or edit every message whose first word has the same normal form gets the trimmed response with its mentions filled in, over any run until an edit or removal of that normal form succeeds |
| `RpService.ResponseIsFilled` | rp-service/src/service/rp_service.cpp:173-183 | that response is the trimmed one with the given names filled in; the id of the user stands in for a missing first name, the id of the user replied to, if any, for a missing second one; for a safe first name it is the simultaneous substitution |
| `RpService.StoredNameNormalisesIff` | rp-service/src/service/rp_service.cpp:74-88 | typing a stored name calls the command exactly when no two bytes of its trimmed trigger are read as a pair with a value below 0x30 |
| `RpService.ListedNameMatches` | rp-service/src/service/rp_service.cpp:158-241 | for a well-formed trigger the listed name, followed by anything, gets the response |
| `RpService.IdStandsInIff` | rp-service/src/service/rp_service.cpp:173 | with the user id in place of a missing name, the response is the simultaneous substitution for every template exactly when the id is not 2 |
| `RpService.MatchedIffTaken` | rp-service/src/service/rp_service.cpp:158-171 | a message is answered if and only if it has a word and the normal form of the first one is a command of the chat or a default of a chat not yet seeded |
| `RpService.AcceptableSucceedsIff` | rp-service/src/service/rp_service.cpp:186-236 | every one-word trigger of at most 64 bytes with a trimmed response of 1 to 2000 bytes is added if and only if its normal form is neither a command of the chat nor a default still to come, and edited or removed if and only if it is a command |
| `RpService.OnlyAcceptableSucceeds` | rp-service/src/service/rp_service.cpp:186-236 | for a well-formed trigger nothing else is ever added, edited or removed |
| `RpService.DefaultsAnswer` | rp-service/src/service/rp_service.cpp:138-184 | in every chat and every run from an empty store each default answers until an edit or removal of it succeeds |
| `Numbers.IntReadsBack` | rp-service/src/service/rp_service.cpp:173-177 | `std::to_string` is read back, for every integer |
| `Callbacks.TdlibClient.SendRequest` | core/src/tdlib/tdlib_client.cpp:104-115 | request ids are given out in order and a given callback is filed under its own id |
| `Callbacks.TdlibClient.Receive` | core/src/tdlib/tdlib_client.cpp:516-531 | an answer takes its callback out of the table once and files the send, reports the failure or removes the file |
| `Callbacks.TdlibClient.RemovePendingDocument` | core/src/tdlib/tdlib_client.cpp:388-403 | the entry is taken out and its file removed |
| `Callbacks.TdlibClient.SettlePendingSend` | core/src/tdlib/tdlib_client.cpp:411-428 | the entry is taken out and its callback called with the confirmed id |
| `Callbacks.TdlibClient.HandleDocumentSendFailure` | core/src/tdlib/tdlib_client.cpp:430-439 | the order of the three table updates for a failed send |
| `Callbacks.TdlibClient.HandleDeletedMessages` | core/src/tdlib/tdlib_client.cpp:441-451 | the loop drops and settles every deleted message |
| `Callbacks.TdlibClient.ProcessUpdate` | core/src/tdlib/tdlib_client.cpp:453-482 | the table updates of each kind of update |
| `Callbacks.EffectsAtMostOnce` | core/src/tdlib/tdlib_client.cpp:163-239 | for any order of sends, answers, outcomes and deletions every onSent is called and every temp file removed at most once |
| `Callbacks.ConservedIffNoClash` | core/src/tdlib/tdlib_client.cpp:163-239 | each tracked send and each temp file is still waiting or was dealt with, if and only if no message id was handed out again while a send waited under it |
| `Callbacks.CompletedIsDone` | core/src/tdlib/tdlib_client.cpp:411-451 | without such a clash, a send answered with an error, or answered and then confirmed, failed or deleted, has had its callback called, exactly once |
| `Callbacks.DoneIffCompleted` | core/src/tdlib/tdlib_client.cpp:411-451 | and no other send has: a tracked text send has been called if and only if it was answered, by an error or with a message whose outcome came after the answer |
| `Callbacks.CallsReportOutcomes` | core/src/tdlib/tdlib_client.cpp:163-191 | in every run, clashes included, each call reports what happened to its own message: 0 for an error answer, else the id given by the first outcome of its message after the answer |
| `Callbacks.CalledIffReported` | core/src/tdlib/tdlib_client.cpp:163-191 | without a clash a call with a value is made if and only if that is what happened |
| `Callbacks.EffectsFitRequests` | core/src/tdlib/tdlib_client.cpp:163-239 | calls are made for text sends and files removed for documents |
| `Updates.TextUpdates` | core/src/tdlib/tdlib_client.cpp:430-482 | a text on its way as (chat, temp): the send-succeeded update calls onSent with the final id, the send-failed one with 0, and a deletion with 0 if and only if it lists temp |
| `Updates.DocumentUpdates` | core/src/tdlib/tdlib_client.cpp:430-482 | a document on its way: each of these removes its file, and so does a failure under the id it was given instead |
| `Updates.ToldIffFate` | core/src/tdlib/tdlib_client.cpp:104-531 | in every run of requests, answers and updates onSent has been called with id if and only if the story of that one request, told from the events alone, ends so |
| `Updates.RemovedIffFate` | core/src/tdlib/tdlib_client.cpp:216-531 | and a temp file has been removed if and only if the story of its request says so |
| `Broadcast.Counters.OnSent` | core/src/commands/moderation_commands.cpp:636-657 | the pending and sent counters and the summary at zero |
| `Broadcast.SelectChats` | core/src/commands/moderation_commands.cpp:620-629 | private chats of banned users are left out, and nobody else; chosen and excluded chats add up to the known ones |
| `Broadcast.ChatsReached` | core/src/commands/moderation_commands.cpp:616-629 | a known chat gets a send as often as it is known, unless it is the private chat of a banned user, which gets none |
| `Broadcast.ReachedInOrder` | core/src/commands/moderation_commands.cpp:620-629 | in the order of the known chats |
| `Broadcast.ExecuteGNotify` | core/src/commands/moderation_commands.cpp:601-664 | the three refusals, and one tracked text send to each reachable chat |
| `Broadcast.SendsAreIssued` | core/src/commands/moderation_commands.cpp:638-643 | these sends are the next requests of the run, one per chat |
| `Broadcast.CountersCount` | core/src/commands/moderation_commands.cpp:643-657 | the counters count settled and confirmed sends, and the summary comes with the last settled one, not before and not again |
| `Broadcast.OneSummary` | core/src/commands/moderation_commands.cpp:634-661 | for every order of events there is at most one summary, it is there exactly when every send is done, and then confirmed + failed + excluded = known |
| `Broadcast.BroadcastSummary` | core/src/commands/moderation_commands.cpp:601-664 | the same for a broadcast to the reachable ones of the known chats, started after any run and followed by any run |
| `Broadcast.SummaryIffCompleted` | core/src/commands/moderation_commands.cpp:634-661 | without id clashes the summary has been sent if and only if every send was answered and, unless by an error, had its outcome after the answer |
| `Broadcast.ConfirmedMeans` | core/src/commands/moderation_commands.cpp:645-648 | a chat counted as reached had its own message confirmed under a positive id, by its first outcome after the answer |
| `Broadcast.SummaryTellsFates` | core/src/commands/moderation_commands.cpp:634-661 | in every run of requests, answers and updates there is no summary until each send has been told its outcome, and then one that counts the sends whose story ends with a positive id |
| `Ranks.Database.GetChatRank` | core/src/database/db_manager.cpp:164-180 | 0 for developers, the stored rank, or 4 |
| `Ranks.Database.RequireRank` | core/src/commands/moderation_commands.cpp:417-426 | true exactly when the caller ranks at least as high as required |
| `Ranks.Database.CanModerateTarget` | core/src/commands/moderation_commands.cpp:428-432 | true exactly when the target ranks below the caller |
| `Ranks.Database.FinishRankChange` | core/src/commands/moderation_commands.cpp:674-690 | writes exactly when the admin status fits the new rank |
| `Ranks.OwnersNeverGrow` | core/src/commands/moderation_commands.cpp:458-476 | in every interleaving of the checks and writes of any number of /rank commands by anybody, no owner is ever added |
| `Ranks.OwnersStay` | core/src/commands/moderation_commands.cpp:666-722 | by callers that are no developers the owners stay exactly the same, although the write comes long after the checks |
| `Ranks.GrantsAreLower` | core/src/commands/moderation_commands.cpp:666-722 | with a required rank of at most 1, whoever grants a rank is still an owner when it is written, and grants a lower one |
| `Ranks.LowerIffRequiredAtMostOne` | core/src/commands/moderation_commands.cpp:717-722 | grants are always below the granter if and only if the required rank is at most 1 |
| `Ranks.DeveloperDemotesOwner` | core/src/commands/moderation_commands.cpp:666-722 | from every state with a developer, one /rank command takes ownership away from any owner, if anybody may ask |
| `Ranks.OwnerIsSafeIff` | core/src/commands/moderation_commands.cpp:666-722 | an owner stays one in every run of anybody's commands if and only if nobody may ask or there are no developers |
| `Ranks.RanksAreGranted` | core/src/commands/moderation_commands.cpp:666-722 | in every interleaving a stored rank is the one of the start or was asked for by a member of the same chat whose rank sufficed then, for a target ranked below the caller when resolved, and confirmed with the admin status that fits it |
| `Ranks.RequestIsWrittenIff` | core/src/commands/moderation_commands.cpp:666-722 | conversely, whatever happens in between, a request that passed both checks is written at its answer if and only if the target is a Telegram admin for ranks 2 and 3 and none for rank 4 |
| `Throttle.RateLimit.AllowCommand` | core/src/commands/moderation_commands.cpp:331-341 | the answer and the new table of one call |
| `Throttle.AcceptedSpaced` | core/src/commands/moderation_commands.cpp:331-341 | accepted commands of one user are a cooldown apart, whatever the clock does |
| `Throttle.RateBound` | core/src/commands/moderation_commands.cpp:331-341 | in any interval [a, b] of any run at most floor((b - a) / c) + 1 commands of one user are accepted |
| `Throttle.RejectedOnlyIfHot` | core/src/commands/moderation_commands.cpp:334-338 | a command is dropped exactly when the last accepted one of the same user is less than a cooldown old |
| `Throttle.UsersIndependent` | core/src/commands/moderation_commands.cpp:331-341 | a user's accepted commands are those of the run without all other users |
| `Throttle.ChatMemory.Remember` | core/src/commands/moderation_commands.cpp:1008-1016 | the loop keeps the last ten messages of the chat |
| `Throttle.MemoryIsLastMessages` | core/src/commands/moderation_commands.cpp:1008-1026 | what is remembered of a chat is the last ten messages of its whole history |
| `Throttle.MemoryEndsLikeHistory` | core/src/commands/moderation_commands.cpp:1008-1026 | it holds ten messages, or all there were, and is the end of the history |
| `Json.AppendJsonEscaped` | auto-mod/src/automoderator.cpp:99-111 | one byte by table |
| `Json.JsonEscape` | auto-mod/src/automoderator.cpp:114-123 | the loop writes `Quoted` |
| `Json.AppendEscaped` | auto-mod/src/logger.cpp:16-36 | the switch-based escaper of the logger writes the same `Quoted` on every input |
| `Json.EscapedReadsBack` | auto-mod/src/automoderator.cpp:99-123 | a reader of the escapes of section 7 of RFC 8259 that takes any byte from 0x20 on gets every byte string back, whatever follows the closing quote |
| `Json.EscapedIsPrintable` | auto-mod/src/automoderator.cpp:99-111 | no byte below 0x20 is ever written |
| `Json.QuotedIsWellFormed` | auto-mod/src/automoderator.cpp:114-123 | well-formed UTF-8 is quoted as well-formed UTF-8 |
| `LogRecords.Format` | auto-mod/src/logger.cpp:43-71 | the record of a payload, structured or not |
| `LogRecords.OneLineIff` | auto-mod/src/logger.cpp:62-70 | a record has exactly one newline, as its last byte, if and only if its payload is unstructured, or structured and free of newlines |
| `LogRecords.MessageReadsBack` | auto-mod/src/logger.cpp:62-70 | an unstructured payload is recovered byte for byte from its record |
| `LogRecords.MessageIsWellFormed` | auto-mod/src/logger.cpp:62-70 | a well-formed message gives a well-formed record |
| `LogRecords.LogDecision` | auto-mod/src/automoderator.cpp:140-170 | the payload of a decision is the members of `DecisionMembers` in order |
| `LogRecords.ObjectReadsBack` | auto-mod/src/automoderator.cpp:140-170 | a written object is read back member by member, whatever the strings hold |
| `LogRecords.DecisionReadsBack` | auto-mod/src/automoderator.cpp:137-175 | every decision record is one line and one JSON object from which a reader that takes any byte from 0x20 on gets the ids, the verdict and the clipped message back byte for byte |
| `LogRecords.DecisionMembersAre` | auto-mod/src/automoderator.cpp:140-170 | these members are, in this order, the event, the ids, the name of the action, the flag, the message clipped to 50 bytes, and the pattern and the skip reason if not empty |
| `LogRecords.DecisionIsWellFormed` | auto-mod/src/automoderator.cpp:137-175 | for a well-formed message the record is well-formed UTF-8 too: clipping and escaping cut no character apart |
| `Tables.MergeTables` | scripts/build.sh:30-37 | the loop over the overriding table, recursive on sub-tables, computes `Merge` |
| `Tables.MergeGets` | scripts/build.sh:30-37 | what the merged table holds under each key |
| `Tables.PrivateWins` | scripts/build.sh:12-16 | at every path the private scalar wins; without one the public scalar stays, unless the private file has a table in its place or a scalar on the way |
| `Tables.MergeAgain` | scripts/build.sh:72-77 | merging the public table with the merged one, scalars first, gives the merged one again, order included |
| `Tables.WriteAgain` | scripts/build.sh:60-77 | merging it with what was written of the merged one writes the same, where no private table without scalars hides a public scalar |
| `Tables.CanonTwice` | scripts/build.sh:61-69 | putting scalars before tables twice is doing it once |
| `Toml.FormatString` | scripts/build.sh:40-45 | the two replacements and the quotes |
| `Toml.EscapedIs` | scripts/build.sh:40-45 | the two sequential replacements are one byte-wise escape |
| `Toml.StringReadsBackIff` | scripts/build.sh:40-45 | a TOML reader gets a string back from its text, after the loader has turned CRLF into LF, if and only if it has no control characters other than tab and newline and does not begin with a newline |
| `ConfigFile.Format` | scripts/build.sh:48-57 | the text of each kind of scalar |
| `ConfigFile.Write` | scripts/build.sh:60-69 | scalars under their header, then the sub-tables, appended to the file |
| `ConfigFile.EmitCanon` | scripts/build.sh:60-69 | the written text depends only on the order scalars first, tables second |
| `ConfigFile.EmitWritten` | scripts/build.sh:60-69 | sub-tables without scalars leave no trace in it |
| `ConfigFile.EmitRead` | scripts/build.sh:60-69 | the text of a table is read as its headers and settings, whatever follows |
| `ConfigFile.ItemsOpenOnce` | scripts/build.sh:60-69 | no header is written twice, so a loader that refuses a repeated one takes the file |
| `ConfigFile.BuildsCanon` | scripts/build.sh:60-69 | these build the table, scalars first |
| `ConfigFile.WrittenLoads` | scripts/build.sh:60-77 | for all nested tables with bare keys and scalars that print and read back, loading the written file gives the table, scalars first and without the sub-tables that hold no scalar |
| `ConfigFile.LoadsAllIffFull` | scripts/build.sh:60-77 | so it gives the whole table if and only if no sub-table is empty |
| `ConfigFile.BuildMeansMerge` | scripts/build.sh:12-77 | after a build, loading the file gives at every path the private scalar, or else the public one unless private blocks it |
| `ConfigFile.SecondBuildWritesTheSame` | scripts/build.sh:72-77 | building again from the same public file and the file just written writes the same text if and only if no private table without scalars stands where the public file has a scalar |
| `ConfigFile.EmptyTableIsForgotten` | scripts/build.sh:63-66 | the smallest such case: an empty private table is not written, so it hides a public scalar in the first build only |

## Left out

- Assumptions of the archive cache: URLs in use have distinct FNV hashes, removing a path succeeds, the work directory starts empty, and the clock never goes back, although the source reads the system clock. Trimming and checking of URLs, archive names and log events are not modelled; what git, zip and the file system do is chosen freely by each step.
- Machine integers are unbounded: 32- and 64-bit wrap-around, `size_t` overflow and the casts of sizes are not modelled.
- Timestamps and the spam window are reals, not doubles.
- Strings are byte sequences; the phrases of the keyword filter are code point strings encoded by the model's own encoder. Capacity hints (`reserve`) have no counterpart.
- Moderator.AutoModerator.ProcessMessage: the mutex that makes calls atomic and the log line of each decision are not part of the class; the record itself is `LogRecords.LogDecision`.
- RpService.RpService.Match: Redis calls are assumed to succeed and operations not to overlap; reading the defaults from their JSON file, reply texts and error texts are left out.
- Callbacks.TdlibClient.Receive: callbacks that send again run after the event they belong to, since sending only adds to the callback table; markdown parsing, edits, authorisation and the file system itself are left out.
- Broadcast.ExecuteGNotify: the counters are told about each send by the recorded effects of the client, in order; the atomics of the counters are not modelled beyond that.
- Ranks.Database.GetChatRank: PostgreSQL is a set of developers and a map of ranks; the developers' table does not change during a run, and the other moderation actions, which use the same check, are not modelled.
- Throttle.RateLimit.AllowCommand: the clock is a parameter.
- Json.EscapedReadsBack: the reader takes any byte from 0x20 on, where RFC 8259 speaks of code points, and rejects `\u` escapes of surrogates, which the escapers never write.
- LogRecords.Format: time stamp, level and logger name are given as text that needs no escaping; the reader reads flat objects without whitespace only.
- ConfigFile.WrittenLoads: floats are kept as the text Python prints; arrays and dates, which the script refuses, quoted keys, `\u` escapes, underscores in numbers and line-ending backslashes are not part of the reader.
- Durations, Markdown escaping outside mentions, HTTP servers and clients, the AI service, signal handling and start-up: no property beyond what one reading shows.
