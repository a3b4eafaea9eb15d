# Masking of personal data: a Dafny model

The service finds personal data in a text, replaces it by masks, keeps the correspondence under a `payload_id`
and restores the text when the mask (or a text holding its masks, such as a language model's answer) comes back.
This project models its core and proves what the parts promise one another:

* **From candidates to a masked text.** `Entities`, `Engine`, `Synthetics`, `Masking`, `MaskingLaws`: the greedy
  choice among overlapping candidates with its two-neighbour check, the "only together with" filter as a greatest
  fixpoint, the masks, and the splicing, told position by position.
* **Restoring.** `Texts`, `Restoration`, `ChatProxy`: `in`, `str.count` and `str.replace`, iterated over a set in any
  order, longest mask first. For bracketed tokens this is a substitution, exactly when no two fragments collide.
* **The `/process` protocol.** `Memory`, `Fallback`, `Protocol`, `Agreement`, `Outage`, `Sequential`, `Processing`
  (file `Processor.dfy`), `Composition`: any number of requests in any number of worker processes, interleaved at
  every awaited store call, over a primary whose calls may time out or be disconnected after or without taking effect
  (then, later or never), and over per-worker fallbacks. `Memory`, `Fallback` and `Processing` also hold the stores
  and the processor as classes.
* **Pure cores around it.** `Luhn`, `AddressSweeps` (file `Address.dfy`), `GoldMatching`, `GoldMetrics`, `GoldLaws`,
  `GoldMeanings`: the card checksum in both implementations, the sweeps and searches of the address detector, and the
  evaluator, whose counters and error rows are also told without the traversals that make them.

How things are modelled: detectors, `isalnum`, `isdigit`, `isalpha`, `isupper`, `isspace`, `int` of a character, the
HMAC digest, the language model and the gap test are arbitrary functions given as parameters; the iteration order of
`set(fragments)` is an arbitrary enumeration; a clock reading is a parameter that does not decrease. `str.replace` and
`str.count` treat the empty pattern as Python does. Exceptions are values (`UnmaskForbidden`, `StoreUnavailable`,
`LeakBlocked`, `Unavailable`).

Four things the proofs bring out:

* Restoring tokens is right exactly when the fragments are collision-free; with six hexadecimal digits that is a
  hypothesis, not a fact (`TokensComeBackIffCollisionFree`).
* A mask sent back while only the fallback has its record can be masked again, as a new text (`OneTimeoutLosesTheText`).
  For one request this happens if and only if its lookup times out and the retry is served, so that the fallback is
  not asked, and then its reservation and reread do not lead back to the fallback's record either (`RecordIsHiddenIff`
  with `HidesTheRecord`, a condition on how the primary's calls go). The repository's own README (line 384) says that
  a timeout is retried and then refused, never silently changing an answer; the code is modelled as it is. For whole
  runs the guarantee is proved as long as no lookup is retried blindly, that is, served on its retry while the primary
  does not have the id (`OutageRecordsStayUsable`); all other timeouts and disconnections are allowed.
* Where the requests under an id take turns, a live record is replaced only by a foreign payload
  (`OnlyForeignPayloadsReplace`); where they interleave, a request that has read an older record replaces a related
  one exactly when its payload has to do with the record stored in between (`StaleReadReplacesARelatedRecord`).
* The in-memory store calls itself LRU, but reading does not refresh a key: what decides is how many other keys have
  been put since (`Window`).

## Model

| member | source | states |
|---|---|---|
| Entities.MakeEntityContract | app/core/entities.py:73-91 | Nothing is made exactly when every interval is empty; otherwise start < end, the type, priority, subtype and requirement are the given ones, the parts are exactly the non-empty intervals, each as often as given and in order of start and end, and they follow one another exactly when the given ones are pairwise disjoint |
| Engine.TwoNeighboursDecide | app/core/engine.py:47-54 | Against a start-sorted disjoint list, testing the two neighbours of the bisection point is the same as testing every accepted entity, and inserting there keeps the list sorted and disjoint |
| Engine.ResolveOverlaps | app/core/engine.py:42-55 | The loop over two parallel lists accepts exactly what comparing with every accepted entity accepts; the result is start-sorted and disjoint; each accepted one is, of the candidates with its start, end and priority, the one reported first; every candidate overlaps an accepted one of higher priority, or of the same and longer, or of both the same and starting no later |
| Engine.ResolutionIsExact | app/core/engine.py:42-55 | Soundness and maximality of the selection, for every list of candidates, the ranking in numbers |
| Engine.EveryCandidateYields | app/core/engine.py:43-54 | A rejected candidate overlaps an accepted one of at least its rank |
| Engine.AcceptedIffNotBeaten | app/core/engine.py:44-54 | A characterisation free of processing order: a slot is taken if and only if no accepted entity outranks and overlaps it |
| Engine.ResolutionIsCanonical | app/core/engine.py:44-55 | The accepted (start, end, priority) list is a function of the set of slots competed for |
| Engine.PermutationsResolveAlike | app/core/engine.py:44-55 | Every permutation of the candidates gives the same (start, end, priority) list |
| Engine.AcceptedIsFirst | app/core/engine.py:44-55 | Among candidates with the same start, end and priority the one reported first wins |
| Sorting.SortKeepsFirst | app/core/engine.py:44 | The sort is stable: of elements that compare equal the first stays the first |
| Engine.ApplyRequirements | app/core/engine.py:58-73 | The loop ends after at most one pass more than there are types; what is left is exactly what is backed by what is left, where one required type is enough, and it includes every list of entities that back themselves |
| Engine.PassesBounded | app/core/engine.py:67-73 | The bound on the passes, whatever the text length |
| Engine.SupportedIsGreatest | app/core/engine.py:61-73 | Survivors support themselves, keep their order, and include every self-supporting selection |
| Engine.SupportedIsMonotone | app/core/engine.py:58-73 | More entities never make the filter drop more |
| Engine.SupportedByBacking | app/core/engine.py:61-73 | An entity survives if and only if its own requirement and its type's combination are each empty or have a type among the survivors |
| Engine.DetectionEngine.Detect | app/core/engine.py:21-39 | What is handed out is in text order, disjoint, reported, of enabled types and backed; nothing reported is overlooked: every candidate of an enabled type that an applicable detector reports overlaps one ranked at least as high, in numbers, that is handed out or is not backed; without combinations and requirements, one that is handed out |
| Engine.DetectionEngine.DetectedIsInLine | app/core/engine.py:37-39 | What detection promises the masker |
| Engine.DetectionEngine.CandidatesCompete | app/core/engine.py:30-36 | A candidate competes if and only if its type is enabled and some detector reports it that looks for an enabled type and either needs no digits or has them |
| Engine.DetectionEngine.IsNotOverlooked | app/core/engine.py:30-39 | Completeness of detection, for every candidate and all combinations |
| Engine.DetectionEngine.FoundIsReportedFirst | app/core/engine.py:30-44 | Where candidates compete for one place, the detector listed first wins, and of its reports the first |
| Masking.Masker.Chars | app/core/masking.py:123-137 | The in-place loop covers exactly the hidden positions: letters and digits inside the parts, less the kept ends |
| Masking.Masker.PositionsAreMaskables | app/core/masking.py:127-129 | The comprehension over the parts lists the letters and digits inside them in ascending order |
| Masking.Masker.RankLocates | app/core/masking.py:127-136 | A maskable position stands in that list at its rank |
| Masking.Masker.Apply | app/core/masking.py:105-120 | Each of the seven strategies gives its replacement, with the fall-backs of `initials` and `email` |
| Masking.Masker.TokensAreEqualIff | app/core/masking.py:114-115 | Two entities get one token if and only if they are of one type and the digests of their own stretches agree in the first six digits |
| Masking.Masker.LabelsAreEqualIff | app/core/masking.py:116-117 | Two entities get one label if and only if they are of one type |
| Masking.Masker.EmailShows | app/core/masking.py:111-113 | `email` covers exactly what is between the first character and the first @, position by position |
| Masking.Masker.InitialsShowWordStarts | app/core/masking.py:108-110 | `initials` shows exactly the letters that no letter comes before, in order, each with a full stop, a space between them |
| Masking.Masker.SyntheticIsOfTheStretch | app/core/masking.py:139-143 | The synthetic mask is made from the digest of the stretch and the number of letters in it that start a word |
| Synthetics.Alphabet.Synthesize | app/core/masking.py:139-160 | The synthetic mask: a fake name of as many words, a fake address, or a substitute for each character |
| Synthetics.Alphabet.SyntheticKeepsTheFormat | app/core/masking.py:152-160 | Position by position a digit stays a digit, a letter a letter of its case, and everything else itself |
| Synthetics.Alphabet.DigitsComeFromTheDigest | app/core/masking.py:153-155 | A digit becomes the digest's digit at its place modulo ten, the digest being repeated |
| Synthetics.Alphabet.FakeNameByDigits | app/core/masking.py:141-149 | The digest's last digit chooses the surname, its third last the name, its first sixty the patronymic; as many parts as words, at least one and at most three |
| Synthetics.Alphabet.FakeAddressesAreEqualIff | app/core/masking.py:150-151 | Two fake addresses are the same if and only if the digests agree in the first six digits |
| Masking.Masker.Mask | app/core/masking.py:90-102 | The chunk loop splices the replacements into the text; each fragment is the entity's replacement, under its type's rule or else the plain `full` one, and the stretch of text it covers |
| MaskingLaws.CharacterMasksArePointwise | app/core/masking.py:90-137 | Under any mixture of rules that hide characters: same length, each entity's mark exactly over what its rule hides, the text elsewhere |
| MaskingLaws.FullMaskIsPointwise | app/core/masking.py:90-137 | Under `full` rules: same length, the mark exactly over letters and digits inside the parts, the text elsewhere |
| MaskingLaws.FragmentsRebuildTheText | app/core/masking.py:90-102 | One list of gaps, woven with the masks, is the masked text and, woven with the originals, is the text |
| MaskingLaws.PartialHidesTheMiddle | app/core/masking.py:130-136 | `partial` hides all n letters and digits when n <= keep_start + keep_end, otherwise exactly those between the kept ends |
| MaskingLaws.PartialHiddenCount | app/core/masking.py:130-136 | It hides n of them, or n - keep_start - keep_end |
| Texts.CountIsPositiveIff | app/core/masking.py:174-176 | A text's count of a mask is positive if and only if the mask is in the text |
| Texts.ReplaceChangesNothing | app/core/masking.py:174-177 | Replacing what is not in the text changes nothing, so skipping is right |
| Texts.ReplaceIsSplitAndJoin | app/core/masking.py:176-177 | Replacing a non-empty pattern is joining with the new text what the pattern splits, and the count is the number of parts less one |
| Texts.PartsHoldNoPattern | app/core/masking.py:176-177 | The parts hold no occurrence of the pattern, and none begins before the end of a part: the replaced occurrences are the leftmost ones |
| Restoration.RestoreFragments | app/core/masking.py:166-179 | The loop computes the restored text and the number of replacements; that is 0 if and only if no mask different from its original is in the input, which then comes back unchanged; a mask sent by itself comes back as its original with one replacement, whatever shorter masks are a part of it, when it has one original and that holds no mask |
| Restoration.ReportsReplacementsExactly | app/core/masking.py:172-179 | The same for every enumeration of the set of fragments |
| Restoration.MaskComesBack | app/core/masking.py:169-179 | The longest-first order keeps a shorter mask from eating a part of a longer one: for masks of any strategy and every enumeration of the set |
| Restoration.TokensMatchWhole | app/core/masking.py:115 | A bracketed token that starts another token followed by anything is that token |
| Restoration.ReplaceInPieces | app/core/masking.py:176-177 | One replacement pass over literals and tokens replaces and counts exactly the pieces that are that token |
| Restoration.TokenRestorationIsSubstitution | app/core/masking.py:166-179 | Over any text of '['-free literals and tokens, in any set order, exactly the known tokens become their originals and exactly they are counted |
| Restoration.TokensComeBackIffCollisionFree | app/core/masking.py:166-179 | Every token comes back as its original if and only if no two fragments share a token with different originals |
| ChatProxy.Handle | app/core/chat_proxy.py:44-76 | A message whose masked form still yields detections is not sent; otherwise exactly the masked text is sent and the answer restored |
| ChatProxy.TokenBodyIsClean | app/core/masking.py:115 | A token has no bracket inside |
| ChatProxy.TokenEchoRestoresTheMessage | app/core/chat_proxy.py:44-66 | All tokens, a '['-free message and no collision: an answer repeating the masked text inside '['-free words is restored to the message inside them, one replacement per entity |
| Memory.MemoryStore.Get | app/storage/memory.py:23-31 | Returns the latest put exactly while now <= put time + ttl and fewer than max_items other keys have been put since |
| Memory.MemoryStore.PutRecord | app/storage/memory.py:39-43 | Adds to the history, keeps the invariant, and leaves at most max_items keys |
| Memory.MemoryStore.PutIfAbsent | app/storage/memory.py:33-37 | Stores if and only if a reader would find nothing, the clock being read twice |
| Memory.FrontExpiresFirst | app/storage/memory.py:39-43 | Expiry times do not decrease along the order, so eviction drops one that expires soonest |
| Memory.EvictionKeepsConsistent | app/storage/memory.py:42-43 | Evicting the front drops only a key that max_items others have followed |
| Memory.ExpiredPopKeepsConsistent | app/storage/memory.py:28-30 | Popping an expired key on reading loses nothing a reader is promised |
| Memory.SinceAreTheLaterOnes | app/storage/memory.py:39-43 | The keys put since a key's last put are those whose last put is later |
| Fallback.FallbackStore.HandleError | app/storage/fallback.py:83-102 | Retry once on a timeout, switch over on anything else, refuse on the second timeout; both stores, the answer and the number of primary calls |
| Fallback.FallbackStore.GetRecord | app/storage/fallback.py:48-55 | Reading, with the fallback asked after the first primary call finds nothing |
| Fallback.FallbackStore.PutRecordIfAbsent | app/storage/fallback.py:57-66 | Storing if absent, in both stores' terms |
| Fallback.FallbackStore.PutRecord | app/storage/fallback.py:68-74 | Storing, in both stores' terms |
| Fallback.ServedAtOnce | app/storage/fallback.py:48-74 | A served first call answers after one primary call, a lookup that finds nothing from the fallback |
| Fallback.RetriedAfterATimeout | app/storage/fallback.py:34-102 | After a raw timeout or one wrapped by the Redis store the primary is called again: served, it answers and the fallback is untouched; timed out in either form, the operation is refused; disconnected in either form, the fallback answers |
| Fallback.SwitchedOverAfterADisconnection | app/storage/fallback.py:34-102 | After a lost connection, raw or wrapped, the fallback answers after one primary call |
| Fallback.SuccessfulWritesAreKept | app/storage/fallback.py:57-74 | A write reported as done has left the record in the primary or the fallback |
| Fallback.RefusedIffTwoTimeouts | app/storage/fallback.py:90-100 | Refused if and only if two primary calls time out; there were no others and the fallback is untouched |
| Fallback.FallbackRecordOverlookedIff | app/storage/fallback.py:48-94 | A record only the fallback has is overlooked if and only if the first call times out and the retry is served |
| Fallback.OwnRecordReportedAsForeignIff | app/storage/fallback.py:57-94 | put_if_absent denies its own record if and only if the first call timed out after taking effect and the retry was served |
| Fallback.HealthyPrimarySimulation | app/storage/fallback.py:48-74 | Over a primary that never fails, every sequence of operations behaves as on the primary alone |
| Fallback.DeadPrimarySimulation | app/storage/fallback.py:83-102 | Over a primary always disconnected, every sequence behaves as on the fallback alone |
| Protocol.RunKeepsTraced | app/core/processor.py:46-82 | Every record anywhere, at rest or under way, was made from a text submitted under its own id, in every run |
| Protocol.AnswersStayWithinTheId | app/core/processor.py:46-82 | In every run a finished request was refused for want of a store, masked anew, or answered from a record of its own id |
| Protocol.SameTextSameMask | app/core/processor.py:46-67 | One text and one policy per id: whatever times out, disconnects, expires or is evicted, each finished request got that text's mask or StoreUnavailable |
| Protocol.WithoutUnmaskingOnlyMasks | app/core/processor.py:59-75 | A system that may not unmask only ever gets a mask of the very text it sent |
| Agreement.RunKeepsAgreed | app/core/processor.py:46-75 | The invariant of runs in which nothing fails or is lost under an id |
| Agreement.RequestsAgree | app/core/processor.py:46-71 | In them, under any mix of policies, exactly one request makes the record; all carrying the text get its mask; all sending the mask back get the text, and all sending a text that holds its masks get them restored, or are refused when they may not unmask |
| Agreement.RecordNeverChanges | app/core/processor.py:46-75 | In them a record, once there, stays as it is |
| Outage.OutageRecordsStayUsable | app/storage/fallback.py:48-102 | A record that landed in a worker's fallback answers every later request with its text or mask, under any policy, or the request is told that the store is unavailable; through any timeouts and disconnections, also after the primary is back, as long as no lookup is retried blindly |
| Outage.LandInFallback | app/storage/fallback.py:83-102 | A run in which a record lands in the fallback |
| Outage.OneTimeoutLosesTheText | app/storage/fallback.py:93-94 | With one timeout and a served retry, that record's mask is masked again instead of restored |
| Sequential.SequentialContract | app/core/processor.py:46-75 | An undisturbed request is finished after at most three calls, its record coming from the primary or else the fallback; a live record is superseded if and only if the payload is neither its text nor its mask nor holds its masks |
| Sequential.RunKeepsInTurn | app/core/processor.py:46-75 | The invariant of runs in which the requests under an id take turns: what a request is about to do fits the live record, and a put is pending only for a payload foreign to it |
| Sequential.OnlyForeignPayloadsReplace | app/core/processor.py:59-75 | In such runs, whatever goes on under other ids, the record of the id changes only when a payload foreign to it, or the first one, is stored |
| Sequential.SequentialRunsFollowTheTable | app/core/processor.py:46-75 | In such runs each request's answer, and the record it leaves, are what the table gives for the record there was on its arrival |
| Sequential.StaleReadReplacesARelatedRecord | app/core/processor.py:46-75 | Interleaved, two requests that read one record foreign to both: the second put replaces a related record if and only if its payload has to do with the record the first one stored |
| Processing.Processor.Process | app/core/processor.py:46-57 | One request over the two stores: the answer and both stores are those of Conclude, whatever the primary's calls do |
| Processing.Processor.ProcessExisting | app/core/processor.py:59-75 | The same from a record that has been found |
| Processing.Processor.MaskText | app/core/processor.py:77-82 | Detection, masking and the record made of them |
| Processing.RequestIsARun | app/core/processor.py:46-75 | Conclude is a run of the interleaved model in which nothing interleaves: same answer, same stores |
| Processing.OperationIsARun | app/storage/fallback.py:48-102 | The single calls the interleaving is made of, left alone, are FallbackStore's operations |
| Processing.RecordIsHiddenIff | app/storage/fallback.py:48-102 | A request with the mask of a record only the fallback has is masked anew if and only if the lookup is retried blindly and the reservation and reread do not lead back to that record; one with the text then gets its own policy's mask; otherwise either is answered from the record or told that the store is unavailable |
| Processing.ReservationEnds | app/core/processor.py:49-57 | The same from the reservation on |
| Processing.RereadEnds | app/core/processor.py:52-57 | The same from the reread on |
| Composition.EchoComesBackThroughProcess | app/core/processor.py:59-71 | Engine, masker and protocol together: the token mask kept under an id, echoed inside '['-free words, is answered with the message inside them, or refused; the record stays |
| Composition.EchoComesBackInCalmRuns | app/core/processor.py:46-71 | The same in every run in which nothing fails or is lost under the id, however the requests interleave |
| Composition.WithoutUnmaskingOnlyCoveredTexts | app/core/processor.py:46-82 | With `full` rules on the id, a system that may not unmask gets a text as long as its own with every detected letter and digit covered |
| Luhn.LuhnValid | app/core/detectors/base.py:52-62 | The detector's loop decides validity by the weighted sum from the right; on ASCII digits that is the standard's sum, every second digit from the right replaced by the digit sum of its double |
| Luhn.LuhnOk | scripts/format_matrix.py:38-43 | The script's loop decides the same of the digits int() reads, and raises exactly when some character is no digit |
| Luhn.LuhnSumIsStandard | app/core/detectors/base.py:55-61 | The recursive sum is the standard's one, prefix by prefix |
| Luhn.AsciiIsItself | scripts/format_matrix.py:38-43 | On ASCII digits the two implementations therefore agree |
| Luhn.LuhnSumOfConcat | app/core/detectors/base.py:55-61 | The sum of a concatenation, the doubling shifted by the length of the right part |
| Luhn.OneDigitChangeIsCaught | app/core/detectors/base.py:52-62 | Changing one digit of a valid number makes it invalid |
| Luhn.TranspositionIsCaughtUnlessZeroNine | app/core/detectors/base.py:52-62 | Exchanging two different neighbouring digits keeps a number valid if and only if they are 0 and 9 |
| Luhn.ExactlyOneCheckDigit | scripts/format_matrix.py:46-48 | Every prefix has exactly one check digit |
| Luhn.MakeCard | scripts/format_matrix.py:46-48 | The search finds one for every prefix, and the card it gives is valid |
| AddressSweeps.LastDecides | app/core/detectors/address.py:214-217 | Comparing with the last kept match is the same as comparing with all of them |
| AddressSweeps.SortAndSweep | app/core/detectors/address.py:211-218 | The components are sorted, disjoint matches, each the first one found with its span; every dropped match starts inside a kept one, which is the longer when both start together |
| AddressSweeps.KeptAreFirst | app/core/detectors/address.py:206-218 | Of the matches with one span, the pattern listed first gives the component |
| AddressSweeps.Chains | app/core/detectors/address.py:249-256 | The chains concatenate back to the components, and break exactly where the gap test fails |
| AddressSweeps.OrgCueBeforeMeans | app/core/detectors/address.py:155-164 | The two binary searches succeed if and only if a cue precedes the position with no sentence starting between them |
| GoldMatching.FindOccurrences | scripts/eval_gold.py:162-169 | All positions of a non-empty value, overlapping ones included, each once and ascending |
| GoldMatching.OccurrencesListAll | scripts/eval_gold.py:165-168 | The same about the list itself |
| GoldMatching.Evaluator.MatchValue | scripts/eval_gold.py:187-195 | The loop finds the best match over the occurrences |
| GoldMatching.Evaluator.BestIsBest | scripts/eval_gold.py:189-195 | No occurrence beats it, and it is the start value or some occurrence's match |
| GoldMatching.Evaluator.ClassMeans | scripts/eval_gold.py:198-207 | The five classes told by which occurrences are wholly, partly or not covered and by which types |
| GoldMatching.TypeAtIsTheFirst | scripts/eval_gold.py:172-176 | The type at a position is that of the first finding that covers it |
| GoldMetrics.Metrics.CountChars | scripts/eval_gold.py:232-238 | The character counters grow by the sizes of wanted, wanted and masked, masked, masked and not wanted, and stay balanced |
| GoldMetrics.Metrics.CountValues | scripts/eval_gold.py:241-254 | The value counters and the two per-text flags |
| GoldMetrics.Metrics.CountRow | scripts/eval_gold.py:257-265 | One row's whole effect on the counters, traps ending early |
| GoldMetrics.ComputeMetrics | scripts/eval_gold.py:268-277 | The traversal that counts |
| GoldMetrics.CollectErrors | scripts/eval_gold.py:304-316 | The traversal that lists errors, with the text each span or value shows |
| GoldMetrics.CollectValueErrors | scripts/eval_gold.py:293-301 | The errors of one row's values |
| GoldLaws.CountersMatchErrors | scripts/eval_gold.py:268-316 | For every labelled set the two traversals agree, kind by kind |
| GoldLaws.ReportBalances | scripts/eval_gold.py:228-277 | labeled + skipped = rows, labeled = traps + pd_texts, expected_masked + overmask = masked_chars, and the bounds between counters |
| GoldLaws.TypesAddUp | scripts/eval_gold.py:241-250 | The per-type counters sum to the classes |
| GoldLaws.RatiosAreShares | scripts/eval_gold.py:92-112 | Every ratio lies between 0 and 1, and recall is at most recall_any_type |
| GoldMeanings.ExtraSpansAre | scripts/eval_gold.py:210-222 | The extra spans are the found ones, each as often as found, that share no position with any occurrence of an expected value |
| GoldMeanings.PositionsAre | scripts/eval_gold.py:228-234 | Wanted are the positions an expected value covers, masked those a finding covers, spaces excepted |
| GoldMeanings.VerdictsMean | scripts/eval_gold.py:241-244 | Each expected value is judged by its own value and type against the row's findings |
| GoldMeanings.RowsMean | scripts/eval_gold.py:271-276 | Each row is scored against the findings under its own id, or none |
| GoldMeanings.TextCountersMean | scripts/eval_gold.py:251-275 | Which rows each of the counters of texts counts |
| GoldMeanings.ValueCountersMean | scripts/eval_gold.py:241-250 | Each counter of values, in all and per type, counts the values of that class in the texts with data |
| GoldMeanings.CharCountersMean | scripts/eval_gold.py:232-238 | The character counters tell exactly whether all that is wanted is masked and whether anything else is |
| GoldMeanings.RatiosMean | scripts/eval_gold.py:92-112 | When each of the five ratios is perfect |
| GoldMeanings.ErrorsAre | scripts/eval_gold.py:304-316 | An error row is listed if and only if it tells of an extra span of a labelled row, or of a value in a text with data that is not wholly found with its type |
| GoldMeanings.FoundTextMeans | scripts/eval_gold.py:283-290 | What is shown as found belongs to the value's first occurrence, and nothing is shown where there is none |
| GoldMeanings.ShownIsInside | scripts/eval_gold.py:288-289 | Every piece shown is exactly what a found span and that occurrence have in common |

## Left out

- The patterns, dictionaries and morphology of the detectors: detectors are arbitrary functions that report candidates.
- Masking of an entity out of bounds: the masker's callers require that the collected reports fit the text.
- `_add_localities`, `_add_bare_house` and `_drop_initials_labels` of the address detector: they hang on patterns alone.
- The gap pattern of the address detector: an arbitrary test of two positions.
- Round trips of whole texts under the `initials`, `email`, `full`, `partial`, `redact` and `synthetic` masks: they are
  not injective. A mask sent back by itself is covered (`MaskComesBack`).
- HMAC, SHA-256 and Python's hash order: an arbitrary digest function and an arbitrary enumeration.
- Case conversion of type names: the 23 upper-case names are written out.
- Validation of `MaskRule` and loading of policies from YAML; `PolicyRegistry.resolve`.
- `RecordCodec` and encryption: records are stored as they are.
- Redis itself: an atomic map whose calls may fail, and whose writes may arrive late; expiry there is a loss at any time.
- Expiry and eviction inside the interleaved fallbacks: an arbitrary loss in `Protocol`, exact in `Memory`.
- Counts per type and times in `ProcessOutcome` and `ChatResult`; metrics, logging and the degraded counter.
- The system prompt, the HTTP client and the stream of the language model: a function from text to text.
- `ping` and `close` of the stores, and the limiter of requests in flight.
- HTTP, settings and wiring of the service.
- INN and SNILS checksums: finite domains, easy next to the card checksum.
- Parsing of the labelled set, CSV files and the command line; `trap` is one of the three readings `parse_trap` gives.
- Floating point in the evaluator: the ratios are real numbers.
