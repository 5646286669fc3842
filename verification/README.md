# A verified model of the YNAB client's algorithmic cores

The repository is a Go client for the YNAB API. Most of it is endpoint plumbing; this project models
the parts that compute something and proves what they promise, for every input, every run or every
reachable state. `dafny verify dfyconfig.toml` checks it.

| file | models |
|---|---|
| `Basics`, `Decimal`, `Permutations` | Go's integers with explicit wrap-around, decimal numerals, `strconv.ParseInt`, reordered lists |
| `Milliunits`, `MoneyFormat`, `SplitEven` | parsing, printing, currency formatting and even splitting of int64 amounts |
| `Optional`, `TransactionSpec`, `PatchEncoding`, `UpdateBatch` | the tri-state write field, pre-flight validation, the meaning of an emitted patch, batch payloads |
| `Backoff`, `Retry`, `RetryRuns` | the retry pipeline and what holds of all its runs |
| `ClientConfig` | options, the config-error contract, and the configuration the pipeline relies on |
| `OperationCall` | one operation end to end: configuration error, path guard, pipeline, status split |
| `ErrorClass` | sentinel matching, and how it relates to the pipeline's own retry decision |
| `Sync`, `DeltaSync`, `DeltaRuns` | `MergeByID`, `Plan.Delta` against a server with a change log, and whole runs of both |
| `SchemaGraph`, `SchemaOrder`, `SchemaWalk` | the `allOf` graph, the depth-first order as a function of it, and the walk that follows that order |
| `SchemaScan`, `SchemaLookup` | the scanner's document loop, its independence of Go's map order, and the lookups after its sorts |
| `Routes`, `OperationTable`, `DiffSpec` | path building and its guard, the operation table's patterns, the table/spec comparison |
| `Calendar`, `Dates`, `Months` | the Gregorian day count, calendar dates, plan months |

How the model is set up:

- int64 and uint64 are bounded integers; every operation that can wrap calls `Wrap` or `WrapU`.
- The retry pipeline runs against an arbitrary environment: for each attempt it decides the limiter's,
  the token source's and the server's answer, whether the caller's context has ended, what an HTTP-date
  Retry-After reads as (twice, since the clock moves), the jitter, and whether a sleep is cut short.
  Jitter is a real number in [0, 1). The environment need not be consistent, so more runs are covered
  than a real one can show.
- The server of delta sync is any server whose answers are correct in the sense of `Answers`; full reads
  may leave tombstones out. `ReplayAnswers` shows that a correct answer always exists.
- Go strings are byte strings; where single bytes matter (routes) the characters are restricted to 0..255,
  elsewhere a character is a code point.
- A Go map's iteration order is the order of the sequence that models it. What a scan records does not depend
  on it (`ScansAgree`), nor does the answer of `PropEnumFor` (`PropEnumForDetermined`).
- A panic or an error without used content is `None`.
- `time.Date` and `AddDate` mean: carry the months into the year, then count days. Years are unbounded.

Where the code and its documentation differ, the model follows the code and the exact condition is proved:

- a split is checked modulo 2^64, not exactly (`AcceptedSumExact`, `WrappedLegsAccepted`);
- `Format` with more than three decimals is exact only while the scaling does not wrap (`FormatExact`);
- delay-seconds too long for an int64 read as "no Retry-After" instead of being clamped (`DelaySecondsClamped`,
  `LongDelayUnknown`);
- the half-open backoff interval is empty, and missed, when both bounds are equal, which a policy may set
  (`HalfOpenInterval`, `EqualBoundsMissed`);
- setting a single field of a retry policy can be refused (`SingleFieldAccepted`);
- a patch has one identity "by construction" only if its key is not empty (`OneIdentityByConstruction`);
- "no date" and the month sentinels do not come before dates of negative years (`ZeroFirstIff`, `SentinelFirstIff`);
- `BoundFor` is ambiguous exactly when the document gives a pair two different lengths, as two `allOf`
  branches can (`BoundForUnambiguousIff`, `TwoBranchesAmbiguous`);
- a base URL with credentials is repeated in the stored reason when it does not parse
  (`CredentialsQuotedIff`, `BrokenURLQuoted`);
- the pipeline does not simply apply `IsRetryable`: the two agree on a response exactly when a 429 asks for a
  wait within the cap, a 500 or 503 answers a retried verb, and no other status carries a retryable id
  (`AgreesWithClassifyIff`);
- delta sync through an alias is safe only if there is a single plan the alias can stand for (`ConvergesIff`).

## Model

| member | source | states |
|---|---|---|
| Milliunits.Magnitude | milliunits.go:164-172 | the uint64 result is the exact absolute value, the minimum int64 included |
| Decimal.DigitsInOrder | milliunits.go:112-121 | the ten digit characters stand for zero to nine in their order |
| Decimal.Places | milliunits.go:112-121 | the first digit of a numeral counts most |
| Milliunits.ParseText | milliunits.go:29-48 | parsing what String prints returns the amount, for every int64 |
| Milliunits.ParseComplete | milliunits.go:25-48 | every text of optional sign, digits and up to three fraction digits is parsed to its exact thousandths, and refused exactly when those do not fit an int64 |
| Milliunits.ParseSound | milliunits.go:25-48 | nothing else is accepted: an accepted text has that grammar and that value |
| Milliunits.TextForm | milliunits.go:112-121 | a minus sign for negative amounts only, whole units without superfluous zeros, exactly three decimals, and the amount's value |
| SplitEven.Split | milliunits.go:85-106 | n parts that total m, differ by at most one, larger magnitudes first; refused (panic) exactly for n <= 0; filled in place with wrapping int64 arithmetic |
| SplitEven.SplitUnique | milliunits.go:81-106 | there is no other such list |
| SplitEven.PartsShareSign | milliunits.go:93-105 | every part has the sign of the whole |
| SplitEven.PartialSums | milliunits.go:81-106 | every running total lies between zero and m, so none overflows |
| MoneyFormat.PowerOfTen | milliunits.go:175-181 | the uint64 loop computes ten to the n modulo 2^64 |
| MoneyFormat.GroupDigits | milliunits.go:184-200 | the left-to-right pass puts the separator before every third digit counted from the right |
| MoneyFormat.GroupedShape | milliunits.go:183-200 | counted from the right, every fourth place holds the separator and every other the next digit; the separator never leads |
| MoneyFormat.FractionOf | milliunits.go:144-147 | the padding count is never negative and the fraction has its full width |
| MoneyFormat.Format | milliunits.go:130-161 | the rendering is sign, leading symbol, grouped number with padded fraction, trailing symbol |
| MoneyFormat.Clamped | milliunits.go:126-131 | the decimals shown are DecimalDigits brought into 0..10 |
| MoneyFormat.FormatLayout | milliunits.go:130-161 | sign, leading symbol, grouped whole part, decimal separator with exactly the clamped number of decimals, trailing symbol; the two parts together are the padded numeral of the scaled count |
| MoneyFormat.SymbolPlaced | milliunits.go:124-126 | a symbol stands between sign and number when it comes first and behind the number otherwise, and nothing else changes |
| MoneyFormat.SignFirst | milliunits.go:129-153 | the text starts with a minus sign exactly for negative amounts, amounts that round to zero included |
| MoneyFormat.RoundsHalfAway | milliunits.go:135-137 | the scaled magnitude is the nearest count of the last place, ties away from zero |
| MoneyFormat.ScaledUp | milliunits.go:138-140 | beyond three decimals the exact count is the amount times a power of ten |
| MoneyFormat.FormatDigits | milliunits.go:123-161 | with digit-free separators and symbol the digits shown are the zero-padded numeral of the scaled magnitude |
| MoneyFormat.FormatExact | milliunits.go:133-140 | those digits are the exact rounded amount if and only if at most three decimals are shown or the uint64 scaling does not wrap |
| MoneyFormat.FormatWraps | milliunits.go:138-140 | the maximum amount with four decimals wraps |
| MoneyFormat.PlainFormatIsText | milliunits.go:112-121 | a plain three-decimal format renders as String does |
| TransactionSpec.Validate | transactions.go:404-434 | the answer is the header's error, else that of the first bad leg with its index, else the sum error exactly when the legs differ from Amount modulo 2^64 |
| TransactionSpec.AcceptedIff | transactions.go:402-434 | accepted exactly when all texts are within their bounds and the legs agree with Amount modulo 2^64 |
| TransactionSpec.HeaderErrorIs | transactions.go:405-412 | the import id's limit of 36 is checked before the payee name's 200 and the memo's 500, and the error names field and limit |
| TransactionSpec.LegErrorIs | transactions.go:417-424 | a leg's payee name is checked before its memo, with the same limits |
| TransactionSpec.FirstBadLegAnswers | transactions.go:416-428 | with a clean header the first bad leg's error is the answer, the leg's index behind the reason |
| TransactionSpec.BadSumAnswers | transactions.go:429-434 | with header and legs clean, amounts that differ from Amount modulo 2^64 are the answer |
| TransactionSpec.AcceptedSumExact | transactions.go:416-432 | an accepted split sums exactly if and only if its exact total fits an int64 |
| TransactionSpec.WrappedLegsAccepted | transactions.go:416-432 | three legs totalling 2^64 pass as a split of zero |
| TransactionSpec.EvenLegsAccepted | transactions.go:351-354 | SplitEven's legs always pass, and their running total never wraps |
| TransactionSpec.CheckCreateBatch | transactions.go:481-490 | passes exactly when every spec is accepted; otherwise names the first failing spec and its error |
| TransactionSpec.VerdictDecides | transactions.go:404-434 | validation gives each spec one answer |
| UpdateBatch.CheckUpdateBatch | transactions.go:606-621 | passes exactly when no patch has a fault; otherwise reports the first one's, identity before bounds |
| UpdateBatch.PatchFaultIff | transactions.go:554-559 | a patch is faultless exactly when it has an identity and its texts are within their bounds |
| UpdateBatch.PatchFaultNames | transactions.go:606-621 | the fault reported names the missing identity, else import id, payee name or memo, the first that applies |
| UpdateBatch.Payload | transactions.go:606-625 | a batch that passes the pre-flight is always encoded: every object carries its patch and exactly one identity |
| PatchEncoding.OneIdentityByConstruction | transactions.go:523-548 | the constructors give every patch without two identities and no other; there is an identity exactly when the key is not empty |
| PatchEncoding.KeysDistinct | transactions.go:507-518 | no two update fields share a key and none is an identity key |
| PatchEncoding.CarriesIff | transactions.go:507-518 | what the object holds under each of the ten keys the API names, for unset, cleared and set fields |
| PatchEncoding.MarshalUpdate | transactions.go:507-518 | the emitted object has exactly the keys of the fields that are not unset, with null for cleared ones |
| PatchEncoding.MarshalPatch | transactions.go:562-583 | exactly one identity key is added to the update's fields; refused exactly when both identities are empty |
| PatchEncoding.MeaningPreservedIff | transactions.go:507-583 | a server that keeps absent keys, clears null ones and decodes the rest ends with the record the tri-state update describes, for every record, if and only if the date set (if any) has a year of four digits |
| PatchEncoding.ZeroDateClears | optional.go:68-73 | setting "no date" emits what clearing emits |
| Optional.ErrFirstNone | errors.go:158-165 | no error exactly when none of the checks failed |
| Optional.ErrFirstIs | errors.go:158-165 | otherwise the first that failed |
| Backoff.HeaderForms | internal/transport/retry.go:152-172 | a number that fits an int64 is that many seconds, clamped to the largest duration; anything else is the time left until an HTTP-date; the rest asks for nothing |
| Backoff.DelaySecondsClamped | internal/transport/retry.go:160-164 | delay-seconds give min(secs * 10^9, MaxInt64) if and only if the number fits an int64; a longer one reads as unknown |
| Backoff.LongDelayUnknown | internal/transport/retry.go:160-164 | the first number past int64 reads as unknown |
| Backoff.UpperExact | internal/transport/retry.go:131-137 | the shift test yields min(MaxBackoff, MinBackoff * 2^i) for every i, without overflow |
| Backoff.Jittered | internal/transport/retry.go:138-141 | the wait lies within [MinBackoff, MaxBackoff] and below the upper bound when that exceeds the lower |
| Backoff.EveryDelayDrawn | internal/transport/retry.go:120-141 | the jitter is full: each whole delay of the interval is drawn for some value of the random source |
| Backoff.HalfOpenInterval | internal/transport/retry.go:120-123 | the wait lies in the documented half-open interval if and only if the two backoff bounds differ |
| Backoff.RetryDelayIs | internal/transport/retry.go:120-142 | a 429's Retry-After is honoured up to the cap; without one the wait is the draw's share, rounded down, of the interval from MinBackoff to min(MaxBackoff, MinBackoff * 2^i) |
| Retry.Attempt | internal/transport/transport.go:113-162 | limiter, token, request in this order, stopping at the first failure; hook failures are told from wire failures |
| Retry.Execute | internal/transport/retry.go:42-74 | the loop performs a complete run of the pipeline: result and event trace satisfy IsRun |
| RetryRuns.RunDetermined | internal/transport/retry.go:42-74 | for every environment there is exactly one run |
| RetryRuns.SendsAreGuarded | internal/transport/transport.go:117-141 | in every run each request is directly preceded by its own attempt's successful limiter wait and token fetch |
| RetryRuns.SendsBounded | internal/transport/retry.go:43-53 | no run sends more than max(1, MaxAttempts) requests, or more than one with retries disabled |
| RetryRuns.TotalSleepBounded | internal/transport/retry.go:107-142 | the total time asleep is at most (attempts - 1) * max(MaxBackoff, 1 minute) |
| RetryRuns.RetriesSleepFirst | internal/transport/retry.go:53-60 | every retry comes right after its own completed sleep, and that right after the attempt before |
| RetryRuns.CancellationEnds | internal/transport/retry.go:54-57 | no sleep before the last was cut short, and a cancelled run reports that sleep's cancellation |
| RetryRuns.SleepsAreFresh | internal/transport/retry.go:53-60 | each sleep is the capped Retry-After of the attempt just before it, or the draw's share of the doubling interval between MinBackoff and min(MaxBackoff, MinBackoff * 2^i), below its end unless both bounds are equal; a sleep cut short is the last event |
| RetryRuns.GoesOnIff | internal/transport/retry.go:77-105 | a run goes on after an attempt exactly for a 429 within the cap, or on a retryable verb a 500, a 503 or a wire failure with a live context, while the budget has room |
| RetryRuns.OutcomeIsLast | internal/transport/retry.go:60-73 | the outcome is the response or error of the last event, or the cancellation of the last sleep; never a stale one |
| RetryRuns.HookFailureEnds | internal/transport/retry.go:81-82 | a limiter or token failure is the last event and decides the outcome |
| RetryRuns.EarlierWritesRejected | internal/transport/retry.go:85-100 | without RetryWrites, for a verb other than GET and DELETE, every attempt before the last was answered 429 with a Retry-After within the cap |
| RetryRuns.WriteSafety | internal/transport/retry.go:92-116 | without RetryWrites at most one attempt of a call with a verb other than GET and DELETE can have been carried out, if 429 means not carried out |
| RetryRuns.WriteSafetyIff | internal/transport/retry.go:42-118 | that guarantee holds for exactly the calls without RetryWrites on a verb other than GET and DELETE, and those with one attempt |
| ClientConfig.Client.StoreConfigErr | client.go:307-311 | only the first failure is kept |
| ClientConfig.Client.Apply | client.go:157-280 | an accepted option configures and leaves the error alone; a refused one changes nothing but the stored error |
| ClientConfig.Client.UseRetryPolicy | client.go:228-249 | zero fields fall back to the defaults before the policy is checked, and a refused policy changes nothing |
| ClientConfig.Client.Build | client.go:112-155 | the configuration is that of the accepted options in order, the error the leftmost failure (a nil token source first), and the backoff bounds handed to the pipeline satisfy 0 < MinBackoff <= MaxBackoff |
| ClientConfig.Client.New | client.go:94-100 | an empty token is reported only if no option failed |
| ClientConfig.ConfiguredUsable | client.go:211-249 | for every option list MaxAttempts >= 1, 0 < MinBackoff <= MaxBackoff and the timeout is positive |
| ClientConfig.FirstFailureUnique | client.go:157-159 | the options alone decide the stored error |
| ClientConfig.RefusedIff | client.go:166-280 | which argument of which option is refused |
| ClientConfig.ErrorsAre | client.go:166-280 | the option an error names and the reason it gives |
| ClientConfig.LastInForce | client.go:157-280 | the last accepted option of a kind is in force, whatever others follow it |
| ClientConfig.DefaultsKept | client.go:50-56 | without an option of its kind a setting keeps its default |
| ClientConfig.WireRetryIs | client.go:130-150 | the pipeline is handed the policy field by field, and is disabled exactly when retries are off |
| ClientConfig.EqualBoundsMissed | internal/transport/retry.go:120-141 | a policy with equal bounds is accepted and its wait is outside the documented half-open interval |
| ClientConfig.CredentialsQuotedIff | client.go:185-194 | a refused base URL with credentials is quoted in the stored reason if and only if url.Parse failed or found no user in it |
| ClientConfig.BrokenURLQuoted | client.go:187-192 | a text with credentials and a broken escape is repeated whole |
| ClientConfig.SingleFieldAccepted | client.go:225-246 | MaxAttempts alone is accepted if and only if it is not negative, one backoff bound alone if and only if it does not cross the other's default, RetryWrites alone always |
| OperationCall.DataIff | internal/transport/transport.go:76-90 | a call yields data exactly when the run's last event is a 2xx answer whose body decodes to it |
| OperationCall.Do | plan.go:278-291 | a stored configuration error, the path guard or a body that cannot be encoded stops the call before any event; otherwise the pipeline runs once and data comes only from a 2xx answer |
| OperationCall.OnPath | plan.go:285-290 | on a joined path the missing-id error comes exactly when a segment after the first is empty (or there is nothing but an empty one), and then nothing is sent |
| OperationCall.CallOnNew | client.go:76-98 | from New to any operation: the leftmost refused option, or else an empty token, is what the call reports, with no event at all; otherwise the call runs under the accepted options' configuration |
| ErrorClass.ClassAndSubcode | errors.go:60-73 | a documented id under its own status matches its sentinel and its class and no other; an unknown id matches its status class alone |
| ErrorClass.DocumentedIDs | errors.go:122-137 | which id belongs to which sentinel |
| ErrorClass.DocumentedStatuses | errors.go:140-149 | which status belongs to which class |
| ErrorClass.RetryableIff | errors.go:218-233 | an API error is retryable exactly when its status or its id is 429, 500 or 503 |
| ErrorClass.AgreesWithClassifyIff | errors.go:215-217 | IsRetryable and classify agree on a response exactly when a 429 asks for a wait within the cap, a 500 or 503 answers a retried verb, and any other status comes without a retryable id |
| Sync.MergeByID | sync.go:79-91 | the caller's map is updated in place and returned, or one is allocated for nil; its content is the changes folded in order |
| Sync.LastWriterWins | sync.go:74-91 | an id's final entry is decided by its last change: absent after a tombstone, untouched if none names it |
| Sync.MergeConcat | sync.go:79-91 | merging two batches in turn is merging their concatenation |
| Sync.MergeIdempotent | sync.go:79-91 | merging a batch again changes nothing |
| Sync.MergeOrderIrrelevant | sync.go:79-91 | with distinct ids the order within a batch is irrelevant |
| DeltaSync.Delta | plan.go:226-254 | a nil, foreign or unattributable state and an empty id fail before any request; a failed call leaves the state alone; a success moves only the plan id and its cursor |
| DeltaSync.RequestForIff | plan.go:226-246 | a state is accepted through its own handle, or any while it is all zero; a cursor without a plan id is refused through every handle; a zero cursor is not sent |
| DeltaSync.PlanPathGuard | plan.go:285-290 | among plan paths the guard stops exactly the one with an empty id |
| DeltaSync.DeltaCatchesUp | sync.go:12-15 | a store holding the live entities as of its cursor holds, after merging a correct answer, those as of now |
| DeltaSync.FullReadExact | plan.go:216-219 | a full read brings a store up to date if and only if it names every entry of the store that is gone |
| DeltaSync.ReplayAnswers | plan.go:201-205 | for every log and cursor some batch is a correct answer |
| DeltaRuns.SyncOnce | README.md:95-96 | Delta followed by MergeByID, on the state object and the store, does what one call of the run model does |
| DeltaRuns.SyncConverges | plan.go:226-254 | after any interleaving of server changes, alias moves and successful, failed or misdirected calls the store equals the plan's live entities as of the saved cursor, as long as no alias comes to stand for another plan while the state is recorded under it |
| DeltaRuns.AnchoredConverges | plan.go:226-254 | through a handle that is no alias, or an alias of the only plan, that holds of every run without further conditions |
| DeltaRuns.ConvergesIff | plan.go:222-225 | every run through a handle agrees with the server, and every successful call catches up, if and only if the handle is no alias or there is only one plan it can stand for |
| DeltaRuns.CallConverges | plan.go:243-253 | a successful call makes the store equal to the current live entities; any other changes nothing |
| DeltaRuns.AliasMoveDiverges | plan.go:222-225 | in every world where an alias can come to stand for a second plan, a run through it passes every check, keeps an entity the plan does not have, and the next successful call does not repair it |
| DeltaRuns.CursorsAttributed | plan.go:217-242 | from a zero state a cursor is sent through a handle only if an earlier call through that handle returned it; the per-service cursors never change |
| DeltaRuns.AliasSwitchDiverges | plan.go:222-225 | with two plans, syncing through last-used can go wrong and syncing through the plan's id cannot |
| SchemaGraph.ClosedHoldsReachable | internal/contract/schema.go:174-178 | a set closed under allOf holds everything reachable from its members |
| SchemaWalk.SplitEnum | internal/contract/schema.go:205-218 | strings and a bare null are told apart, and any other member is refused |
| SchemaGraph.StringsOf | internal/contract/schema.go:205-218 | the strings kept are the string members in their order |
| SchemaWalk.CollectOwn | internal/contract/schema.go:139-173 | one schema's maxLengths and inline enums are recorded in order; it fails exactly when an inline enum has another member |
| SchemaOrder.WalkEnumerates | internal/contract/schema.go:121-125 | on every finite graph, cycles and diamonds included, the depth-first order lists each reachable schema exactly once and nothing else |
| SchemaOrder.DiamondOrder | internal/contract/schema.go:133-180 | on a diamond with a cycle the order is depth first with branches from the left |
| SchemaOrder.WalkSame | internal/contract/schema.go:174-178 | the order is decided by the allOf lists alone |
| SchemaWalk.CollectProps | internal/contract/schema.go:133-180 | the recursion over the shared seen set terminates and follows that order: it fails exactly when a schema it has to enter is bad, and otherwise appends each entered schema's records once |
| SchemaScan.WalkSchema | internal/contract/schema.go:87-89 | with a fresh seen set the walk fails exactly when a reachable schema has a bad inline enum, and otherwise records each reachable schema exactly once, through cycles and diamonds, and nothing else |
| SchemaScan.Scan | internal/contract/schema.go:82-97 | fails exactly when some component must be refused; otherwise holds every component's records and own enum |
| SchemaScan.ScannedMembers | internal/contract/schema.go:68-72 | a bound or property enum is recorded exactly when some component declares or inherits it |
| SchemaScan.ScannedBounds | internal/contract/schema.go:139-150 | a bound is recorded exactly for a property with a maxLength an int holds, of a schema a component reaches |
| SchemaScan.ScannedEnums | internal/contract/schema.go:151-170 | an enum is recorded exactly for a property, of a schema a component reaches, with a non-empty enum and no $ref; its strings keep their order and null is told apart |
| SchemaScan.RefusedIff | internal/contract/schema.go:158-172 | a component is refused exactly for a member that is neither string nor null, in its own enum or in one declared without a $ref within its reach |
| SchemaScan.OwnEnumMembers | internal/contract/schema.go:186-195 | a component's own enum is recorded under its name exactly when it has one |
| SchemaScan.ScansAgree | internal/contract/schema.go:83-139 | whatever order the component map and the property maps are iterated in, scans fail alike and record the same bounds and enums, counted with multiplicity |
| SchemaLookup.BoundFor | internal/contract/schema.go:221-228 | the first record for the pair |
| SchemaLookup.BoundForSound | internal/contract/schema.go:220-228 | whatever the sort did, the answer is a bound some component declares or inherits, and missing only if there is none |
| SchemaLookup.SortOutcomes | internal/contract/schema.go:101-106 | what an unstable sort leaves open: the other sorted orders of the records are those with the same key at every place |
| SchemaLookup.BoundForDetermined | internal/contract/schema.go:101-106 | the answer is the same for every outcome of that sort if and only if all records for the pair are equal |
| SchemaLookup.BoundForUnambiguousIff | internal/contract/schema.go:101-106 | for a scan: that holds if and only if the document gives the pair at most one length |
| SchemaLookup.TwoBranchesAmbiguous | internal/contract/schema.go:174-178 | two allOf branches with lengths 5 and 6 for one property leave the answer to the sort |
| SchemaLookup.PropEnumFor | internal/contract/schema.go:254-260 | the members of the first record for the pair |
| SchemaLookup.PropEnumForFirst | internal/contract/schema.go:247-253 | after any stable sort the answer is the declaration of the first schema in depth-first allOf order that declares the property inline, and missing only if no reachable schema does |
| SchemaLookup.PropEnumForDetermined | internal/contract/schema.go:108-117 | for every order of Go's maps and every stable sort the records of a pair are the same list, and so the answer is the same |
| Routes.JoinPath | internal/transport/transport.go:182-195 | the slice filled in the loop and joined is the path of the escaped segments |
| Routes.SegmentFaithful | internal/transport/transport.go:178-192 | an escaped segment decodes to the original, consists of the characters section 3.3 of RFC 3986 allows in a segment (so no separator, query or fragment byte), is no dot segment, and is empty only for the empty segment |
| Routes.EscapesIff | internal/transport/transport.go:178-192 | exactly letters, digits and the ten other bytes path escaping leaves alone pass as they are; any other byte becomes a percent sign and two upper-case hex digits |
| Routes.EscapedExample | internal/transport/transport.go:178-192 | an id with a question mark stays one segment |
| Routes.RouteRoundTrip | internal/transport/transport.go:182-195 | splitting a path at slashes and decoding gives back the segments, none of them a dot segment |
| Routes.PathInjective | internal/transport/transport.go:178-181 | different segment lists have different paths |
| Routes.GuardIff | plan.go:285-290 | the guard fires exactly when a segment after the first is empty, or there is nothing but an empty segment |
| OperationTable.PathRegexp | internal/contract/table.go:141-151 | each template segment is overwritten by its literal or, for a parameter, a one-segment wildcard |
| OperationTable.PieceExamples | internal/contract/table.go:141-151 | only a segment with both braces is a wildcard |
| OperationTable.MatchesIff | internal/contract/table.go:137-151 | the anchored pattern matches exactly the paths that agree with the template segment by segment |
| OperationTable.OwnRowMatchesIff | internal/contract/table.go:52-124 | a table template filled with ids matches its own row if and only if no id is empty |
| OperationTable.RowsDisjoint | internal/contract/table.go:52-124 | no path matches two rows of the same verb |
| OperationTable.RequestRoutes | internal/contract/table.go:52-151 | a request with non-empty ids matches its own row and no other row of its verb |
| DiffSpec.DiffParams | internal/contract/diff.go:68-81 | reports exactly the parameters only one side has |
| DiffSpec.Diff | internal/contract/diff.go:17-63 | reports exactly the discrepancies there are, and nothing exactly when table and spec agree |
| DiffSpec.NoProblemsIff | internal/contract/diff.go:13-16 | there is no discrepancy exactly when ids are distinct on both sides, the id sets are equal, and each pair agrees on verb, path, parameter set and, for non-GET, body presence |
| Calendar.NextDayCounts | date.go:64-72 | the day count goes up by one from each day to the next |
| Calendar.MonthLengths | date.go:25-29 | the months' lengths and the Gregorian leap years |
| Calendar.DaysBeforeMonthIs | date.go:25-29 | the days before each month in closed form |
| Calendar.FourCenturies | date.go:25-29 | four centuries are 146097 days from any year on |
| Calendar.FirstDayOfAll | date.go:25-29 | the first of January of year 1 is day 1 |
| Calendar.Epoch | date.go:25-29 | the first of January 1970 is day 719163 |
| Calendar.March2000 | date.go:25-29 | the first of March 2000 is day 730180 |
| Calendar.CountOrders | date.go:84-97 | the day count orders days as year, month and day do, and no two days share a count |
| Calendar.FromCount | date.go:27-29 | every integer is the count of a real day |
| Calendar.Normalized | date.go:25-29 | normalising lands on a real day, the one the carried month's first and the day number count to |
| Dates.NewDateNormalizes | date.go:25-29 | out-of-range components give the real day they count to, and a real day is kept |
| Dates.AddDaysCounts | date.go:64-72 | adding days adds to the day count, composes, undoes, and passes "no date" through |
| Dates.AddDaysIterates | date.go:64-72 | adding n days is n steps through the calendar |
| Dates.DocumentedArithmetic | date.go:25-82 | December 40 is January 9, April 30 plus a day is May 1, January 31 plus a month is March 3 |
| Dates.AddMonthsLands | date.go:74-82 | the day is kept if the target month has it and spills into the month after otherwise |
| Dates.AddMonthsInverse | date.go:74-82 | n months forward and back return to the same day if and only if nothing spilled over |
| Dates.CompareIsChronological | date.go:84-97 | real dates compare as their day counts do |
| Dates.CompareTotalOrder | date.go:86-97 | Compare is a total order |
| Dates.ZeroFirstIff | date.go:84-85 | "no date" comes before a real date if and only if its year is not negative |
| Dates.TextInjective | date.go:118-123 | different real dates never render alike |
| Dates.WireForm | date.go:118-123 | year, month and day in this order, with dashes |
| Dates.NoDateForm | date.go:118-128 | no date is the empty text and null |
| Dates.NegativeYear | date.go:118-123 | a negative year's sign counts toward its four places |
| Dates.ParseDateIff | date.go:42-53 | the parser accepts exactly the renderings of real dates with years 0 to 9999, and returns that date |
| Dates.DateRoundTripIff | date.go:118-123 | printing and parsing undo each other exactly for years 0 to 9999 |
| Dates.JsonDateIff | date.go:125-151 | JSON decodes to a date exactly when it is that date's encoding and the year fits; null is "no date" |
| Months.NewMonthCarries | month.go:27-32 | month numbers outside 1..12 carry into the year |
| Months.AddMonthsAdds | month.go:76-92 | month arithmetic is addition on 12 * year + month, composes, and Next and Prev undo each other |
| Months.SentinelsPass | month.go:76-92 | sentinels pass through arithmetic, have no first day, and render as the empty text and current |
| Months.FirstDayFollows | month.go:104-111 | a month's first day moves as the month does |
| Months.CompareIsIndexOrder | month.go:94-102 | concrete months compare as their indices do |
| Months.SentinelFirstIff | month.go:94-96 | a sentinel comes before a concrete month if and only if its year is not negative |
| Months.CompareEqualIff | month.go:97-102 | comparing equal means the same month, or two sentinels |
| Months.TextInjective | months.go:41 | no two months render alike, so none collide as merge keys |
| Months.ParseMonthIff | month.go:41-55 | the parser accepts exactly "current" and the renderings of concrete months of years 0 to 9999 |
| Months.JsonMonthIff | month.go:132-158 | JSON decodes to a month exactly when it is that month's encoding and the year fits |

## Left out

- HTTP, TLS, logging, response bodies, the per-attempt timeout and the reused timer: an attempt and a sleep are outcomes the environment chooses.
- Floating point: jitter is a real number; rounding of the product, `Units` and the `*_currency` fields are not modelled.
- The text of error messages of the pipeline, beyond the wrapped cause.
- HTTP-date parsing, `url.Parse` and the internals of `time.Parse`, `strconv.ParseInt` and `url.PathEscape`: they enter by their documented behaviour or as given results.
- JSON text other than date and month values: objects are maps from keys to values.
- `requestURL`, `RawDo`, the query parameter's text form and the filters' `encode`: plain concatenation around the modelled paths and cursors.
- The reading of the OpenAPI file and the text order of the sorts' keys: the schema graph is given, the unstable sort enters by what it leaves open under any total order, the stable one as any that keeps the records of a pair in order.
- `DoRaw`, and the values of refused and undecodable answers' errors: `OperationCall` tells the kinds of failure apart and no more.
- Plans that appear or vanish during a run of delta sync: the server's plans and alias names are fixed, their logs and targets are not.
- `EnumFor`, `NullableEnum` and `NullablePropEnum`: the same first-record lookups as `PropEnumFor`, reading another field.
- Order and multiplicity of `DiffSpec`'s report: `Diff` states which discrepancies are reported, not in what order.
- Restarts that lose the store but keep the cursor: store and cursor are carried together.
- int overflow of years, months and day numbers: calendar fields are unbounded.
- `IsRetryable` on transport and context errors: only API errors are compared with the pipeline.
- Enum `Valid` tables, endpoint wrappers, the fake server, fixtures and scripts: tables and plumbing without an algorithm.
- Retry.Execute: takes a configuration with 0 < MinBackoff <= MaxBackoff, which every client satisfies by ClientConfig.Client.Build; a hand-made configuration is not covered.
- RetryRuns.WriteSafety: assumes the server did not carry out a request it answered 429, as section 4 of RFC 6585 describes.
- DeltaRuns.SyncConverges: does not cover a run in which an alias comes to stand for another plan while the state is recorded under it; ConvergesIff says for which handles that cannot happen, and that it fails for all others.
