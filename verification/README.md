# Synapse Network SDK: a verified model

This project models the parts of the Synapse Network SDK that hold state, loops or arithmetic, and
proves what they promise. Run `dafny verify dfyconfig.toml` (Dafny 4.11) to check it.

| file | models |
|---|---|
| `Positional.dfy`, `Text.dfy` | positional numbers; ASCII strings, trimming, printing and reading numerals |
| `Base32.dfy`, `Totp.dfy` | the secret decoder and the login code of the screenshot script |
| `SqlText.dfy`, `Evidence.dfy` | the SQL printer, the two validators and the summary of the evidence report |
| `Decimals.dfy` | the six-digit decimal comparison of the TypeScript examples |
| `Gateway.dfy` | the environment: an arbitrary gateway, a clock, histories of requests and sleeps |
| `ChargingRule.dfy` | what a gateway charges, and how often it charges a run of two attempts |
| `PythonClient.dfy`, `PythonProtocol.dfy` | the Python client's invoke, polling and rediscovery; what holds of every run |
| `TypeScriptClient.dfy`, `TypeScriptProtocol.dfy`, `ClientsCompared.dfy` | the same for the TypeScript client; both on one call |
| `Money.dfy`, `Wallet.dfy`, `WalletCharges.dfy` | rounding to six places; the budgeted wallet; what the gateway charges against what it records |
| `OwnerAuth.dfy`, `Credentials.dfy` | the owner's token cache; find-or-rotate-or-issue of agent credentials |
| `Slugs.dfy` | the five default service id normalisers |
| `Paging.dfy` | limit and offset to page and page size |

How it is built. Code that changes state or loops is a class or a method (`SynapseClient`,
`AgentWallet`, `SynapseAuth`, the decoder, the validators); each such method is proved to compute
exactly a function of its inputs and the old state, and the properties are proved of those
functions, over every input, every gateway and every run. A gateway is any function from the whole
history of requests and sleeps to an answer and a delay, so "for every environment" covers every
adaptive server. Amounts and clocks are exact rationals.

Results that came out differently from what one might expect:

- The audit check depends on the order in which a set is walked: one log and one set of tables can
  fail or pass. `Evidence.CleanInEveryOrder` gives the exact condition under which a report is clean
  whatever the walk.
- `decimalLessThanOrEqual` is exact for every right side exactly when the *left* text has at most
  six places that matter; otherwise it lets a charge pass that exceeds a cap by less than 10^-6.
- A wallet can record more than its budget although every charge is at most the price that was
  sent. The budgets that no run can exceed are exactly those with less than half a millionth behind
  the whole millionths (`Wallet.BudgetHoldsExactly`); if neither a cost nor a charge may be
  negative, half a millionth is safe too (`Wallet.BudgetHoldsForPayments`).
- The wallet records what receipts report, not what the gateway charges. A call that is charged and
  times out is not recorded, so repeated calls can be charged any amount
  (`WalletCharges.UnreportedCharges`); with every charge reported the gateway's charges are the
  recorded spend and stay within such a budget (`WalletCharges.BilledWithinBudget`).
- Rediscovery can be charged twice by a gateway that keeps the pricing rule, with either client. It
  takes, and it is enough, that a receipt lookup of the first attempt answers with a price mismatch,
  that the search succeeds with a positive price, and that the second post is not answered with a
  mismatch (`ChargedTwiceExactly` in both protocol modules). A valid call is safe from every gateway
  only without a retry, or in TypeScript without a positive poll timeout (`SafeCallsExactly`); if the
  gateway charges no idempotency key twice, a key for both attempts is what makes a call safe, and it
  is needed (`SafeCallsByKeyExactly`).
- A credential listing without a list makes readiness issue a second credential for a name in use.
- The decoder accepts secrets that no encoder produces; `Base32.ReencodesExactly` says which. It
  drops white space, but not behind padding: there a line break makes a good secret a bad one
  (`Base32.SpaceIgnoredExactly`).
- The SDKs give a service different default ids. TypeScript and Java agree on every name; Go, Python
  and .NET each differ from them and from one another, and every pair has its exact condition on the
  name. All five agree exactly when the name has no hyphen and every stretch between two letters or
  digits is a single space or underscore (`Slugs.OneIdExactly`).
- .NET alone has no generated fallback: a name such as "!!!" gets the empty id.
- A positive live price of half a millionth or less is asserted as zero by the Python client.
- In the TypeScript client an error of the polling is not mapped, unlike one of the post, because
  the polling promise is returned without being awaited
  (`TypeScriptProtocol.PollErrorsPassThrough`).
- The docstring of `ensure_credential` says that a listed credential's token is not available again;
  the code rotates the credential and returns the new token. The model follows the code.
- The docstring of `invoke_with_rediscovery` speaks of one retry by default; the code never makes
  more than one, whatever the number.

## Model

| member | source | states |
|---|---|---|
| Base32.AppendBits | scripts/e2e/sdk_local_screenshots.mjs:26-32 | The first loop consumes characters up to the first one outside the alphabet and turns n of them into 5n binary digits that denote the same number |
| Base32.CutOctets | scripts/e2e/sdk_local_screenshots.mjs:33-36 | The second loop yields the consecutive groups of eight bits and drops a shorter rest |
| Base32.Base32ToBuffer | scripts/e2e/sdk_local_screenshots.mjs:24-37 | The bit-string loops give the positional reference: the digits' number without its low bits as octets, or the first foreign character |
| Base32.DecodeIsPositional | scripts/e2e/sdk_local_screenshots.mjs:24-37 | Acceptance exactly of alphabet texts; n characters give 5n/8 octets whose base-256 value is the base-32 value over 2^(5n mod 8); otherwise the error names the first foreign character |
| Base32.DecodesAnySpelling | scripts/e2e/sdk_local_screenshots.mjs:27-36 | Any spelling of an RFC 4648 encoding, in either case, with white space and any number of trailing `=`, decodes to the encoded octets |
| Base32.DecodeUndoesEncode | scripts/e2e/sdk_local_screenshots.mjs:24-37 | Decoding the padded encoding of section 6 of RFC 4648 gives back every octet string |
| Base32.ReencodesExactly | scripts/e2e/sdk_local_screenshots.mjs:33-35 | Digits survive decoding and encoding if and only if their count is 0, 2, 4, 5 or 7 modulo 8 and the dropped bits are zero |
| Base32.CaseSpaceAndPaddingIgnored | scripts/e2e/sdk_local_screenshots.mjs:27-27 | Texts that agree after removing white space and case decode alike under any padding, errors included |
| Text.LetterCases | scripts/e2e/sdk_local_screenshots.mjs:27-27 | Upper and lower case differ exactly on the letters, by the pairs A a to Z z |
| Text.SpaceCodes | scripts/e2e/sdk_local_screenshots.mjs:27-27 | The characters that count as white space, by their codes |
| Base32.CaseIgnored | scripts/e2e/sdk_local_screenshots.mjs:27-27 | Two secrets that differ only in the case of letters decode alike, errors included |
| Base32.LowerCaseIgnored | scripts/e2e/sdk_local_screenshots.mjs:27-27 | A secret in small letters decodes as it does in its own case, errors included |
| Base32.DecodeUndoesAnyCase | scripts/e2e/sdk_local_screenshots.mjs:24-37 | The padded encoding of every octet string decodes back from capitals, small letters or any mixture |
| Base32.SpaceIgnoredExactly | scripts/e2e/sdk_local_screenshots.mjs:27-27 | Dropping all white space from a secret leaves its decoding as it is if and only if none stands behind padding or the rest is refused anyway; otherwise `=` is refused |
| Base32.LineBreakBehindPadding | scripts/e2e/sdk_local_screenshots.mjs:27-27 | Padding alone is ignored behind a good secret, padding and a line break make it refused |
| Totp.ShiftAndOrIsValue | scripts/e2e/sdk_local_screenshots.mjs:45-48 | The masked shift-and-or of four octets is their big-endian number modulo 2^31 |
| Totp.ShiftAndOr | scripts/e2e/sdk_local_screenshots.mjs:44-48 | For every 20-octet digest all four reads are in bounds and the result is the truncation of section 5.3 of RFC 4226 |
| Totp.GenerateTotpCode | scripts/e2e/sdk_local_screenshots.mjs:39-50 | The generator returns the reference code for any HMAC, or the error of the counter or the secret |
| Totp.SixDigitsDenote | scripts/e2e/sdk_local_screenshots.mjs:49-49 | Every code is six digits that denote the truncated number modulo 10^6 |
| Totp.CodePerWindow | scripts/e2e/sdk_local_screenshots.mjs:40-42 | In the range of the counter two moments authenticate the same message if and only if they share a 30 second window; inside one the code is the same at any time |
| Totp.CodeIsTruncatedDigest | scripts/e2e/sdk_local_screenshots.mjs:39-50 | The code at a moment denotes, modulo 10^6, the truncated HMAC of the decoded secret as key and the number of the 30 second window in eight octets as message; none exactly for a bad secret or a window out of range |
| Totp.TruncateExample | scripts/e2e/sdk_local_screenshots.mjs:44-48 | The worked example of section 5.4 of RFC 4226 |
| Totp.CounterMessageDenotes | scripts/e2e/sdk_local_screenshots.mjs:41-42 | The eight octets written are the counter in base 256 |
| SqlText.LiteralReadsBack | scripts/e2e/sdk_local_evidence_report.py:419-420 | A printed literal is read back whole, whatever it holds, if and only if no quote follows it |
| SqlText.ClauseReadsBackInPlace | scripts/e2e/sdk_local_evidence_report.py:413-420 | In any surroundings, values and the text behind them are read if and only if the text is their printed clause and no further row follows |
| SqlText.ParenthesizedClauseReadsBack | scripts/e2e/sdk_local_evidence_report.py:116-116 | In the parentheses of the queries the printed clause is read as its list whatever follows |
| SqlText.ValuesClauseReadsBack | scripts/e2e/sdk_local_evidence_report.py:413-420 | A whole text reads as a list if and only if the list is nonempty and the text is its printed clause |
| SqlText.ClauseExample | scripts/e2e/sdk_local_evidence_report.py:413-420 | What is printed for the values a and b'c |
| Evidence.ValidateEvents | scripts/e2e/sdk_local_evidence_report.py:88-109 | Raises exactly on an llm NaN charge; otherwise returns the errors of every event in log order and then one per language with missing scenarios, which is every justified error and no other; empty exactly when every event passes and every language is covered |
| Evidence.LogErrorsAreJustified | scripts/e2e/sdk_local_evidence_report.py:88-109 | The returned sequence holds an error if and only if an event or a language justifies it |
| Evidence.CleanEvents | scripts/e2e/sdk_local_evidence_report.py:88-109 | No justified error and no raise if and only if ids, charges in (0, max] and the six scenarios of all five languages are there |
| Evidence.EventPassesExactly | scripts/e2e/sdk_local_evidence_report.py:95-104 | A fixed-price or llm event needs an id, an llm event a finite charge in (0, max] |
| Evidence.CoveredExactly | scripts/e2e/sdk_local_evidence_report.py:105-108 | A language is covered if and only if each of the six scenarios was logged for it |
| Evidence.ContainsExactly | scripts/e2e/sdk_local_evidence_report.py:296-296 | A text contains another if and only if it is that with something before and behind |
| Evidence.AuditInvocationId | scripts/e2e/sdk_local_evidence_report.py:290-298 | The early-return loop attributes a row to its own column, else to the first mentioned id in the walk, else to nothing |
| Evidence.OwnIdIsAttributed | scripts/e2e/sdk_local_evidence_report.py:291-293 | A row with an id of its own, white space around it or not, counts for that |
| Evidence.MentionedIsAttributed | scripts/e2e/sdk_local_evidence_report.py:294-297 | A row without one counts, under every walk, for the only expected id that stands anywhere in its detail |
| Evidence.FirstMentionedIsAttributed | scripts/e2e/sdk_local_evidence_report.py:295-297 | Of several expected ids in its detail it counts for the one the walk comes to first |
| Evidence.RowTable | scripts/e2e/sdk_local_evidence_report.py:231-231 | The row table holds the last row of every nonempty id |
| Evidence.RowForIsLast | scripts/e2e/sdk_local_evidence_report.py:231-231 | Of several rows with an id the last one counts |
| Evidence.LedgerTable | scripts/e2e/sdk_local_evidence_report.py:234-235 | The ledger table groups all rows by the text of their reference, in order |
| Evidence.AuditTable | scripts/e2e/sdk_local_evidence_report.py:241-244 | The audit table groups the attributed rows by id, in order |
| Evidence.ValidateEvent | scripts/e2e/sdk_local_evidence_report.py:246-265 | One billed event yields the errors its rows justify and no other: the missing row alone, or charge, ledger and audit in this order |
| Evidence.ValidateDb | scripts/e2e/sdk_local_evidence_report.py:229-266 | Raises exactly on a NaN charge of an llm row; otherwise returns the errors of every event in log order, which is every justified error and no other; empty exactly when every event passes |
| Evidence.DbErrorsAreFaults | scripts/e2e/sdk_local_evidence_report.py:246-266 | The returned sequence holds an error if and only if the tables justify it for some event |
| Evidence.CleanDb | scripts/e2e/sdk_local_evidence_report.py:246-266 | No fault and no raise if and only if every billed event has its row and every llm row an acceptable charge, a ledger row and an attributed audit row |
| Evidence.DbPassesExactly | scripts/e2e/sdk_local_evidence_report.py:246-265 | An event passes if and only if it is no llm call, or its last row has a finite charge in (0, max], some ledger row references its id and some audit row counts for it |
| Evidence.UnrecordedFails | scripts/e2e/sdk_local_evidence_report.py:252-254 | An event that no row names passes if and only if it is neither fixed-price nor llm |
| Evidence.AuditRowsConserved | scripts/e2e/sdk_local_evidence_report.py:241-244 | Over distinct ids the audit group sizes add up to the attributable rows: none lost, none counted twice |
| Evidence.AuditedInEveryOrder | scripts/e2e/sdk_local_evidence_report.py:290-298 | An id has an audit row whatever the walk if and only if a row names it, or mentions it and no other expected id |
| Evidence.CleanInEveryOrder | scripts/e2e/sdk_local_evidence_report.py:229-298 | Every event passes under every walk of the expected ids if and only if it passes with an audit row that names its id or mentions no other expected one |
| Evidence.VerdictDependsOnOrder | scripts/e2e/sdk_local_evidence_report.py:295-297 | A log and tables that fail under one walk of the set and pass under another |
| Evidence.BuildSummary | scripts/e2e/sdk_local_evidence_report.py:269-287 | One row per language in order, passed exactly when all six scenarios are logged, with the last fixed-price and llm events |
| Evidence.LastEventIsLast | scripts/e2e/sdk_local_evidence_report.py:272-273 | Of several events of a language and scenario the summary shows the last |
| Evidence.SummaryAgrees | scripts/e2e/sdk_local_evidence_report.py:105-108 | A language is marked passed if and only if no missing-scenario error is reported for it |
| Evidence.CleanReportCertifies | scripts/e2e/sdk_local_evidence_report.py:51-55 | With both error lists empty, every language has an llm call that is logged and billed within bounds and backed by invocation, ledger and audit rows |
| Decimals.CentsIsFloor | typescript/examples/_shared.ts:217-220 | The integer is the floor of the exact value times 10^6, and equals it exactly when only zeros stand behind the sixth place |
| Decimals.WholeText | typescript/examples/_shared.ts:217-220 | Digits between white space denote the whole number, and count as so many millions |
| Decimals.DottedText | typescript/examples/_shared.ts:217-220 | With a dot and more digits they denote the whole number plus the fraction |
| Decimals.UnsignedForms | typescript/examples/_shared.ts:217-220 | The texts covered are exactly those of these two forms |
| Decimals.LessThanOrEqualBounds | typescript/examples/_shared.ts:209-215 | A text within the cap is never refused; an accepted one exceeds it by less than 10^-6; equal values compare equal |
| Decimals.LessThanOrEqualIsExact | typescript/examples/_shared.ts:213-215 | The comparison is exact against every right side if and only if the left text has at most six places that matter |
| Decimals.EqualsIsExact | typescript/examples/_shared.ts:209-211 | Equality is exact against every right side with at most six places that matter if and only if the left side has at most six |
| Decimals.TrailingZerosIgnored | typescript/examples/_shared.ts:217-220 | Zeros behind the fraction change neither the exact value nor the computed one |
| Decimals.FreeMeansBelowOneMillionth | typescript/examples/_shared.ts:127-134 | A price text counts as zero if and only if it is below 10^-6; the empty text does |
| ClientsCompared.SameAnswerSameError | python/synapse_client/client.py:98-133 | Both clients map an error status of an invoke alike up to the kind of refused payment, and disagree on what is an error exactly outside 200..299 and 400..599 |
| ClientsCompared.SameBodyExactly | typescript/src/client.ts:109-123 | The same call posts the same body with both clients if and only if service and key have nothing to trim, the key is not the empty text and a number price is in millionths |
| ClientsCompared.DecidedRunsAgree | python/synapse_client/client.py:377-388 | With the same body and an answer that leaves nothing to poll, both clients make the same single request and end alike up to the kind of refused payment |
| ClientsCompared.PolledRunsAgree | typescript/src/client.ts:192-197 | With an open answer and a first lookup that settles it both clients make the same two requests at the same times and end alike, but that TypeScript passes on what Python maps to a failed invoke |
| PythonClient.SynapseClient.GetInvocationReceipt | python/synapse_client/client.py:275-286 | One lookup: blank ids are refused without a request, else the trimmed id is sent and the answer mapped |
| PythonClient.SynapseClient.WaitForInvocation | python/synapse_client/client.py:324-339 | The polling loop performs exactly the run of the environment |
| PythonClient.SynapseClient.Invoke | python/synapse_client/client.py:341-388 | Invoke performs exactly its run: validation, one post, then polling unless terminal |
| PythonClient.SynapseClient.InvokeLlm | python/synapse_client/client.py:390-418 | Streaming is refused without a request; otherwise an invoke without a price |
| PythonClient.SynapseClient.InvokeWithRediscovery | python/synapse_client/client.py:420-467 | Rediscovery with a price, and no cap, performs exactly its run |
| PythonClient.SynapseClient.RediscoveredPrice | python/synapse_client/client.py:484-487 | The early-return loop yields the live price |
| Gateway.LivePriceIsFirstMatch | python/synapse_client/client.py:484-487 | The live price is the first matching service's, or the fallback when that states none |
| Gateway.LivePriceWithoutMatch | python/synapse_client/client.py:487-487 | Without a match it is the fallback |
| Gateway.TerminalExactly | python/synapse_client/client.py:27-27 | The four terminal statuses |
| PythonProtocol.ErrorsExactly | python/synapse_client/client.py:98-133 | Each kind of error with exactly the answers that mean it |
| PythonProtocol.RefusedExactly | python/synapse_client/client.py:360-363 | A call posts nothing, and is an invalid argument, if and only if its service id is blank or a required price is missing |
| PythonProtocol.InvokePosts | python/synapse_client/client.py:363-376 | The body, member by member: trimmed service and key, the generated key if none is given, the cap, and the price as text or within half a millionth |
| PythonProtocol.WaitOutcome | python/synapse_client/client.py:332-339 | Polling sends nothing but lookups of the one id, pauses exactly for the interval, and comes to what the last answer says |
| PythonProtocol.InvokeOutcome | python/synapse_client/client.py:377-388 | A call polls the id of its post every second and comes to what the last answer says; it gives up only when its own poll timeout, from the answer to the post, leaves no second |
| PythonProtocol.WaitSafety | python/synapse_client/client.py:332-339 | Only terminal receipts are returned, as last answered; only lookups are sent, at least one and one more than sleeps; no sleep ends past the limit, and it gives up only when the next would |
| PythonProtocol.WaitBound | python/synapse_client/client.py:332-339 | At most 1 + max_wait / max(1, interval) lookups, and at most one for a negative limit |
| PythonProtocol.InvokeSafety | python/synapse_client/client.py:377-388 | One invoke posts its body exactly once, sends otherwise only lookups, and returns only terminal receipts |
| PythonProtocol.InvokeBound | python/synapse_client/client.py:386-388 | An invoke makes at most 1 + poll timeout lookups |
| PythonProtocol.RetryBody | python/synapse_client/client.py:459-467 | The second attempt posts the same service, a given key again, and the rediscovered price rounded to six places. The source passes no cap here; the model allows one in the arguments and shows that it is kept |
| PythonProtocol.RetryPriceIsLive | python/synapse_client/client.py:447-454 | The second attempt asserts the first match's price, or the current price quoted with the mismatch when the search has none |
| PythonProtocol.RediscoveryOutcome | python/synapse_client/client.py:435-467 | How a run ends in every case: as the first attempt, with the failed search, with the mismatch, or as the second attempt with its own poll timeout; the one search asks for the query, or the service id, page 1 of ten |
| PythonProtocol.RediscoverySafety | python/synapse_client/client.py:435-467 | At most two posts and one search whatever the gateway and the retry count; the second post exactly after a mismatch with a positive live price; returned receipts are terminal and the last answer |
| PythonProtocol.RediscoveryBound | python/synapse_client/client.py:435-467 | A whole run makes at most 2 * (1 + poll timeout) lookups |
| PythonProtocol.RetryAssertsPositiveExactly | python/synapse_client/client.py:456-462 | A positive live price is asserted as a positive one if and only if it exceeds half a millionth; otherwise as zero |
| PythonProtocol.InvokeCharges | python/synapse_client/client.py:377-388 | With honest billing an invoke, whether priced by a number, by a text or metered, is charged at most once, for its post, at the asserted price if there is one |
| PythonProtocol.MismatchSource | python/synapse_client/client.py:377-388 | A mismatch that ends an invoke comes from a lookup if and only if the post was not answered with one |
| PythonProtocol.ChargedAtMostOnce | python/synapse_client/client.py:435-467 | With honest billing and lookups that never answer a mismatch, a whole run is charged at most once, at the price of its last attempt if it asserts one |
| PythonProtocol.ChargedOnceByKey | python/synapse_client/client.py:435-467 | With one idempotency key for both attempts and an honest gateway that charges no key twice, a run is charged at most once, at the price of one of its attempts, whatever lookups answer |
| PythonProtocol.ChargedTwiceExactly | python/synapse_client/client.py:445-467 | Some honest billing charges a run twice if and only if a lookup of the first attempt answers a mismatch, the search succeeds with a positive price and the second post is not answered with a mismatch |
| PythonProtocol.LateMismatchChargesTwice | python/synapse_client/client.py:285-285 | Against a gateway that accepts every post and answers lookups with a mismatch, an honest billing charges every retried call twice |
| PythonProtocol.SafeCallsExactly | python/synapse_client/client.py:445-457 | No honest gateway can charge the call twice if and only if its arguments are refused or it does not retry |
| PythonProtocol.SafeCallsByKeyExactly | python/synapse_client/client.py:341-388 | Against gateways that charge no key twice the call is safe if and only if it is refused, does not retry or sends one key with both attempts, as it does with a key of the caller |
| TypeScriptClient.SynapseClient.GetInvocation | typescript/src/client.ts:203-208 | One lookup, its answer mapped |
| TypeScriptClient.SynapseClient.WaitForInvocation | typescript/src/client.ts:186-200 | The deadline loop performs exactly the run of the environment |
| TypeScriptClient.SynapseClient.CompleteInvocation | typescript/src/client.ts:251-259 | Terminal answers are returned, open ones polled unless the timeout is zero |
| TypeScriptClient.SynapseClient.Invoke | typescript/src/client.ts:109-129 | Invoke performs exactly its run; only errors of its own request are mapped |
| TypeScriptClient.SynapseClient.InvokeLlm | typescript/src/client.ts:138-153 | Streaming is refused without a request; otherwise a post without a price |
| TypeScriptClient.SynapseClient.InvokeWithRediscovery | typescript/src/client.ts:158-183 | Rediscovery performs exactly its run |
| TypeScriptProtocol.WaitSafety | typescript/src/client.ts:192-199 | Every lookup is sent before the deadline; polling ends only with a terminal receipt or an error as last answered, or with a timeout that is not before the deadline; one sleep between lookups |
| TypeScriptProtocol.WaitBound | typescript/src/client.ts:190-199 | Between one and ceil(timeout / interval) lookups, and none when the timeout is not positive |
| TypeScriptProtocol.WaitOutcome | typescript/src/client.ts:192-199 | Polling sends nothing but lookups of the one id, pauses exactly for the interval, and unless it times out comes to what the last answer says |
| TypeScriptProtocol.ErrorsExactly | typescript/src/client.ts:386-395 | Each kind of error with exactly the answers that mean it |
| TypeScriptProtocol.PostErrorsExactly | typescript/src/client.ts:126-128 | An error of the post keeps its kind if it has one, else it is a failed invoke |
| TypeScriptProtocol.RefusedExactly | typescript/src/client.ts:114-119 | An invoke posts nothing if and only if its service id is blank or its price missing or blank |
| TypeScriptProtocol.InvokePosts | typescript/src/client.ts:120-148 | The bodies of invoke and invokeLlm, member by member: untrimmed service, given or generated key, price or cap |
| TypeScriptProtocol.PostOutcome | typescript/src/client.ts:120-128 | A posted call comes to what the last answer says; it times out only on an open answer and not before its own poll timeout from the answer to the post |
| TypeScriptProtocol.DefaultPolling | typescript/src/client.ts:186-200 | Without options it polls every 1500 ms, gives up not before 90 seconds, and looks up at most 60 times |
| TypeScriptProtocol.PostSafety | typescript/src/client.ts:120-125 | One post; a resolved receipt is the last answer and is open exactly when the timeout is zero and the post was answered open; no more lookups than fit before the deadline |
| TypeScriptProtocol.ResolvesTerminal | typescript/src/client.ts:251-259 | invoke and invokeLlm resolve with an open receipt only for a zero poll timeout and without a lookup |
| TypeScriptProtocol.PollErrorsPassThrough | typescript/src/client.ts:120-128 | A call fails as a failed invoke if and only if the post itself was answered with an unmapped error; an unmapped error or a timeout comes only from polling an open answer |
| TypeScriptProtocol.RediscoverySafety | typescript/src/client.ts:166-182 | At most two posts and one search; the second exactly after a mismatch with a positive live price, which it asserts; a returned receipt is the last answer, and terminal unless the poll timeout is zero |
| TypeScriptProtocol.RetryBody | typescript/src/client.ts:176-182 | The second attempt posts the same service, a given key again and the rediscovered price as it is |
| TypeScriptProtocol.RetryPriceIsLive | typescript/src/client.ts:170-175 | That price is the first match's, or the current price quoted with the mismatch when the search has none |
| TypeScriptProtocol.RediscoveryOutcome | typescript/src/client.ts:158-183 | How a run ends in every case; every failure of the search is a failed discovery |
| TypeScriptProtocol.RediscoveryBound | typescript/src/client.ts:166-182 | A whole run makes at most twice the lookups that fit before one deadline |
| TypeScriptProtocol.PostCharges | typescript/src/client.ts:109-153 | With honest billing an invoke or invokeLlm, priced by a number, by a text or metered, is charged at most once, for its post, at the asserted price if there is one |
| TypeScriptProtocol.MismatchSource | typescript/src/client.ts:120-125 | A mismatch that ends an invoke comes from a lookup if and only if the post was not answered with one |
| TypeScriptProtocol.ChargedAtMostOnce | typescript/src/client.ts:166-182 | With honest billing and lookups that never answer a mismatch, a run is charged at most once, at the price of its last attempt if it asserts one, and a first attempt that is retried was not charged |
| TypeScriptProtocol.ChargedOnceByKey | typescript/src/client.ts:166-182 | With one idempotency key for both attempts and an honest gateway that charges no key twice, a run is charged at most once, at the price of one of its attempts, whatever lookups answer |
| TypeScriptProtocol.ChargedTwiceExactly | typescript/src/client.ts:166-182 | The same exact condition as for the Python client: a lookup mismatch, a search with a positive price, no mismatch to the second post; it takes a positive poll timeout |
| TypeScriptProtocol.LateMismatchChargesTwice | typescript/src/client.ts:203-208 | Against a gateway that accepts every post and answers lookups with a mismatch, an honest billing charges twice every call that polls and may retry |
| TypeScriptProtocol.SafeCallsExactly | typescript/src/client.ts:166-182 | No honest gateway can charge the call twice if and only if its arguments are refused, it does not retry or its poll timeout is not positive |
| TypeScriptProtocol.SafeCallsByKeyExactly | typescript/src/client.ts:166-182 | Against gateways that charge no key twice the call is safe if and only if it is refused, does not retry, does not poll or sends one key with both attempts |
| Wallet.AgentWallet.Invoke | python/synapse_client/wallet.py:41-56 | A call the budget does not cover sends nothing; otherwise it is the client's invoke; and the spend is the step function of the old one |
| Wallet.AgentWallet.constructor | python/synapse_client/wallet.py:13-16 | A new wallet has spent nothing |
| Money.RoundsExactly | python/synapse_client/wallet.py:37-55 | Rounding gives the nearest whole number of units, of two the even one |
| Wallet.NeverOverBudget | python/synapse_client/wallet.py:49-55 | With a budget in millionths and charges at most the asserted price, as given or as sent, no run of calls records more than the budget |
| Wallet.BudgetHoldsExactly | python/synapse_client/wallet.py:49-55 | The budgets that no run of calls within the asserted price, as given or as sent, can exceed are exactly those with less than half a millionth behind the whole millionths |
| Wallet.BudgetHoldsForPayments | python/synapse_client/wallet.py:49-55 | For costs and charges that are not negative the safe budgets are those and half a millionth |
| Wallet.BudgetHoldsWithinCost | python/synapse_client/wallet.py:49-55 | For charges up to the cost as given the safe budgets are exactly those that rounding does not raise |
| Wallet.RoundedCostOverruns | python/synapse_client/wallet.py:49-55 | A budget of 0.0000025 records 0.000003 after a call for 0.000001 and one for 0.0000015, sent and charged as 0.000002 |
| Wallet.RecordedSpendDrift | python/synapse_client/wallet.py:55-55 | After n successful calls the record is off the true sum by at most n half millionths |
| Wallet.RecordedSpendExact | python/synapse_client/wallet.py:37-55 | With charges in millionths the record is the true sum, and spent plus remaining is such a budget |
| WalletCharges.ReportedIsBilledExactly | python/synapse_client/wallet.py:49-55 | All along a run the gateway's charges are the sum of the reported ones if and only if what each let-through call is charged is what its returned receipt reports |
| WalletCharges.BilledWithinBudget | python/synapse_client/wallet.py:49-55 | With honest billing and every charge so reported, the gateway's charges over any run are the recorded spend and within a budget with less than half a millionth behind the whole ones |
| WalletCharges.UnreportedCharges | python/synapse_client/wallet.py:54-55 | Against a gateway that never finishes an invoke, n calls within the budget are charged n times the price sent, and nothing is recorded |
| OwnerAuth.SynapseAuth.Authenticate | python/synapse_client/auth.py:164-193 | Cached or handshake token and the new cache, as functions of the old; a failure leaves the cache unchanged |
| OwnerAuth.SynapseAuth.Logout | python/synapse_client/auth.py:198-206 | The cache is emptied exactly when a token was had and the gateway accepted |
| OwnerAuth.HandshakeExactly | python/synapse_client/auth.py:169-190 | The replies with which a handshake succeeds |
| OwnerAuth.ReturnedIsCached | python/synapse_client/auth.py:164-193 | A returned token is the cached one behind the call; a call fails exactly when it needs a handshake that fails, and then leaves the cache alone |
| OwnerAuth.ResultHasSource | python/synapse_client/auth.py:164-193 | In every run a call returns its own handshake's access token if it makes one, else that of the last handshake before, and fails exactly when its handshake does |
| OwnerAuth.CachedTokenHasSource | python/synapse_client/auth.py:191-193 | In every run a cached token comes from the last successful handshake with no logout since |
| OwnerAuth.ServedTokenIsFresh | python/synapse_client/auth.py:165-167 | A token served from the cache has more than 30 seconds of its gateway lifetime left, so one with a lifetime of 30 or less never is |
| OwnerAuth.CacheUsedWhileFresh | python/synapse_client/auth.py:165-167 | The cache is used exactly while more than 30 seconds, counted from before the handshake, are left |
| OwnerAuth.LogoutForcesHandshake | python/synapse_client/auth.py:204-205 | After a successful logout the next call makes a handshake |
| Credentials.MatchingActiveCredential | python/synapse_client/_auth_credentials.py:221-226 | The loop finds the first listed credential with the trimmed name |
| Credentials.EnsureCredential | python/synapse_client/_auth_credentials.py:215-239 | The returned token and the gateway's credentials after the call, for every reply |
| Credentials.NameMatchesExactly | python/synapse_client/_auth_credentials.py:222-224 | Names match when equal but for white space around them; a credential without a name matches a blank one |
| Credentials.FirstMatchIsFirst | python/synapse_client/_auth_credentials.py:221-226 | None is found exactly when no listed name matches; otherwise the first that does |
| Credentials.ShownTokenIsReturned | python/synapse_client/_auth_credentials.py:228-231 | A listed token is returned, trimmed, and nothing is rotated or issued |
| Credentials.HiddenTokenIsRotated | python/synapse_client/_auth_credentials.py:232-239 | A credential listed without its token is rotated, it and no other, and the new token returned; a failed rotation changes nothing |
| Credentials.UnlistedIsIssued | python/synapse_client/_auth_credentials.py:218-219 | Where no listed name matches one credential is issued under the given name; refused, nothing changes |
| Credentials.EnsureKeepsUniqueExactly | python/synapse_client/_auth_credentials.py:215-219 | One call breaks uniqueness of names if and only if it stores a credential under a name in use |
| Credentials.NeverIssuesListedName | python/synapse_client/_auth_credentials.py:215-218 | Against a listing that shows the names of all active credentials, in any order and with any other entries, a name in use is never issued again and no id and no name changes |
| Credentials.NeverReissuesExactly | python/synapse_client/_auth_credentials.py:215-226 | The listings that keep every name in use from being issued again are exactly those that show all active names |
| Credentials.MalformedListDuplicates | python/synapse_client/_auth_credentials.py:89-92 | A reply without a list leads to a second credential for a name in use |
| Credentials.RunKeepsUnique | python/synapse_client/_auth_credentials.py:194-219 | Over every run, with removals and failures anywhere and listings that show all active names in any order, each trimmed name keeps at most one active credential |
| Credentials.RunStaysUniqueExactly | python/synapse_client/_auth_credentials.py:194-219 | Whatever the gateway replies, names stay unique all along a run if and only if no operation stores a credential under a name in use |
| Credentials.EnsureIsIdempotent | python/synapse_client/_auth_credentials.py:199-214 | After a call that returned a token from a listing of active credentials only, the name has one, and a further call whose listing fails or shows all names changes no id and no name |
| Credentials.ReturnedTokenIsActive | python/synapse_client/_auth_credentials.py:215-239 | If every listed entry is an active credential and shows no wrong token, in any order and however incomplete, the returned token, shown, rotated or issued, is one that an active credential of that name holds afterwards |
| Slugs.TypeScriptIsSlug | typescript/src/auth_provider_control.ts:88-95 | The regular expression chain joins the words of the name by single underscores |
| Slugs.JavaIsSlug | java/src/main/java/ai/synapsenetwork/sdk/SynapseAuth.java:427-430 | So does Java's chain |
| Slugs.GoCollapsedIsSlug | go/synapse/provider_control.go:240-254 | Collapsing the underscores of the Go id gives the same |
| Slugs.GoIsSpread | go/synapse/provider_control.go:240-254 | The Go id is the letters, digits and hyphens in lower case with one underscore for every single character of a stretch between two of them |
| Slugs.ThreeSlugsRelate | go/synapse/provider_control.go:240-254 | TypeScript and Java agree, Go after collapsing; Go on its own if and only if at most one character stands between two letters, digits or hyphens, that is, its id has no double underscore; all three fall back on the same names |
| Slugs.TypeScriptNormalForm | typescript/src/auth_provider_control.ts:89-94 | Ids are normal forms, and exactly those are left unchanged |
| Slugs.EmittedIsPythonSlug | python/synapse_client/auth.py:92-105 | What the loop emits, stripped, is the reference and has no two adjacent underscores, so the collapse loop never iterates |
| Slugs.DefaultServiceId | python/synapse_client/auth.py:90-106 | The method with both loops returns the reference, or the fallback when that is empty |
| Slugs.PythonNormalForm | python/synapse_client/auth.py:90-106 | Python ids are the normal forms without hyphens, exactly those are left unchanged, and slugging twice is slugging once |
| Slugs.PythonAgreesExactly | python/synapse_client/auth.py:95-105 | Python and TypeScript (and so Java) give the same id if and only if the name has no hyphen and every stretch between two letters or digits holds a space or underscore |
| Slugs.PythonAgreesWithGoExactly | python/synapse_client/auth.py:95-105 | Python and Go give the same id if and only if, besides, no stretch is longer than one character |
| Slugs.DotnetIsGoUnhyphened | dotnet/src/SynapseNetwork.Sdk/SynapseAuth.cs:340-340 | The .NET id is the Go id of the name with underscores for hyphens |
| Slugs.DotnetAgreesExactly | dotnet/src/SynapseNetwork.Sdk/SynapseAuth.cs:340-340 | .NET agrees with Go exactly without a hyphen, with TypeScript if besides no stretch is longer than one character, with Python exactly when, hyphens counted as underscores, every stretch is a single space or underscore |
| Slugs.OneIdExactly | dotnet/src/SynapseNetwork.Sdk/SynapseAuth.cs:340-340 | All five ids are equal if and only if the name has no hyphen and every stretch between two letters or digits is a single space or underscore |
| Slugs.TwoSpacesDiffer | go/synapse/provider_control.go:240-254 | On "a  b" TypeScript and Python give "a_b", Go and .NET "a__b" |
| Slugs.HyphenDiffers | python/synapse_client/auth.py:95-105 | On "a-b" TypeScript and Go keep the hyphen, Python and .NET give "a_b" |
| Slugs.DotDiffers | python/synapse_client/auth.py:95-105 | On "a.b" TypeScript, Go and .NET give "a_b", Python "ab" |
| Slugs.EmptyDotnetId | dotnet/src/SynapseNetwork.Sdk/SynapseAuth.cs:271-271 | The .NET result is empty, with no fallback behind it, exactly for names without a letter or digit; Python falls back on the same names |
| Paging.PageShowsOffset | python/synapse_client/client.py:211-212 | The requested page is the only one that shows the offset; negative offsets ask for page 1; both clients agree |
| Paging.StepVisitsNextPage | python/synapse_client/client.py:192-193 | Stepping the offset by the page size visits pages 1, 2, 3, ... |
| Paging.WalkIsCatalogue | python/synapse_client/client.py:184-220 | The pages of a walk put together are the catalogue in order, no gap and no item twice |
| Paging.WalkByLimit | python/synapse_client/client.py:192-193 | A positive limit is the page size, any other shows one item a page |
| Paging.WalkShowsAll | python/synapse_client/client.py:184-220 | Enough steps show the whole catalogue |

## Left out

- Base32.Base32ToBuffer: ASCII secrets only; Unicode case folding and white space are not modelled.
- Totp.GenerateTotpCode: the moment is a whole number of milliseconds, and the division is exact.
- Slugs.ThreeSlugsRelate: letters, digits, case and white space are the ASCII ones; the locale of Java's lower-casing is not modelled.
- Decimals.CentsIsFloor: unsigned decimals only; "-0.5" loses its sign, and the further syntax of BigInt (hexadecimal, signs) is not modelled.
- Wallet.AgentWallet.Invoke: exact rationals instead of binary floating point, here and for every price and clock.
- PythonClient.SynapseClient.Invoke: payload, response mode, search tags, headers and request ids are not part of a request here; a body that fails validation and a transport failure are not answers of the gateway.
- ClientsCompared.SameAnswerSameError: message texts are not modelled, and a price in an error body is a number or absent.
- PythonProtocol.RediscoverySafety: a live price is a rational or absent; in the source one that is not a number passes the test for a positive price and reaches the second invoke.
- TypeScriptProtocol.ChargedAtMostOnce: a price text that is not an unsigned decimal, such as "1e-3", leaves the charged amount open.
- TypeScriptClient.SynapseClient.Invoke: the answer's raw members override the parsed ones in the source; the model takes the status, id and charge that result.
- TypeScriptProtocol.WaitBound: a timer delay outside 1..2^31-1 milliseconds counts as one, as in Node.js; other hosts clamp differently.
- Evidence.ValidateEvents: scenarios and languages are texts, an error's wording and the order of the names in it are not modelled.
- Evidence.AuditedInEveryOrder: the walk of the set is a parameter, since Python leaves it open.
- OwnerAuth.SynapseAuth.Authenticate: the signer does not fail; both replies of the handshake are parameters.
- Credentials.EnsureCredential: quota options and the several places a token may stand in a reply are not modelled; names are not null.
- HTTP transport, JSON, timeouts, key handling, wallet signatures, Keccak and HMAC-SHA1: libraries.
- The random part of generated keys and fallback ids: a parameter.
- The deprecated quote flow, provider facades, data models and the one-request owner methods: they pass through or only raise.
- The example programs' receipt loop (`awaitReceipt`): it would repeat the polling properties.
- Running psql, rendering reports, screenshots, installation and CI scripts.
