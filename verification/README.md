# SecureBank: a verified model

SecureBank is a bank back end of several services: accounts, transfers, authentication, fraud
detection, and a shared library for signed events, sessions, audit records and log redaction. This
project models the paths on which money, sessions and events move, and proves what holds in every
run of them.

| module | what it is |
|---|---|
| `Text`, `Json`, `JsonOrder`, `Envelope` | Python strings, canonical JSON printing and parsing, when re-printing reproduces a text, the signed event envelope |
| `JsonTokens`, `JsonGrammar`, `JsonCompact` | a grammar of JSON texts that does not mention the parser, and that parser and printer keep to it exactly |
| `Consumer`, `Wire` | the consuming loop on one partition, with crashes, over any records and over envelopes |
| `FraudWindow`, `ZScore` | the fraud worker: velocity windows, the amount score, destinations |
| `Transfers`, `Pipeline` | the transfer route, and the whole path from request to velocity as one machine |
| `Money`, `Accounts` | amounts; credit and debit with idempotency markers, under any interleaving |
| `Sessions`, `RefreshTokens`, `RefreshRaces`, `MfaThrottle`, `AuthFlow` | the stores of the auth service, and login, second factor, refresh and the transfer gate over whole runs |
| `Iban` | check digits (MOD 97-10 of ISO/IEC 7064, as used by ISO 13616-1) |
| `HashChain`, `Audit` | the hash-chained audit log |
| `Redaction` | the digit-run patterns of the log filter |
| `BellLaPadula` | the confidentiality policy |

Stores and loops that the source updates in place are classes whose methods are proved against
functions on the old state; concurrent and crashing parts are step functions with runs as lists of
events, and the theorems about them quantify over every run. `dafny verify dfyconfig.toml` checks
everything.

What the model takes as given: money is in cents; clocks, random ids, policy answers, password and
code checks are inputs; a random id is one not drawn before; a signed token is known by its claims,
and only issued claims verify; the MAC, the hash and Python's re-printing of a number are functions
of which only what a lemma states is used.

## Where code and documentation disagree

The model follows the code.

- Refresh tokens are documented as single use, with the whole session burnt on reuse
  (`src/shared/securebank_shared/sessions.py:6`, `:118-119`). The code marks only the presented entry, and
  tests only for the state `used`, so every other presentation of one token mints
  (`RefreshTokens.MintsExactly`, `RefreshTokens.ReuseIsLocal`), and two that overlap both mint
  (`RefreshRaces.AdmittedExactly`, `RefreshRaces.OverlapMintsTwice`).
- A replayed request is documented to yield the original receipt rather than a second debit
  (`docs/01_SRD.md:108`). For account mutations a second application is ruled out only when the marker
  read of the replay comes after the marker write (`Accounts.AtMostOncePerDay`,
  `Accounts.OverlapAppliesTwice`), and the answer is a fresh read-out of the row: it is the original one
  if and only if what was applied to the account since adds up to nothing and the account is active
  (`Accounts.ReplayAnswersExactly`, `Accounts.ReplayShowsAnother`). For transfers the receipt is that of the
  stored row, but the event published alongside carries the fields of the replay
  (`Pipeline.EventsTellExactly`, `Pipeline.ReuseIsPublished`).
- A lookup reads a session and writes it back in two awaited steps
  (`src/shared/securebank_shared/sessions.py:67`, `:79`), so a revocation between them is undone. When a
  revocation or a logout is final is stated exactly (`Sessions.RevocationUndoneExactly`,
  `AuthFlow.LogoutIsFinalExactly`).
- Opening an envelope is meant to return what was sealed. The signature verifies if and only if fusing the
  halves of surrogate pairs in the keys keeps their order in every object and merges none
  (`Envelope.OpenSealExactly`, `Envelope.ReorderedIsRejected`), and the datum is the one sealed if and only if
  no key and no string splits a pair (`Envelope.OpenSeal`, `Envelope.SplitPairIsAltered`). No route in the
  repository seals such text: memos are checked against a pattern without surrogates
  (`src/shared/securebank_shared/validation.py:86`), and the other fields are identifiers, numbers and currency
  codes.
- The second-factor throttle is commented as counting per token (`src/auth-service/app/routes_auth.py:162`).
  Its key is the first 32 characters of the token, and it counts per token if and only if no two tokens share
  them (`MfaThrottle.PerTokenExactly`). Those characters encode the first 24 bytes of the header
  (`MfaThrottle.HeaderDecidesKey`), where `issue_jwt` puts the algorithm and the type, the same for every
  token, before the key id (`src/shared/securebank_shared/auth.py:109-112`).
- The policy allows exactly 10,000 without a second factor (`k8s/policies/opa/securebank_authz.rego:36`);
  the application gate asks for one (`src/transaction-service/app/risk.py:14`). Both must pass.
- A destination is new when the membership answer is the object `False`
  (`src/fraud-detection-service/app/worker.py:52`). With a client that answers 0 or 1 no destination is ever
  new; `FraudWindow.FraudStore.Handle` states both cases.

## Model

| member | source | states |
|---|---|---|
| `Json.ParseEscaped` | src/shared/securebank_shared/kafka.py:42 | Reading back an escaped string, `\u` escapes and surrogate pairs included, gives the string with every adjacent high and low surrogate fused into one code point |
| `Json.LoadsRelayed` | src/shared/securebank_shared/kafka.py:42-49 | Parsing what was printed, for every value whose numbers are in printed form, gives the value with keys and strings fused, the last of equal keys winning |
| `Json.LoadsPrint` | src/shared/securebank_shared/kafka.py:42-49 | If no key splits a surrogate pair, only the string values are fused |
| `Json.TextExactly` | src/shared/securebank_shared/kafka.py:53 | Two values have one canonical text if and only if a reader makes the same tree of them |
| `JsonOrder.ReprintExactly` | src/shared/securebank_shared/kafka.py:49-53 | Parsing a printed value and printing it once more gives the text it came from if and only if fusing the keys, in every object of the value, keeps their order and merges none |
| `Json.PrintNorm` | src/shared/securebank_shared/kafka.py:53 | Fusing surrogate pairs in a value does not change its canonical text, so re-printing a parsed message reproduces what was signed |
| `Json.LoadsSound` | src/shared/securebank_shared/kafka.py:49 | The numbers of whatever parses are in printed form, and from an ASCII text it holds no split surrogate pair |
| `JsonTokens.PiecesRead` | src/shared/securebank_shared/kafka.py:49 | A string literal, however its characters are spelled (themselves, a short escape, `\u` units in either case), is read as the string it spells, two units that make a surrogate pair as one character |
| `JsonTokens.NumberExactly` | src/shared/securebank_shared/kafka.py:49 | The scanner takes a token for a number if and only if it has the shape of one: no leading zero, digits behind a point, digits behind an exponent mark; or it is `NaN`, `Infinity` or `-Infinity` |
| `JsonGrammar.LoadsExactly` | src/shared/securebank_shared/kafka.py:49 | For every text: `json.loads` gives a value if and only if the text spells, with white space wherever it may stand, a document of the grammar that says this value; no other text loads |
| `JsonGrammar.LastWins` | src/shared/securebank_shared/kafka.py:49 | An object that repeats a key has the value of the last member with that key |
| `JsonCompact.PrintIsCompact` | src/shared/securebank_shared/kafka.py:42 | What is printed spells a document of that grammar without white space, with printable ASCII as itself, short escapes where there are any, and lower-case units for all else |
| `Text.JoinFixed` | src/shared/securebank_shared/kafka.py:42-49 | Fusing is the identity on exactly the texts without an adjacent surrogate pair |
| `Text.SortedAscends` | src/shared/securebank_shared/kafka.py:42 | The keys of a printed object stand in strictly ascending code point order |
| `Text.LexExactly` | src/shared/securebank_shared/kafka.py:42 | That order is the one of the code points at the first place where two keys differ, a proper prefix coming first |
| `Envelope.FromHexHex` | src/shared/securebank_shared/kafka.py:43-54 | The hexadecimal signature decodes to the bytes of the tag |
| `Envelope.FromHexExactly` | src/shared/securebank_shared/kafka.py:54 | A text decodes if and only if it holds nothing but hexadecimal digits and white space, and the digits are paired with the space only between pairs |
| `Envelope.FromHexPlain` | src/shared/securebank_shared/kafka.py:54 | Whatever decodes to some bytes is, but for case and white space, their hexadecimal form |
| `Envelope.SealedSays` | src/shared/securebank_shared/kafka.py:35-45 | A sealed envelope loads to an object of exactly five members, `v`, `ts`, `iss`, `data` and `sig`, with the version 1, the clock, the issuer, the datum and the hexadecimal tag |
| `Envelope.SealAscii` | src/shared/securebank_shared/kafka.py:45 | A sealed envelope is ASCII text, for every datum |
| `Envelope.VerifiedExactly` | src/shared/securebank_shared/kafka.py:35-53 | The text the consumer checks is the text the producer signed if and only if fusing the keys, in every object of the datum, keeps their order and merges none |
| `Envelope.OpenSealExactly` | src/shared/securebank_shared/kafka.py:35-58 | For every datum: a sealed envelope opens under the same key, to the datum with keys and strings fused, if and only if the keys keep their order; otherwise the signature is rejected, short of a collision of the MAC |
| `Envelope.OpenSealNorm` | src/shared/securebank_shared/kafka.py:35-58 | If no key of the datum splits a surrogate pair, opening never fails and only the string values are fused |
| `Envelope.OpenSeal` | src/shared/securebank_shared/kafka.py:35-58 | The datum comes back exactly as sealed if and only if no key and no string in it splits a surrogate pair |
| `Envelope.SplitPairIsAltered` | src/shared/securebank_shared/kafka.py:35-58 | The input for which the datum is not returned exactly: an object with a split pair in a string verifies and is delivered with another string |
| `Envelope.ReorderedIsRejected` | src/shared/securebank_shared/kafka.py:35-58 | The input that is not returned at all: an object with a split pair as a key beside U+E000 is rejected by the consumer with the right key |
| `Envelope.OpenClean` | src/shared/securebank_shared/kafka.py:48-58 | No datum that opens from an ASCII text holds a split surrogate pair |
| `Envelope.OpenExactly` | src/shared/securebank_shared/kafka.py:48-58 | For every text: it opens, and to this datum, if and only if it loads to an object whose `sig` is a non-empty string that decodes to the tag of all other members, whose version equals one, and whose `data` is the datum |
| `Envelope.UnsignedIsRejected` | src/shared/securebank_shared/kafka.py:50-55 | An object without a signature, with a blank one, or with one that is not the tag is rejected |
| `Envelope.RejectsExactly` | src/shared/securebank_shared/kafka.py:48-58 | Which check an object fails: the signature is missing or blank; it decodes to other bytes than the tag; it is right but the version is another |
| `Envelope.AcceptedWasSealed` | src/shared/securebank_shared/kafka.py:48-58 | For every wire text that opens: if the text it was checked against is one a producer signed, the datum has the text of that producer's datum, and for an ASCII wire text it is that datum with keys and strings fused |
| `Consumer.RunValid` | src/shared/securebank_shared/kafka.py:137-149 | The invariant of every run with appends, fetches, commits and crashes |
| `Consumer.NothingLost` | src/shared/securebank_shared/kafka.py:137-149 | In every run each record below the committed offset was an invalid envelope or was handed to the handler |
| `Consumer.DeliveredInOrder` | src/shared/securebank_shared/kafka.py:137-149 | In every run only valid records are delivered, each after every valid record of a lower offset |
| `Consumer.RedeliveriesBounded` | src/fraud-detection-service/app/worker.py:80-89 | In every run deliveries exceed the number of distinct records delivered by at most the number of crash events |
| `Consumer.Partition.Drain` | src/shared/securebank_shared/kafka.py:137-149 | Without crashes the loop commits the whole log and delivers exactly the valid records, once each and in order |
| `Consumer.GoodFromExactly` | src/shared/securebank_shared/kafka.py:137-149 | The offsets it delivers ascend and are exactly those of the valid records from where it starts |
| `Consumer.RunsToEnd` | src/shared/securebank_shared/kafka.py:137-149 | From wherever a run has come: once the loop is restarted and crashes no more, it commits the whole log and delivers in order exactly the valid records from the committed offset on |
| `Wire.SealedIsDelivered` | src/shared/securebank_shared/kafka.py:137-149 | In every run over texts, a sealed event below the committed offset whose keys keep their order has been delivered, whatever else was on the topic and however often the consumer crashed |
| `Wire.CleanIsDelivered` | src/shared/securebank_shared/kafka.py:137-149 | Without split pairs it was delivered with exactly the datum its producer sealed |
| `Wire.DeliveredIsVerified` | src/shared/securebank_shared/kafka.py:141-148 | In every run over texts, the datum delivered for an offset is what opening the text at that offset gives; texts that do not open are never delivered |
| `Wire.DeliveredIsSigned` | src/shared/securebank_shared/kafka.py:137-149 | In every run every delivered offset holds a text that carries the tag of its other members under the shared key; an unsigned or wrongly signed text is never delivered, whoever put it there |
| `Wire.AllAreDelivered` | src/shared/securebank_shared/kafka.py:137-149 | No text blocks those behind it: once the consumer is restarted and crashes no more, every text on the topic that passes the checks has been delivered |
| `FraudWindow.HandleRepresents` | src/fraud-detection-service/app/worker.py:29-35 | One handled event, even if the handler stops after the insertion, leaves last handling times only and all those within a day of the latest event of the user, read off the full history |
| `FraudWindow.VelocityIsExact` | src/fraud-detection-service/app/worker.py:36-37 | `velocity_24h` counts the distinct transactions last handled strictly after now - 86400, `velocity_1h` those at or after now - 3600, and 1 <= 1h <= 24h |
| `FraudWindow.RedeliveryIsIdempotent` | src/fraud-detection-service/app/worker.py:34-35 | Handling one event again leaves the window as handling it once at the later time |
| `FraudWindow.RedeliveryRepeatsAmount` | src/fraud-detection-service/app/worker.py:40-41 | The amount list has no such protection: after n deliveries it starts with n copies of the amount, up to its 101 places |
| `FraudWindow.SeenExactly` | src/fraud-detection-service/app/worker.py:50-54 | In every run of a user's events a destination counts as seen if and only if an earlier event went there and from then on the user never paused for ninety days |
| `FraudWindow.FraudStore.CountVelocity` | src/fraud-detection-service/app/worker.py:29-37 | The steps on the sorted set return those counts of the full history and change only the set of that user |
| `FraudWindow.FraudStore.ScoreAmount` | src/fraud-detection-service/app/worker.py:39-48 | The trimmed list holds the newest amount first and at most 101 amounts, and the score returned lies in -10..10 |
| `FraudWindow.FraudStore.Handle` | src/fraud-detection-service/app/worker.py:21-54 | All features of one event in terms of the history, and the new state of all three Redis keys |
| `ZScore.HeadDeviation` | src/fraud-detection-service/app/worker.py:44-46 | For any sample, n times the squared deviation of the newest amount is at most n - 1 times the sum of all squared deviations |
| `ZScore.ScoreSquared` | src/fraud-detection-service/app/worker.py:43-48 | The squared score is at most the sample size less one (Samuelson), the zero-deviation fallback included |
| `ZScore.ScoreBounded` | src/fraud-detection-service/app/worker.py:41-48 | With the list trimmed to 101 amounts the score never leaves -10..10 |
| `ZScore.TenIsReached` | src/fraud-detection-service/app/worker.py:43-48 | The bound is attained: a sample whose score is exactly 10 |
| `ZScore.ScoreExactly` | src/fraud-detection-service/app/worker.py:43-48 | Below five amounts the score is nothing; otherwise, times the standard deviation, it is the distance of the newest amount from the mean |
| `ZScore.ScoreOfEqual` | src/fraud-detection-service/app/worker.py:43-48 | Amounts that all agree have no deviation, and then the score is nothing |
| `Transfers.TransferService.Transfer` | src/transaction-service/app/routes_transfers.py:26-112 | A request is accepted exactly when it passes the gate and its row is inserted or found; a first request is then answered with its own terms and a replay with those of the stored row, field by field; one row is left under the key and one event published under the id of that row. Otherwise nothing changes, and the status of every refusal is stated |
| `Pipeline.EventTells` | src/transaction-service/app/routes_transfers.py:69-112 | The event of a request tells the source, destination, amount and currency of the row whose id it carries, in every continuation of the run, if and only if the request did not reuse a key with other terms |
| `Pipeline.EventsTellExactly` | src/transaction-service/app/routes_transfers.py:69-102 | In every run all events produced tell the terms of their rows if and only if no request reused a key with other terms |
| `Pipeline.TopicTellsExactly` | src/transaction-service/app/routes_transfers.py:69-102 | In every run all valid records on the topic tell the terms of their rows if and only if none of them comes from such a request |
| `Pipeline.ReuseIsPublished` | src/transaction-service/app/routes_transfers.py:69-102 | The failing run: two requests under one key with different amounts put an amount on the topic that no row holds |
| `Pipeline.RowsAreKept` | src/transaction-service/app/routes_transfers.py:54-81 | In every continuation of a run a stored row stays as it is, so a later replay is answered with it |
| `Pipeline.RowIsFirst` | src/transaction-service/app/routes_transfers.py:54-81 | In every run a stored row is that of the first accepted request of its user under its key |
| `Pipeline.RepliesExactly` | src/transaction-service/app/routes_transfers.py:54-112 | In every run each accepted request is answered with the id, pending status, amount, currency, source, destination and risk of the first accepted request of that user under that key, read from the requests |
| `Pipeline.EventsExactly` | src/transaction-service/app/routes_transfers.py:84-102 | In every run the events published are exactly one form for each accepted request: the id of the first request under its key, and its own source, destination, amount, currency, memo, risk and second factor |
| `Pipeline.VelocityIsNeverInflated` | src/transaction-service/app/routes_transfers.py:54-102 | In every run of requests, retries, repeated publications, forged records, crashes and handlers that stop half way, the velocity of a user is at most the number of rows of that user, and that at most the number of idempotency keys the user sent |
| `Pipeline.CountsAreExact` | src/fraud-detection-service/app/worker.py:29-37 | In every such run, a handler that gets as far as counting counts exactly the transactions of the user last inserted within a day, and within an hour |
| `Accounts.LedgerHolds` | src/account-service/app/routes_accounts.py:124-138 | In every interleaving, balance equals applied credits less applied debits, is never negative, and `version` is the number of applications |
| `Accounts.FitsNumeric` | src/account-service/app/models.py:25 | With amounts up to 999,999,999.99, ten million applied credits stay inside `Numeric(18,2)` |
| `Accounts.StatusExactly` | src/account-service/app/models.py:25-27 | In every run an account is there exactly when it was opened, and active exactly when the last change of its status left it so |
| `Accounts.OpensExactly` | src/account-service/app/models.py:25-27 | A new account is empty, active and of version 0 |
| `Accounts.ArrivesExactly` | src/shared/securebank_shared/validation.py:70-77 | A request is taken up exactly when its amount is positive and at most 999,999,999.99 |
| `Accounts.AtMostOncePerDay` | src/account-service/app/routes_accounts.py:111-145 | In every interleaving two applications of requests with equal operation, account and key come from different requests, and the marker read of the second came before the first wrote its marker or at least 86,400 s after |
| `Accounts.ReplayedExactly` | src/account-service/app/routes_accounts.py:113-118 | In every run a waiting request is answered from the marker if and only if a request with equal operation, equal account and equal key wrote its marker less than 86,400 s before; otherwise it is cleared or forbidden as the policy says |
| `Accounts.WrittenTodayExactly` | src/account-service/app/routes_accounts.py:110-114 | The marker looked up for a request is there if and only if the events tell of such a write |
| `Accounts.AppliesExactly` | src/account-service/app/routes_accounts.py:124-138 | Past the marker read, a request changes its account if and only if the row exists, is active and covers the debit; otherwise nothing changes, and the failure is the first of these that fails |
| `Accounts.AppliesAgainExactly` | src/account-service/app/routes_accounts.py:111-145 | An undisturbed request applies if and only if no request with equal operation, account and key wrote its marker less than 86,400 s before, the policy allows it, and the row exists, is active and covers the debit |
| `Accounts.OverlapAppliesTwice` | src/account-service/app/routes_accounts.py:113-145 | The family for which idempotency fails: two copies of a credit that both read before either writes are both applied |
| `Accounts.MarkerOfRequest` | src/account-service/app/routes_accounts.py:111 | The Redis key of a request names its operation, its account and the caller's key, in that order |
| `Accounts.MarkerTextExactly` | src/account-service/app/routes_accounts.py:111 | Two markers share a Redis key if and only if the operations agree and account, colon and key read the same |
| `Accounts.MarkerTextInjective` | src/account-service/app/routes_accounts.py:111 | So different markers have different keys among account ids without a colon |
| `Accounts.MarkersClash` | src/account-service/app/routes_accounts.py:111 | Two different markers that share a key, with a colon in an account id |
| `Accounts.ReplayAnswersExactly` | src/account-service/app/routes_accounts.py:113-118 | In every run a replay is answered as an earlier application on its account was if and only if the entries logged on the account since add up to nothing and the account is active |
| `Accounts.ReplayIsAnswered` | src/account-service/app/routes_accounts.py:113-118 | In every run a request that is answered from the marker has an application with its operation, account and key in the log, and is never answered with a failure |
| `Accounts.ReplayShowsAnother` | src/account-service/app/routes_accounts.py:113-146 | The failing run: a credit of 10.00, one of 5.00 under another key, and the first again, which is answered with 15.00 |
| `Accounts.CallEnds` | src/account-service/app/routes_accounts.py:108-146 | The steps of one request with nothing between them lead to one stated final state |
| `Accounts.FinalOutcome` | src/account-service/app/routes_accounts.py:108-146 | In that state the request has the outcome that the sequential service gives |
| `Accounts.Service.Mutate` | src/account-service/app/routes_accounts.py:108-146 | The sequential call: outcome and answer for every branch, and the whole effect on table, marker and log |
| `Sessions.SessionStore.Get` | src/shared/securebank_shared/sessions.py:66-80 | With nothing between its read and its write: finds exactly the live decryptable session, touches it, and drops a blob that does not decrypt |
| `Sessions.SessionStore.RevokeAllForUser` | src/shared/securebank_shared/sessions.py:85-100 | Whatever order and repetitions the scan yields, exactly the sessions of the user and undecryptable blobs go, and the number returned is that of the sessions which a lookup would have found to be the user's |
| `Sessions.RevokeAllIsExact` | src/shared/securebank_shared/sessions.py:85-100 | Afterwards no session of the user is found and every other lookup answers as before |
| `Sessions.LookupExactly` | src/shared/securebank_shared/sessions.py:61-100 | In every history, with anything between the read and the write of each lookup, a session is found if and only if it was created and lives on: through a chain of lookups that each read it within 900 s of the write before and wrote it back, with no revocation or corruption after the last write, itself under 900 s ago |
| `Sessions.RevocationUndoneExactly` | src/shared/securebank_shared/sessions.py:66-100 | In every history, a session revoked at some point is found later if and only if a lookup that had read it before writes it back after, and it lives on from that write |
| `Sessions.RevocationFinal` | src/shared/securebank_shared/sessions.py:66-100 | A revocation with no lookup of the session under way is final |
| `Sessions.RevocationUndone` | src/shared/securebank_shared/sessions.py:66-83 | The failing family: a lookup that had read the session brings it back by its next step, for 900 s |
| `Sessions.LookupReturnsCreated` | src/shared/securebank_shared/sessions.py:75-80 | In every such history what is found is the session as created but for `last_seen` |
| `RefreshTokens.DecodeEncode` | src/shared/securebank_shared/sessions.py:112-126 | An entry survives its text form if and only if neither id contains the separator |
| `RefreshTokens.RefreshTokenStore.Rotate` | src/shared/securebank_shared/sessions.py:115-136 | A successor of the same user and session exactly when the token is live and not in state `used`; the new state of all entries |
| `RefreshTokens.MintsExactly` | src/shared/securebank_shared/sessions.py:115-136 | In every run presenting a token mints if and only if the last operation that wrote it (its issue, its minting, or a presentation that found it) was less than 604,800 s ago and an even number of presentations found it before; both read off the operations alone |
| `RefreshTokens.ConsecutiveMintOnce` | src/shared/securebank_shared/sessions.py:115-136 | Of two consecutive presentations of one token, whatever happens in between, at most one mints |
| `RefreshTokens.ReuseIsLocal` | src/shared/securebank_shared/sessions.py:129-132 | A detected reuse changes the entry of the presented token only, and that token mints on its next presentation |
| `RefreshTokens.FamilyKeepsOwner` | src/shared/securebank_shared/sessions.py:110-136 | In every run whatever rotations lead to from an issued token carries the user and session of that issue |
| `RefreshTokens.FamilyExactly` | src/shared/securebank_shared/sessions.py:110-136 | A token in the store is one user's for one session if and only if rotations lead to it from a token issued to that user for that session |
| `RefreshRaces.Undisturbed` | src/shared/securebank_shared/sessions.py:115-136 | The read, the mark and the issue of a rotation with nothing between them do what `rotate` as one step does |
| `RefreshRaces.UsedExactly` | src/shared/securebank_shared/sessions.py:115-136 | In every history, with anything between the steps of each rotation, a token is in the refusing state if and only if a rotation that was let through has marked it and no refused one since |
| `RefreshRaces.AdmittedExactly` | src/shared/securebank_shared/sessions.py:115-136 | So a rotation that finds its token is let through unless such a mark stands when it reads |
| `RefreshRaces.OverlapMintsTwice` | src/shared/securebank_shared/sessions.py:115-136 | The family for which one token mints twice: two rotations that both read it before either marks it each issue a live successor for its user and session |
| `RefreshRaces.OneTokenTwoSuccessors` | src/shared/securebank_shared/sessions.py:115-136 | Such a run from an empty store: a token issued once has two live successors |
| `RefreshRaces.StepsOnce` | src/shared/securebank_shared/sessions.py:115-136 | In every history each rotation writes its mark once and issues its successor once, after the mark |
| `MfaThrottle.Throttle.Attempt` | src/auth-service/app/routes_auth.py:162-168 | The counter and the verdict after one attempt |
| `MfaThrottle.AtMostTenPerWindow` | src/auth-service/app/routes_auth.py:162-168 | From the attempt that opens a window until it expires at most ten attempts are admitted |
| `MfaThrottle.AtMostTwenty` | src/auth-service/app/routes_auth.py:162-168 | In every run at most twenty attempts on one key are admitted in any 900 seconds |
| `MfaThrottle.TwentyIsReached` | src/auth-service/app/routes_auth.py:162-168 | That bound is attained |
| `MfaThrottle.RefusedExactly` | src/auth-service/app/routes_auth.py:162-168 | In every run of attempts with tokens an attempt is refused if and only if ten earlier attempts in the current window used tokens with the same key |
| `MfaThrottle.VerdictPerTokenExactly` | src/auth-service/app/routes_auth.py:162-168 | Where the shared window is also one of the token alone, the verdict is that of a counter per token if and only if the attempts with other tokens do not use up what the token left |
| `MfaThrottle.RateKeyExactly` | src/auth-service/app/routes_auth.py:163 | Two tokens share a counter if and only if they share their first 32 characters |
| `MfaThrottle.PerTokenExactly` | src/auth-service/app/routes_auth.py:162-168 | Over a set of tokens every verdict in every run is that of a counter per token if and only if no two of them share their first 32 characters |
| `MfaThrottle.OthersExhaust` | src/auth-service/app/routes_auth.py:162-168 | The failing run: ten attempts with one token get the first attempt with another refused |
| `MfaThrottle.OthersRelieve` | src/auth-service/app/routes_auth.py:162-168 | And the other way: where windows differ, another token lets an eleventh attempt within 100 s through |
| `MfaThrottle.Base64Exactly` | src/shared/securebank_shared/auth.py:109-112 | The encoded header, read as a number in base 64, is that of its bytes, filled up to whole characters |
| `MfaThrottle.HeaderDecidesKey` | src/shared/securebank_shared/auth.py:109-112 | Tokens whose headers agree on their first 24 bytes share one counter |
| `AuthFlow.GateExactly` | k8s/policies/opa/securebank_authz.rego:30-44 | Application gate and policy together accept exactly: an unexpired access token, customer role, a valid amount, and amount < 10,000 or second factor |
| `AuthFlow.PayExactly` | src/transaction-service/app/routes_transfers.py:32-53 | A transfer is accepted exactly with issued, unexpired access claims of a customer, an amount in range, and an amount below 10,000 or a second factor; otherwise nothing changes |
| `AuthFlow.ValidRun` | src/auth-service/app/routes_auth.py:85-290 | The provenance invariant of claims, sessions and refresh tokens in every run |
| `AuthFlow.LargeTransfersHadSecondFactor` | src/auth-service/app/routes_auth.py:126-272 | In every run each accepted transfer of 10,000 or more was requested at some step with an access token whose session an earlier step, `mfa_verify`, created for its subject, accepting the code of an enrolled user with an issued, unexpired pre-auth token; through any number of refreshes |
| `AuthFlow.SecondFactorExactly` | src/auth-service/app/routes_auth.py:158-201 | In every run a session counts as having a second factor if and only if such a step is in the run |
| `AuthFlow.SessionsExactly` | src/auth-service/app/routes_auth.py:85-221 | In every run a session belongs to a user if and only if some step created it for that user: a login with the right password of the active, unlocked user without a second factor, or an accepted second factor |
| `AuthFlow.IssuedExactly` | src/auth-service/app/routes_auth.py:85-272 | In every run claims are issued if and only if some step issued them: a session's start for 900 s, a right password of an active, unlocked user with a second factor (pre-auth, 300 s), or the end of a refresh that read a live session |
| `AuthFlow.SessionsAreCreated` | src/auth-service/app/routes_auth.py:85-221 | In every run a session that is found has the id, user, roles, second factor and creation time that the step which created it gave it |
| `AuthFlow.StartOpens` | src/auth-service/app/routes_auth.py:85-221 | After such a step the session is found as it was created, and its refresh token is live for 604,800 s |
| `AuthFlow.PreAuthNeverPays` | src/shared/securebank_shared/jwt_dep.py:79-81 | In every run each accepted transfer carries an issued access token, never a pre-auth token |
| `AuthFlow.RefreshCopiesSession` | src/auth-service/app/routes_auth.py:250-272 | In every run, with anything between the steps of a refresh, its last step issues one access token if an earlier step of it read a live session, with the subject, roles and second factor of that session, and nothing otherwise |
| `AuthFlow.RefreshSteps` | src/auth-service/app/routes_auth.py:250-272 | The three steps of a refresh in a row, in any state that knows neither its id nor its successor, do what the undisturbed refresh does |
| `AuthFlow.LogoutIsFinal` | src/auth-service/app/routes_auth.py:250-290 | After a logout with no refresh holding the session, no continuation brings the session back or issues claims that name it |
| `AuthFlow.LogoutIsUndone` | src/auth-service/app/routes_auth.py:250-290 | A refresh that holds the session brings it back after the logout and issues an access token for it |
| `AuthFlow.LogoutIsFinalExactly` | src/auth-service/app/routes_auth.py:250-290 | So a logout is final if and only if no refresh holds the session |
| `AuthFlow.LogoutIsLocal` | src/auth-service/app/routes_auth.py:284-290 | A logout leaves every other session to be found as before and changes nothing else |
| `AuthFlow.AuthService.Login` | src/auth-service/app/routes_auth.py:85-152 | The reply is 401 exactly for an unknown or inactive user or a wrong password, 423 exactly for a locked one with the right password, a pre-auth token of 300 s exactly with a second factor on, and a session with both tokens exactly otherwise; a refusal changes nothing, and the state is that of the step of the run machine |
| `AuthFlow.AuthService.MfaVerify` | src/auth-service/app/routes_auth.py:158-221 | 429 exactly when the throttle refuses; signed exactly with an unexpired pre-auth token of an enrolled user and an accepted code, and then with the session just created; otherwise 401 and nothing changed but the counter |
| `AuthFlow.AuthService.Refresh` | src/auth-service/app/routes_auth.py:250-278 | Succeeds exactly when the token mints and its session is live, with claims of 900 s copied from the session; otherwise 401 and no claims issued |
| `AuthFlow.AuthService.Logout` | src/auth-service/app/routes_auth.py:284-290 | Revokes the named session and nothing else |
| `Iban.NumericValue` | src/account-service/app/iban.py:13-20 | For every string: the loop returns the expansion with letters as two digits, and fails exactly on a character that is neither a digit nor an upper-case letter |
| `Iban.LetterExactly` | src/account-service/app/iban.py:10-20 | A letter becomes the two digits of 10 plus its place in the alphabet |
| `Iban.ExpandNum` | src/account-service/app/iban.py:13-27 | The numeral of the expansion is the place-value number of the characters, letters weighing two places |
| `Iban.Mod97IsRemainder` | src/account-service/app/iban.py:24-26 | Reducing character by character gives the remainder of the whole numeral |
| `Iban.CheckDigits` | src/account-service/app/iban.py:23-28 | For letters and digits: two digits exactly when all letters are upper case, and then those of `Check` |
| `Iban.CheckIsValid` | src/account-service/app/iban.py:23-28 | For every country code and account part the check value lies in 2..98 and prints as exactly two digits, and the numeral of account part, country and check digits is 1 modulo 97 |
| `Iban.CheckIsUnique` | src/account-service/app/iban.py:23-28 | No other two digits in 02..98 make the IBAN valid |
| `Iban.InfixDecides` | src/account-service/app/iban.py:23-28 | Equal remainders of two strings that differ in one infix of equal weight force the infixes to be equal mod 97, since 97 divides no power of ten |
| `Iban.SubstitutionDetected` | src/account-service/app/iban.py:10-28 | Replacing one character by another of its class changes the remainder, at any position and length |
| `Iban.SwapDetected` | src/account-service/app/iban.py:10-28 | Swapping two different adjacent characters of one class changes the remainder, at any position and length |
| `Iban.NewIban` | src/account-service/app/iban.py:31-38 | A new IBAN has the fixed shape, keeps the account number drawn, and is 1 mod 97 when rearranged |
| `HashChain.ChainHead` | src/shared/securebank_shared/audit.py:61-77 | The hash of the record before any position is the head of the entries up to there |
| `HashChain.HeadDetermines` | src/shared/securebank_shared/audit.py:61-77 | For any faithful body: equal heads from one seed mean equal entries in equal number and order, or two texts hashed on the way collide |
| `Audit.TextExactly` | src/shared/securebank_shared/audit.py:73 | Two records have one serialisation if and only if a reader sees the same entry after the same hash |
| `Audit.RecordSays` | src/shared/securebank_shared/audit.py:61-73 | The text that is hashed loads to an object of exactly ten members that say the fields of the entry and the hash before it, each under its own name |
| `Audit.HeadExactly` | src/shared/securebank_shared/audit.py:48-77 | Two logs from one seed have one head if and only if they show the same entries, short of a collision of the hash: no edit, drop, insertion or reordering keeps the head |
| `Audit.ChainDetermines` | src/shared/securebank_shared/audit.py:48-77 | Two chains of records from one seed with one last hash are the same log, short of a collision, when no text splits a surrogate pair |
| `Audit.LoggersAgree` | src/shared/securebank_shared/audit.py:48-77 | Two loggers that serialise as `json.dumps` does, from one seed and with one hash, have emitted the same log, short of a collision |
| `Audit.AuditLogger.constructor` | src/shared/securebank_shared/audit.py:44-49 | An empty chain that starts at the hash of the seed |
| `Audit.AuditLogger.Emit` | src/shared/securebank_shared/audit.py:61-77 | Appends one record that names the hash before it and carries the hash of its own text; the log stays one chain |
| `Redaction.SubIsRedact` | src/shared/securebank_shared/logging.py:18-20 | The regular expression substitution, as a left to right scan, replaces exactly the maximal digit runs of its length |
| `Redaction.Compose` | src/shared/securebank_shared/logging.py:35-36 | Two passes in sequence are one pass with both rules |
| `Redaction.NoRunRemains` | src/shared/securebank_shared/logging.py:18-36 | No maximal digit run of a redacted length remains |
| `Redaction.UnchangedExactly` | src/shared/securebank_shared/logging.py:18-36 | A text is left as it is if and only if it holds no run of a redacted length |
| `Redaction.PassesCommute` | src/shared/securebank_shared/logging.py:18-36 | The two digit passes commute, and redacting again changes nothing |
| `Redaction.Record.Filter` | src/shared/securebank_shared/logging.py:30-39 | After both digit passes the message is the input with exactly the runs of 13 and 16 digits replaced, none is left, and the arguments are cleared; a message that cannot be formatted is let through untouched |
| `BellLaPadula.LevelValueIsIndex` | k8s/policies/opa/bell_lapadula.rego:24-29 | A name has a level exactly when it is in the list, and the level is its place there |
| `BellLaPadula.AllowExactly` | k8s/policies/opa/bell_lapadula.rego:31-62 | Between labels of known levels a read is allowed exactly of an equal or lower level, a write exactly to an equal or higher one, and no other operation is |
| `BellLaPadula.NothingFlowsDown` | k8s/policies/opa/bell_lapadula.rego:31-62 | In every run of requests, through any number of subjects and objects, nothing comes to rest below the level of the object it came from |
| `BellLaPadula.FlowExactly` | k8s/policies/opa/bell_lapadula.rego:31-62 | Information can get from one object to another in some run if and only if they are one, or some subject may read the first and write the second |

## Left out

- Envelope.OpenSeal: numbers are opaque tokens. That Python reads back a number it printed is the hypothesis `Printable`; a tag has 32 bytes, as HMAC-SHA256 has.
- Envelope.AcceptedWasSealed: a text that verifies is assumed to be one that was signed; unforgeability of HMAC is not modelled, and neither is the encoding detection of `json.loads`.
- Json.LoadsRelayed: the limits of Python on recursion depth and integer length are not part of this model, nor are keys that are not strings.
- ZScore.ScoreBounded: exact reals in place of floating point, and the standard deviation is given as the root that it is.
- FraudWindow.FraudStore.Handle: the isolation forest, its verdict and the alert published on an anomaly are left out; the clock does not decrease.
- Iban.CheckDigits: for ASCII letters and digits. What `int` accepts beyond digits (signs, underscores, white space) and letters outside ASCII are not modelled.
- Redaction.Record.Filter: the e-mail, token and password patterns that follow the two digit passes are left out.
- Sessions.SessionStore.RevokeAllForUser: one scan with nothing else writing meanwhile, which yields every stored key at least once. In the histories of `Sessions.LookupExactly` such a scan is one event; each deletion of a scan that is interrupted is an event `Revoked`.
- Sessions.SessionStore.Get: with nothing between its steps; the histories take them apart.
- MfaThrottle.Throttle.Attempt: increment and expiry are one step; a key left without an expiry by a crash between them is not modelled.
- RefreshTokens.RefreshTokenStore.Rotate: one atomic call; `RefreshRaces` takes its steps apart. Entries are kept decoded, and `RefreshTokens.DecodeEncode` says when that loses nothing.
- AuthFlow.LargeTransfersHadSecondFactor: signing, key rotation and the key cache are reduced to "what verifies was issued"; changes of roles or enrolment between login and use enter through the row that each step reads. Creating a session and issuing its first tokens is one step, and so is the rotation inside a refresh.
- AuthFlow.AuthService.Login: the failed-login count, the lock it sets, rehashing, client address and agent, and audit records are left out; the lock is an input.
- AuthFlow.AuthService.MfaVerify: decoding of the presented text is an input, and its claims are ones that were issued.
- Transfers.TransferService.Transfer: the risk score is an input; malformed identifiers are left out, and so are the session rules of the database library after a rollback; the written intent, fetching the prior row, is modelled.
- Pipeline.VelocityIsNeverInflated: one partition, no rebalancing.
- Accounts.AtMostOncePerDay: the markers are those of the model's requests; eviction by Redis before expiry is not modelled.
- Accounts.ReplayAnswersExactly: the read-out shows balance and status; the masked IBAN and the currency, which never change, are left out, and rows are never deleted.
- Audit.AuditLogger.Emit: the serialisation is a field of the logger, tied to the canonical text in `Audit.LoggersAgree`; the lock makes one call atomic; forwarding of the record to the log pipeline and archival across restarts are left out.
- BellLaPadula.NothingFlowsDown: labels do not change during a run; the reasons logged on a denial are left out.
- Transport: FastAPI, SQLAlchemy, Redis, Kafka, Vault, OPA and HTTP appear only through their visible effect.
- Cryptography: AES-GCM, HMAC, SHA-256, RS256, Argon2 and TOTP are parameters.
- Moving money between two accounts on a transfer: the route stores a pending row and publishes; `transfer_funds` and the balance check of `docs/01_SRD.md:138-139` have no code in the repository.
- Registration, enrolment, profile and account read-outs, IBAN masking, hashing and encryption, `fast_score`, and the key cache: they would add only easy members.
- The front end, the gateway and its firewall rules, SOAR playbooks, code review, drift detection, Kubernetes, Terraform and dashboards.
