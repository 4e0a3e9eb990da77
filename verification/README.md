# scopuli, verified

scopuli is a credential vault: secrets are sealed with AES-256-GCM and stored in SQLite beside full-text indexes, agent
keys reach them through path globs, and everything is written to a hash-chained audit log. This project models that
behaviour in Dafny 4.11 and proves what it keeps. `dafny verify dfyconfig.toml` checks all of it.

## How the model is laid out

| part | files |
|---|---|
| bytes, UTF-8, decimals, JSON, sorting, trimming | `Basics`, `Utf8`, `Decimal`, `Json`, `Sorting`, `Text` |
| hash, MAC and AEAD as parameters; the AAD preimage | `CryptoPrimitives` |
| the audit chain, its logger, its queries, its threads, the connection pool | `HashChain`, `AuditChain`, `AuditLog`, `AuditQuery`, `Like`, `AuditConcurrency`, `Pool` |
| path.Match: patterns and what they stand for, its scan, its loops, characters, where they agree, its documentation, single patterns | `PathGlob`, `PathScan`, `PathChunks`, `PathMatcher`, `PathChars`, `PathAgreement`, `PathRunes`, `PathSyntax` |
| scopes, principals, and the tokens that make them | `Scope`, `Auth`, `Credentials` |
| tags, merging them twice, metadata and the flattened index text | `Tags`, `TagsTwice`, `MetadataJson`, `FtsText` |
| the tables and their indexes | `FtsIndex`, `Store` |
| what the secret handlers decide; the server that carries it out; rotation | `Vault`, `Server`, `Rotation`, `Operators` |
| what each request is answered and stores, in its own fields | `Requests`, `Listings` |
| the plain map they refine; their interleavings; a handler alone; key confinement | `PlainVault`, `VaultConcurrency`, `VaultAlone`, `Confinement` |
| session cookies and tokens | `Base64`, `Session`, `Token` |

What the source does by changing state is a class with methods and loops (`Logger`, `Store`, `Server`, and the loops over
tags, metadata, digits and patterns). Each method is proved equal to a function of the old state, and the theorems are
about those functions. Where a method and its theorems rest on the same function, a lemma says what that function does in the
fields of the request or the columns of the row (`Requests`, `Listings`, `Credentials`, `AuditChain.AcceptsIff`,
`AuditQuery.ListedIff`, the `Columns` lemmas of `Store`). `Db` gathers a store's four tables, `World` a server's database and
audit calls.

The main results:

- **Audit chain.** Every rearrangement of an accepted log that still verifies is a prefix of it
  (`AuditChain.RearrangedAcceptedIff`); two accepted logs with the same last hash are the same log
  (`AuditChain.SameEndSameEntries`); every interleaving of appends is accepted
  (`AuditConcurrency.EveryInterleavingAccepted`) and never gets stuck (`Pool.DisciplinedNeverStuck`).
- **Requests.** What a put, a save or an annotation stores is what the next get answers (`Requests.PutThenGet`,
  `Requests.SaveThenGet`, `Requests.AnnotateStores`); a revoked key is refused and every other one answered as before
  (`Credentials.RevokedIsRefused`).
- **Encrypted vault.** Run in sequence the handlers refine a plain map (`PlainVault.RunRefines`); in every interleaving
  every row opens (`VaultConcurrency.EveryRowOpens`), and a handler that runs alone does what its method does
  (`VaultAlone.AloneIsHandler`); rotation leaves an exact split (`Server.Server.RotateAll`).
- **Confinement.** Runs of an agent key neither see nor touch what is outside its scope (`Confinement.RunsConfined`,
  `Confinement.RunLeavesOthers`).
- **Index.** After every sequential run the indexes mirror the tables (`Store.EveryRunMirrored`); after a failed statement or an
  interrupted migration, exactly under stated conditions (`Store.FaultyPutConsistentIff`, `FtsIndex.MigratedAgainIff`).
- **Globs.** The loops of path.Match compute its scan (`PathMatcher.MatchPath`); it lies between its documentation and
  the glob of bytes, and meets each on exactly the paths stated (`Scope.MatchDocumentedIff`, `Scope.MatchAgreesIff`).
- **Encodings.** Round trips and exact ambiguity conditions for JSON, AAD, cookies, base62, tags, metadata, LIKE and globs.

## What is assumed

No assumption is an axiom; each is a parameter or a premise of the lemmas that need it.

- SHA-256 and HMAC are arbitrary functions with 32-byte results. `HashChain.HashesSafe` asks that SHA-256 shows no collision
  and never the all-zero digest on a finite set of byte strings that covers the logs in question.
- AES-256-GCM is a seal/open pair in which opening undoes sealing (`AeadCorrect`, section 7 of NIST SP 800-38D). Nonces are
  arguments. Nothing is assumed about opening with a wrong key or AAD, except as a premise of `Rotation.AllRowsNewIff`.
- Go's JSON decoder is a function; `MetadataJson.DecoderCorrect` asks that it undoes json.Marshal on maps of valid UTF-8
  strings and yields only valid UTF-8.
- Clock readings, store faults and the order in which SQLite returns unordered rows are arguments or left open.

## Where the code differs from what is written about it

The model follows the code.

- Any prefix of a log verifies, so cutting off its tail goes unnoticed, although the chain is said to break under tampering
  anywhere. `AuditChain.RearrangedAcceptedIff` says that this is the only rearrangement that does.
- `CONTEXT.md` gives the AAD as a plain concatenation; the code puts a zero byte behind path and description. With zero bytes in
  the texts themselves it is still ambiguous (`CryptoPrimitives.AadPreimageUniqueIff`).
- Entries that differ only in ill-formed UTF-8 bytes are hashed alike (`AuditChain.CanonicalJsonEqualIff`).
- The package comment of `internal/scope/scope.go` rules out character classes; path.Match has them, and so has the model. The
  key form offers `*` for everything; it stands for one segment (`Scope.LoneStarIff`).
- An action filter with a zero byte in it becomes an ends-with test (`Like.ActionFilterWithZero`).
- `MergeTags` is not idempotent for every added tag with a comma (`Tags.MergeAgainWithComma`); `TagsTwice.MergeTwiceIff` says
  exactly when it is.
- `flattenMetadata` joins with ";", its comment says "; ".
- An agent key carries 64 random bits, not 192: only the first eight of its 24 bytes are written (`Token.SameKeyIff`).
- A put that fails behind its upsert leaves the index stale exactly when the indexed text changed
  (`Store.FaultyPutConsistentIff`).
- A put or a save takes a row whose read fails for a missing one, and its version restarts at 2;
  that is right exactly when the row had version 2 and keeps its description (`PlainVault.FailedReadRestartsVersion`).
- Rotation skips a row that it cannot read and still reports success (`Rotation.AllRowsNewIff`).
- A delete removes by the id it read. Two deletes of one path at the same time, with a new path stored between their statements,
  can remove the new row (`VaultConcurrency.StaleEraseReached`).
- path.Match lies between its documentation, in which a star takes whole characters, and the glob of bytes, in which it takes any
  run of bytes. It looks for a chunk byte by byte, so a key can reach a path that its scope is documented not to reach: a euro
  sign alone for `*??` (`PathRunes.EuroMatchesTwoMarks`), and some pattern does so on exactly the paths with a character of two
  bytes or more (`Scope.MatchDocumentedIff`, `Auth.ScopesAsDocumentedIff`). It never takes a chunk back, so it accepts less than
  the glob of bytes on exactly the paths with one of three or four (`Scope.MatchAgreesIff`), such as a euro sign and an X for
  `*??*X` (`PathAgreement.TwoMarksRefused`). All this with patterns that a key can hold (`Auth.ReceivableIff`).
- The audit pages for 24h, 7d and 30d take their time bound from the clock again for every page, so an entry that grows too old
  between two pages is on neither (`AuditQuery.FollowedPagesExactIff`, `AuditQuery.OldestLost`).
- A rotation that stops half-way cannot be finished by another one while the rows it has rewritten can be read
  (`Rotation.RetryFinishesIff`).
- A migration of an index that is cut short behind the DROP leaves a table that passes the next probe and is not refilled
  (`FtsIndex.MigratedAgainIff`).
- Rotation replies with a new operator token even if the operator's row was not updated (`Operators.NewTokenLogsInIff`).

## Model

| member | source | states |
|---|---|---|
| AuditLog.Logger.Append | internal/audit/audit.go:55-100 | A failed append, at whichever call it fails, leaves the table as it was; a successful one adds exactly the one row with the columns of the entry that chains to the last, and returns its id, one more than the last one; a valid log stays valid. What it does to the connection pool is its program, from the start to some return. |
| AuditLog.Logger.Verify | internal/audit/audit.go:103-147 | Answers ok exactly when every row is the right successor of the one before it; otherwise names the first row that is not, with two different hashes. |
| AuditChain.AcceptsIff | internal/audit/audit.go:103-147 | What Verify accepts, in the columns: the first row points at 32 zero bytes and every other one at the hash in front of it, and every row has the SHA-256 of what it points at and its own canonical text, and the HMAC of its hash under the key. |
| AuditChain.BreaksAtIff | internal/audit/audit.go:103-147 | The row that Verify names is the one at the end of the shortest prefix that is not accepted. |
| AuditChain.MacDetected | internal/audit/audit.go:135-138 | If the HMAC of one row is overwritten with any other value, Verify breaks at exactly that row. |
| AuditChain.OtherKeyAcceptedIff | internal/audit/audit.go:135-138 | A log chained under one key is accepted under another exactly when both keys give every row hash the same HMAC. |
| AuditChain.CanonicalText | internal/audit/audit.go:247-258 | The text that is hashed: the six fields in the order of their names, texts quoted, numbers in decimal, no white space. |
| AuditChain.CanonicalJsonEqualIff | internal/audit/audit.go:247-258 | Two entries are hashed alike exactly when their numbers agree and their texts decode to the same runes; the id plays no part, and a NULL path counts as "". |
| AuditChain.SameContentIsEqual | internal/audit/audit.go:247-258 | For entries in valid UTF-8 that means they are the same entry. |
| AuditChain.AppendKeepsChain | internal/audit/audit.go:55-100 | An append keeps an accepted log accepted. |
| AuditChain.RunAccepted | internal/audit/audit.go:55-147 | Whatever is appended, Verify accepts the log, and it holds those entries under the ids 1, 2, 3, and so on. |
| HashChain.HashesDistinct | internal/audit/audit.go:103-147 | In a verified chain no two rows have the same hash. |
| HashChain.HashNotZero | internal/audit/audit.go:103-147 | In a verified chain no row has the genesis hash. |
| HashChain.PickChainedIff | internal/audit/audit.go:103-147 | Links dropped, repeated or moved verify exactly when every link kept its place. |
| AuditChain.RearrangedAcceptedIff | internal/audit/audit.go:103-147 | Take any rows of an accepted log, dropped, repeated, moved and renumbered: Verify accepts them exactly when they are a prefix of the log. |
| HashChain.SameEndSameLength | internal/audit/audit.go:103-147 | Two verified chains that end in the same hash are equally long, under any MAC keys. |
| AuditChain.SameEndSameEntries | internal/audit/audit.go:103-147 | Two accepted logs of any lengths that end in the same hash hold the same entries in the same order, up to ill-formed UTF-8 bytes. |
| HashChain.OverwriteOutcome | internal/audit/audit.go:103-147 | What Verify makes of one row overwritten with anything at all: it breaks there, or one row further on, or the row was the last or kept its hash. |
| AuditChain.EditDetected | internal/audit/audit.go:103-147 | If the entry columns of one row are overwritten, Verify breaks at exactly that row, unless the content is the same. |
| AuditConcurrency.EveryInterleavingAccepted | internal/audit/audit.go:55-100 | For any number of appending threads and any failing calls, at every moment of every interleaving Verify accepts the committed table, which is the initial one plus exactly one row per committed thread, in commit order. |
| AuditConcurrency.SomeThreadAdvances | internal/store/store.go:51 | As long as some thread is not done, some thread can make its next call. |
| AuditConcurrency.RunsEnd | internal/audit/audit.go:55-100 | Every run of n threads takes at most 4n steps. |
| Pool.StoreOperationsDisciplined | internal/store/store.go:235-373 | Append, put, delete, the writes of keys and the migration, whatever the sizes of the tables and wherever they return early, never request the connection while holding it. |
| Pool.InPartDisciplined | internal/store/store.go:235-373 | So with whatever Append, PutSecret, DeleteSecret, CreateKey, UpdateKey and MigrateFts5 have done at their returns: each contract says that this is its program, from the start to some return. |
| Pool.DisciplinedNeverStuck | internal/store/store.go:51 | Threads running such programs over the single connection never get stuck, after any schedule. |
| Pool.UnbufferedReindexStuckIff | internal/store/store.go:291-294 | Inserting while the cursor is open, which the migration avoids by buffering, can hang exactly when there is a row to insert. |
| Like.EscapedIsLiteral | internal/audit/audit.go:190-193 | Escaped text in front of any rest of a pattern matches itself, up to ASCII case, and nothing else. |
| Like.ActionFilterContains | internal/audit/audit.go:169-193 | The action filter selects exactly the actions that contain the given text, up to ASCII case, for every text of %, _ and backslashes too, if it holds no zero byte. |
| Like.ActionFilterWithZero | internal/audit/audit.go:169-193 | With a zero byte in the text it instead selects the actions that end in the part in front of it. |
| Like.ActionFilterContainsIff | internal/audit/audit.go:169-193 | It is the contains test for every action exactly when the text has no zero byte. |
| Like.PrefixIff | internal/store/secrets.go:141-150 | A path prefix without wildcards selects exactly the paths that start with it, up to ASCII case. |
| Like.SameFoldedIff | internal/audit/audit.go:190-193 | Bytes are the same up to ASCII case exactly if they are equal or a capital and its small letter. |
| AuditLog.Logger.Query | internal/audit/audit.go:199-213 | One page: the selected rows below the cursor, newest first, up to the clamped limit; ListedIff and PageIff say in the columns which these are. |
| AuditLog.Logger.CountRows | internal/audit/audit.go:216-224 | The number of rows that the filters select, which CountIff states in the columns. |
| AuditLog.Logger.LoadAuditPage | internal/api/ui_pages.go:461-488 | Looks the key up by its name and fails if there is none or a read fails; otherwise the page, the total (zero if it cannot be had), whether there may be more, and the cursor of the next page. |
| AuditQuery.ListedIff | internal/audit/audit.go:169-187 | A row passes exactly when it is recent enough, is of actor kind "key" with the id asked for, holds the text asked for in its action up to ASCII case, and lies below the cursor; each of these only if asked for. |
| AuditQuery.PageIff | internal/audit/audit.go:199-213 | A page lists only rows that pass, no more than the limit (100 if it is not within 1 to 1000), and leaves one out that passes only if it is full of newer ones. |
| AuditQuery.CountIff | internal/audit/audit.go:216-224 | Count is the number of rows that pass. |
| AuditQuery.NewestHolds | internal/audit/audit.go:199-213 | An entry is listed exactly when some row lets it through the filters and the cursor. |
| AuditQuery.NewestDescends | internal/audit/audit.go:199-213 | The ids of the listed entries descend strictly. |
| AuditQuery.NewestBelow | internal/api/ui_pages.go:484-486 | Taking a listed entry's id as the cursor leaves exactly the entries behind it. |
| AuditQuery.FollowedPagesExact | internal/api/ui_pages.go:448-534 | With a time bound that stays as it is, as since=all does, following the cursor from the first page to the end, whatever is appended in between, yields exactly the entries selected when the first page was served, newest first, each once, as many as Count said then. |
| AuditQuery.FollowedPagesExactIff | internal/api/ui_pages.go:448-534 | With the bound taken from the clock again for every page, as for 24h, 7d and 30d, the pages are the list of the first moment exactly when every entry is still recent enough when its page of fifty is served. |
| AuditQuery.FollowedPagesMiss | internal/api/ui_pages.go:448-534 | In any case nothing is shown that was not in that list, and what is missed has become too old. |
| AuditQuery.OldestLost | internal/api/ui_pages.go:448-534 | Fifty-one entries of which the oldest is on neither of the two pages. |
| AuditQuery.CountIsLength | internal/audit/audit.go:216-224 | Count is the length of the full list. |
| Json.QuoteUnambiguous | internal/audit/audit.go:247-258 | A quoted string can be read back in one way, whatever follows it, up to its ill-formed bytes. |
| Json.QuoteUniqueIff | internal/audit/audit.go:247-258 | A string is the only one with its JSON encoding exactly when it is valid UTF-8. |
| Json.QuoteReadsBack | internal/audit/audit.go:247-258 | Read as a JSON string, what stands between the quotes is the text again, with U+FFFD for each ill-formed byte. |
| Json.QuoteSafe | internal/audit/audit.go:247-258 | No control character and none of < > & stands in it. |
| Json.PlainQuoted | internal/audit/audit.go:247-258 | Other printable ASCII text stands in it as it is. |
| Utf8.DecodeOfEncode | internal/audit/audit.go:247-258 | Decoding finds every encoded code point, whatever follows it. |
| Utf8.EncodeOfDecode | internal/audit/audit.go:247-258 | What is not called ill-formed is the encoding of the code point it decodes to. |
| Json.ObjectEqualIff | internal/audit/audit.go:247-258 | Objects with the same keys are written alike exactly when their values agree. |
| Decimal.ParseDec | internal/api/ui_session.go:97 | Every int64 survives being written in decimal and parsed. |
| CryptoPrimitives.OpenSealed | internal/crypto/aead.go:31-82 | What Seal returns can be cut at the nonce, stored in two columns, rejoined and opened to the plaintext. |
| CryptoPrimitives.OpenIff | internal/crypto/aead.go:60-82 | What is rejoined from a nonce and the rest opens exactly to what the cipher answers for them, under a key of 32 bytes and with room for the tag. |
| CryptoPrimitives.AadLayout | internal/crypto/aead.go:91-101 | The preimage is the path, a zero byte, the description, a zero byte, and eight bytes that read as the version modulo 2^64. |
| CryptoPrimitives.AadPreimageInjective | internal/crypto/aead.go:91-101 | For paths without a zero byte the AAD preimage determines path, description and version, whatever the description holds. |
| CryptoPrimitives.AadPreimageUniqueIff | internal/crypto/aead.go:91-101 | Over all paths a triple shares its preimage with no other exactly when neither path nor description holds a zero byte. |
| Vault.SealRowOk | internal/api/server.go:400-421 | Sealing a row for its own path, description and version gives a row with that AAD that opens to the value; it fails only for a key of the wrong size. |
| Vault.HandleWritesOk | internal/api/server.go:345-556 | Whatever row a handler read, the row it asks the store to write has the AAD of its own columns and opens under the key. |
| Vault.ChangedOk | internal/store/secrets.go:58-85 | Storing such a row, or deleting one, keeps every stored row right. |
| Requests.PutReplyIff | internal/api/server.go:345-427 | How a put is answered and audited, from the request alone: forbidden, bad or done, each exactly when. |
| Requests.PutThenGet | internal/api/server.go:382-421 | What a done put stores is what the next get of the path answers: its value, label, description and metadata, and as tags each trimmed piece that is not blank, once. No other path changes. |
| Requests.FormTimes | internal/api/server.go:382-403 | The version and both time stamps of a written row, and the creation time that is asked for. |
| Requests.SaveReplyIff | internal/api/ui_actions.go:25-149 | The same for a save of the web interface on a right table: done exactly with a path, fitting tags, description and metadata, and a value or a stored one. |
| Requests.SaveThenGet | internal/api/ui_actions.go:82-149 | What a done save stores is what the next get answers; a blank value keeps the stored one. |
| Requests.AnnotateReplyIff | internal/api/server.go:472-556 | How an annotation of a right table is answered and audited, from the request and the row. |
| Requests.AnnotatedIff | internal/api/server.go:498-515 | The new tags are the old and the added ones that are not removed, each once; the description is the new one if given; the metadata is the old without what is unset, overridden by what is set. |
| Requests.AnnotateStores | internal/api/server.go:492-550 | A done annotation leaves just these in the row, with the same value, label and creation time, and one version more exactly for a new description. No other path changes. |
| Requests.AnnotatedTagsShown | internal/api/server.go:1004-1016 | The next get shows these tags one by one if none has a comma. |
| Requests.DeleteReplyIff | internal/api/server.go:437-462 | How a delete is answered and audited; a done one removes the path and nothing else. |
| Requests.UiDeleteReplyIff | internal/api/ui_actions.go:153-182 | The same for the web interface, for the trimmed path. |
| Requests.SplitCsvIff | internal/api/server.go:1004-1016 | The tags of a reply are the trimmed pieces that are not blank. |
| Listings.GetIff | internal/api/server.go:300-333 | How a get of any row is answered and audited, whether or not the row opens. |
| Listings.ListIff | internal/api/server.go:238-289 | What a list shows and audits for any table: the rows under the prefix that the caller reaches, that can be read and that open, in strictly ascending order of their paths, values masked unless asked for; one event for each row that does not open, and one for the list. |
| Listings.PageEventsIff | internal/api/ui_pages.go:153-190 | A page of secrets adds exactly one kind of event, for the rows that can be read but do not open. |
| Listings.RowOpensIff | internal/api/server.go:317-318 | With which AAD a stored row opens: its stored one, or the hash of its columns. |
| Server.SettledIff | internal/api/server.go:405-427 | A handler writes its change unless the write fails, and answers and audits it only where nothing behind the write fails either. |
| Server.Server.HandlePutSecret | internal/api/server.go:345-427 | Reply, database and audit calls are those of the put outcome, which Requests.PutReplyIff and PutThenGet state, for every store fault; a row whose read fails counts as missing. |
| Server.Server.HandleAnnotateSecret | internal/api/server.go:472-556 | Reply, database and audit calls are those of the annotate outcome, which Requests.AnnotateReplyIff and AnnotateStores state, for every store fault; a row whose read fails counts as missing; an annotation that changes nothing writes nothing. |
| Server.Server.HandleUiSecretSave | internal/api/ui_actions.go:25-149 | Reply, database and audit calls are those of the save outcome, which Requests.SaveReplyIff and SaveThenGet state, for every store fault and a failing read, and then those of the page of secrets shown with the answer, whatever reads fail; a blank value keeps the stored one. |
| Server.Server.HandleDeleteSecret | internal/api/server.go:437-462 | Reply, database and audit calls are those of the delete outcome. |
| Server.Server.HandleUiSecretDelete | internal/api/ui_actions.go:153-182 | The same for the delete of the web interface, which shows the page unless the store fails. |
| Server.ShownSettled | internal/api/ui_pages.go:148-190 | On a table whose rows are right the page adds nothing to the audit trail, whatever store fault came before and whatever reads fail. |
| Server.ShownIff | internal/api/ui_actions.go:25-182 | The page is shown behind the two replies of the web interface only. |
| Server.Server.HandleGetSecret | internal/api/server.go:300-333 | Reply and audit calls are those of the get outcome, and nothing else changes; a row whose read fails counts as missing. |
| Server.Server.HandleListSecrets | internal/api/server.go:238-289 | The list holds, in path order, one item for each accessible path that can be read and decrypts, and the trail grows by one event for each that does not decrypt and one for the read; without the paths it fails and nothing is audited. |
| Vault.FaultlessList | internal/api/server.go:238-289 | Without failing reads that is the list outcome that refines the plain map. |
| Server.SettledKeepsOk | internal/api/server.go:345-556 | Without faults at the write each handler keeps the tables in agreement with their indexes and every row openable, whether or not it could read its row. |
| Server.FaultsKeepRowsOk | internal/store/secrets.go:58-101 | With faults every stored row still opens. |
| Server.SettledRefines | internal/api/server.go:238-556 | What a handler answers, audits and leaves behind is what the plain map does. |
| PlainVault.HandleRefines | internal/api/server.go:238-556 | One request: the encrypted vault gives the same reply and the same audit events as the plain map from paths to values, labels, tags, descriptions and metadata, and still represents it. |
| PlainVault.RunRefines | internal/api/server.go:238-556 | The same for every sequential run. |
| PlainVault.StepContinues | internal/api/server.go:382-421 | A request that leaves an item in place keeps its creation time, keeps its value unless the request writes one, and adds one edit exactly when the description changes. |
| PlainVault.StepCreates | internal/api/server.go:382-421 | Only a put or a save with a value creates an item; it holds that value and no edits. |
| PlainVault.VersionCountsEdits | internal/api/server.go:382-396 | From an empty vault, a stored version is 2 plus the number of times the description has changed since the row was created. |
| PlainVault.FailedReadRestartsVersion | internal/api/server.go:382-396 | When the read in front of a put fails although the row is there, value and creation time still come out right, but the version restarts at 2; it is then 2 plus the description changes exactly when the stored row had version 2 and the put brings its description again. |
| VaultConcurrency.NextKeepsInv | internal/api/ui_actions.go:82-133 | One step of any handler, a read, a look at one listed row or one row of a page, a write, or a failure of any of them, keeps every stored row and every row about to be stored right. |
| VaultConcurrency.EveryRowOpens | internal/api/server.go:492-550 | At every moment of every interleaving each stored row has the AAD of its own columns and opens with the stored and with the recomputed AAD. |
| VaultConcurrency.NoDecryptFailure | internal/api/server.go:317-322 | In every interleaving no handler records a failed decryption, not for a read, a list or the page shown with an answer. |
| VaultAlone.AloneIsHandler | internal/api/server.go:238-556 | Every run of the steps of one handler alone, whatever fails on the way, ends with the table, the reply and the audit calls that the contract of the handler's method gives for some faults; a delete can also fail at its read, and then nothing has happened. |
| VaultConcurrency.EraseSparesOthersIff | internal/store/secrets.go:125-137 | The delete-by-id of a pending delete touches no other path exactly when the id is still the id of its path, or is unused. |
| VaultConcurrency.StaleEraseHitsReusedId | internal/store/secrets.go:125-137 | If a row is deleted twice at once and a new path is stored between the two statements, the second erases the new row exactly when it got the id: the id was the highest, and the one below it is in use, or there is none. |
| VaultConcurrency.StaleEraseReached | internal/store/secrets.go:125-137 | An interleaving of two deletes and a put that reaches this: the put is answered with success, and its row is gone at the end exactly when the id is reused. |
| Rotation.RotateRowOk | internal/api/server.go:938-951 | A row rotates exactly when it opens under the old key with its stored AAD; it is then sealed under the new key for its own columns and keeps all of them, the stored AAD included. |
| Rotation.RewrappedRight | internal/api/server.go:938-951 | For a right row that means: right again under the new key, with the same value. |
| Server.Server.RotateAll | internal/api/server.go:934-961 | On any table: the loop either gets through all paths, or stops at the first that does not open under the old key or that it cannot store, with the paths in front of it under the new key and those behind it untouched. |
| Server.Server.HandleRotateOperator | internal/api/server.go:914-969 | On any table: replies with the new token exactly when the paths could be listed and every readable row opened and stored, and then the operator's row has its hash if that update went through; otherwise leaves the exact split; refuses a blank password or a missing salt without a change. |
| Operators.NewTokenLogsInIff | internal/api/server.go:962-968 | The token in the reply logs in exactly when the operator was found and updated (no error is reported), or its hash was in use already. |
| Operators.OldTokenLogsInIff | internal/store/operators.go:68-74 | Any other token logs in afterwards exactly when it did before and not through the updated row. |
| Operators.RotatedColumns | internal/store/operators.go:69-75 | The updated row takes the new hash and prefix and keeps its id; every other row stays as it is. |
| Rotation.EveryRowStillOpens | internal/api/server.go:934-961 | At any exit every row is as it was or opens under the new key to its value, and has kept path, description, version and AAD; a right row opens under the old key or the new one. |
| Rotation.RetryFinishesIff | internal/api/server.go:927-961 | The key in memory stays the old one: a second attempt gets through exactly when it passes over every row that the first has rewritten and can store the others it reads. |
| Rotation.AllRowsNewIff | internal/api/server.go:934-961 | A finished rotation has put every row under the new key exactly when no row failed to be read. |
| Confinement.RequestAgrees | internal/api/server.go:238-556 | Two vaults that agree within the scope of a key give the same reply to its request and still agree. |
| Confinement.RunsConfined | internal/api/server.go:238-556 | The same for whole runs of two encrypted vaults with keys, nonces, ids and times of their own. |
| Confinement.ListAgrees | internal/api/server.go:238-289 | The list depends only on the items within the scope. |
| Confinement.ChangeInScope | internal/api/server.go:345-486 | What a key changes is one path within its scope, and only if it may write. |
| Confinement.RunLeavesOthers | internal/api/server.go:345-486 | Over any run of a key, each row outside its scope stays as it is, byte for byte; a read-only key leaves every row. |
| Store.Store.PutSecret | internal/store/secrets.go:58-101 | The upsert keeps id and creation time of a row that is there and gives a new one the next id; the index row is replaced; without faults the index stays exact. |
| Store.Store.DeleteSecret | internal/store/secrets.go:125-137 | Removes the row and its index row, or reports that there is none; under any fault the index stays exact exactly when there was no row or the fault is not behind the DELETE. |
| Store.Store.CreateKey | internal/store/keys.go:30-54 | Adds the key with the next id and its index row, or reports that the name is taken or that a statement failed; the index stays exact exactly unless the key was added and the sync failed. |
| Store.Store.UpdateKey | internal/store/keys.go:106-119 | Under any fault, a consistent database stays consistent exactly under the condition of FaultyUpdateConsistentIff. |
| Store.Store.RevokeKey | internal/store/keys.go:122-127 | Sets the revocation time of the one key and nothing else; the index stays exact. |
| Store.Store.TouchKeyLastUsed | internal/store/keys.go:130-135 | Sets the time of last use of the one key and nothing else; the index stays exact. |
| Store.Store.MigrateFts5 | internal/store/store.go:235-373 | For migrations that end anywhere: which index is touched and how; one that runs to its end makes each index exact if and only if its probe failed or it was exact before; a consistent database is left as it is in any case. |
| Store.PutColumns | internal/store/secrets.go:58-123 | What each column of the written row holds, an old id or one above all others, the index row under it, and that no other row changes. |
| Store.DeleteColumns | internal/store/secrets.go:125-137 | The path and its index row are gone, and nothing else. |
| Store.CreateColumns | internal/store/keys.go:30-54 | What each column of a new key holds, and its index row. |
| Store.UpdateColumns | internal/store/keys.go:106-119 | Which columns an update sets and which it keeps, and the index row. |
| Store.StampColumns | internal/store/keys.go:122-135 | A revocation and a last use each set one column of the key with that id. |
| FtsIndex.MigrateTable | internal/store/store.go:267-284 | The same for one table: it succeeds, and leaves an exact index, exactly under the stated conditions on the probe and on where it ends. |
| FtsIndex.FinishedOutcome | internal/store/store.go:236-283 | A finished migration rebuilds a table of the old schema in which an inserted row cannot be found, and one that holds the row of the probe already; a table that passes is left alone, even one of the old schema. |
| FtsIndex.MigratedAgainIff | internal/store/store.go:267-328 | A migration that ended anywhere, and a complete one at the next Open: the index is exact exactly when it was exact and passed the probe, or it failed the probe and the first one ended in front of the DROP or not before the last row. |
| FtsIndex.Refill | internal/store/store.go:317-325 | The insert loop succeeds exactly when the buffered ids are distinct and it is not stopped; the table then holds exactly the buffered rows, or those in front of the stop. |
| FtsIndex.MirrorUnique | internal/store/secrets.go:103-122 | The base table determines the index. |
| FtsIndex.SyncKeepsMirror | internal/store/secrets.go:106-122 | Delete and insert by rowid after a write of one row keep the index exact, for a new id and for an old one. |
| FtsIndex.MirrorPassesProbe | internal/store/store.go:236-266 | The probe never condemns an exact index. |
| FtsIndex.NextId | internal/store/store.go:105-120 | The id of a new row: one past the highest in use, or 1. |
| Store.FaultyPutConsistentIff | internal/store/secrets.go:58-101 | If a statement behind the upsert fails, the index stays exact exactly when the indexed text did not change. |
| Store.FaultyDeleteConsistentIff | internal/store/secrets.go:125-137 | A delete leaves a stray index row exactly when it deletes the row and then fails. |
| Store.FaultyCreateConsistentIff | internal/store/keys.go:30-54 | A key creation leaves the index behind exactly when it inserts the key and then fails. |
| Store.FaultyUpdateConsistentIff | internal/store/keys.go:106-119 | UPDATE by id and index row by name agree exactly when id and name belong to one key; with a fault behind the UPDATE, exactly when the indexed text of the row did not change. |
| Store.IdReusedIff | internal/store/secrets.go:64-85 | Deleting a row frees its id for the next new path exactly when it is the highest and the one below it is in use, or it is 1; the index is exact either way. |
| Store.EveryRunMirrored | internal/store/secrets.go:64-137 | After every sequential run of puts, deletes, key creations, edits, revocations and touches, both indexes hold exactly one row per base row, with its id and current text. |
| Scope.MatchSegments | internal/scope/scope.go:14-29 | The loop over the segments computes Match; it accepts only what the whole pattern, as one glob of bytes over the whole path, outer slashes trimmed, stands for, and all of it if in every segment there are only literals between two stars, or the path has no well-formed rune of three or four bytes. |
| Scope.AnyMatches | internal/scope/scope.go:32-39 | True exactly when one of the patterns matches; so only if one stands for the path as a glob of bytes, and, under the same conditions, always then. |
| Scope.MatchIsWholeGlob | internal/scope/scope.go:14-29 | Under these conditions Match says exactly whether the whole pattern stands for the whole path as a glob of bytes. |
| Scope.StarsOnlySettled | internal/scope/scope.go:14-29 | A pattern without question marks and brackets meets the condition on segments. |
| Scope.MatchWithinWhole | internal/scope/scope.go:14-29 | What Match accepts, the whole pattern stands for as a glob of bytes; always. |
| Scope.MatchAgreesIff | internal/scope/scope.go:14-29 | The paths on which that is so for every pattern that a key can hold are exactly those without a well-formed rune of three or four bytes. |
| Scope.DocumentedWithinMatch | internal/scope/scope.go:11-29 | Match accepts whatever path.Match is documented to accept segment by segment, and nothing else if every character of the path is one byte. |
| Scope.MatchDocumentedIff | internal/scope/scope.go:11-29 | The paths on which Match accepts, for every pattern that a key can hold, just that are exactly those of one-byte characters. |
| Scope.LoneStarIff | internal/scope/scope.go:11-29 | The pattern * matches exactly the paths of one segment. |
| PathSyntax.QuotedIff | internal/scope/scope.go:23 | A text with a backslash in front of each * ? [ and backslash matches itself alone, and so does a text without them. |
| PathSyntax.ClassIff | internal/scope/scope.go:23 | A class of single bytes and ranges, escaped where it needs to be, matches exactly the ASCII bytes in one of them, and with ^ those in none. |
| PathSyntax.ClassTakesOne | internal/scope/scope.go:23 | What a class matches is one character. |
| PathSyntax.WildcardsIff | internal/scope/scope.go:23 | A star matches every text without a slash, and question marks those of as many characters. |
| PathSyntax.Malformed | internal/scope/scope.go:23 | A backslash or a bracket with nothing behind it, and an empty class, are malformed. |
| PathRunes.DocumentedWithinPathMatch | internal/scope/scope.go:23 | path.Match accepts all that its documentation says: stars for whole characters, question marks and classes for one. |
| PathRunes.DocumentedIffSingle | internal/scope/scope.go:23 | The names on which it accepts, for every pattern that a key can hold, nothing else are exactly those in which every character is one byte. |
| PathRunes.EuroMatchesTwoMarks | internal/scope/scope.go:23 | path.Match lets *?? match a euro sign alone, which is documented to need two characters. |
| PathMatcher.MatchPath | internal/scope/scope.go:23 | The loops of Go's path.Match (chunk by chunk, each behind a star at the first place where it fits, the rest of a failed pattern checked) compute the scan and find exactly the malformed patterns. |
| PathAgreement.PathMatchWithinGlob | internal/scope/scope.go:23 | What path.Match accepts, the pattern stands for as a glob of bytes. |
| PathAgreement.PathMatchIsGlob | internal/scope/scope.go:23 | With only literals between stars, or on a name without such runes, it accepts exactly that. |
| PathAgreement.AgreeIffNarrow | internal/scope/scope.go:23 | The names on which it does for every pattern that a key can hold are exactly those without such runes. |
| PathAgreement.TwoMarksRefused | internal/scope/scope.go:23 | path.Match refuses the pattern *??*X on the euro sign with an X behind it. |
| PathAgreement.TwoMarksGlobbed | internal/scope/scope.go:23 | As a glob of bytes, in which a star may take part of a rune, the pattern stands for that text. |
| PathGlob.GlobNoSlash | internal/scope/scope.go:14-29 | A pattern without a slash matches only text without a slash. |
| Scope.MatchIgnoresOuterSlashes | internal/scope/scope.go:17-18 | Slashes at either end of pattern or path make no difference. |
| Auth.ParseScope | internal/auth/auth.go:89-106 | The scan returns the non-empty comma-separated pieces, with ill-formed bytes replaced. |
| Auth.ParseJoined | internal/auth/auth.go:89-106 | Joining non-empty comma-free patterns and parsing them gives each pattern back, with ill-formed bytes replaced. |
| Auth.RebuiltSameIff | internal/auth/auth.go:89-106 | They come back unchanged exactly when each of them is valid UTF-8. |
| Auth.ReceivableIff | internal/auth/auth.go:89-106 | The patterns that a scope can hold are exactly the non-empty ones without a comma that are valid UTF-8. |
| Auth.ScopesAsDocumentedIff | internal/api/server.go:973-980 | The paths that every scope reaches just as documented are exactly those of one-byte characters; any other is reached by some scope that is documented not to. |
| Auth.KeyReachesIff | internal/auth/auth.go:60-80 | A live key reaches a path exactly when one of the patterns it was issued with matches it: always if path.Match is documented to, never if no pattern stands for the whole path as a glob of bytes, and always if one does and Match is exact on them and the path. |
| Auth.AuthenticatesIff | internal/auth/auth.go:60-80 | A key is let in exactly while it is neither revoked nor past its expiry, revocation reported first; it may write exactly with the permission "manage". |
| Auth.KeyAdmittedIff | internal/auth/auth.go:60-80 | So a key reaches a path exactly when it is not revoked, not expired, and one of the patterns it was issued with matches. |
| Auth.CanAccessIff | internal/api/server.go:973-978 | Operators reach every path, keys those that a pattern of their scope matches. |
| Credentials.OperatorAdmittedIff | internal/auth/auth.go:41-56 | An operator header decides alone: it logs in exactly when some row has its hash, and then may write and reaches every path. |
| Credentials.RevokedIsRefused | internal/store/keys.go:122-127 | After a revocation the token of the key with that id is refused as revoked, and the token of every other key is answered as before. |
| Credentials.EditTakesEffect | internal/store/keys.go:106-119 | After an update the token of the key with that id is judged by the new scope, permissions and expiry and the old revocation, and the token of every other key is answered as before. |
| Credentials.CreatedIsAdmitted | internal/store/keys.go:30-54 | A created key is let in until its expiry, with the scope and permissions that it was given. |
| Tags.MergeTags | internal/metadata/metadata.go:122-149 | The loops compute the merged tag list and its limit check. |
| Tags.NormalizeTags | internal/metadata/metadata.go:46-70 | The loop computes the normalized tag list and its limit checks. |
| Tags.NormalizedTagsIff | internal/metadata/metadata.go:46-70 | Refused exactly for a piece of more than 64 bytes or more than 20 tags; otherwise the trimmed pieces that are not blank, each once, joined by commas. |
| Tags.MergedTagsIff | internal/metadata/metadata.go:122-149 | Refused exactly for more than 20 tags; otherwise the old and added tags that are not blank and not removed, each once, joined by commas. |
| Text.TrimSpaceIs | internal/metadata/metadata.go:52 | Trimming takes white space off either end and leaves none there. |
| Text.SpaceIff | internal/metadata/metadata.go:52 | White space is what unicode.IsSpace says of the decoded character. |
| Tags.MergedExact | internal/metadata/metadata.go:122-149 | The merged list holds, without repeats, exactly the trimmed tags of the old list and the additions that are not removed. |
| Tags.FirstSeenOrder | internal/metadata/metadata.go:122-149 | Tags of the old list come first and then the additions: of two kept tags the one that an earlier piece or addition offers stands in front. |
| Tags.ReparseIff | internal/metadata/metadata.go:122-149 | The stored list reads back as the tags it was written from exactly when none has a comma. |
| Tags.MergedCommaFreeIff | internal/metadata/metadata.go:122-149 | No merged tag has a comma exactly when no kept addition has one. |
| Tags.MergeAgain | internal/metadata/metadata.go:122-149 | When no kept addition has a comma, merging the same additions and removals again changes nothing. |
| Tags.MergeAgainWithComma | internal/metadata/metadata.go:122-149 | Not so in general with a comma: an added "x,y" is one tag, reads back as two, and is added again. |
| TagsTwice.MergeTwiceIff | internal/metadata/metadata.go:122-149 | MergeTags returns its own result again exactly when the pieces that the list is written as end in those of its tags with a comma, and every one of these, trimmed, is blank, removed or one of the comma-free tags. |
| TagsTwice.SameListIff | internal/metadata/metadata.go:122-149 | The list of tags itself is the same again exactly when its tags with a comma stand at its end and the same holds of their pieces. |
| TagsTwice.SecondMerge | internal/metadata/metadata.go:122-149 | What the second merge makes of the list: the tags that read back, and behind them those with a comma once more. |
| Tags.NormalizeMergedIff | internal/metadata/metadata.go:46-70 | NormalizeTags leaves MergeTags' comma-free result alone exactly when every tag is within the length limit. |
| MetadataJson.NormalizeMetadata | internal/metadata/metadata.go:82-118 | The loop accepts exactly the objects of strings within the limits and returns their canonical text. |
| MetadataJson.NormalizedIff | internal/metadata/metadata.go:82-118 | Blank text is accepted, and otherwise exactly the objects of at most 32 strings of at most 256 bytes under keys of at most 64; the result stands for the same object. |
| MetadataJson.NormalizedSame | internal/metadata/metadata.go:82-118 | Texts of the same object have the same result. |
| MetadataJson.NormalizeIdempotent | internal/metadata/metadata.go:82-118 | Normalizing twice is normalizing once. |
| MetadataJson.MergeMetadata | internal/metadata/metadata.go:153-172 | The delete and set loops compute the merged object, whatever order the map is walked in. |
| MetadataJson.MergeIsOverride | internal/metadata/metadata.go:153-172 | On stored metadata merging is removal, then override: what is set wins over what is unset. |
| FtsText.FlattenMetadata | internal/store/secrets.go:192-214 | The loop computes the flattened text. |
| FtsText.FlattenOfMarshal | internal/store/secrets.go:192-214 | For maps of simple strings the flattened canonical text is exactly the key-sorted list of k=v joined by semicolons. |
| FtsText.NoColonNothing | internal/store/secrets.go:192-214 | A piece without a colon contributes nothing. |
| Sorting.AscendingUnique | internal/store/secrets.go:148 | A byte-wise ascending list is determined by its elements. |
| Sorting.SortedAscending | internal/store/secrets.go:148 | The list of paths ascends byte by byte. |
| Sorting.LessIff | internal/store/secrets.go:148 | The order is that of the first byte in which two texts differ, and a proper prefix comes first. |
| Sorting.KeepSorted | internal/api/server.go:257-260 | Filtering the sorted paths is sorting the filtered paths. |
| Base64.DecodeEncode | internal/api/ui_session.go:44-45 | Unpadded base64url decoding undoes encoding, for every byte string. |
| Base64.VectorOfSix | internal/api/ui_session.go:44-45 | A test vector of section 10 of RFC 4648. |
| Base64.VectorOfFive | internal/api/ui_session.go:44-45 | Another of these vectors, with two bytes in the last group. |
| Base64.VectorOfFour | internal/api/ui_session.go:44-45 | Another of these vectors, with one byte in the last group. |
| Base64.VectorOfSymbols | internal/api/ui_session.go:44-45 | The two symbols in which base64url differs from base64. |
| Session.IssuedCookie | internal/api/ui_session.go:40-101 | An issued cookie, checked under any key, yields its token exactly when the key is set up, gives the payload the same MAC, and the cookie has not expired; for every token, bars and dots included. |
| Session.CookieRoundTripIff | internal/api/ui_session.go:40-101 | Under the issuing key a non-empty token comes back exactly until the expiry. |
| Session.AcceptedIsSigned | internal/api/ui_session.go:69-101 | Every cookie that yields a token consists of a payload and its MAC around its first dot, and stops yielding it once the payload expires. |
| Session.VerifyIff | internal/api/ui_session.go:69-101 | A cookie yields a token exactly when a key is set up and around its first dot stand the encodings of a payload, v1, an expiry that has not passed and that token, and of the MAC of the payload. |
| Token.Base62 | internal/token/token.go:83-106 | The division loop ends and computes the base-62 digits. |
| Token.Base62Reads | internal/token/token.go:83-106 | Reading the digits gives back the big-endian value of the first eight bytes; no leading zero; at most 11 digits, 6 for the checksum. |
| Token.Base62Alphabet | internal/token/token.go:83-106 | The digits are 0 to 9, A to Z and a to z. |
| Token.Base62EqualIff | internal/token/token.go:83-106 | Byte strings of one length are written alike exactly when their first eight bytes agree; up to eight bytes the encoding is injective. |
| Token.AgentKeySplits | internal/token/token.go:52-63 | Behind its prefix an agent key splits at its one underscore into body and checksum. |
| Token.SameKeyIff | internal/token/token.go:52-63 | Two 24-byte bodies make the same key exactly when their first eight bytes agree. |

## Left out

- Vault.FormRow: versions are unbounded integers; the wrap of int64 after 2^63 description changes is not modelled (the AAD takes them modulo 2^64, as the code does).
- FtsIndex.NextId: SQLite's random choice of ids once the highest possible one is in use is not modelled.
- Confinement.RunsConfined: search is not part of it, because its limit of 50 rows applies before the scope filter; nor are requests of other principals in between.
- Store.EveryRunMirrored: is about sequential runs; PutSecret is several statements, so under interleaved writers the index can lag.
- VaultConcurrency.EveryRowOpens: takes the upsert as one atomic statement and says nothing of rotation running at the same time.
- Server.Server.HandleRotateOperator: the key in memory, which the source leaves as it is, and the restart behind it are not modelled.
- PlainVault.VersionCountsEdits: is about sequential runs; handlers that read the same version at the same time can store it twice.
- Server.Server.HandleDeleteSecret: store faults strike at the DELETE and behind it; a failing read in front of it is covered by the interleavings only.
- PlainVault.HandleRefines: description_updated_at and metadata_updated_at are not part of the plain map; Requests.FormTimes says what they are.
- Like.Matches: literals are compared byte by byte, where SQLite compares decoded characters, and `_` takes one character as SQLite does on well-formed text; on ill-formed UTF-8 both can differ. No pattern that the code builds for the audit log holds an unescaped `_`.
- PathMatcher.MatchPath: is about names and patterns without a slash, which is all that scope.Match passes to path.Match.
- AuditLog.Logger.Append: a commit that fails is taken to leave nothing; the case in which it succeeds and its answer is lost is not modelled.
- Pool.StoreOperationsDisciplined: reads and the one-statement updates of keys and operators are one call each and are not traced by their methods; a failing INSERT of the migration's probe leaves out one statement that the program counts.
- Vault.Handle: replies stand for status and content; error texts, headers and page fragments are not told apart.
- MetadataJson.NormalizeMetadata: which of several violations is reported depends on Go's map order; errors are not told apart.
- Audit calls of the handlers are recorded as a list of action and path; their failures, which the code ignores, and the entry's time and actor are not modelled.
- HTTP routing, request decoding, templates, the CLI, the MCP server, the client, the keyring, configuration and the TypeScript extension: plumbing.
- SQLCipher, FTS5 tokenising and ranking, Argon2id and the internals of AES, SHA-256 and HMAC.
- Handlers for keys, key search and audit listing beyond the store and query operations they call; masked previews beyond their definition; scope.Parse and ScopeIncludes, which nothing calls.
- Aliasing of the nonce slice that Open's callers append to: rows are values here.
