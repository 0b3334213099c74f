# QuotaShift: verified models

QuotaShift is a desktop application that switches between accounts of AI coding tools. This
directory models the parts of it where an ordering, a crash or an encoding can lose a credential, a
configuration or a running watcher, and proves what those parts keep.

- `Migration.dfy`, `SecureStorage.dfy`, `Requests.dfy`, `PlainCopies.dfy`, `StorageAdapter.dfy`,
  `Enumeration.dfy`: credentials move from the plugin store and native storage into the secure
  backend, and are then served from a synchronous cache in front of an asynchronous backend whose
  calls may fail. The migration is a fixed plan of mutating calls, so a crash or a failed call leaves
  a prefix of the plan. The cache is a state machine whose events are the caller's operations, the
  answer of the pending call and the settling of the head task; the class methods follow it, and the
  theorems are about all its runs.
- `Varints.dfy`, `Utf8.dfy`, `Base64.dfy`, `Wire.dfy`, `FieldReader.dfy`, `TopicSpec.dfy`,
  `TopicRewrite.dfy`, `TopicScripts.dfy`: the byte format the two Python scripts share (Protocol
  Buffers Encoding guide, "Base 128 Varints" and "Length-Delimited Records"; base64 of section 4 of
  RFC 4648; UTF-8 of RFC 3629), both scripts' loops over it, and the round trip between them.
  Everything down to bytes is implemented in the model, not assumed.
- `RouterConfig.dfy`, `RouterDirectory.dfy`: the configuration file, its snapshot and the absence
  marker. Every call is a list of states, one for each completed file operation, and an event may
  stop it after any of them. The directory class runs the same calls with operations that may fail.
- `QuotaEvidence.dfy`, `QuotaOrder.dfy`, `Sorting.dfy`: deciding from telemetry whether a quota is
  exhausted, and when the order of the samples can change the decision, with a
  declarative chain condition and the proof that the greedy scan finds a longest chain.
- `Watcher.dfy`: the hand-off of the taskbar watcher over two atomic flags. Threads differ only in
  their program position, so a state counts threads per position.
- `Accounts.dfy`, `Captures.dfy`: the match relation of accounts, the deduplication that restarts until
  nothing matches, and the import on top of it.
- `ProcessTree.dfy`: the worklist of descendant processes.
- `PointerReorder.dfy`, `DragController.dfy`, `ReorderGeometry.dfy`: where a dragged card goes, the drag
  state machine, and what both mean on screen.
- `Prelude.dfy`, `OrderedMaps.dfy`, `StorageKeys.dfy`: shared datatypes, insertion-ordered maps, and the
  predicate for sensitive keys.

## Modelling choices

- A call into a backend, store or file either happens completely or has no effect, and it may fail
  at any point. Calls that read return what is stored or fail.
- The order in which stores report their keys is arbitrary; every statement about the migration is for
  every order.
- `Array.prototype.sort` and `sort_by_key` are the stable sort of `Sorting.dfy`. Distances,
  percentages and coordinates are reals; a percentage may also be non-finite.
- Python's `bytes` slices clip at the end of the data, so offsets may run past it, as they do in the
  scripts.
- The default sign-in state of the topic rewrite is a parameter, any non-empty text.
- Trimming and lower-casing of e-mail addresses and the de-obfuscation of credentials are arbitrary
  functions.
- `u64`, `u32` and `usize` are natural numbers: the modelled code only compares, counts within list
  lengths and subtracts with saturation, which is written out.

## Where the code and its description part

- The migration comment says a failed migration keeps the legacy copy recoverable, which holds. But
  when only the store's save fails, a retry in the same process finds nothing left to delete and does
  not save again, so the plaintext stays on disk (`Migration.FailedSaveLeavesPlaintext`). Exactly when a
  completed run leaves the disk clean, and a restart after it has nothing to do, is
  `Migration.DiskIsCleanIff` and `Migration.RestartAfterSuccessDoesNothing`.
- The removal pass accepts a topic whose last field announces more bytes than there are. What is
  appended then goes into that field, and the new token can be lost
  (`TopicRewrite.OverrunningTopicLosesTheToken`). The rewritten topic reads as intended if and only if
  every field that removal keeps lies inside the topic (`TopicRewrite.RewriteKeepsFieldsIff`); an
  overrunning entry that is itself removed does no harm (`TopicRewrite.RewriteReadsBack`).
- Recovery recognises a routed configuration only if the providers were standard TOML tables, the URL
  is a loopback one and the file can be read; otherwise it discards the snapshot
  (`RouterConfig.RecoveryAfterBegin`, `RouterConfig.UnreadableConfigLosesTheOriginal`). Restore needs
  none of that. Whether the original itself looks like a router configuration does not matter. For
  every state a run can reach, `RouterConfig.RecoveryRestoresIff` says when recovery restores.
- The router's secret header is written only where standard tables or nothing stand for the provider
  list, the router and its headers (`RouterConfig.SecretArrivesIff`); an inline table of headers stays
  as it is, without the secret.
- The quota decision can depend on the order of samples with equal times
  (`QuotaEvidence.TiedTimesDependOnOrder`). The evidence cannot where such samples look alike to the
  evaluation (`QuotaEvidence.OrderDoesNotMatter`); exactly when a status holds in every order or in some
  is `QuotaOrder.ExhaustedInEveryOrderIff`, `QuotaOrder.ExhaustedInSomeOrderIff` and
  `QuotaOrder.DecidedAvailableInEveryOrderIff`.
- Clearing the storage deletes the credentials from the backend but leaves the plugin store's copies of
  plain keys as they were (`PlainCopies.DrainedStoreHoldsTheLastWrite`); `src/main.tsx:192-203` copies such
  keys back into native storage at the next start.
- Deduplication does not always leave one account per group of linked candidates: an absorbed account's
  identities are forgotten (`Captures.AbsorbedIdentityIsForgotten`). It does in every order exactly under
  the condition of `Captures.OneSurvivorPerGroupIff`.

## Model

| member | source | states |
|---|---|---|
| SecureStorage.StepKeeps | src/utils/auth/secure-storage.ts:83-148 | one caller operation or one event of the write queue keeps the invariant: per credential either nothing is queued and cache and persisted mirror agree, or the last queued write carries the current revision and targets the cached value; the backend holds the mirror plus at most one success not yet mirrored; no credential is in native storage or in the plugin store |
| SecureStorage.EveryRunKeepsTheInvariant | src/utils/auth/secure-storage.ts:83-216 | the invariant holds after every interleaving of set, remove, clear, backend answers, settlements and failure reports |
| SecureStorage.DrainedRunAgrees | src/utils/auth/secure-storage.ts:83-216 | after any run that drained the queue, cache, persisted mirror and backend hold the same credentials |
| SecureStorage.HistoryOfRun | src/utils/auth/secure-storage.ts:97-147 | the queue is the unsettled rest of what was issued, and the mirror is the replay of the settled part |
| SecureStorage.BackendIsReplay | src/utils/auth/secure-storage.ts:97-147 | at every moment the backend holds the hydrated content with exactly the successful mutations replayed in issue order |
| SecureStorage.ReplayLastSuccess | src/utils/auth/secure-storage.ts:100-106 | in that replay the last success on a key decides its value |
| SecureStorage.ReplayUntouched | src/utils/auth/secure-storage.ts:100-106 | a key no success touched keeps its hydrated value |
| SecureStorage.CacheShowsTheLastWrite | src/utils/auth/secure-storage.ts:196-216 | a reader sees the last write issued on a key, unless that very write failed, and then the last success before it: an older failure never rolls back a newer write |
| SecureStorage.CacheShowsTheHydratedValue | src/utils/auth/secure-storage.ts:71-81 | a credential nobody wrote still reads as hydrated |
| SecureStorage.FailureIsTheOldestUnreported | src/utils/auth/secure-storage.ts:187-216 | after any run the recorded failure is the error of the oldest failed write that no flush has reported since, and there is none exactly when every failure was followed by a report |
| SecureStorage.FlushedWritesHaveSettled | src/utils/auth/secure-storage.ts:187-216 | once the writes a flush waits for have settled, each credential whose last write is among them reads the same from cache, mirror and backend: the value written, or after a failure what the successes left |
| PlainCopies.DrainedStoreHoldsTheLastWrite | src/utils/auth/secure-storage.ts:83-148 | for a key that holds no credential: once the queue is drained and if no call about the key failed, the store and its disk image hold the last value written, native storage holds it unless it was cleared since, and the two are equal if and only if nothing was cleared since or the write was a removal |
| PlainCopies.ClearedKeyIsStillStored | src/utils/auth/secure-storage.ts:134-148 | so a cleared plain key, gone from native storage, is still in the store's disk image |
| SecureStorage.ClearIsRemoveEach | src/utils/auth/secure-storage.ts:134-148 | clearing is removing every cached credential one after the other and emptying native storage |
| SecureStorage.QueueGrowsAtTheEnd | src/utils/auth/secure-storage.ts:209-216 | only settling takes a task off the write chain, and it takes the oldest |
| Requests.EnqueuedIsRequested | src/utils/auth/secure-storage.ts:83-148 | one operation queues exactly the writes it asks for: a credential to the backend, a backed plain key to the plugin store, a clear one deletion for each cached credential in order, and nothing else |
| Requests.IssuedIsRequested | src/utils/auth/secure-storage.ts:83-148 | over any run the writes issued are exactly those the operations asked for, in their order |
| StorageAdapter.HydratedIsFresh | src/utils/auth/secure-storage.ts:58-76 | the state after a finished migration satisfies the invariant with an empty queue, so every run may start from it |
| StorageAdapter.VisibleKeysAreTheReadableKeys | src/utils/auth/secure-storage.ts:150-173 | the enumerated keys are distinct and are exactly the keys that read as present |
| StorageAdapter.WritesAreReadBack | src/utils/auth/secure-storage.ts:78-132 | in every state a set or removal has that effect on reading and on the queue |
| StorageAdapter.ClearedReadsNothing | src/utils/auth/secure-storage.ts:134-148 | in every state nothing is readable after a clear |
| Enumeration.WritesKeepTheOrder | src/utils/auth/secure-storage.ts:83-161 | a write leaves the other keys in their order in the enumeration; writing a readable key again changes nothing there, and a new credential comes last |
| Enumeration.CredentialsComeLast | src/utils/auth/secure-storage.ts:150-161 | no plain key is listed behind a credential |
| StorageKeys.SensitiveKeysAre | src/utils/auth/secure-storage-types.ts:3-13 | the account keys are exactly the three built-in ones, those with any name between the prefix and the suffix, and the one in which prefix and suffix share their hyphen |
| StorageAdapter.Adapter.Hydrate | src/utils/auth/secure-storage.ts:58-76 | migrates once; success starts from the chosen values with an empty queue, failure leaves the stores at a cut of the migration plan and the adapter unhydrated |
| StorageAdapter.Adapter.Load | src/utils/auth/secure-storage.ts:68-74 | cache and mirror both become the migrated map and the revisions are reset |
| StorageAdapter.Adapter.GetItem | src/utils/auth/secure-storage.ts:78-81 | credentials read from the cache, other keys from native storage |
| StorageAdapter.Adapter.SetItem | src/utils/auth/secure-storage.ts:83-107 | the step of the state machine for a set, keeping the invariant; the value is read back at once, every other key reads as before, and one write of it is queued: to the backend for a credential, to the plugin store for a backed plain key, none otherwise |
| StorageAdapter.Adapter.RemoveItem | src/utils/auth/secure-storage.ts:109-132 | the step for a removal, keeping the invariant; the key reads as absent, every other key as before, and one deletion is queued in the same way |
| StorageAdapter.Adapter.ClearStorage | src/utils/auth/secure-storage.ts:134-148 | the step for a clear, keeping the invariant; afterwards no key reads as present |
| StorageAdapter.Adapter.Answered | src/utils/auth/secure-storage.ts:100-103 | the step for the pending backend or store call coming back, with or without an error |
| StorageAdapter.Adapter.SettleHead | src/utils/auth/secure-storage.ts:209-216 | the step for the head task ending: mirror update, or rollback and first failure recorded |
| StorageAdapter.Adapter.NextRevision | src/utils/auth/secure-storage.ts:196-200 | the key gets the next revision number and no other key changes |
| StorageAdapter.Adapter.WritePlain | src/utils/auth/secure-storage.ts:86-95 | a write of a key without a credential: native storage at once, the store through the queue if it is backed |
| StorageAdapter.Adapter.WriteSecret | src/utils/auth/secure-storage.ts:97-106 | a write of a credential: cached at once under the next revision, the backend through the queue |
| StorageAdapter.Adapter.RestoreToPersistedValue | src/utils/auth/secure-storage.ts:202-207 | the cached value falls back to the mirror only if the revision is still current |
| StorageAdapter.Adapter.FinishFlush | src/utils/auth/secure-storage.ts:187-194 | the end of a flush throws the recorded failure and clears it |
| StorageAdapter.Adapter.Key | src/utils/auth/secure-storage.ts:150-161 | an index inside the enumeration gives that key, any other index gives nothing |
| StorageAdapter.Adapter.Length | src/utils/auth/secure-storage.ts:163-173 | the length is the number of enumerated keys |
| Migration.NothingRemovedBeforeSecured | src/utils/auth/secure-storage-migration.ts:51-82 | wherever the run is cut off, if any legacy copy of any key has changed then every chosen value is already in the backend |
| Migration.CutIsBetween | src/utils/auth/secure-storage-migration.ts:51-82 | at every cut the backend holds original or chosen values, legacy copies have only disappeared, and they are untouched up to the last secure write |
| Migration.CutKeepsChoice | src/utils/auth/secure-storage-migration.ts:51-82 | after a cut, and after a restart that drops unsaved store changes, the precedence secure, decrypted, store, native still chooses the same value for every key |
| Migration.RetryReturnsTheSameMap | src/utils/auth/secure-storage-migration.ts:21-84 | after any number of failed or cut attempts, restarted or not, a later run returns the map of one uninterrupted run |
| Migration.FinishedIsClean | src/utils/auth/secure-storage-migration.ts:68-82 | a completed run has every chosen value in the backend and no credential text in the store or native storage |
| Migration.PlanSettles | src/utils/auth/secure-storage-migration.ts:51-66 | a completed plan leaves, for every sensitive key, the value of that precedence, and no text where there was none |
| Migration.SecondRunDoesNothing | src/utils/auth/secure-storage-migration.ts:51-84 | after a success a further run returns the same map and makes no mutating call |
| Migration.RestartAfterSuccessDoesNothing | src/utils/auth/secure-storage-migration.ts:51-84 | after a success and a restart, a further run makes no mutating call if and only if the first run found a credential in the store table or none on disk, and it then returns the same map |
| Migration.RetryDoesNotRepeatTheSave | src/utils/auth/secure-storage-migration.ts:68-76 | the disk image after a completed run is the cleaned table if there was a credential to delete, and otherwise exactly what it was |
| Migration.DiskIsCleanIff | src/utils/auth/secure-storage-migration.ts:68-76 | a completed run leaves no credential on disk if and only if the store table held one or the disk held none |
| Migration.FailedSaveLeavesPlaintext | src/utils/auth/secure-storage-migration.ts:68-76 | for every sensitive key, value and visiting order: the save fails, the retry has nothing to do, and the credential stays on disk in plaintext |
| Migration.ReadLegacy | src/utils/auth/secure-storage-migration.ts:21-49 | what is read covers every sensitive key of all four sources, with text values only; any failing read ends the run before a change |
| Migration.CopyKey | src/utils/auth/secure-storage-migration.ts:52-66 | a secure value wins; otherwise the legacy value by precedence is written to the backend and only then counted |
| Migration.CopyToSecure | src/utils/auth/secure-storage-migration.ts:51-66 | performs exactly the planned secure writes in order, or a prefix of them and then fails; the map holds the chosen value of each key |
| Migration.CleanStore | src/utils/auth/secure-storage-migration.ts:68-76 | deletes exactly the store copies of migrated keys and saves once if anything was deleted, or stops at a prefix |
| Migration.CleanNative | src/utils/auth/secure-storage-migration.ts:78-82 | removes exactly the native copies of migrated keys, or stops at a prefix |
| Migration.Migrate | src/utils/auth/secure-storage-migration.ts:15-85 | the whole run performs a prefix of the plan; it returns the chosen map exactly when it performed all of it, and then, for every sensitive key: a backend text stays, otherwise the decrypted value is secured, otherwise the store's text, otherwise the native value, and a key with none of these is absent from the map and the backend |
| Varints.DecodeInvertsVarint | src-tauri/src/python/write_vscdb.py:48-69 | reading an encoded number, whatever follows it, gives the number and the length of its encoding |
| Varints.VarintIsShortest | src-tauri/src/python/write_vscdb.py:48-69 | any bytes that decode to a number are at least as long as its encoding, and equal to it if as long |
| Varints.DecodeIsLocal | src-tauri/src/python/write_vscdb.py:56-69 | only the bytes of the number itself matter |
| Varints.EncodeVarint | src-tauri/src/python/write_vscdb.py:48-54 | the loop computes the base-128 encoding |
| Varints.ReadVarint | src-tauri/src/python/write_vscdb.py:56-69 | the loop decodes the number at an offset and gives the offset behind it, or raises when the data ends first |
| Utf8.DecodeInvertsEncode | src-tauri/src/python/write_vscdb.py:146-147 | decoding encoded text gives the text back |
| Utf8.StrayByteIsDropped | src-tauri/src/python/read_vscdb.py:54-58 | decoding drops a byte that starts nothing and keeps the text behind it |
| Base64.DecodeInvertsEncode | src-tauri/src/python/write_vscdb.py:149-152 | decoding encoded bytes gives the bytes back |
| Base64.DecodeFromInvertsEncode | src-tauri/src/python/read_vscdb.py:60-77 | what follows the encoding of whole groups is decoded behind them, and what follows padding is not read |
| Base64.ForeignCharacterIsSkipped | src-tauri/src/python/read_vscdb.py:60-77 | a character outside the alphabet is skipped wherever it stands |
| Wire.FirstIsLocal | src-tauri/src/python/write_vscdb.py:71-83 | a field that lies inside the data reads the same whatever follows it, and from its own bytes alone |
| Wire.ScanGivesSequence | src-tauri/src/python/write_vscdb.py:122-139 | the fields a walk steps over are consecutive and their bytes join to the data; only the last can run past the end |
| Wire.ScanInvertsJoin | src-tauri/src/python/write_vscdb.py:122-139 | fields written one after the other are read back as they were |
| Wire.ScanConcat | src-tauri/src/python/write_vscdb.py:215-233 | appending behind fields that lie inside the data appends to what is read |
| Wire.OverrunGrows | src-tauri/src/python/write_vscdb.py:71-83 | a field that runs past the end swallows bytes appended behind it |
| Wire.FixedFieldsReadBack | src-tauri/src/python/write_vscdb.py:71-83 | a field of wire type 1 takes the next eight bytes and one of wire type 5 the next four, and the reading goes on behind it |
| Wire.NumberFieldReadsBack | src-tauri/src/python/write_vscdb.py:71-83 | a number field reads back with its field number and its number, and the reading goes on behind it |
| Wire.OtherWireTypesAreUnreadable | src-tauri/src/python/write_vscdb.py:71-83 | a field of any other wire type ends the reading |
| FieldReader.SkipField | src-tauri/src/python/write_vscdb.py:71-83 | the next offset by wire type, raising for an unknown type or an incomplete length |
| FieldReader.FindFields | src-tauri/src/python/read_vscdb.py:32-52 | the bodies of all length-delimited fields with the number, in order, up to the first unreadable field |
| FieldReader.FindFieldStr | src-tauri/src/python/read_vscdb.py:54-58 | the first such body as text, or nothing |
| TopicSpec.RemovalKeepsTheOthers | src-tauri/src/python/write_vscdb.py:119-140 | after removal the topic reads as exactly the other fields, byte for byte and in order, no entry of the key is left, and removing again changes nothing |
| TopicSpec.RemovalRaisesIff | src-tauri/src/python/write_vscdb.py:107-140 | removal raises if and only if the topic cannot be read to its end, or some entry cannot and no key is found in it |
| TopicSpec.KeptIs | src-tauri/src/python/write_vscdb.py:130-138 | a field is kept exactly when it is not an entry of the key |
| TopicScripts.GetEntryKey | src-tauri/src/python/write_vscdb.py:107-117 | the first key field as text, nothing if there is none, raising on anything unreadable before it |
| TopicScripts.RemoveUnifiedTopicEntry | src-tauri/src/python/write_vscdb.py:119-140 | the loop returns exactly the bytes of the fields that are not entries of the key, raising when a field or an entry cannot be read |
| TopicScripts.HasEntry | src-tauri/src/python/write_vscdb.py:197-213 | whether an entry of the key comes before anything unreadable |
| TopicScripts.FindsIsCount | src-tauri/src/python/write_vscdb.py:197-213 | on a readable topic that is whether there is an entry of the key at all |
| TopicScripts.SignIn | src-tauri/src/python/write_vscdb.py:180-234 | the rewrite of one stored value: remove, add the sign-in state if missing, append the new entry, encode |
| TopicScripts.DecodeUnifiedStateEntry | src-tauri/src/python/read_vscdb.py:60-78 | the payload of the first entry of the key that has a decodable one |
| TopicRewrite.EntryReadsBack | src-tauri/src/python/write_vscdb.py:149-152 | a written entry reads back its key and its payload, whatever follows inside the entry |
| TopicRewrite.OAuthInfoReadsBack | src-tauri/src/python/write_vscdb.py:154-163 | field 1 is the token, field 2 the type and field 3 the refresh token or empty |
| TopicRewrite.OAuthInfoExpires | src-tauri/src/python/write_vscdb.py:154-163 | the sign-in payload is a complete sequence of the fields 1 to 4, and field 4 is a complete timestamp: field 1 with the expiry in seconds, field 2 with zero nanoseconds |
| TopicRewrite.OAuthInfoHasNoOtherText | src-tauri/src/python/read_vscdb.py:126-128 | no text field beyond those is found, so no identity token appears |
| TopicRewrite.WriterAndReaderAgreeOnKeys | src-tauri/src/python/read_vscdb.py:65-68 | where the writer finds an entry key, the reader finds the same key |
| TopicRewrite.ReadingWithoutAKey | src-tauri/src/python/read_vscdb.py:60-78 | dropping one key's entries hides that key and changes no other |
| TopicRewrite.RewrittenFields | src-tauri/src/python/write_vscdb.py:190-233 | when every field that removal keeps lies inside the topic, the rewritten topic reads as the kept fields followed by the appended entries |
| TopicRewrite.RewriteReadsBack | src-tauri/src/python/write_vscdb.py:190-234 | under the same condition, whatever the removed entries look like: the new payload reads back, exactly one entry of its key is left and it is the last field, every other key reads as before, the sign-in state gets its default only if it had no entry, and the result is well-formed |
| TopicRewrite.SecondRewriteReplacesTheFirst | src-tauri/src/python/write_vscdb.py:190-234 | under the same condition a second rewrite leaves one entry of the key, the newer one, and every other key as in the original |
| TopicRewrite.AppendingKeepsFieldsIff | src-tauri/src/python/write_vscdb.py:215-233 | appended bytes leave the fields of a readable topic as they are if and only if every field lies inside the topic |
| TopicRewrite.RewriteKeepsFieldsIff | src-tauri/src/python/write_vscdb.py:190-233 | for every topic that removal accepts, the rewritten topic reads as the kept fields followed by the appended entries if and only if each kept field lies inside the topic; otherwise not even the kept fields are a prefix of what is read |
| TopicRewrite.OverrunningTopicLosesTheToken | src-tauri/src/python/write_vscdb.py:119-140 | a topic that removal accepts whose kept last field runs past the end by at least what is appended: the new token disappears inside that field |
| TopicScripts.SignInReadsBack | src-tauri/src/python/write_vscdb.py:180-234 | after a sign-in over any stored topic whose kept fields lie inside it, the reader gets the token, its type, the refresh token and the expiry back and no identity token; every other key reads from the new stored value as from the old one, and the sign-in state gets its default only if it had no entry |
| TopicScripts.UserStatusReadsBack | src-tauri/src/python/write_vscdb.py:165-169 | the user status entry reads back the address in both fields the reader tries |
| TopicScripts.FirstEntryReadsBack | src-tauri/src/python/read_vscdb.py:65-77 | the first entry of a key that has a payload is the one that is read, whatever follows |
| TopicScripts.EntryWithoutPayloadIsPassedOver | src-tauri/src/python/read_vscdb.py:66-77 | an entry without a payload field, or with an empty one, is passed over |
| RouterConfig.WrittenIsRecognised | src-tauri/src/codex/sync.rs:26-97 | a written configuration is recognised as the router's if and only if the providers were standard tables and the URL is a loopback one |
| RouterConfig.RecognisedIff | src-tauri/src/codex/sync.rs:70-97 | a configuration is recognised exactly when it parses and the provider it chooses is a standard table with the router's name and a loopback URL |
| RouterConfig.WrittenRoutes | src-tauri/src/codex/sync.rs:26-68 | what is written chooses the router's provider with name, wire API, authentication flag, URL and secret header and no environment key, drops the two OpenAI overrides, and leaves every other key, provider, setting and header as it was; what stands where a table belongs stays |
| RouterConfig.RoutesDetermines | src-tauri/src/codex/sync.rs:26-68 | no other document does all that |
| RouterConfig.SecretArrivesIff | src-tauri/src/codex/sync.rs:45-63 | the secret header is in the written document if and only if nothing but standard tables stands where the provider list, the router and its headers belong |
| RouterConfig.OriginalAlwaysComesBack | src-tauri/src/codex/sync.rs:105-209 | after any sequence of begin, restore and recover calls, each cut off after any file operation, one completed restore gives the original back and leaves no snapshot or marker; so does one completed recovery where recovery can recognise the router |
| RouterConfig.OriginalComesBackWithoutTrust | src-tauri/src/codex/sync.rs:105-209 | the same for a completed restore with any URL, any original and any cut-off recoveries, provided each recovery starts where it can restore |
| RouterConfig.RestoreIsSafe | src-tauri/src/codex/sync.rs:142-171 | every cut of a restore keeps the original recoverable, and the completed restore ends with it |
| RouterConfig.BeginIsSafe | src-tauri/src/codex/sync.rs:105-140 | every cut of a begin keeps the original recoverable |
| RouterConfig.RecoverIsSafe | src-tauri/src/codex/sync.rs:173-209 | every cut of a recovery that can read the configuration keeps the original recoverable where recovery can be trusted, and the completed one ends with it |
| RouterConfig.RecoveryRestoresIff | src-tauri/src/codex/sync.rs:173-209 | from every state a run can reach, readable or not, recovery ends with the original if and only if there is nothing to restore, or the configuration is the snapshot or missing as the marker says, or it is recognised, or it is missing without a marker; otherwise what is in place stays |
| RouterConfig.TrustedRecoveryWorks | src-tauri/src/codex/sync.rs:173-209 | where recovery can be trusted it can restore in every state |
| RouterConfig.RecoveryAfterBegin | src-tauri/src/codex/sync.rs:173-209 | exactly when begin and recover give the original back; otherwise the snapshot is discarded and the router's configuration stays |
| RouterConfig.UnreadableConfigLosesTheOriginal | src-tauri/src/codex/sync.rs:70-76 | a recovery that cannot read the routed configuration throws the snapshot away |
| RouterDirectory.Directory.TakeSnapshot | src-tauri/src/codex/sync.rs:116-131 | the file operations of the snapshot pass through exactly the modelled states |
| RouterDirectory.Directory.BeginRouting | src-tauri/src/codex/sync.rs:105-140 | begin on the files, with every operation allowed to fail or crash, including the restore after a failed write; when it completes, the file holds a document that routes to the URL with the secret and otherwise says what the readable original said |
| RouterDirectory.Directory.RestoreOriginal | src-tauri/src/codex/sync.rs:142-171 | restore on the files passes through exactly the modelled states |
| RouterDirectory.Directory.RecoverStale | src-tauri/src/codex/sync.rs:173-209 | recover on the files passes through exactly the modelled states, and its answer says whether it restored |
| QuotaEvidence.AvailableMeans | src-tauri/src/cli_pools/quota.rs:71-94 | a sample is available exactly when it is not transient, expired or explicit, gives some percentage, and every one it gives is valid and not at its limit |
| QuotaEvidence.ExhaustedMeans | src-tauri/src/cli_pools/quota.rs:71-94 | a sample is exhausted exactly when it is not transient or expired, and is explicit or gives some percentage and every one it gives is at its limit |
| QuotaEvidence.RelevantIff | src-tauri/src/cli_pools/quota.rs:67-69 | what is weighed for a window are exactly the samples of the account and the window with `sampledAt <= now <= sampledAt + ttl` |
| QuotaEvidence.GreedyIsOptimal | src-tauri/src/cli_pools/quota.rs:128-141 | the backward greedy count is the size of the longest chain of fresh exhausted samples with the required gaps inside the unbroken run ending at the latest sample |
| QuotaEvidence.PicksAreLongest | src-tauri/src/cli_pools/quota.rs:131-141 | no chain that could follow a pick is longer than what the scan still picks |
| QuotaEvidence.ScanDecides | src-tauri/src/cli_pools/quota.rs:142 | the scan's test is the declarative condition |
| QuotaEvidence.CountBack | src-tauri/src/cli_pools/quota.rs:129-141 | the loop returns the size of a longest chain |
| QuotaEvidence.EvaluateExhaustion | src-tauri/src/cli_pools/quota.rs:96-170 | Exhausted exactly when some window is confirmed, naming the first one and its epoch; Available exactly when there are windows and each one's latest fresh sample is available |
| QuotaEvidence.SameRelevantSameDecision | src-tauri/src/cli_pools/quota.rs:96-170 | the decision is determined by the fresh samples of the account in each window |
| QuotaEvidence.AlikeSamplesSameDecision | src-tauri/src/cli_pools/quota.rs:96-170 | of those only the times, the statuses and, for exhausted samples, the epoch and the explicit flag matter |
| QuotaEvidence.IrrelevantSamplesChangeNothing | src-tauri/src/cli_pools/quota.rs:109-116 | a stale, future or foreign sample inserted anywhere changes nothing |
| QuotaEvidence.ExpiredSamplesChangeNothing | src-tauri/src/cli_pools/quota.rs:67-116 | a sample with `sampledAt > now` or `sampledAt + ttl < now`, of another account or of a window that is not monitored, inserted anywhere, leaves the decision as it is |
| QuotaEvidence.OrderDoesNotMatter | src-tauri/src/cli_pools/quota.rs:117 | reordering the samples changes nothing in the whole evidence when fresh samples of a window with equal times look alike in that sense, as copies of one sample do; for the status alone the exact conditions are in the QuotaOrder rows |
| QuotaEvidence.AvailableInEveryOrderIff | src-tauri/src/cli_pools/quota.rs:117-124 | a window looks available in every order of the samples if and only if it has fresh samples and every newest one is available |
| QuotaOrder.TriggersInEveryOrderIff | src-tauri/src/cli_pools/quota.rs:117-151 | a window is confirmed in every order of the samples if and only if it has fresh samples and each newest one is exhausted and either explicit or backed by enough spaced samples back to which nothing fresh, ties included, speaks against it |
| QuotaOrder.TriggersInSomeOrderIff | src-tauri/src/cli_pools/quota.rs:117-151 | a window is confirmed in some order if and only if some newest sample is exhausted and either explicit or backed by enough spaced samples with nothing newer than the oldest of them against it |
| QuotaOrder.ExhaustedInEveryOrderIff | src-tauri/src/cli_pools/quota.rs:107-151 | some window is confirmed whatever the order if and only if one and the same window is |
| QuotaOrder.ExhaustedInSomeOrderIff | src-tauri/src/cli_pools/quota.rs:107-151 | some order confirms a window if and only if some window can be confirmed |
| QuotaOrder.DecidedAvailableInEveryOrderIff | src-tauri/src/cli_pools/quota.rs:107-124 | every window looks available whatever the order if and only if there are windows and every newest fresh sample of each is available |
| QuotaOrder.StatusMeans | src-tauri/src/cli_pools/quota.rs:153-158 | those two conditions are what makes the decided status Exhausted or Available |
| QuotaOrder.SpacedIff | src-tauri/src/cli_pools/quota.rs:128-142 | enough evidence means at least two samples and as many as required, of the account and the window, within the time to live, and each at least five seconds and the required separation older than the one before |
| QuotaEvidence.TiedTimesDependOnOrder | src-tauri/src/cli_pools/quota.rs:117-118 | with equal times the order decides: a concrete pair that is Available one way and Exhausted the other |
| Sorting.StableSortIs | src-tauri/src/cli_pools/quota.rs:117 | the sort gives a sorted permutation |
| Sorting.StableSortIsStable | src-tauri/src/cli_pools/quota.rs:117 | elements with equal keys keep their order |
| Sorting.SortOfPermutation | src-tauri/src/cli_pools/quota.rs:117 | with distinct keys the sort does not depend on the order of its input |
| Sorting.SortedKeysAgree | src-tauri/src/cli_pools/quota.rs:117 | sorted sequences of the same elements have the same keys at the same places, ties or not |
| Watcher.StepKeeps | src-tauri/src/window/taskbar_dock.rs:139-185 | one atomic access keeps: the running flag is set exactly when one watcher owns the loop, and while the mode is on some thread is there to start or keep one |
| Watcher.EveryRunIsSafe | src-tauri/src/window/taskbar_dock.rs:139-185 | for any number of setters and watchers in any interleaving there is at most one owner, the flag says whether there is one, and with the mode on and no setter before its swap there is an owner or a watcher between its reset and its re-spawn |
| Watcher.BusyStepsAreBounded | src-tauri/src/window/taskbar_dock.rs:170-185 | once calls stop, any schedule makes a bounded number of steps besides the loop itself |
| Watcher.SettledMeans | src-tauri/src/window/taskbar_dock.rs:170-185 | when none of those is left, one watcher loops if the mode is on, and otherwise no thread is left and the flag is reset |
| Watcher.LastCallDecides | src-tauri/src/window/taskbar_dock.rs:115-154 | once all threads rest after a call that no other call overtook, one watcher loops if the call asked for the taskbar on Windows, and otherwise the mode is off and no thread is left |
| Accounts.FindsIffMatched | src/utils/account/current-account.ts:21-43 | the search finds an account exactly when one shares the e-mail address, the refresh token or the access token, and what it finds does |
| Accounts.FindPrefersTheEmail | src/utils/account/current-account.ts:25-31 | an account with the e-mail address outranks every credential match |
| Accounts.FindsByRank | src/utils/account/current-account.ts:21-43 | the search finds the first account with the candidate's e-mail address, else the first with its refresh token, else the first with its access token, else nothing |
| Accounts.MatchIsSymmetric | src/utils/account/current-account.ts:21-43 | matching is symmetric, and reflexive exactly for accounts with a non-empty identity |
| Captures.SurvivorsAreApart | src/utils/antigravity/capture-import.ts:19-41 | the survivors are candidates and no two of them match |
| Captures.EveryCandidateIsRepresented | src/utils/antigravity/capture-import.ts:19-41 | every candidate is linked by a chain of matches through candidates to a survivor of at least its quality |
| Captures.RichestSurvive | src/utils/antigravity/capture-import.ts:19-41 | every candidate is linked to a survivor at least as rich in that sense, and one with a refresh token to one with a refresh token |
| Captures.MergePlaces | src/utils/antigravity/capture-import.ts:25-38 | the insertion index is in bounds and the accounts before it stay where they are |
| Captures.NewIdentityIsAppended | src/utils/antigravity/capture-import.ts:24-38 | a candidate that matches nothing kept goes to the end |
| Captures.OneMatchKeepsThePlace | src/utils/antigravity/capture-import.ts:29-38 | a candidate that matches one kept account leaves the better of the two, the kept one on a tie, in its place |
| Captures.OneMatchReplacesIff | src/utils/antigravity/capture-import.ts:29-38 | it replaces the kept account exactly when that one is not at least as rich, so a tie keeps the kept one |
| Captures.BridgeMergesIff | src/utils/antigravity/capture-import.ts:26-38 | a candidate that matches two kept accounts changes nothing if the later one is at least as rich; otherwise that one goes and the richer of the other two takes the earlier place |
| Captures.DedupIsIdempotent | src/utils/antigravity/capture-import.ts:19-41 | deduplicating again changes nothing |
| Captures.OneSurvivorPerGroupIff | src/utils/antigravity/capture-import.ts:19-41 | in every order of the candidates no two survivors with an identity are linked, if and only if every candidate with an identity and the greatest quality of its linked group matches the whole group |
| Captures.TransitiveGroupsHaveOneSurvivor | src/utils/antigravity/capture-import.ts:19-41 | in particular, where matching is transitive on the candidates, two linked survivors are copies of one account without an identity |
| Captures.AbsorbedIdentityIsForgotten | src/utils/antigravity/capture-import.ts:29-36 | concrete candidates that fail the condition: two linked survivors in one order, one in another |
| Captures.FindAll | src/utils/antigravity/capture-import.ts:24-37 | the nested loops, with termination, compute the settled search |
| Captures.UniqueCaptured | src/utils/antigravity/capture-import.ts:19-41 | the whole loop computes the deduplicated list, in which no refresh token and no richer account of a candidate's group is lost |
| Captures.ImportCaptured | src/utils/antigravity/capture-import.ts:43-58 | the existing list stays a prefix, and exactly the survivors that match no existing account are added, with the new ids in order; every candidate is linked to a survivor at least as rich that is added or matches an existing account |
| Captures.OnlyExistingMatter | src/utils/antigravity/capture-import.ts:51-52 | looking a survivor up in the grown list is looking it up among the existing accounts |
| Captures.AddedAreNew | src/utils/antigravity/capture-import.ts:51-56 | no added account matches an existing one or another added one |
| Captures.TheUnidentifiedSurvive | src/utils/antigravity/capture-import.ts:19-41 | a candidate with no identity is never absorbed |
| Captures.SecondImportAddsNothing | src/utils/antigravity/capture-import.ts:43-58 | importing the same candidates again adds nothing if and only if each of them has an identity |
| ProcessTree.DescendantProcessIds | src-tauri/src/system/process.rs:86-100 | the result is exactly the set of pids reachable from the root by one or more parent links, for every record list, with termination |
| ProcessTree.ClosedHoldsWalks | src-tauri/src/system/process.rs:92-98 | a set closed under parent links holds the end of every walk |
| ProcessTree.DescendantsNest | src-tauri/src/system/process.rs:86-100 | descendants of a descendant are descendants |
| PointerReorder.NearestSlot | src/utils/account/pointer-reorder.ts:56-71 | the loop finds the first of the cards at least normalised distance |
| PointerReorder.BoundarySlot | src/utils/account/pointer-reorder.ts:73-87 | the loops find the first card above whose lower boundary the point lies, else the last |
| PointerReorder.SortedSlot | src/utils/account/pointer-reorder.ts:93-100 | the loop finds the first card above whose centre the point lies, else the end |
| PointerReorder.ReorderIdsAtPointer | src/utils/account/pointer-reorder.ts:20-107 | the answer puts the dragged id at the target slot of the remaining ids |
| PointerReorder.ReorderedIsUnique | src/utils/account/pointer-reorder.ts:20-107 | the declarative answer is unique |
| PointerReorder.ReorderingMovesOnlyTheSource | src/utils/account/pointer-reorder.ts:103-106 | the other ids keep their order and the dragged id occurs once |
| PointerReorder.SameLengthMeansPermutation | src/utils/account/pointer-reorder.ts:199-206 | such a preview is a permutation if and only if it has the original length |
| PointerReorder.DistinctIdsArePermuted | src/utils/account/pointer-reorder.ts:103-106 | for distinct ids every preview is a permutation |
| PointerReorder.FlowGoesToTheNearest | src/utils/account/pointer-reorder.ts:51-71 | with a rectangle for every card, the dragged card lands at the position of the first nearest card |
| PointerReorder.StaysInPlaceIff | src/utils/account/pointer-reorder.ts:51-71 | a drag leaves the order as it is if and only if the dragged card is itself the first nearest |
| PointerReorder.BackAtTheStartNothingMoves | src/utils/account/pointer-reorder.ts:51-71 | for a card of any size held where it was grabbed, the order stays if and only if no other card is nearer to that point and no earlier one as near |
| PointerReorder.FullSizeCardStays | src/utils/account/pointer-reorder.ts:51-71 | so a card of at least unit size stays where its place, and no other, has its centre |
| ReorderGeometry.BoundarySlotIff | src/utils/account/pointer-reorder.ts:73-87 | in a list from top to bottom the boundaries choose exactly the last of the vertically nearest cards |
| ReorderGeometry.DistanceIsInCardSizes | src/utils/account/pointer-reorder.ts:59-66 | a point a widths and b heights from a card's middle, a length below one counting as one, has squared distance a² + b² |
| ReorderGeometry.CentreFollowsThePointer | src/utils/account/pointer-reorder.ts:34-56 | the dragged centre moves with the pointer, and without a grab offset it is the pointer |
| ReorderGeometry.CaughtInTheMiddle | src/utils/account/pointer-reorder.ts:128-156 | offsets a drag takes from its own rectangle put the card's centre in the middle of that rectangle at the start |
| ReorderGeometry.OrderedRectsAre | src/utils/account/pointer-reorder.ts:40-41 | one rectangle, the last of its id, for each id that has one, in the order of the ids |
| ReorderGeometry.SortedRectsAre | src/utils/account/pointer-reorder.ts:89-91 | the rectangles of exactly the other cards, by their upper edges |
| ReorderGeometry.ThresholdIsADistance | src/utils/account/pointer-reorder.ts:167-173 | a drag starts once the way is at least the threshold long |
| DragController.Controller.Begin | src/utils/account/pointer-reorder.ts:128-156 | starts a drag with the preview equal to the original and the grab offsets from the given values or the card |
| DragController.Controller.Move | src/utils/account/pointer-reorder.ts:162-197 | nothing changes within the threshold or without a drag, and a drag that has started is never within it again; otherwise the preview is the reordering of the original at the pointer, with the first rectangles kept |
| DragController.Controller.FinishDrag | src/utils/account/pointer-reorder.ts:199-210 | commits nothing, or a different permutation of the original in which only the dragged card moved; for distinct ids exactly when a drag changed the order; a drag suppresses the next click |
| DragController.Controller.Cancel | src/utils/account/pointer-reorder.ts:212-215 | drops the drag without a commit |
| DragController.Controller.ConsumeClickSuppression | src/utils/account/pointer-reorder.ts:217-221 | reports a suppressed click once |

## Left out

- User interface, tray, window placement, notifications and the strip's show and hide calls: platform calls.
- HTTP clients, OAuth flows, token refresh, process scanning, SQLite and the operating system's credential manager: foreign libraries and I/O.
- AES, PBKDF2 and the obfuscation of credentials: their results are parameters.
- The start-up code of `src/main.tsx` around hydration, such as copying store keys into native storage.
- Storage operations before hydration, `onMutation` and `onError` callbacks, and the facade object that forwards to the adapter.
- StorageAdapter.Adapter.Key: an index that is not an integer is not modelled; the source answers null.
- TOML and JSON syntax: a file is its bytes together with what the parser makes of them, and a written document is rendered and parsed back as itself.
- `atomic_router_replace`, `secure_directory` and `protect_existing_file` are not part of this model beyond an atomic replace that may fail; a directory that cannot be secured fails before the first file operation.
- TopicRewrite.RewriteKeepsFieldsIff: does not say which single keys still read back when a kept field overruns by less than what is appended; that depends on where the overrun ends among the appended bytes.
- The database loop, the mirror keys and the profile values the scripts write and read beside the topic; `write_worker_vscdb.py` repeats the same codec.
- QuotaEvidence.EvaluateExhaustion: does not model the sanitized reason, a fixed text per outcome; the set of processed keys in `QuotaDeduplicator` is left out as well.
- Captures.ImportCaptured: account fields other than the id, the e-mail address and the two tokens are carried along unchanged in the source and are not represented.
- ProcessTree.DescendantProcessIds: the result is a set; the ascending order of a `BTreeSet` is not represented.
- PointerReorder.ReorderIdsAtPointer: coordinates are real numbers, so NaN, infinities and rounding are not represented.
- Weak-memory effects and poisoned locks: the watcher's flags use sequentially consistent accesses.
- Watcher.SettledMeans: the 250 ms sleep and fairness of the scheduler are not represented; the bound on steps holds for every schedule.
- Provider labels, version strings, log buffers, edge detection and strip geometry: they would only add easy members.
