# Authelia: verified models

A Dafny model of the parts of Authelia whose correctness is hardest to see from the code, with proofs. `dafny verify dfyconfig.toml` checks all of it.

**The pooled LDAP client factory** (`LdapPool*`). Any number of threads acquire, grow, refresh and release clients while one call closes the pool. One step is one critical section, channel operation, dial or client close, so every interleaving the mutex allows is a run. `LdapPoolSafety` proves one invariant for every step, `LdapPoolTheorems` derives from it what callers rely on, `LdapPoolProgress` shows that Close and GetClient cannot get stuck, `LdapPoolService` says which client a caller gets and when one is dialed, and `LdapPoolFactory` is the object whose locked sections are those steps.

**The file user database** (`UserDatabase`, `UserStore`, `DatabaseFile`, `FileUserDatabase`, `FileUserProvider`). A map of users with two derived indexes, changed by operations that build a new state, validate it, write it out and swap it in. The specification is a value (`UserStore`); the objects with their loops, and the provider's calls, are proved to refine it.

**The credential cache** (`CredentialCache`, `CredentialCacheRuns`). Keys from a length-prefixed message, entries that expire, and checks that concurrent calls share, over whole runs with a log of what the provider said.

**Access control** (`AccessControl`, `AccessControlMeaning`, `AccessControlExplain`). Rules as built from configuration, what each of their criteria means, the first-match decision with its leniency towards anonymous subjects, and the check-policy command that explains it.

**Authentication method references** (`Amr`). Reading and printing the values of section 2 of RFC 8176.

**Two transformations.** Un-flattening dotted keys into nested maps built in place (`Unflatten`), and reducing an avatar by averaging boxes of pixels in 32-bit arithmetic (`Downscale`).

What the proofs bring out about the code:

- The comment on `Close` says it closes every client. A release that meets a closing pool lowers the size before it closes its client, so Close can see size 0 and return while that connection is still open (`CleanCloseMayPrecedeDisconnect`). Nothing else can be left open, nothing is dialed again, and no connection is left once the other threads are out of the factory (`CleanCloseLeavesOnlyLingering`, `CleanCloseOnlyCloses`, `CleanCloseThenAllClosed`).
- The uniqueness check trims emails and the email index does not. A username with white space around it can therefore be hidden behind another user's email (`WhiteSpaceHidesUser`, `HiddenBehindEmail`); `FindsOwnUser` and `DeleteThenGone` say exactly when a name is affected.
- With case-insensitive search a user whose username is empty makes the index fail as soon as another user has no email (`LoadableWhenUnique`; `EmptyUsernameBreaksIndex` is such a database).
- When a write fails after the rename, the file holds the new users and memory keeps the old ones (`CommitIsAtomic`; `StaysInStep` is the exact condition, `FileAheadOfMemory` an instance). The file is always whole, with unique identities and users that can be indexed (`RunFileSound`).
- Loading refuses a file without users or with a user without a display name, and two accepted operations write such a file: deleting the only user (`OnlyUserDeletedUnloads`) and updating a user to an empty display name (`EmptyDisplayNameUnloads`). `StaysRestartable` and `RunRestartable` say exactly when the file still loads.
- Un-flattening depends on the iteration order exactly when one key's path runs through another's, or two keys with one path have different values (`OrderIndependentIffCompatible`; `DottedKeyClashes` is the pair "a" and "a.b"). In every case the values left are those of the keys that no later key clashes with (`OutcomeIsSurvivors`).
- A picture more than `max` times as long as it is wide is reduced to an empty one (`TargetFits`; `RowReducedToNothing` is such a picture).

## Model

| member | source | states |
|---|---|---|
| LdapPoolSafety.AdvanceCounted | internal/authentication/ldap_client_factory.go:268-421 | every step of every thread moves a slot between the channel, the thread and `size`; none is lost or counted twice |
| LdapPoolSafety.AdvanceTransfers | internal/authentication/ldap_client_factory.go:268-442 | a step leaves a thread's client where it is, takes the head of the channel, puts the client at its tail, or dials a new one; nothing else happens to a client |
| LdapPoolSafety.AdvanceKeepsOwner | internal/authentication/ldap_client_factory.go:268-442 | a step that leaves a connection open leaves it in the channel or with the thread |
| LdapPoolSafety.AdvanceClosing | internal/authentication/ldap_client_factory.go:273-288 | no step of any thread reopens a closing pool, adds to its channel or raises its size |
| LdapPoolSafety.AdvanceWake | internal/authentication/ldap_client_factory.go:293-306 | a step lowers the size only on its way to a signal, and takes the wake token only from a parked Close |
| LdapPoolSafety.InitInv | internal/authentication/ldap_client_factory.go:156-213 | the state `Initialize` leaves satisfies the invariant |
| LdapPoolSafety.StepInv | internal/authentication/ldap_client_factory.go:268-497 | accounting, ownership, closing order and pending wake-ups survive every step of any thread, and losing a connection |
| LdapPoolSafety.ReachableInv | internal/authentication/ldap_client_factory.go:156-497 | so they hold in every reachable state of every interleaving of any number of threads |
| LdapPoolTheorems.SizeIsExact | internal/authentication/ldap_client_factory.go:268-368 | `size` is the clients in the channel plus the slots of threads not yet past forget; it never exceeds `count`; the guard in forget never hides an underflow |
| LdapPoolTheorems.OneOwner | internal/authentication/ldap_client_factory.go:381-421 | a client that a caller holds is in no other thread's hands and not in the channel |
| LdapPoolTheorems.ReleaseFindsRoom | internal/authentication/ldap_client_factory.go:268-291 | while the pool is open a release always finds room: the surplus branch is unreachable |
| LdapPoolTheorems.OpenConnectionsBounded | internal/authentication/ldap_client_factory.go:308-368 | at most `count` connections are open at any moment, also while refreshing and closing |
| LdapPoolTheorems.ClosingIsAbsorbing | internal/authentication/ldap_client_factory.go:308-344 | in every continuation of a closing state the channel only loses clients from its front and the size never rises |
| LdapPoolTheorems.DrainedForEver | internal/authentication/ldap_client_factory.go:423-442 | once drain has seen the channel empty it is empty in every later state |
| LdapPoolTheorems.CleanCloseIsFinal | internal/authentication/ldap_client_factory.go:444-497 | once wait has seen size 0, in every later state nobody holds a client, the channel is empty and the size is 0 |
| LdapPoolTheorems.CleanCloseLeavesOnlyLingering | internal/authentication/ldap_client_factory.go:268-291 | every connection still open when Close has seen size 0 belongs to a thread that has forgotten it and is about to close it |
| LdapPoolTheorems.CleanCloseAllClosedIff | internal/authentication/ldap_client_factory.go:286-290 | after a clean Close no connection is open if and only if no thread that has forgotten its client still has it open |
| LdapPoolTheorems.CleanCloseOnlyCloses | internal/authentication/ldap_client_factory.go:308-368 | in every continuation after a clean Close nothing is dialed and connections are only closed |
| LdapPoolTheorems.CleanCloseThenAllClosed | internal/authentication/ldap_client_factory.go:286-290 | once every other thread has left the factory after a clean Close no connection is open, then and ever after |
| LdapPoolTheorems.CleanCloseMayPrecedeDisconnect | internal/authentication/ldap_client_factory.go:286-290 | a run in which Close returns cleanly while a releasing thread still has its connection open |
| LdapPoolTheorems.NoLostWakeup | internal/authentication/ldap_client_factory.go:293-306 | a parked Close that read more than the current size has a token in `wake` or a thread about to put one there; always so at size 0 |
| LdapPoolProgress.HomewardAdvance | internal/authentication/ldap_client_factory.go:268-466 | in a closing pool every thread inside the factory has a step that brings it closer to leaving, and Close one that does not time out once the size is 0 |
| LdapPoolProgress.CloseCanComplete | internal/authentication/ldap_client_factory.go:444-497 | from every reachable state with Close under way some continuation lets it see size 0 and return without its timeout |
| LdapPoolProgress.EveryStepDescends | internal/authentication/ldap_client_factory.go:268-466 | in a closing pool every step of a thread inside the factory, whatever it chooses and however dials turn out, lowers a measure of its position, the channel and the wake token; calls from outside change nothing |
| LdapPoolProgress.ClosingRunsAreBounded | internal/authentication/ldap_client_factory.go:268-497 | so every run of a closing pool has a bounded number of steps inside the factory |
| LdapPoolProgress.QuietMeansClosed | internal/authentication/ldap_client_factory.go:444-497 | a closing pool that has come to rest with no client held has Close returned and size 0 |
| LdapPoolProgress.CloseFinishes | internal/authentication/ldap_client_factory.go:444-497 | every run from the start of Close comes to rest within the bound, and then, with all clients released and no timeout, Close has seen size 0 and returned |
| LdapPoolProgress.AcquireCanSucceed | internal/authentication/ldap_client_factory.go:381-421 | with a client in the channel or a free slot a caller of an open pool is handed an open client by a continuation of the present state made of its own steps only |
| LdapPoolService.Borrow | internal/authentication/ldap_client_factory.go:381-421 | a caller who finds an open client at the head of the channel is handed that very client by its own steps; nothing is dialed or closed and the size stays |
| LdapPoolService.GiveBack | internal/authentication/ldap_client_factory.go:268-291 | a client released to an open pool goes to the end of the channel and nothing else changes |
| LdapPoolService.BorrowAndGiveBack | internal/authentication/ldap_client_factory.go:268-421 | borrowing and giving back changes nothing but the client's place in the channel |
| LdapPoolService.HealthyClientsAreKept | internal/authentication/ldap_client_factory.go:308-421 | over every run of an open pool in which no dial and no health check fails, no connection is lost and nobody closes, every connection stays open and there is at most one dial for each caller that found the channel empty |
| LdapPoolService.HandOver | internal/authentication/ldap_client_factory.go:308-421 | a caller is handed a client only after growing the open pool, a passed health check, or dialing a replacement |
| LdapPoolService.AcquireGoesOn | internal/authentication/ldap_client_factory.go:381-421 | no failed dial and no failed health check sends a caller away: GetClient ends with a client or by giving up the wait |
| LdapPoolService.WaitCanBeGivenUp | internal/authentication/ldap_client_factory.go:370-379 | a waiting caller can leave at any time and leaves everything as it is |
| LdapPoolService.FailedRefreshBacksOff | internal/authentication/ldap_client_factory.go:346-379 | after a failed replacement the client goes back and the caller backs off before it receives again |
| LdapPoolService.CloseCanSucceed | internal/authentication/ldap_client_factory.go:469-497 | from every reachable state of an open pool a call of Close can return cleanly |
| LdapPoolFactory.PooledLDAPClientFactory.constructor | internal/authentication/ldap_client_factory.go:90-128 | the pool size is the configured one, or the default when that is not positive; a new factory has no channel, no clients and is open |
| LdapPoolFactory.PooledLDAPClientFactory.Initialize | internal/authentication/ldap_client_factory.go:156-213 | a first call leaves a state runs start from, or that state with Close begun when another thread closes meanwhile; it holds one client per dial that succeeded before that, reports the closing exactly when a later dial succeeds and no connections exactly when no dial does; later calls and calls on a closing pool change nothing |
| LdapPoolFactory.PooledLDAPClientFactory.ReleaseSection | internal/authentication/ldap_client_factory.go:268-291 | the locked section of release is the transition system's step |
| LdapPoolFactory.PooledLDAPClientFactory.ForgetSection | internal/authentication/ldap_client_factory.go:293-300 | the locked section of forget is the transition system's step |
| LdapPoolFactory.PooledLDAPClientFactory.GrowSection | internal/authentication/ldap_client_factory.go:308-319 | the first locked section of grow is the transition system's step |
| LdapPoolFactory.PooledLDAPClientFactory.Drain | internal/authentication/ldap_client_factory.go:423-442 | drain empties the channel, lowers the size once per client, closes exactly the queued clients and reports exactly the closes that failed |
| UserDatabase.LoadableSubmap | internal/authentication/file_user_provider_database.go:103-175 | whether the indexes can be built is inherited by every smaller set of users |
| UserDatabase.LoadableSameEmails | internal/authentication/file_user_provider_database.go:103-175 | only usernames and emails decide whether the indexes can be built and what they are |
| UserDatabase.LookupIsScan | internal/authentication/file_user_provider_database.go:212-240 | the indexed lookup resolves to a key if and only if a scan by folded email, else folded username, else exact username finds it, for all settings of the two search flags |
| UserDatabase.FindsOwnUser | internal/authentication/file_user_provider_database.go:212-240 | a username finds its own user if and only if no other user's email is that username up to case |
| UserDatabase.LowercaseFindsOwnUser | internal/authentication/file_user_provider_database.go:212-240 | every lowercase username finds its own user |
| UserDatabase.UniqueExtends | internal/authentication/file_user_provider_database.go:391-420 | comparing only the changed user with the others is enough to keep all pairs unique |
| UserDatabase.UniqueFindsOwnUser | internal/authentication/file_user_provider_database.go:391-420 | with identities unique every username finds its own user, unless white space around both the name and an email hides it |
| UserDatabase.HiddenBehindEmail | internal/authentication/file_user_provider_database.go:147-175 | any username that is not lowercase and equals an untrimmed email up to case can be hidden behind that email in a database that passes every check |
| UserDatabase.WhiteSpaceHidesUser | internal/authentication/file_user_provider_database.go:212-240 | a concrete database that passes every check and in which one username finds another user |
| UserDatabase.LoadableWhenUnique | internal/authentication/file_user_provider_database.go:103-175 | with identities unique and emails trimmed the indexes can be built exactly when usernames are lowercase (case-insensitive search) and the empty username does not meet a user without an email |
| UserDatabase.EmptyUsernameBreaksIndex | internal/authentication/file_user_provider_database.go:125-145 | a concrete database with unique identities, trimmed emails and lowercase usernames whose indexes cannot be built |
| DatabaseFile.Write | internal/authentication/file_user_provider_database.go:667-743 | the directory changes one create, write, rename or removal at a time; at every moment the file holds the whole old or the whole new value and switches once; a failure up to and including the rename leaves the old value, one after it the new; no other file changes and no temporary file is left unless its removal fails |
| UserStore.ApplySound | internal/authentication/file_user_provider_database.go:243-389 | create, update and delete, succeeding or failing at any step, keep identities unique and the indexes equal to rebuilt ones |
| UserStore.RunSound | internal/authentication/file_user_provider_database.go:243-420 | so does every run of them |
| UserStore.DeleteNeverRefused | internal/authentication/file_user_provider_database.go:295-334 | from a sound state a delete fails only for an unknown user or a failed write |
| UserStore.EmailKeptNeverRefused | internal/authentication/file_user_provider_database.go:336-389 | from a sound state an update that leaves the email alone fails only for an unknown user, a rejected change or a failed write |
| UserStore.CommitIsAtomic | internal/authentication/file_user_provider_database.go:264-292 | success puts the same users in memory and on disk; failure leaves memory alone; a failure after the rename leaves all of the new users on disk, any other leaves the file alone |
| UserStore.StaysInStep | internal/authentication/file_user_provider_database.go:667-743 | an operation takes file and memory apart if and only if its write fails after the rename and would have changed the users |
| UserStore.FileAheadOfMemory | internal/authentication/file_user_provider_database.go:667-743 | a concrete store of one user and a create after which the file has a user that memory does not |
| UserStore.RunStaysInStep | internal/authentication/file_user_provider_database.go:243-389 | over every run without a failure after the rename file and memory stay together, whatever else fails |
| UserStore.StaysRestartable | internal/authentication/file_user_provider_database.go:84-100 | a file that loads still loads after an operation, failing or not, if and only if the operation does not reach the rename with the only user deleted or a user left without a display name |
| UserStore.RunRestartable | internal/authentication/file_user_provider_database.go:626-664 | the file loads at every point of a run if and only if no operation of it is one of these at the state it meets |
| UserStore.RunFileSound | internal/authentication/file_user_provider_database.go:243-389 | at every point of every run, failing writes included, the file is whole with unique identities and users that can be indexed, so a restart that loads is sound |
| UserStore.SchemaAfter | internal/authentication/file_user_provider_database.go:590-598 | the users an operation makes of valid ones satisfy the schema exactly when it neither deletes the only user nor leaves a display name empty |
| UserStore.OnlyUserDeletedUnloads | internal/authentication/file_user_provider_database.go:295-334 | deleting the only user succeeds and leaves a file that does not load |
| UserStore.DisplayNameTakenUnloads | internal/authentication/file_user_provider_database.go:336-389 | so does every update that takes a display name away |
| UserStore.KeysAfterApply | internal/authentication/file_user_provider_database.go:243-389 | who is in the database after each operation |
| UserStore.PresenceBalance | internal/authentication/file_user_provider_database.go:243-334 | a user appears only by being created and disappears only by being deleted |
| UserStore.CreationsBalance | internal/authentication/file_user_provider_database.go:243-334 | creations and deletions of a username balance over every run |
| UserStore.CreateThenFind | internal/authentication/file_user_provider_database.go:243-293 | a created user is new, is found under its username with the given details, and nobody else changes |
| UserStore.DeleteUndoesCreate | internal/authentication/file_user_provider_database.go:295-334 | deleting a user just created succeeds and restores users and both indexes |
| UserStore.DeleteThenGone | internal/authentication/file_user_provider_database.go:295-334 | the name given to a delete finds nobody afterwards if and only if it was not the username of a user hidden behind the deleted one's email; always so without stray white space |
| UserStore.EmailChangeMovesLookup | internal/authentication/file_user_provider_database.go:336-389 | an update changes one record, which is then found under its new email, and under the former one only if that is the new email or the username up to case |
| UserStore.UpdateTakesEffect | internal/authentication/file_user_provider_database.go:336-389 | an update that succeeds stores the changed record under the key it found, for every search setting, and leaves every other user alone |
| UserStore.DeleteTakesEffect | internal/authentication/file_user_provider_database.go:295-334 | a delete that succeeds takes away the user it found and no other |
| UserStore.CreateSucceedsIff | internal/authentication/file_user_provider_database.go:243-293 | in a sound database of trimmed emails a create succeeds if and only if the name is free, the identity clashes with nobody's, it can be indexed and the write succeeds |
| UserStore.UpdateFindsIff | internal/authentication/file_user_provider_database.go:336-389 | an update does not find its user if and only if the name is nobody's email, folded username or username |
| UserStore.UpdateSucceedsIff | internal/authentication/file_user_provider_database.go:336-389 | in such a database an update that is not rejected succeeds if and only if the new identity clashes with nobody's, can be indexed and the write succeeds |
| FileUserDatabase.ValidateUniqueUserIdentity | internal/authentication/file_user_provider_database.go:391-420 | the loop, in any order, accepts exactly when the changed user is compatible with every other |
| FileUserDatabase.Database.constructor | internal/authentication/file_user_provider_database.go:268-278 | the database an operation builds has the new users and empty indexes |
| FileUserDatabase.Database.LoadAlias | internal/authentication/file_user_provider_database.go:125-145 | indexes the username exactly when it is lowercase and nobody else's email |
| FileUserDatabase.Database.LoadAliasEmail | internal/authentication/file_user_provider_database.go:147-175 | indexes the email exactly when no other user has it as email or username |
| FileUserDatabase.Database.LoadAliases | internal/authentication/file_user_provider_database.go:103-123 | succeeds exactly when every pair of users allows it, in any iteration order, and then both indexes are the ones defined from the users |
| FileUserDatabase.Database.Load | internal/authentication/file_user_provider_database.go:84-100 | succeeds exactly when the file is whole, satisfies the schema and can be indexed, and then memory is what a restart gives; users that cannot be indexed have been taken over all the same |
| FileUserDatabase.Database.Replace | internal/authentication/file_user_provider_database.go:264-292 | the new users are indexed, written and taken over, or nothing in memory changes; at every moment the file is as it was or as it ends up |
| FileUserDatabase.Database.CreateUserDetails | internal/authentication/file_user_provider_database.go:243-293 | refines the create operation whose runs are proved sound, with the file at every moment as it was or as it ends up |
| FileUserDatabase.Database.DeleteUserDetails | internal/authentication/file_user_provider_database.go:295-334 | refines the delete operation, with the file at every moment as it was or as it ends up |
| FileUserDatabase.Database.UpdateUserDetails | internal/authentication/file_user_provider_database.go:336-389 | refines the update operation, with the file at every moment as it was or as it ends up, and returns the record as stored, under the key the lookup gave |
| FileUserProvider.Provider.constructor | internal/authentication/file_user_provider.go:41-47 | a new provider starts with its reload cooldown one second in the past |
| FileUserProvider.Provider.CreateUser | internal/authentication/file_user_provider.go:93-144 | a blank username, display name or email, a taken name, a blank password or a failed hash changes nothing and is answered in that order; otherwise it is one create, nil is returned exactly when that succeeds, and the record then holds each given field and the hash for the password |
| FileUserProvider.Provider.AdminUpdateUser | internal/authentication/file_user_provider.go:184-218 | a blank email changes nothing; otherwise it is one update, after which the found record holds each given field, keeps the others and its password, and nobody else changes |
| FileUserProvider.Provider.AdminDeleteUser | internal/authentication/file_user_provider.go:220-230 | it is one delete, after which exactly the found user is gone |
| FileUserProvider.Provider.UpdatePassword | internal/authentication/file_user_provider.go:322-352 | a blank password or failed hash changes nothing; otherwise it is one update that only an enabled record accepts, after which that record has the new hash and nothing else changes |
| FileUserProvider.ExecIsRun | internal/authentication/file_user_provider.go:93-144 | every interleaving of provider calls is, for the database, a run of its operations |
| FileUserProvider.AtMostOneCreateSucceeds | internal/authentication/file_user_provider.go:93-144 | unless the user is deleted in between, at most one CreateUser for a username returns nil in any interleaving, despite the unlocked check, and none if the user was there |
| FileUserProvider.PasswordOnlyWhenEnabled | internal/authentication/file_user_provider.go:322-352 | in every interleaving a password change touches only the password of a record enabled at the commit point |
| FileUserProvider.PasswordSucceedsIff | internal/authentication/file_user_provider.go:322-352 | a password change goes through if and only if the name finds a user who is enabled and the write succeeds |
| FileUserProvider.AdminUpdateSucceedsIff | internal/authentication/file_user_provider.go:184-218 | an admin update that leaves the email alone goes through if and only if the name finds a user and the write succeeds; one that sets it, if and only if the new email also clashes with nobody and can be indexed |
| FileUserProvider.AcceptableIff | internal/authentication/file_user_provider.go:94-116 | what CreateUser accepts, in terms of white space |
| FileUserProvider.CheckRefuses | internal/authentication/file_user_provider.go:98-102 | a CreateUser whose first look finds the name taken goes no further, in any interleaving |
| FileUserProvider.CallsThatUnload | internal/authentication/file_user_provider.go:184-218 | setting a password or creating a user never leaves a file that does not load; an admin update does exactly when it saves an empty display name |
| FileUserProvider.EmptyDisplayNameUnloads | internal/authentication/file_user_provider.go:184-218 | a concrete database and admin update that leave such a file |
| CredentialCache.LengthInverts | internal/authentication/cached.go:84-104 | the four length bytes determine the length |
| CredentialCache.DecodeInverts | internal/authentication/cached.go:68-104 | the authenticated message has a decoder that inverts it for every encodable pair |
| CredentialCache.MessagesDistinct | internal/authentication/cached.go:68-104 | different credential pairs never share a message |
| CredentialCache.Digest.WriteDigest | internal/authentication/cached.go:84-104 | appends the framed value, or fails and writes nothing exactly when it is too long |
| CredentialCache.Sum | internal/authentication/cached.go:68-82 | the message of the pair, or an error exactly when a part is too long to be framed |
| CredentialCache.Cache.Valid | internal/authentication/cached.go:130-150 | positive only for an unexpired entry with the same key; an expired entry is removed, never reported, and no other is touched |
| CredentialCache.Cache.Put | internal/authentication/cached.go:152-160 | replaces the user's entry, expiring one lifespan from now |
| CredentialCache.FinishInv | internal/authentication/cached.go:49-66 | every call that shares a check asked about the same credential, so the shared answer is its own |
| CredentialCache.HitWasStored | internal/authentication/cached.go:130-150 | an entry that answers for a credential was stored for that very credential within the lifespan |
| CredentialCache.StepInv | internal/authentication/cached.go:49-160 | every step of any number of concurrent calls keeps entries, shared checks and answers backed: each answer by a record made at the time it was given, each store by a provider success of its own |
| CredentialCache.HitsUntilExpiry | internal/authentication/cached.go:130-160 | after a store the cache answers for that password up to the end of the lifespan, no longer, and for no other password of the user |
| CredentialCache.CachedAnswersAreBacked | internal/authentication/cached.go:106-160 | every cached positive answer at a time t, in every run, was a hit at t on a store of the same pair made at most the lifespan before t, which followed a provider success for that pair |
| CredentialCache.EachStoreAsksAgain | internal/authentication/cached.go:106-128 | no provider success is stored twice: an entry is renewed only by asking again |
| CredentialCache.EntriesNeedSuccess | internal/authentication/cached.go:106-128 | an entry exists only after a provider success: negative and failing checks create none |
| CredentialCache.CheckAgreesWithProvider | internal/authentication/cached.go:49-66 | against fixed verdicts every answer without error, cached, shared or fresh, is the provider's verdict |
| CredentialCache.ErrorsAreTheProviders | internal/authentication/cached.go:49-128 | an answer carries an error if and only if the pair is too long to be framed or the provider failed on it at that time; an error is never cached |
| CredentialCacheRuns.StoredIsCached | internal/authentication/cached.go:106-150 | in every run a Check within the lifespan of the last store for its user, of the same password, is answered valid, cached and without error, and the provider is not asked |
| CredentialCacheRuns.HitAnswers | internal/authentication/cached.go:106-115 | a call that finds a live entry for its key is answered from the cache and only the hit is recorded |
| CredentialCacheRuns.ExecKept | internal/authentication/cached.go:130-160 | in every run the last store for a user that has not expired is the user's entry: nothing else removes or replaces it |
| CredentialCacheRuns.SharedCheckAsksOnce | internal/authentication/cached.go:49-128 | two calls for a pair that is not cached ask the provider once and both get its verdict or error; exactly a success is stored |
| CredentialCacheRuns.LateCallShares | internal/authentication/cached.go:49-66 | a call that joins a check late gets its answer without asking again |
| CredentialCacheRuns.WaitingCallsCanFinish | internal/authentication/cached.go:49-128 | no call is stuck: the steps of its check answer it from every state of every run |
| AccessControl.FirstMatch | internal/authorization/authorizer.go:55-72 | the deciding rule matches and no earlier one does |
| AccessControl.GetRequiredLevel | internal/authorization/authorizer.go:55-72 | the loop decides by the first matching rule, else by the default policy |
| AccessControl.NewRegexMatcher | internal/authorization/access_control_domain.go:52-69 | the identity groups are found by name and the subjects flag says whether there are any |
| AccessControl.SlotIffNamed | internal/authorization/access_control_resource.go:12-29 | a pattern looks at the subject exactly when one of its groups has an identity name, and its slots point at the last such groups |
| AccessControl.RuleBuilder.AddDomains | internal/authorization/util.go:83-93 | appends the matchers and keeps the flag exact: on if and only if some criterion looks at the subject |
| AccessControl.RuleBuilder.AddDomainPatterns | internal/authorization/util.go:95-105 | the same for domain patterns |
| AccessControl.RuleBuilder.AddResources | internal/authorization/util.go:107-117 | the same for resource patterns |
| AccessControl.SchemaSubjectsToACL | internal/authorization/util.go:127-141 | keeps the recognised subjects of each list and drops lists that have none |
| AccessControl.NewAccessControlRule | internal/authorization/access_control_rule.go:22-41 | builds the rule whose flag is exact from its configuration |
| AccessControl.NewAccessControlRules | internal/authorization/access_control_rule.go:13-19 | one rule per configuration, in order, numbered from one |
| AccessControl.AnonymousIsLenient | internal/authorization/access_control_rule.go:58-169 | a rule that matches a subject matches the anonymous subject at the same address; with the flag off it matches both or neither |
| AccessControl.LoginNeverDecidesEarlier | internal/authorization/authorizer.go:55-72 | logging in never moves the decision to an earlier rule |
| AccessControl.AnonymousDecisionIsFinal | internal/authorization/authorizer.go:55-72 | for every configuration an anonymous decision with the flag off is the decision for every subject at the same address |
| AccessControl.NamedUserIsExclusive | internal/authorization/regexp.go:22-41 | two named subjects matched by one user-bound domain or resource have the same username up to case |
| AccessControlMeaning.ItemsAreConjunction | internal/authorization/access_control_subjects.go:26-34 | the items of a subject list are a conjunction: a further item keeps exactly those who match it too |
| AccessControlMeaning.ListsAreAlternatives | internal/authorization/access_control_rule.go:155-169 | the subject lists of a rule are alternatives: a further list admits exactly those who match all its items and costs nobody a match |
| AccessControlMeaning.OneListAsksAll | internal/authorization/access_control_rule.go:155-169 | a named subject matches a rule with one list if and only if they match each of its items |
| AccessControlMeaning.ItemNarrows | internal/authorization/access_control_subjects.go:26-34 | adding an item to any list never makes a rule match somebody it did not match |
| AccessControlMeaning.ItemNames | internal/authorization/access_control_subjects.go:42-65 | a user or client item is about one user or client, a group item about the members of the group |
| AccessControlMeaning.AnonymousIff | internal/authorization/types.go:68-70 | somebody is anonymous if and only if no item that names a user, group or client is about them |
| AccessControlMeaning.NoSubjects | internal/authorization/access_control_rule.go:146-169 | a rule without subjects is for everybody |
| AccessControlMeaning.NotGiven | internal/authorization/access_control_rule.go:87-143 | a criterion that is not given lets everything through |
| AccessControlMeaning.DomainsAreAlternatives | internal/authorization/access_control_rule.go:87-99 | a further domain lets through exactly what it matches and keeps the rest |
| AccessControlMeaning.ResourcesAreAlternatives | internal/authorization/access_control_rule.go:102-114 | the same for resources |
| AccessControlMeaning.MethodsAreAlternatives | internal/authorization/access_control_rule.go:132-138 | the same for methods |
| AccessControlMeaning.NetworksAreAlternatives | internal/authorization/types.go:20-32 | the same for networks |
| AccessControlMeaning.QueriesAreAlternatives | internal/authorization/access_control_query.go:44-52 | lists of query criteria are alternatives and the criteria of a list a conjunction |
| AccessControlMeaning.CriteriaAreConjunction | internal/authorization/access_control_rule.go:58-84 | a rule matches exactly what each of its six criteria, standing alone, matches |
| AccessControlMeaning.CriteriaAlone | internal/authorization/access_control_rule.go:58-169 | what each criterion matches standing alone |
| AccessControlMeaning.SlotsAreConjunction | internal/authorization/regexp.go:22-41 | a pattern that names a user and a group asks for both |
| AccessControlMeaning.NamedGroupIsMembership | internal/authorization/regexp.go:22-41 | a pattern that names a group matches a named subject only as a member of that group up to case, and matches every exact member |
| AccessControlMeaning.NamedUserMatches | internal/authorization/regexp.go:22-41 | a pattern that names a user matches the subject of that name |
| AccessControlMeaning.PlainDomainMatches | internal/authorization/access_control_domain.go:16-33 | a plain domain matches itself up to case and nothing else |
| AccessControlMeaning.WildcardMatches | internal/authorization/access_control_domain.go:16-33 | a wildcard matches exactly the domains that end in its dot and the rest of it, never the bare domain |
| AccessControlMeaning.TokenMatcher | internal/authorization/access_control_domain.go:16-48 | an identity token becomes a pattern with the one slot it is named for |
| AccessControlMeaning.ConfiguredDomains | internal/authorization/access_control_rule.go:22-41 | a configured rule matches a domain by one of its names or patterns |
| AccessControlMeaning.ConfiguredCriteria | internal/authorization/access_control_rule.go:22-41 | and a path, method, query and address by what was configured for each |
| AccessControlMeaning.ConfiguredSubjects | internal/authorization/util.go:127-141 | and, of those logged in, those who match all recognised items of one list, or everybody if none is recognised |
| AccessControlMeaning.LevelRoundTrip | internal/authorization/util.go:16-45 | a level's name gives the level back and any other text denies |
| AccessControlMeaning.SubjectRoundTrip | internal/authorization/util.go:61-81 | a subject as written is read back as that subject |
| AccessControlMeaning.TrimMiddle | internal/authorization/util.go:61-81 | the name in a subject loses the blanks around it and nothing else |
| AccessControlMeaning.RecognisedItems | internal/authorization/util.go:127-141 | exactly the recognised texts of a list become items |
| AccessControlMeaning.RecognisedLists | internal/authorization/util.go:127-141 | exactly the lists with a recognised item are kept |
| AccessControlMeaning.UpperMeaning | internal/authorization/util.go:119-125 | a configured method is compared in upper case |
| AccessControlMeaning.TeamRuleDecides | internal/authorization/authorizer.go:55-72 | behind a rule for a user who is in a group, and a default of deny, the user in the group needs one factor, anybody else is denied, and somebody not logged in is told that logging in may help |
| AccessControlExplain.GetRuleMatchResults | internal/authorization/authorizer.go:75-98 | one result per rule, skipped exactly when an earlier one is an exact match |
| AccessControlExplain.CandidateIsMatch | internal/authorization/types.go:170-177 | a result matches or may match if and only if the rule matches; a named subject never may match |
| AccessControlExplain.PotentialIff | internal/authorization/types.go:170-177 | a result may match if and only if the rule matches somebody not logged in and lists subjects, and is an exact match if and only if it matches otherwise |
| AccessControlMeaning.ColumnsAreCriteria | internal/authorization/authorizer.go:75-98 | each column of an explanation says whether its criterion, standing alone, matches |
| AccessControlExplain.OneUnskippedMatch | internal/authorization/authorizer.go:75-98 | at most one result is an unskipped exact match |
| AccessControlExplain.Summarize | internal/commands/acl.go:107-144 | the selection loop, for either verbosity, names first the first result that matches or may match, and then only the exact match |
| AccessControlExplain.ExplainAgreesWithDecide | internal/authorization/authorizer.go:55-98 | the first candidate among the results is the rule that decides |
| AccessControlExplain.CheckPolicy | internal/commands/acl.go:64-145 | for every rule list, subject, object and verbosity the command names first the rule, or the default policy, that the decision is made by, with its level |
| Amr.RegisteredValuesDiffer | internal/authorization/const.go:80-188 | the registered values are pairwise different |
| Amr.NewFromClaim | internal/authorization/amr.go:12-58 | the two loops compute: each field from the values mapped to it, and the other values in order, minus those printing works out again |
| Amr.PrintFields | internal/authorization/amr.go:108-150 | before the loop exactly the values the fields call for are printed, none twice, in the fixed order |
| Amr.BaseContents | internal/authorization/amr.go:108-150 | filtering the fixed order by what the fields call for gives exactly those values, none twice |
| Amr.AppendFresh | internal/authorization/amr.go:108-164 | the loop over the extra values appends those not there yet, once each |
| Amr.MarshalRFC8176 | internal/authorization/amr.go:108-164 | prints the fields, then the extra values that are new |
| Amr.ParseMarshal | internal/authorization/amr.go:12-164 | parsing what was printed gives the fields back and the extra values without repetitions |
| Amr.MarshalParseKeepsClaim | internal/authorization/amr.go:12-164 | printing what was parsed loses no value, adds only what the fields imply and repeats nothing |
| Amr.MarshalParseIdempotent | internal/authorization/amr.go:12-164 | parsing and printing again changes nothing |
| Amr.ParseMarshalIdentity | internal/authorization/amr.go:12-164 | a struct survives being printed and parsed if and only if hardware or software key implies WebAuthn and its extra values are distinct, unmapped and not computed |
| Amr.RegistryRoundTrips | internal/authorization/amr.go:12-164 | all of these for the registered values themselves |
| Amr.MultiPrintedIff | internal/authorization/amr.go:75-102 | reading and printing a claim shows "mfa" if and only if it was there or the claim has a known and a possessed factor, and "mca" if and only if it was there or the claim has a browser and a service channel |
| Amr.PrintedInOrderAlways | internal/authorization/amr.go:108-150 | the values for the fields are printed in one fixed order, whichever of them are printed |
| Unflatten.JoinSplit | internal/configuration/koanf_util.go:71-74 | splitting a key and joining the parts gives the key back |
| Unflatten.SplitInjective | internal/configuration/koanf_util.go:71-74 | keys that are split have the same path if and only if they are the same |
| Unflatten.SplitIsOnly | internal/configuration/koanf_util.go:71-74 | the split of a key is the one list of parts without the separator that joins to the key |
| Unflatten.PathOfIs | internal/configuration/koanf_util.go:71-74 | a key in the key map takes its path from there, any other key its parts |
| Unflatten.OutcomeIsSurvivors | internal/configuration/koanf_util.go:70-95 | for every order, compatible or not, the values left are exactly those of the keys whose path no later key's runs through or is run through by |
| Unflatten.OutcomeWhenCompatible | internal/configuration/koanf_util.go:70-95 | with compatible keys every order leaves every key's value at its path and nothing else |
| Unflatten.LastKeyWins | internal/configuration/koanf_util.go:94-94 | any key may be taken last, and then its value is left and nothing on its way or below it |
| Unflatten.OrderIndependentIffCompatible | internal/configuration/koanf_util.go:70-95 | all orders leave the same values at the same paths if and only if the keys are compatible |
| Unflatten.DottedKeyClashes | internal/configuration/koanf_util.go:70-95 | for "a" and "a.b" one order leaves only the first value and the other only the second |
| Unflatten.GetFinds | internal/configuration/koanf_util.go:76-94 | in the structure a path in place leads to its value |
| Unflatten.GetFindsOnly | internal/configuration/koanf_util.go:76-94 | and no other path leads to a value |
| Unflatten.GetFindsMap | internal/configuration/koanf_util.go:76-92 | a path leads to a map exactly when one is in use for it |
| Unflatten.LeavesDoNotNest | internal/configuration/koanf_util.go:78-92 | in any nested structure two paths that lead to values do not run through each other |
| Unflatten.FaithfulNeedsCompatible | internal/configuration/koanf_util.go:67-98 | so no structure at all is faithful to incompatible keys |
| Unflatten.FaithfulIffCompatible | internal/configuration/koanf_util.go:67-98 | what the loop leaves, taken as a whole, is faithful if and only if the keys are compatible |
| Unflatten.SameContentsIffSameLeaves | internal/configuration/koanf_util.go:67-98 | two whole nested results agree on every path, to values and to maps, exactly when the same values were left in both |
| Unflatten.ShapeClosed | internal/configuration/koanf_util.go:76-94 | the maps in use are all the maps that can be reached from the result |
| Unflatten.NeatAfterPut | internal/configuration/koanf_util.go:76-94 | placing a value leaves no map that is not on the way to a value |
| Unflatten.NoStrayEntry | internal/configuration/koanf_util.go:67-98 | every entry of the result starts the path of a value |
| Unflatten.MapAdded | internal/configuration/koanf_util.go:79-92 | a new map put over a missing entry or a value displaces that value and nothing else |
| Unflatten.LeafPut | internal/configuration/koanf_util.go:94-94 | a value put over an entry displaces what was there and below, and nothing else |
| Unflatten.Place | internal/configuration/koanf_util.go:76-94 | in every case the key's path then leads to its value, the values its path runs through or that run through it are gone, and all others are as they were |
| Unflatten.UnflattenWithKeyMap | internal/configuration/koanf_util.go:67-98 | for every iteration order the whole of what can be reached from the result holds exactly the values that order leaves and the maps on the way to them, compatible or not, and is faithful (each key's path leads to its value, no other path to any, no stray maps) if and only if the keys are compatible |
| Downscale.TargetFits | cmd/authelia-gen/cmd_misc_contributors.go:283-291 | the longest side becomes exactly the bound, the other follows the proportion of the picture rounded down, no side grows, and the result is empty exactly when one side is more than the bound times the other |
| Downscale.RowReducedToNothing | cmd/authelia-gen/cmd_misc_contributors.go:283-291 | a concrete picture whose reduction is empty |
| Downscale.EdgeStrict | cmd/authelia-gen/cmd_misc_contributors.go:296-299 | no box is empty |
| Downscale.BoxesPartition | cmd/authelia-gen/cmd_misc_contributors.go:296-299 | every pixel of a side is in exactly one box |
| Downscale.BoxesEven | cmd/authelia-gen/cmd_misc_contributors.go:296-299 | each box has the mean number of pixels rounded down, or one more |
| Downscale.CoversIffInBox | cmd/authelia-gen/cmd_misc_contributors.go:296-299 | a source pixel is averaged into a pixel of the result exactly when it is in that pixel's box of the width and of the height |
| Downscale.SumFits | cmd/authelia-gen/cmd_misc_contributors.go:301-308 | the 32-bit sums of a box of up to 16843009 pixels do not overflow |
| Downscale.WhiteOverflows | cmd/authelia-gen/cmd_misc_contributors.go:301-308 | and beyond that a white box does overflow: the bound is exact |
| Downscale.CountsFit | cmd/authelia-gen/cmd_misc_contributors.go:504-510 | reducing a picture of fewer than 2^32 pixels never divides by zero |
| Downscale.AverageWithin | cmd/authelia-gen/cmd_misc_contributors.go:504-510 | the mean of a box lies between its extremes and is never clamped |
| Downscale.SumRow | cmd/authelia-gen/cmd_misc_contributors.go:304-307 | the innermost loop adds one row of a box in 32-bit arithmetic |
| Downscale.SumBox | cmd/authelia-gen/cmd_misc_contributors.go:301-308 | the two inner loops compute the sums and count of a box modulo 2^32 |
| Downscale.Downscale | cmd/authelia-gen/cmd_misc_contributors.go:278-315 | a picture within the bound is left alone; otherwise every pixel of the result is the reduction of its own box |
| Downscale.EveryPixelCountsOnce | cmd/authelia-gen/cmd_misc_contributors.go:293-315 | every source pixel is averaged into exactly one pixel of a result that is not empty, the one whose box covers it |
| Downscale.ReducedIsMean | cmd/authelia-gen/cmd_misc_contributors.go:301-311 | each colour of the result is the mean of its box rounded down, between the extremes of the box, and the pixel is opaque |

## Left out

- LdapPoolFactory.PooledLDAPClientFactory.Initialize: GetClient during Initialize is not modelled, since start-up completes it first and it does not look at `size` before it sends; a Close during Initialize is taken up to the start of its drain.
- LdapPoolFactory.PooledLDAPClientFactory.Drain: states drain run to its end; its interleavings with other threads are steps of the transition system.
- LdapPoolTheorems.CleanCloseIsFinal: clean means that wait saw size 0; errors of single disconnects, which Close also reports, are not modelled.
- LdapPoolProgress.CloseFinishes: bounds the steps of a run, not their duration; timeouts, deadlines and sleeps are steps that may happen at any time.
- Downscale.Downscale: requires that no box has a number of pixels that is zero modulo 2^32, where the source would panic; `CountsFit` shows that this holds below 2^32 pixels.
- Unflatten.UnflattenWithKeyMap: the separator is one character, values are opaque (a value that is itself a map is not entered), and key-map paths are not empty, where the source would panic.
- CredentialCache.CheckAgreesWithProvider: HMAC under the fixed secret is taken to be injective, and the provider's verdicts to be fixed.
- AccessControl.AnonymousDecisionIsFinal: regular expressions, networks and query criteria are uninterpreted functions, and the text of the patterns made from domain tokens is not modelled.
- FileUserDatabase.Database.LoadAliases: which error is reported, and the content of error messages, are not modelled.
- FileUserDatabase.Database.CreateUserDetails: details other than those the indexes and the provider read are opaque, and so is the encoding of the saved file.
- Case folding is that of ASCII letters.
- Unpooled LDAP clients, dialing, binding, searches and the unpooled factory: calls into a library.
- UserStore.RunRestartable: of what loading checks, the schema and the indexes are modelled; extra attributes, password digests, locales and addresses are opaque and taken to be read back as they were written.
- SetUserDetails, Reload and a Load racing with a write: they do not keep the indexes exact.
- ChangePassword, CheckUserPassword, AdminListUsers and AdminResetUserPassword: no property beyond those of the operations they call.
- Password hashing, parsing of requests into objects, and building query matchers: foreign libraries and plumbing.
- IsSecondFactorEnabled and IsAuthLevelSufficient: only easy members.
- The text the check-policy command prints, key remapping of deprecated options, and the rest of the contributors generator: no hard property.
