# OpenWiFi Security Service: a verified model of its guards

This project models the stateful guards of the security service and proves what they keep over every
run: the rate limiter, the enrolment, telephone and login-challenge caches, the service registry, CIDR
matching, the password history and login, the user table under its access rules, the API key table,
action links, the ring buffer, the mail queue and the path router. `dafny verify dfyconfig.toml` checks
all of it.

Each component is a module. Where the source changes an object step by step the module has a class with
the same fields; its methods follow the source branch by branch and are proved to implement a step
function (`Next`, `Serve`, `Reset`, ...). `After` folds that function over a run of events, and the main
results are lemmas about every run.

## How the system is modelled

- Each request, bus message or visit to a mail is one atomic step.
- A table is a map or a sequence of rows. Creating a row uses an id from a generator that never repeats
  itself (`UserStore.FreshIds`). Users are looked up by id, and the caller of a request is a current record.
- Time stamps are 64-bit numbers and differences wrap around as in the source (`Common.Since`). Where a
  result needs it, a run is `Clocked`: the clock is positive and does not go back.
- The hash is a function on texts. Results about passwords ask that it is injective and that its hex
  digests are non-empty and free of `|`. The six digits of a secret are a function of the secret and of
  `now / 30`, the time step of section 4.2 of RFC 6238.
- Splitting a text at a separator keeps empty tokens, and the empty text has no tokens. This is
  `Text.Tokens`; `Text.PiecesOfJoin` and `Text.JoinOfPieces` show that it and joining undo each other.
  Splitting with trimming, which the address ranges use, also drops a last token that is not empty but
  blank (`Cidr.RangeTokens`).
- One digest engine serves all password operations, of users and of subscribers. The text it still holds
  when an operation begins is a parameter (`left`) of what that operation does. Line 480 of
  src/AuthService.cpp compares a token with a digest and does not fix which of the two it evaluates
  first: C++17 leaves that to the compiler. `AuthService.Config.indexFirst` says which it is, and results
  hold for both unless they name it.
- Answers of the outside world are parameters: whether a message was sent, whether the database took a
  row, whether an address is well formed, random numbers, salts, fresh ids, the clock.
- `hide` statements only keep proofs fast. They add no assumption.

The modules `UserStore` (what a request does), `UserEffects` (which requests are accepted and what they
leave), `UserSafety`, `Enrolment`, `ApiKeys` and `UserListing` (what follows) share one state, `World`: the user table, the ids issued so far, both caches the modify
request reads, the API keys, and the action links the requests store. The enrolment cache may also be
used in any other way at any time (`UserStore.Request.Enrol`): by the enrolment handlers, and by the
subscriber handler, which completes the same sessions (src/RESTAPI/RESTAPI_subuser_handler.cpp:312).
`UserHandler.Handler` is the object that serves those requests step by step; its `View` is that state.
`InitialState` shows that the state the service creates at its first start satisfies everything that the
results about runs ask of a starting state, and `Witnesses` gives runs from that state which reach the
surprises listed next.

## What the code does differently from what one may expect

- **An empty history entry makes a password change raise** when reading gets that far
  (`AuthService.RaisesIffEmptyEntryFirst`); one create request is enough to get there
  (`Witnesses.EmptyHistoryReached`). If the digest is taken before the token is asked for, every path of
  every operation still leaves the shared engine empty (`AuthService.DigestFirstStaysEmpty`).
- **If the token is asked for first, such a raise spoils the next operation of anybody**: the text of the
  change stays in the engine. In any run of operations the engine holds text exactly when such a raise is
  pending, that is, no digest has been taken since (`AuthService.EngineHoldsTextIff`); then and only then
  the right password is refused and a new seal does not open (`AuthService.WorksIffNothingPending`), and
  the reuse of an only password is missed (`AuthService.ReuseIsMissedIff`). A login that succeeds has
  emptied the engine, so what it stores is sound (`AuthService.NewPasswordIsThePassword`); a reset by link
  may store a seal that does not open (`ActionLinks.ResetChangesTheIssuedRecord`).
- **The body's password history survives creation** exactly when the body sets no password, although
  docs/design/user_creation_flow.md:61 says that the field is ignored (`UserSafety.BodyHistoryIsKept`).
- **A failed modify request can leave traces, though no record changes.** It uses up its caller's enrolment
  session exactly when it asks for a finished one, since the session is completed before the row is
  written; and it stores a link exactly when it asks for an address check and gets as far as the second
  factor (`Enrolment.FailedPutLeavesIff`; `Witnesses.FailedPutUsesUpEnrolment`,
  `Witnesses.FailedPutStoresLink`). One whose password change raises may leave text in the engine, as above.
- **API keys outlive their user.** `RemoveAllApiKeys` (src/storage/orm_apikeys.cpp:37-46) announces the
  keys as removed but deletes no row. Over any run every key has a user exactly when no step deleted a
  user who had keys (`ApiKeys.EveryKeyHasAUserIff`; `Witnesses.OrphanReached`), and no later request
  removes an orphan (`ApiKeys.OrphansStay`). The clean-up of expired keys is defined but never called:
  src/StorageService.cpp:90-92 cleans the action links twice.
- **A failed read of the owner's keys lets every new key in.** The check takes it for an empty list
  (src/framework/orm.h:569-572). So the bound of ten keys with distinct names holds throughout a run
  exactly when no step created a key that did not fit, for which that read must fail
  (`ApiKeys.AlwaysTidyIff`; `Witnesses.TwoOfOneNameReached`).
- **A completed link is not used up.** It sets another password until it expires, whatever happens in
  between, under an exact condition that its marks do not enter (`ActionLinks.CompletedLinkStaysGoodIff`,
  `ActionLinks.MarksDoNotMatter`).
- **The limiter's bound is 2 * MaxCalls - 1** in any interval as long as the period, one below the bound
  one would guess, and it is reached (`RateLimiter.BoundIsReached`).
- **A full ring buffer looks empty.** The write that makes `Size` elements loses all of them
  (`Fifo.OverflowLosesAll`); `Write` answers false in every case.
- **An ADMIN may make a PARTNER.** It may not create one (src/ACLProcessor.h:174), but may change the role
  of a record it created to PARTNER, under an exact condition (`UserSafety.AdminGivesRoleIff`).
- **A history longer than the limit is never cut** (`AuthService.OnlyFullHistoryIsCut`).
- **A template that fails can hand a binding on** to a later one of the same handler
  (`Router.FailedTemplateLeavesBindings`).
- **Salts of different lengths can reject an unused password** (`AuthService.UnevenSaltsCollide`).
- **A right telephone code may not count**: only the oldest entry for a number and user is read
  (`SmsSender.CompletionCountsIffOldest`, `SmsSender.RightCodeDoesNotCount`).
- **Only the low byte of a mask length reaches the CIDR match**, so that a length of 256 lets every address
  in (`Cidr.MultipleOf256LetsAllIn`); and addresses of different families are compared byte by byte from
  their first bytes on (`Cidr.InRangeIffPrefix`).

## Model

| member | source | states |
|---|---|---|
| RateLimiter.Limiter.IsRateLimited | src/framework/RESTAPI_RateLimiter.h:32-58 | the call is refused exactly when its window is open and already holds MaxCalls calls, and the key's entry is the only one that changes |
| RateLimiter.Limiter.ClearAll | src/framework/RESTAPI_RateLimiter.h:60 | forgets every key |
| RateLimiter.SlidingBound | src/framework/RESTAPI_RateLimiter.h:32-58 | in any run, no interval of one period, wherever it starts, holds more than 2 * max(1, MaxCalls) - 1 admitted calls of one key |
| RateLimiter.WindowInvariant | src/framework/RESTAPI_RateLimiter.h:44-57 | the inductive form: how many calls were admitted after the window's start, before it and past its end |
| RateLimiter.WindowAdmitsExactlyTheFirst | src/framework/RESTAPI_RateLimiter.h:44-57 | a window does not move while calls keep coming, refused or not, and its call number c passes exactly when c = 1 or c <= MaxCalls |
| RateLimiter.KeysAreIndependent | src/framework/RESTAPI_RateLimiter.h:35-56 | a call on one key changes neither the entry nor the admitted calls of another |
| RateLimiter.BoundIsReached | src/framework/RESTAPI_RateLimiter.h:32-58 | for every period of at least 2 and limit of at least 1 some run meets the sliding bound exactly |
| TotpCache.Totp.GenerateSecret | src/TotpCache.h:32-41 | as many characters as asked for, each printable and taken from its own random number |
| TotpCache.Totp.StartValidation | src/TotpCache.h:73-105 | keeps a session of the same kind unless a reset is asked for, otherwise opens one from scratch, and returns the picture of the session in force |
| TotpCache.Totp.ContinueValidation | src/TotpCache.h:107-146 | accepts a first or a different second code of a live session, changes nothing on failure, and reports each of its five errors exactly when it applies |
| TotpCache.Totp.CompleteValidation | src/TotpCache.h:148-159 | releases the secret of a finished live session and removes the session, or does nothing |
| TotpCache.SessionHistory | src/TotpCache.h:73-146 | every entry of any run is explained by the run: its opening, its accepted first code, its latest accepted second code; at most one verification, and a finished entry has one |
| TotpCache.ReleaseNeedsTwoCodes | src/TotpCache.h:73-159 | a release means two accepted codes for that very secret, in two different 30 s steps and in order, after the session's last opening and within 900 s of it |
| TotpCache.OneReleasePerSession | src/TotpCache.h:148-159 | between two releases for a user a session was opened |
| TotpCache.SecondCodeLeadsToRelease | src/TotpCache.h:122-159 | after an accepted second code a timely completion does release, whatever else happens in between short of a new opening or release |
| TotpCache.StartLeaves | src/TotpCache.h:73-105 | a start keeps a session of the same kind unless a reset is asked for, and otherwise leaves one with its own secret, the time of the start and nothing accepted or done |
| TotpCache.FirstCodeCountsIff | src/TotpCache.h:112-121 | a first code counts exactly if it is the secret's code of the current 30 s step, for the kind of the session and less than 900 s after its start |
| TotpCache.SecondCodeCountsIff | src/TotpCache.h:122-127 | a second code counts exactly under the same conditions and if it differs from the first |
| TotpCache.EnrolmentReleasesIff | src/TotpCache.h:73-159 | from any cache, a start with a reset, two codes and a completion release the secret of that start exactly if both codes are right and differ and 900 s have not passed |
| TotpCache.EveryCharacterOccurs | src/TotpCache.h:32-41 | each of the 94 printable characters is drawn for exactly one remainder of the random number |
| SmsSender.Sender.CleanCache | src/SMSSender.cpp:31-39 | the erasing loop is the filter of the entries at most 300 s old, in their old order |
| SmsSender.Sender.StartValidation | src/SMSSender.cpp:41-52 | cleans and appends one unvalidated entry, and answers what the provider answered |
| SmsSender.Sender.IsNumberValid | src/SMSSender.cpp:54-65 | the verdict of the first entry for the number and user |
| SmsSender.Sender.CompleteValidation | src/SMSSender.cpp:67-81 | validates the first entry with number, user and code, or nothing |
| SmsSender.EntryHistory | src/SMSSender.cpp:41-81 | every entry was issued by a request, and a validated one was answered afterwards with its own code |
| SmsSender.ValidNumberWasProved | src/SMSSender.cpp:41-81 | a valid number means that a code was issued for that number and user and then supplied |
| SmsSender.CompletionCountsIffOldest | src/SMSSender.cpp:54-81 | after a successful completion the number is valid exactly when it was before or the code is that of the oldest entry |
| SmsSender.RightCodeDoesNotCount | src/SMSSender.cpp:41-81 | after two requests the code of the second is accepted and the number still does not count as valid |
| SmsSender.RequestLeaves | src/SMSSender.cpp:31-52 | after a request the entries are the old ones at most 300 s old and the new one as the last; nothing happens while the service is off |
| SmsSender.FreshNumberValidIff | src/SMSSender.cpp:41-81 | for a number without a live entry, a request and an answer make it valid exactly if the answer is the code that was sent |
| MfaServer.Server.CleanCache | src/MFAServer.cpp:115-125 | the erasing loop is the filter of the entries at most 300 s old |
| MfaServer.Server.StartMFAChallenge | src/MFAServer.cpp:20-43 | stores the identity and the answer under the uuid exactly when the method is enabled |
| MfaServer.Server.ResendCode | src/MFAServer.cpp:64-70 | sends for a stored challenge only, and changes no state |
| MfaServer.Server.CompleteMFAChallenge | src/MFAServer.cpp:72-100 | hands back the stored identity for the right answer and removes the challenge, otherwise changes nothing |
| MfaServer.CacheIsPending | src/MFAServer.cpp:20-125 | the cache holds exactly the challenges that were started and since then neither completed nor cleaned, each with the data of its start |
| MfaServer.CompletionReturnsTheStarter | src/MFAServer.cpp:72-100 | a completion returns the identity stored at the start of that uuid, for its own answer or its secret's current code |
| MfaServer.CompletesIff | src/MFAServer.cpp:72-100 | after any run a challenge in the cache completes exactly for the code of its own start, or for the current code of its user's secret |
| MfaServer.StartedIff | src/MFAServer.cpp:20-43 | a challenge is stored exactly for a method that is switched on |
| MfaServer.AnsweredWellIff | src/MFAServer.cpp:42-62 | a start is answered well exactly if the method is on and the message goes out to a number or address that is there, or a secret is there |
| MfaServer.StartKeeps | src/MFAServer.cpp:115-125 | a start drops exactly the other challenges older than 300 s and leaves the rest as they are |
| MfaServer.CompletesAtMostOnce | src/MFAServer.cpp:72-100 | no challenge completes twice in any run |
| MfaServer.ResendChangesNothing | src/MFAServer.cpp:64-70 | after any run the challenges are those of the run with all its resends taken out |
| ServiceRegistry.MicroService.BusMessageReceived | src/framework/MicroService.cpp:49-187 | one message records or removes one service, then sweeps; a message that raises changes nothing |
| ServiceRegistry.MicroService.RemoveZombies | src/framework/MicroService.cpp:168-178 | the erasing loop is the filter of the services heard of in the last 120 s |
| ServiceRegistry.MicroService.GetServicesOfType | src/framework/MicroService.cpp:189-199 | exactly the services of that type, whatever the case of the name, each once and in end point order |
| ServiceRegistry.RegistryIsHistory | src/framework/MicroService.cpp:59-178 | the registry after any messages equals a function of the message history alone |
| ServiceRegistry.RegisteredIff | src/framework/MicroService.cpp:59-178 | registered exactly when the last complete foreign event about the end point was a join or keep-alive at most 120 s before the last processed message, and then with that event's data |
| ServiceRegistry.RegistryInvariant | src/framework/MicroService.cpp:63-105 | no entry has the service's own id, each sits under its own end point, and types are lower case |
| ServiceRegistry.JoinRegisters | src/framework/MicroService.cpp:83-105 | after a complete join or keep-alive of another service every field of the entry is the one of the message, the type in lower case |
| ServiceRegistry.LeaveRemoves | src/framework/MicroService.cpp:74-75 | after a complete leave of another service its end point is gone |
| ServiceRegistry.OthersOnlySweep | src/framework/MicroService.cpp:59-178 | every other message keeps an end point exactly while its entry is at most 120 s old, and one that raises changes nothing |
| Cidr.CidrMatchIffPrefix | src/framework/CIDR.h:16-21 | the masked word comparison in network order is agreement on the first `bits` address bits (section 3.1 of RFC 4632) |
| Cidr.CidrMatchIffBlock | src/framework/CIDR.h:16-21 | the same as lying in the network's aligned block of 2^(32-bits) addresses |
| Cidr.Cidr6MatchIffPrefix | src/framework/CIDR.h:23-46 | whole words plus a masked word are agreement on the first `bits` address bits, for all lengths up to 128 (section 2.3 of RFC 4291), and up to 32 when only one word is there to be read |
| Cidr.Cidr6MatchIffBlock | src/framework/CIDR.h:23-46 | the same as lying in the network's aligned block of 2^(128-bits) addresses |
| Cidr.WordMatchIffBits | src/framework/CIDR.h:20-20 | comparing host words under a byte-swapped mask is comparing the first k bits in network order |
| Cidr.MaskedIffBits | src/framework/CIDR.h:40-41 | xor and mask with k leading ones decides agreement on the first k bits of a word |
| Cidr.PrefixShorter | src/framework/CIDR.h:16-46 | a match at a longer prefix is a match at every shorter one |
| Cidr.PrefixIffBlock | src/framework/CIDR.h:16-46 | bit strings share a prefix exactly when one's number lies in the other's aligned block |
| Cidr.InRangeIffPrefix | src/framework/CIDR.h:54-77 | in range exactly when the text is an address and a length and the address bits agree as far as the low byte of the length says, across families as the code reads them; raises exactly on a blank text |
| Cidr.RangeTextIff | src/framework/CIDR.h:54-77 | for the text "address/length" with blanks around either part: in range exactly when the first bits agree, as many as the low byte of the length that was read |
| Cidr.OtherTextsSayNo | src/framework/CIDR.h:54-77 | a text of one part or three, or with a part that cannot be read, contains no address |
| Cidr.MultipleOf256LetsAllIn | src/framework/CIDR.h:48-77 | a range with a mask length that is a multiple of 256 contains every address |
| AuthService.Service.ComputeNewPasswordHash | src/AuthService.cpp:536-542 | seals what the engine held, salt, password and trimmed lower-case user name, and leaves the engine empty |
| AuthService.Service.ValidatePasswordHash | src/AuthService.cpp:544-560 | accepts exactly the matching passwords of both stored forms, given what the engine held, and empties the engine for those two forms only |
| AuthService.Service.MatchesSomeEntry | src/AuthService.cpp:470-477 | the inner loop finds out whether some salted entry carries the digest, what the engine held meeting the first of them, and empties the engine if there is one |
| AuthService.Service.SetPassword | src/AuthService.cpp:461-494 | rejects, raises or accepts as the history says, from any state of the engine; on acceptance the history gains the seal and drops its oldest; only a raise before the digest leaves text, and which |
| AuthService.Service.Authorize | src/AuthService.cpp:581-633 | the outcome, the users and the engine after a login, from any state of the engine |
| AuthService.SealOpensOnlyFor | src/AuthService.cpp:536-560 | a sealed password validates a password exactly when it is the one sealed |
| AuthService.SealOpensIff | src/AuthService.cpp:536-560 | whatever the engine held at sealing and at checking, a password is accepted exactly when the texts before the user name agree |
| AuthService.RightPasswordIff | src/AuthService.cpp:536-560 | the sealed password itself is accepted exactly when the engine held the same both times |
| AuthService.NewPasswordIsThePassword | src/AuthService.cpp:581-633 | after a successful login with a new password, from any state of the engine, the next login succeeds with that password and fails with every other |
| AuthService.LoginAnswers | src/AuthService.cpp:581-633 | for a sealed account, each answer of a login exactly when it is due: in with the right password, unless suspended, still to be checked or bound to change it; and with a new password if it meets the rule and passes the history |
| AuthService.UnknownAddressIsRefused | src/AuthService.cpp:589-632 | an address without an account is answered like a wrong password |
| AuthService.LoginLeaves | src/AuthService.cpp:612-622 | a login changes at most its own account, and that only by setting a password: the seal, the history, the mark and two time stamps |
| AuthService.LoginSetsPassword | src/AuthService.cpp:581-633 | for an account whose history holds the seals of given passwords, a new one is accepted exactly if the account, the password and the rule allow it and it is none of those; the history then holds the last ones and it |
| AuthService.BareDigestOpensOnlyFor | src/AuthService.cpp:550-553 | a password stored in the older form without salt opens for that password only |
| AuthService.BareEntryRejectsOnly | src/AuthService.cpp:478-482 | an entry in the older form rejects the password it was made from and by itself no other |
| AuthService.BlanksAndCapitalsDoNotMatter | src/AuthService.cpp:538-548 | blanks around the user name and capitals in it make no difference to a check |
| AuthService.RaisesIffEmptyEntryFirst | src/AuthService.cpp:466-483 | a password change raises exactly when an empty history entry comes before any entry that rejects |
| AuthService.EmptyFirstEntryRaises | src/AuthService.cpp:466-483 | with an empty oldest entry every change raises, and leaves its password and address behind what the engine held exactly if the token is asked for first |
| AuthService.EngineHoldsTextIff | src/AuthService.cpp:461-560 | in any run of seals, checks and changes of any users the engine holds text exactly when a raise before its digest, with text, came after the last digest; that takes the token to be asked for first |
| AuthService.DigestFirstStaysEmpty | src/AuthService.cpp:461-560 | where the digest is taken first, every path of every operation of any run leaves the engine empty |
| AuthService.WorksIffNothingPending | src/AuthService.cpp:461-560 | after any run the right password is accepted, and a new seal opens, exactly when no such raise is pending |
| AuthService.ReusedIffReadAlike | src/AuthService.cpp:466-483 | for salts of any lengths and any state of the engine, the quadratic loop rejects exactly the passwords that behind some kept salt read like some kept salt and its password |
| AuthService.ReusedIffUsed | src/AuthService.cpp:466-483 | for salts of one length, the quadratic loop rejects exactly the passwords the history was made from, as the one-pass check would |
| AuthService.ReuseIsMissedIff | src/AuthService.cpp:466-483 | the reuse of the only password in a history is accepted exactly when the engine held text |
| AuthService.HistoryIsRecentlyAccepted | src/AuthService.cpp:461-494 | along any run from an empty history it holds the seals of exactly the last min(k, N) accepted passwords in order, and rejects exactly those passwords |
| AuthService.NoEarlyReuse | src/AuthService.cpp:461-494 | two accepted passwords at most N apart differ |
| AuthService.OnlyFullHistoryIsCut | src/AuthService.cpp:485-491 | a history loses its oldest entry exactly if it holds exactly N; a longer one grows without end |
| AuthService.UnevenSaltsCollide | src/AuthService.cpp:466-483 | a concrete history with salts of different lengths rejects a password never used |
| UserSafety.PutEffect | src/RESTAPI/RESTAPI_user_handler.cpp:421-519 | a modify request replaces at most its target, by a record with the same id and creator whose role the caller may have given, and only on success |
| UserEffects.PutAcceptedIff | src/RESTAPI/RESTAPI_user_handler.cpp:421-519 | exactly which modify requests succeed: who may change whom, which fields a caller may name, which role it may give, and which second factor is at hand |
| UserEffects.PutLeaves | src/RESTAPI/RESTAPI_user_handler.cpp:454-511 | every field of the record after an accepted modify request: named fields take the body's values, the others stay, a new password becomes password and history |
| UserEffects.FactorOutcome | src/RESTAPI/RESTAPI_user_handler.cpp:183-247 | when the second-factor part accepts, and that the factor is then on exactly if the body turns it on, with the body's method and exactly that method's data |
| UserEffects.ResetLeaves | src/RESTAPI/RESTAPI_user_handler.cpp:58-81 | a reset turns the factor off and forgets method and numbers, keeps the secret, and adds one note |
| UserEffects.ForgotPasswordLeaves | src/RESTAPI/RESTAPI_user_handler.cpp:83-98 | a forgotten password changes no record and stores one link good for a day |
| UserEffects.DeleteAcceptedIff | src/RESTAPI/RESTAPI_user_handler.cpp:310-338 | exactly who may delete whom, never itself, and that nothing but the target goes |
| UserSafety.CreateEffect | src/RESTAPI/RESTAPI_user_handler.cpp:340-419 | a create request adds at most the fresh row, created by its caller, allowed by its caller's role and without second factors |
| UserEffects.CreateAcceptedIff | src/RESTAPI/RESTAPI_user_handler.cpp:340-398 | exactly which create requests succeed, by role of caller and record, address, password and database |
| UserEffects.CreatedRecordIs | src/RESTAPI/RESTAPI_user_handler.cpp:357-406 | every field of the record that an accepted create request stores, and its link if the address is to be checked |
| UserEffects.AlwaysDistinctAddresses | src/storage/orm_users.cpp:121-124 | in every reachable state addresses are in lower case and no two records share one |
| UserSafety.StepEffect | src/RESTAPI/RESTAPI_user_handler.cpp:310-519 | every request leaves the user table alone, adds a row, replaces one or removes one its caller may delete |
| UserSafety.PrepareEffect | src/RESTAPI/RESTAPI_user_handler.cpp:454-492 | up to the second factor a modify request keeps id, creator and second factors, gives a new role only as the caller may, and keeps the standing for a self-service caller |
| UserSafety.FailureChangesNoRecord | src/RESTAPI/RESTAPI_user_handler.cpp:310-519 | a request that fails changes no user, no id, no key and no telephone entry, and nothing at all unless it is a modify request |
| Enrolment.FailedPutLeavesIff | src/RESTAPI/RESTAPI_user_handler.cpp:488-518 | exactly when a failed modify request uses up an enrolment session, and exactly when it stores a link |
| UserSafety.AlwaysLinksForUsers | src/RESTAPI/RESTAPI_user_handler.cpp:83-98 | in every reachable state the links stored by user requests are users' links for ids that were issued |
| UserSafety.OnlyRootTouchesRoot | src/ACLProcessor.h:166-242 | a request of anybody but a ROOT user leaves every ROOT record as it is and makes none |
| UserSafety.RootCallerStays | src/ACLProcessor.h:177-242 | a ROOT caller cannot delete or demote itself |
| UserSafety.NeverRootless | src/ACLProcessor.h:166-242 | in every run from a state with a ROOT user there always is one |
| UserSafety.CreatorIsImmutable | src/RESTAPI/RESTAPI_user_handler.cpp:357-367 | no request changes a record's creator, and a new record's creator is its caller |
| UserSafety.CreatorNeverChanges | src/RESTAPI/RESTAPI_user_handler.cpp:357-367 | the same over whole runs |
| UserSafety.AlwaysForest | src/RESTAPI/RESTAPI_user_handler.cpp:340-419 | in every reachable state each record was created by nobody or by an id issued before its own |
| UserSafety.NoCreatorCycle | src/RESTAPI/RESTAPI_user_handler.cpp:340-419 | no walk from record to creator visits a record twice |
| UserSafety.CallersReach | src/ACLProcessor.h:149-242 | an ADMIN changes only itself, without deleting itself or changing its role, and the non-ROOT records it created; other non-ROOT callers change only themselves and not their standing |
| UserSafety.AdminGivesRoleIff | src/ACLProcessor.h:228-242 | for any ADMIN request and any new role, PARTNER included, its target gets that role exactly when the ADMIN created it, ROOT is involved on neither side, the body asks for it and nothing else fails |
| UserSafety.AlwaysMfaWellFormed | src/RESTAPI/RESTAPI_user_handler.cpp:183-247 | in every run enabled means a known method with exactly its data and disabled means no mobiles, across create, modify and reset |
| UserSafety.BodyCannotChoose | src/RESTAPI/RESTAPI_user_handler.cpp:357-393 | a create request's answer and effect do not depend on the id, creator, owner, validation or second factors in its body |
| UserSafety.BodyHistoryIsKept | src/storage/orm_users.cpp:141-155 | the record that a successful create request stores has the body's password history if the body sets no password, and only its own seal otherwise |
| UserSafety.WriteBackChangesNothing | src/RESTAPI/RESTAPI_user_handler.cpp:118-149 | sending a record its own values changes nothing but its time stamp |
| UserHandler.Handler.constructor | src/RESTAPI/RESTAPI_user_handler.cpp:310-519 | the handler starts on the given tables with both caches and the key table empty |
| UserHandler.Handler.CreateUser | src/storage/orm_users.cpp:118-162 | refuses a taken address, otherwise stores the stamped and sealed record under its fresh id |
| UserHandler.Handler.FillNewUser | src/RESTAPI/RESTAPI_user_handler.cpp:357-393 | the new record takes creator, owner, validation and second factors from the service and not from the body |
| UserHandler.Handler.CheckNewUser | src/RESTAPI/RESTAPI_user_handler.cpp:340-383 | the first reason for a refusal before the table is asked |
| UserHandler.Handler.DoPost | src/RESTAPI/RESTAPI_user_handler.cpp:340-419 | answers and changes the state as the create request of the specification does |
| UserHandler.Handler.ApplyMfa | src/RESTAPI/RESTAPI_user_handler.cpp:183-247 | implements the second-factor update, including what it does to the enrolment cache on each way out |
| UserHandler.Handler.ApplyFields | src/RESTAPI/RESTAPI_user_handler.cpp:454-492 | the field updates in place hand on a record with the same id, creator and second factors and a role the caller may give, or stop at the first refusal; the link of an address check is stored exactly when they do not stop |
| UserHandler.Handler.AddNotes | src/RESTAPI/RESTAPI_user_handler.cpp:151-166 | the loop adds all notes of the body at the end, in order, signed by the caller |
| UserHandler.Handler.VerifyEmail | src/AuthService.cpp:862-875 | stores one link for the record and marks the record as waiting |
| UserHandler.Handler.DoPut | src/RESTAPI/RESTAPI_user_handler.cpp:421-519 | answers and changes the state as the modify request of the specification does |
| UserHandler.Handler.DoDelete | src/RESTAPI/RESTAPI_user_handler.cpp:310-338 | removes exactly the target when the caller may, and leaves the key rows |
| UserHandler.Handler.PostKey | src/RESTAPI/RESTAPI_apiKey_handler.cpp:66-130 | appends one key or refuses, as the specification says |
| UserHandler.Handler.PutKey | src/RESTAPI/RESTAPI_apiKey_handler.cpp:132-163 | changes at most one description |
| UserHandler.Handler.DeleteKey | src/RESTAPI/RESTAPI_apiKey_handler.cpp:32-64 | removes at most the named row of the named owner |
| Enrolment.SecretSource | src/RESTAPI/RESTAPI_user_handler.cpp:224-235 | every secret on a record was put there by a modify request that completed its caller's enrolment |
| Enrolment.SecretWasEnrolled | src/RESTAPI/RESTAPI_user_handler.cpp:183-247 | and for that very secret the run holds the opening, two codes accepted in different time steps and the release, within 900 s |
| Enrolment.OneRecordPerEnrolment | src/TotpCache.h:148-159 | two steps of a run that put an enrolment's secret on a record, the same or another, completed two different sessions, whatever happened to the records since |
| Enrolment.TwoSecretsTwoEnrolments | src/TotpCache.h:148-159 | two records that hold secrets at the end of a run have them from two different steps and sessions |
| Enrolment.VerifiedNumberWasProved | src/RESTAPI/RESTAPI_user_handler.cpp:211-223 | every verified first number was preceded by the caller supplying a code issued for that number and that caller |
| Enrolment.TotpIsTrace | src/RESTAPI/RESTAPI_user_handler.cpp:224-235 | the enrolment cache after any run of requests is what the events those requests cause make of an empty one |
| ApiKeys.AlwaysTidyIff | src/RESTAPI/RESTAPI_apiKey_handler.cpp:66-163 | each owner has at all times of a run at most ten keys with distinct lower-case names exactly when no step created a key that did not fit, which takes a failed read of the owner's keys |
| ApiKeys.PageIsComplete | src/RESTAPI/RESTAPI_apiKey_handler.cpp:101-115 | hence the 500-row page that the check reads holds all of an owner's keys |
| ApiKeys.OnlyOwnerOrRootChangesKeys | src/RESTAPI/RESTAPI_apiKey_handler.cpp:32-163 | whatever request changes the key table, its caller owns the keys or is ROOT, and no other owner's rows change |
| ApiKeys.KeyWasPosted | src/RESTAPI/RESTAPI_apiKey_handler.cpp:66-130 | every key at the end of a run was posted in it by its owner or a ROOT user, with its name and expiry |
| ApiKeys.PostAcceptedIff | src/RESTAPI/RESTAPI_apiKey_handler.cpp:66-130 | exactly which requests create a key |
| ApiKeys.PostLeaves | src/RESTAPI/RESTAPI_apiKey_handler.cpp:85-124 | the row that is created, under its lower-case name, and that a refusal changes nothing |
| ApiKeys.PutLeaves | src/RESTAPI/RESTAPI_apiKey_handler.cpp:132-163 | exactly when a description changes, and that only the named row's does |
| ApiKeys.DeleteLeaves | src/RESTAPI/RESTAPI_apiKey_handler.cpp:32-64 | exactly when a key is deleted, and that afterwards its id is gone, unless the database keeps the row, and all other keys are there |
| ApiKeys.PostKeepsIff | src/RESTAPI/RESTAPI_apiKey_handler.cpp:66-130 | a key that is created keeps the table's invariant exactly when it fits, and it fits whenever the check could read the owner's keys |
| ApiKeys.PutKeeps | src/RESTAPI/RESTAPI_apiKey_handler.cpp:132-163 | changing a key keeps the table's invariant |
| ApiKeys.DeleteKeeps | src/RESTAPI/RESTAPI_apiKey_handler.cpp:32-64 | deleting a key keeps the table's invariant |
| ApiKeys.DeletionOrphansIff | src/RESTAPI/RESTAPI_user_handler.cpp:310-338 | after deleting a user every key has a current user exactly when the deleted user had no keys |
| ApiKeys.EveryKeyHasAUserIff | src/RESTAPI/RESTAPI_user_handler.cpp:310-338 | over any run every key has a user exactly when no step deleted a user who had keys |
| ApiKeys.OthersKeepOwners | src/RESTAPI/RESTAPI_apiKey_handler.cpp:66-163 | no request but a user deletion leaves a key without a user |
| ApiKeys.OrphansStay | src/storage/orm_apikeys.cpp:37-46 | a key without a user is never removed, and its user never comes back |
| UserListing.BuildQuery | src/RESTAPI/RESTAPI_users_handler.cpp:26-91 | only ROOT and ADMIN get a query, which selects by the search terms and, for an ADMIN, by creator |
| UserListing.Select | src/RESTAPI/RESTAPI_users_handler.cpp:81-130 | only ROOT and ADMIN get an answer: in order, the readable ones of the ids, without passwords |
| UserListing.SelectedAreReadable | src/RESTAPI/RESTAPI_users_handler.cpp:115-130 | a record is in the select answer exactly when its id was asked for and its caller may read it |
| UserListing.SelectedForAdmin | src/RESTAPI/RESTAPI_users_handler.cpp:115-130 | for an ADMIN the select answer is its own record and those it created among the ids, without passwords |
| UserListing.PagesJoin | src/RESTAPI/RESTAPI_users_handler.cpp:96-99 | pages one after the other give the rows without gap or overlap, none longer than its limit |
| UserListing.List | src/RESTAPI/RESTAPI_users_handler.cpp:82-114 | every listed record may be read by the caller, for any search, offset and limit; an unrestricted list misses no readable record except an ADMIN's own |
| UserListing.AdminScopeIsReadable | src/RESTAPI/RESTAPI_users_handler.cpp:70-91 | with no search terms the ADMIN scope is exactly what the ADMIN may read, minus itself |
| UserListing.ListedAreReadable | src/RESTAPI/RESTAPI_users_handler.cpp:87-114 | whatever a query adds to the scope and wherever the page lies, its rows are readable |
| InitialState.DefaultWorldIsSound | src/SpecialUserHelpers.h:16-39 | the state after the first start satisfies every condition that the results about runs start from |
| Witnesses.EmptyHistoryReached | src/storage/orm_users.cpp:141-155 | one create request leads to a record whose every password change raises, after which the right password of any account is accepted exactly if the digest is taken first |
| Witnesses.OrphanReached | src/storage/orm_apikeys.cpp:37-46 | three requests of the default user lead to a key without a user |
| Witnesses.TwoOfOneNameReached | src/RESTAPI/RESTAPI_apiKey_handler.cpp:101-115 | two requests of the default user, the second with a failed read, lead to two keys of one name |
| Witnesses.FailedPutStoresLink | src/RESTAPI/RESTAPI_user_handler.cpp:488-501 | a modify request that is refused for want of the telephone service has stored a link |
| Witnesses.FailedPutUsesUpEnrolment | src/RESTAPI/RESTAPI_user_handler.cpp:494-518 | after a finished enrolment a modify request that the database refuses has used it up |
| Fifo.Ring.Read | src/framework/MicroServiceExtra.h:54-70 | returns and removes the oldest element, across the end of the buffer, or nothing if it looks empty |
| Fifo.Ring.Write | src/framework/MicroServiceExtra.h:72-86 | appends below capacity, empties on the filling write, and always answers false |
| Fifo.RefinesQueue | src/framework/MicroServiceExtra.h:54-93 | while fewer than Size are queued, contents, count and maximum are those of an unbounded queue |
| Fifo.RefinesQueueIff | src/framework/MicroServiceExtra.h:54-86 | the ring agrees with the queue after every step exactly when the queue stays below Size |
| Fifo.OverflowLosesAll | src/framework/MicroServiceExtra.h:72-86 | the write that fills the last slot makes all queued elements unreadable although Size are counted |
| Mailer.Service.SendMessage | src/SMTPMailerService.cpp:78-89 | appends one fresh message to the pending ones |
| Mailer.Service.RunOnce | src/SMTPMailerService.cpp:99-140 | one turn of the loop terminates, handles every message once and in order until told to stop, and keeps the rest |
| Mailer.VisitsAreAWalk | src/SMTPMailerService.cpp:99-140 | the visits after a wake-up, one event each, are that walk over the spliced list |
| Mailer.QueueInvariant | src/SMTPMailerService.cpp:78-142 | queued messages keep posting order and none is queued twice |
| Mailer.ExactlyOnePlace | src/SMTPMailerService.cpp:78-142 | every posted message is at all times either queued or has exactly one fate, which never changes |
| Mailer.AttemptsAreSpaced | src/SMTPMailerService.cpp:109-123 | two attempts on one message are more than MailRetry apart |
| Mailer.AbandonedAreOld | src/SMTPMailerService.cpp:132-136 | an abandoned message was posted more than MailAbandon before |
| Mailer.VisitDecides | src/SMTPMailerService.cpp:107-139 | a visited message is tried exactly if it never was or the last try is more than MailRetry ago, and then delivered, refused or kept with the new time; one not tried is abandoned exactly if older than MailAbandon |
| Router.ParseBindings | src/framework/RESTAPI_Handler.h:129-156 | succeeds exactly when some template matches token by token, and binds as the specification does, leftovers of failed templates included |
| Router.FillThenParse | src/framework/RESTAPI_Handler.h:129-156 | parsing a filled template gives back exactly the values, for every template and filling but the single empty token, and asking for a parameter by name returns its value |
| Router.ParseThenFill | src/framework/RESTAPI_Handler.h:129-156 | filling a matched template with what the match bound gives back the path |
| Router.LeftoversStay | src/framework/RESTAPI_Handler.h:135-154 | what a template binds before it fails stays bound when a later one matches |
| Router.FailedTemplateLeavesBindings | src/framework/RESTAPI_Handler.h:135-154 | a path and two templates for which a binding of the failed one is handed on |
| Router.ChoiceIsTheMatch | src/framework/RESTAPI_Handler.h:863-899 | where no path has two routes, the router finds the one that matches, with its own bindings |
| Router.OrderDoesNotMatter | src/framework/RESTAPI_Handler.h:863-899 | and the order of the routes plays no part |
| Router.ApartNeverBoth | src/framework/RESTAPI_Handler.h:135-154 | templates of different length, or with different fixed tokens at one place, never match one path |
| RouteTables.OneHandlerPerPath | src/RESTAPI/RESTAPI_routers.cpp:36-66 | no path matches the templates of two handlers |
| RouteTables.TablesAreUnambiguous | src/RESTAPI/RESTAPI_routers.cpp:36-66 | so every table of these handlers is unambiguous |
| RouteTables.HandlerOrderDoesNotMatter | src/RESTAPI/RESTAPI_routers.cpp:36-66 | and routing is independent of the order in which a server lists its handlers |
| RouteTables.InternalWithinExternal | src/RESTAPI/RESTAPI_routers.cpp:36-66 | a path served internally is served externally by the same handler with the same bindings |
| RouteTables.UserPaths | src/RESTAPI/RESTAPI_user_handler.h:24 | the paths of the user and login handlers as written in requests |
| RouteTables.AccountPaths | src/RESTAPI/RESTAPI_email_handler.h:19 | the paths of the e-mail, SMS, preferences, authenticator, action link and API key handlers |
| RouteTables.SubscriberPaths | src/RESTAPI/RESTAPI_subuser_handler.h:22 | the paths of the subscriber and subscriber login handlers |
| RouteTables.SubscriberAccountPaths | src/RESTAPI/RESTAPI_submfa_handler.h:21 | the paths of the subscriber factor, authenticator and sign-up handlers |
| RouteTables.SystemPaths | src/framework/RESTAPI_SystemCommand.h:25 | the paths of the system handlers |
| RouteTables.OtherPaths | src/RESTAPI/RESTAPI_asset_server.h:23 | the paths of the asset, socket and validation handlers |
| RouteTables.ServesItsPath | src/RESTAPI/RESTAPI_routers.cpp:36-66 | in any table a request for a handler's plain path reaches that handler, with nothing bound |
| RouteTables.ServesItsPathWith | src/RESTAPI/RESTAPI_routers.cpp:36-66 | in any table a request for a handler's path with a value reaches it with exactly that value bound |
| ActionLinks.Handler.CompleteResetPassword | src/RESTAPI/RESTAPI_action_links.cpp:103-211 | the outcome in the order of the checks, and the new tables, links and engine, from any state of the engine |
| ActionLinks.LinkWasIssued | src/AuthService.cpp:862-890 | every reachable link was issued, and keeps the purpose, owner and times of its latest issue |
| ActionLinks.UserActionIff | src/RESTAPI/RESTAPI_user_handler.cpp:83-98 | a reachable link is a user's exactly when its action is one of the two user actions |
| ActionLinks.RejectedResetChangesNobody | src/RESTAPI/RESTAPI_action_links.cpp:103-211 | a rejected reset changes no record of either table |
| ActionLinks.IssuedLinkWorksIff | src/RESTAPI/RESTAPI_action_links.cpp:103-185 | exactly which forms succeed with a link that was issued at some step: its kind, a day at most, agreeing passwords that meet the rule, and an account in good standing whose history does not reject |
| ActionLinks.ExpiredLinkIsCanceled | src/RESTAPI/RESTAPI_action_links.cpp:117-120 | a form after the link's expiry is refused and marks the link canceled, and nothing else |
| ActionLinks.ResetLeaves | src/RESTAPI/RESTAPI_action_links.cpp:177-199 | what a successful reset changes in the record, and that a link for an address check ends the wait and validates it |
| ActionLinks.CleanUpDropsIff | src/storage/orm_actionLinks.cpp:91-95 | the clean-up drops exactly the links created at least 30 days ago |
| ActionLinks.ResetChangesTheIssuedRecord | src/RESTAPI/RESTAPI_action_links.cpp:103-211 | a completed reset marks its link and changes one record, the one the link was issued for and in the table it was issued from, at most 24 h after the issue, or none if the database refuses; exactly the new password opens the record if and only if it was sealed from an empty engine |
| ActionLinks.CompletedLinkStaysGoodIff | src/RESTAPI/RESTAPI_action_links.cpp:103-211 | in any later state, unless it was issued again or cleaned up after a month, a link that has reset a password resets one again exactly when it has not expired, the passwords agree and meet the rule, and the account is there, in good standing and with a history that does not reject |
| ActionLinks.MarksDoNotMatter | src/RESTAPI/RESTAPI_action_links.cpp:103-211 | a reset has the same outcome in any two states that differ only in the marks of links |
| ActionLinks.CompletedLinkWorksAgainIff | src/RESTAPI/RESTAPI_action_links.cpp:103-211 | right after a successful reset the account is still there and in good standing and the engine empty, so that only expiry, the passwords and the new history decide |

The six kinds of issued links are those of src/AuthService.cpp:862-890,
src/RESTAPI/RESTAPI_oauth2_handler.cpp:103-111, src/RESTAPI/RESTAPI_suboauth2_handler.cpp:90-98,
src/RESTAPI/RESTAPI_user_handler.cpp:83-98, src/RESTAPI/RESTAPI_subuser_handler.cpp:193-200 and
src/RESTAPI/RESTAPI_signup_handler.cpp:59-66; they fall into the five cases of `ActionLinks.Kind`.

## Left out

- HTTP, TLS, Kafka, SMTP and SMS transport, templates, QR pictures, logging and configuration: only their verdicts appear, as parameters.
- Threads and locks: the model is sequential, one step at a time. Of the enrolment cache and the limiter, which take no lock, nothing is said about concurrent calls.
- RateLimiter.Limiter.IsRateLimited: does not model the 32-bit width of the counter nor the hash of path and address; the cache's own expiry is an event that the bounds exclude for the key in question.
- TotpCache.Totp.ContinueValidation: reads the clock once, where the source reads it again for each code.
- TotpCache.Totp.GenerateSecret: leaves out the base-32 form of the secret, which only goes into the picture.
- TotpCache.Totp.StartValidation: the base-32 text and the picture are an uninterpreted function of secret and address.
- Cidr.InRangeIffPrefix: does not say what happens when the low byte of the length reaches beyond the shorter of the two addresses, where the source reads or shifts out of bounds; reading addresses and numbers is a parameter.
- IpInRange, IpInRanges and ValidateRange: the ordering and parsing of addresses belong to the network library.
- AuthService.Service.Authorize: leaves out the last-login stamp and the token made after success, and identifies a stored record by its address.
- AuthService.HistoryIsRecentlyAccepted: its attempts all find the engine empty; what text in the engine does to a single attempt is `AuthService.ReusedIffReadAlike`.
- UserHandler.Handler.DoPut: takes the verdict of the password rule and of the history as an input; both are covered by `AuthService`. Reading the row back after writing is assumed to succeed.
- UserHandler.Handler.DoPost: the seal is an input, reading the row back is assumed to succeed, and so is the second write of an address check, whose verdict the source ignores.
- UserHandler.Handler.CreateUser: the path of a create request; the path for an already hashed password is the one of `InitialState`, and creation dates are not kept.
- UserHandler.Handler.DoDelete: leaves out avatars, preferences, sessions and tokens of the deleted user.
- UserHandler.Handler.PostKey: leaves out the key's salt and hash.
- Database reads: assumed to succeed, except for the read of an owner's keys, whose verdict is a parameter.
- Rows of users: the fields that no guard reads (avatar, last login, creation date and the like) and JSON copying are not part of this model. A method name is one of the three known ones or other text.
- UserListing.List: the database's text comparison and the paging are parameters; the internal server's token check before the same scope is not modelled.
- ServiceRegistry: the listing of all services and the text for the log.
- Fifo.Ring.Write: `Size` 0, `isFull` and the notifications to readers and writers.
- Mailer.Service.RunOnce: messages carry a ticket in place of a list node's identity, and one text in place of their attributes.
- ActionLinks.LinkWasIssued: the other handlers appear only through the marks they put on links and as arbitrary changes of the user tables and the engine.
- Subscriber twins (`SetSubPassword`, `AuthorizeSub`, the sub handlers): near copies of what is modelled. `submfa` does not keep the shape of second factors, so that result is about the user table only.
- The older role table `ACLProcessor::Can`, enum conversions, counted maps and `SecretStore`: no guard modelled here depends on them.
