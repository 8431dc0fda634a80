# ABK FIDO key: verified model

A Dafny model of a software FIDO2 authenticator and of the programs around it that must agree with it byte for byte or step
for step: the kernel driver `abk_fido_key` (CTAPHID transport, CBOR, request parsers, approval gate, assertions, signing,
persistent store), the Android companion (CBOR envelopes, HID endpoint, LAN relay, store editor), the Windows virtual HID
driver and the desktop agent's session hub.

Code that computes a value is a function; code that changes state is a class or an array method whose contract gives the
whole new state as a specification function of the old one. The lemmas are about those functions.

| area | files |
|---|---|
| approval gate, command handlers, runs | `Gate`, `Handlers`, `KeyDriver`, `Runs`, `Approvals`, `Commands`, `Continuations` |
| CBOR and requests | `Bytes`, `Cbor`, `CborIo`, `CborMaps`, `RequestParsers`, `RequestReaders`, `RequestMeaning`, `RequestReading`, `AssertReading`, `MakeFacts`, `AssertFacts`, `FullRequests`, `Envelopes`, `MakeEnvelopes`, `CompanionWriter`, `Responses`, `ResponseFields` |
| CTAPHID transport, LAN relay | `HidFraming`, `ReportQueue`, `Channels`, `ChannelRuns`, `ChannelTable`, `Endpoint`, `LanRelay`, `RelayNoise`, `LanSessions` |
| store image, persistence, editor | `StoreImage`, `StoreDriver`, `Persistence`, `PersistDriver`, `PersistedRuns`, `Utf8`, `CompanionStore`, `CompanionEdits`, `CompanionRecords` |
| signing | `Vli`, `Ecdsa`, `Signer`, `Der` |
| Windows rings, session hub | `VhidRing`, `HidHub`, `HubOrder`, `HubDriver` |

## How the approval results are stated

`Runs` is a state machine over raw CTAP messages. A run is any list of events: time passing, a message from the host, a
decision (with or without a request id), the end of a wait (woken, timed out, interrupted), the handler going on after it, and
a replaced store. Dropping the lock is modelled: a decision can still arrive between the end of a wait and the moment the
handler goes on. Every run leaves a log of what can be observed. `Watch` and `Permitted` are a policy that knows only the
log; `Approvals.Run` shows that every run's log obeys it, and `Approvals` and `Continuations` read the consequences off it.
`Commands` says, from every state a run can reach, what each command does: what it is answered, what the store is then, and
when it waits.

## How the parsers are stated

`RequestParsers` follows the kernel's readers over bytes and positions. `RequestMeaning` says the same of the tree of CBOR items,
without positions; `RequestReading` and `AssertReading` prove that the bytes of every item are parsed to what its tree says.
`MakeFacts`, `AssertFacts` and `FullRequests` say what that comes to field by field, for keys in any order.

## Time

Time is a number of milliseconds that never wraps, and one request waits at a time.

## Where the code differs from its documentation

* A getAssertion that does not parse leaves a pending continuation in place (`files/drivers/abk_fido_key/core.c:3757-3759`),
  although the repository's README.md:292 says any other command ends it: `Continuations.OfferSurvivesIff`.
* A version 1 store is upgraded in memory but not left dirty, so nothing rewrites it as version 2 unless a legacy PIN was
  dropped (`core.c:1897` undoes what the comment at `core.c:2102` announces): `Persistence.UpgradeLeavesDirtyIff`.
* A signature that fails has already advanced the counter in memory: `Persistence.InvariantOverRuns` counts those bumps.
* The 30 s of a continuation are looked at when a getNextAssertion arrives, not when its approval ends.
* A store replaced while a request waits is not noticed: the slots chosen before the wait are signed with whatever they hold
  then (`Continuations.PlanStays`, `Commands.ContinueDoes`).
* A PING of 1887 to 2048 bytes is accepted but its echo does not fit the transmit queue: `ReportQueue.PingEchoFitsIff`.
* CANCEL sets a flag on a channel that is already free: `ChannelRuns.CancelChangesNothing`.
* The channel id counter hands out one id twice when it wraps: `ChannelRuns.NextCidExact`.
* The PIN reset command, given before the store is first loaded, writes an empty store over the file:
  `Persistence.PinResetKeepsCredentialsIff`.
* The kernel stores any bytes as a text, the companion decodes texts with replacement: a credential whose texts are not
  well-formed UTF-8 is not the same after export and import: `CompanionRecords.ExportImportExact`,
  `CompanionRecords.MalformedRpIdIsLost`.
* The companion accepts version 1 files longer than their exact size, the kernel refuses them:
  `CompanionEdits.FileUpgradeCommutesIff`.
* The kernel also takes a legacy checksum, the companion does not: `StoreImage.LoadsIff`, `CompanionStore.ParsesIff`.
* A makeCredential whose exclude list has more than 32 entries is refused unless the list is its last member:
  `MakeFacts.OverlongExclude`.
* A stray continuation on a channel INIT has opened completes an empty message: `ChannelRuns.StrayContinuationIff`.
* Packets that waited for a session can reach it after newer ones: `HubOrder.InOrderIff` says exactly when.
* Companion and kernel disagree on slots whose first byte is neither 0 nor 1: `CompanionEdits.OccupiedAgreesIff`.
* The comment at `FidoStoreBlob.kt:209` speaks of truncation on a byte boundary; the code keeps whole characters:
  `CompanionStore.TruncatedIsLongestPrefix`.

## Model

| member | source | states |
|---|---|---|
| Gate.AuthGate.BeginLocked | files/drivers/abk_fido_key/core.c:2264-2318 | a request is turned away in the cooldown, let through in the grant window, else prompted under the next id, the whole gate state given |
| Gate.AuthGate.ResumeLocked | files/drivers/abk_fido_key/core.c:2323-2368 | after the wait: interruption only ends the request, timeout and denial start the cooldown, an allow opens the 3 s grant |
| Gate.AuthGate.DecideLocked | files/drivers/abk_fido_key/core.c:2371-2384 | a decision is refused when nothing is pending or its id is stale; a denial also ends the grant |
| Gate.AuthGate.StartCooldownLocked | files/drivers/abk_fido_key/core.c:2229-2235 | the grant ends and the cooldown runs 3 s from now |
| Approvals.Run | files/drivers/abk_fido_key/core.c:2264-2384 | over every run of commands, decisions, wait ends and store replacements the log obeys the approval policy and the gate and continuation fields are what the log says |
| Runs.StepKeeps | files/drivers/abk_fido_key/core.c:2264-2384 | every single step keeps that invariant |
| Approvals.EveryReleaseIsApproved | files/drivers/abk_fido_key/core.c:2264-2384 | every assertion, registration and reset comes at once after an approval whose prompt's last decision was to allow, or at once after using a grant under 3 s old with no prompt, refusal or interruption since |
| Approvals.RefusalShutsTheGate | files/drivers/abk_fido_key/core.c:2229-2286 | for 3 s after a denied or unanswered prompt nothing is released, prompted, decided or granted and the request id stands still |
| Approvals.CooldownRefuses | files/drivers/abk_fido_key/core.c:2273-2284 | in those 3 s every request that needs the user is refused with gate and store untouched |
| Approvals.RefusedBecause | files/drivers/abk_fido_key/core.c:2332-2360 | a refusal is a prompt denied last, or one that stood for 30 s |
| Approvals.WindowsExclusive | files/drivers/abk_fido_key/core.c:2229-2235 | grant window and cooldown are never both open |
| Approvals.PromptIdsDiffer | files/drivers/abk_fido_key/core.c:2298 | prompts fewer than 2^32 apart carry different ids |
| Approvals.StaleDecisionChangesNothing | files/drivers/abk_fido_key/core.c:2373-2376 | in every run a decision with a stale id, or with none pending, leaves the whole system as it is |
| Approvals.StoreChangesNeedApproval | files/drivers/abk_fido_key/core.c:3156-3186 | apart from restores, no step changes the store unless that step was approved or used a grant |
| Approvals.WaitsEnd | files/drivers/abk_fido_key/core.c:2317-2354 | a waiting request can always end once its 30 s are over, and is then answered |
| Handlers.RpMatchesIff | files/drivers/abk_fido_key/core.c:2527-2547 | a stored relying party answers its own id and exactly the https URLs whose host part it is |
| Handlers.CollectExact | files/drivers/abk_fido_key/core.c:3055-3086 | the collected slots are exactly the matching ones, each once, in slot order |
| Handlers.RegisteredIsFound | files/drivers/abk_fido_key/core.c:3034-3097 | a registered credential is found by exactly the requests that should find it, changes no other match, and is excluded from then on |
| Handlers.RegistrationKeepsRequest | files/drivers/abk_fido_key/core.c:3177-3203 | a stored credential holds what the request named, text for text, and the new key material |
| Handlers.MakeFieldsFit | files/drivers/abk_fido_key/core.c:2574-2850 | every field a parsed makeCredential holds fits its buffer and is free of NULs |
| KeyDriver.RpMatchesRequest | files/drivers/abk_fido_key/core.c:2527-2547 | the scan for the slash computes the match |
| KeyDriver.CredentialMatchesAllow | files/drivers/abk_fido_key/core.c:2549-2572 | the allow loop: an empty list admits all, otherwise only listed ids of full length |
| KeyDriver.CollectCredentials | files/drivers/abk_fido_key/core.c:3055-3086 | the slot loop collects the specified list |
| KeyDriver.FindCredentialById | files/drivers/abk_fido_key/core.c:3034-3048 | the first slot in use with the id |
| KeyDriver.AnyExcluded | files/drivers/abk_fido_key/core.c:3161-3169 | the exclude loop hits exactly when a listed credential is in use |
| KeyDriver.AllocCredential | files/drivers/abk_fido_key/core.c:3088-3097 | the first free slot |
| KeyDriver.Key.ClearAssertState | files/drivers/abk_fido_key/core.c:3280-3287 | the continuation is cleared, nothing else |
| KeyDriver.Key.GetAssertionLocked | files/drivers/abk_fido_key/core.c:3484-3524 | getAssertion up to the approval: continuation cleared, PIN, silent-probe and no-match errors, else the slots |
| KeyDriver.Key.GetNextAssertionLocked | files/drivers/abk_fido_key/core.c:3597-3618 | getNextAssertion up to the approval, with its two clearing error paths |
| KeyDriver.Key.Dispatch | files/drivers/abk_fido_key/core.c:3718-3807 | the dispatcher up to the approval, for every message |
| KeyDriver.Key.ServeFirst | files/drivers/abk_fido_key/core.c:3542-3580 | the approved getAssertion: counter bump before signing, continuation opened only for several matches |
| KeyDriver.Key.ServeNext | files/drivers/abk_fido_key/core.c:3628-3652 | the approved getNextAssertion: re-check, counter bump, continuation advanced or cleared |
| KeyDriver.Key.Register | files/drivers/abk_fido_key/core.c:3161-3277 | the approved makeCredential: exclude, free slot, revert on failure |
| KeyDriver.Key.Complete | files/drivers/abk_fido_key/core.c:3754-3790 | every approved request, reset and selection included |
| Commands.ResetErases | files/drivers/abk_fido_key/core.c:3765-3785 | over the run machine: authenticatorReset is refused in the cooldown, prompts when no window is open, and under the grant leaves no slot in use, counter 0, no PIN, default retries and fresh identity |
| Commands.SelectionKeeps | files/drivers/abk_fido_key/core.c:3786-3798 | authenticatorSelection likewise, and leaves the store as it was |
| Commands.MakeCredentialDoes | files/drivers/abk_fido_key/core.c:3123-3277 | every makeCredential: its parse errors, PIN and up errors leave gate and store alone, the two touch requests register nothing, and any other is refused for an excluded credential or a full store or registered, text for text, in the first free slot with all else unchanged |
| Commands.TouchIsSelection | files/drivers/abk_fido_key/core.c:2452-2464 | the touch requests are exactly those of the texts SelectDevice/SelectDevice and .dummy/dummy |
| Commands.GetAssertionDoes | files/drivers/abk_fido_key/core.c:3475-3586 | every getAssertion: malformed, PIN, silent-probe and no-match answers leave gate and store alone; otherwise exactly the answering slots are waited with or signed, with the exact hmac, signing and success answers and the counter bumped only past the hmac step |
| Commands.CollectedAnswer | files/drivers/abk_fido_key/core.c:2527-2572 | the slots are those whose credential is in use, of that relying party or host, and listed when there is a list, in increasing order |
| Commands.GetNextAssertionDoes | files/drivers/abk_fido_key/core.c:3588-3656 | every getNextAssertion: refused without an offer, after its end or for a vanished credential, else the next slot signs for the relying party and over the hash of the getAssertion that made the offer |
| Commands.OthersAreTold | files/drivers/abk_fido_key/core.c:3718-3807 | every other message is answered on the spot: information, invalid command, unknown command, malformed when empty |
| Commands.ContinueDoes | files/drivers/abk_fido_key/core.c:2323-2368 | after the prompt the planned request is carried out, with its exact outcome, exactly when an allow woke it; otherwise it is refused and the store stays |
| Commands.CompleteCarries | files/drivers/abk_fido_key/core.c:3754-3790 | what carrying out means for each kind of request |
| Continuations.ServedInOrderOnce | files/drivers/abk_fido_key/core.c:3563-3656 | in every run the successful getNextAssertion calls after a getAssertion serve a prefix of the remaining slots, in order, none twice, all for its relying party and over its client data hash |
| Continuations.ServedFollows | files/drivers/abk_fido_key/core.c:3563-3656 | what was served and what is still on offer together are exactly the remaining slots |
| Continuations.SubjectFollows | files/drivers/abk_fido_key/core.c:3568-3612 | relying party and hash of an offer and of everything served from it are those of the getAssertion that made it |
| Continuations.HashIsWiped | files/drivers/abk_fido_key/core.c:3280-3287 | in every run, while nothing is on offer no client data hash is kept |
| Continuations.NothingAfterTheEnd | files/drivers/abk_fido_key/core.c:3598-3605 | once ended or served out, nothing is served until a new getAssertion succeeds |
| Continuations.AllServedThenRefused | files/drivers/abk_fido_key/core.c:3598-3656 | in every run, after as many successes as credentials were left, exactly the rest of the list was served and the next call is refused |
| Continuations.NextRefusedIff | files/drivers/abk_fido_key/core.c:3598-3606 | a getNextAssertion is refused without a prompt, gate and store untouched, exactly when nothing is on offer or 30 s have passed since the last success |
| Continuations.NextIsServed | files/drivers/abk_fido_key/core.c:3588-3656 | within the grant window the next slot on offer is served without a prompt and the offer moves on by one |
| Continuations.OfferSurvivesIff | files/drivers/abk_fido_key/core.c:3727-3762 | the offer survives an empty message and a getAssertion that does not parse; after any other command only that command's own assertion can be on offer |
| Continuations.PlanStays | files/drivers/abk_fido_key/core.c:2317-2323 | while a request waits its plan and the continuation are fixed, and only a replaced store changes the credentials under it |
| Cbor.ReadHeadExact | files/drivers/abk_fido_key/core.c:1259-1310 | the head reader succeeds exactly on a written head and stops behind it |
| Cbor.SkipExact | files/drivers/abk_fido_key/core.c:1424-1466 | skip succeeds and stops at a position exactly when one well-formed item ends there |
| Cbor.SkipComplete | files/drivers/abk_fido_key/core.c:1424-1466 | skip on any encoded item tree followed by anything stops exactly behind the item |
| Cbor.SkipSound | files/drivers/abk_fido_key/core.c:1424-1466 | whatever skip passes over is one item of the grammar |
| Cbor.UniqueDecoding | files/drivers/abk_fido_key/core.c:1424-1531 | one position carries at most one item |
| Cbor.PrefixFree | files/drivers/abk_fido_key/core.c:1424-1531 | no encoding is a prefix of another, whatever follows |
| Cbor.ShortestIsMinimal | files/drivers/abk_fido_key/core.c:1476-1518 | the written head is the shortest the reader accepts for its value |
| Cbor.IntRoundTrip | files/drivers/abk_fido_key/core.c:1327-1343 | every 64-bit signed integer survives writing and reading |
| Cbor.IntDenotes | files/drivers/abk_fido_key/core.c:1327-1343 | the reader returns the integer a numeric head denotes exactly for arguments below 2^63; from there on it succeeds with that number moved by 2^64 |
| CborIo.Reader.NextHead | files/drivers/abk_fido_key/core.c:1299-1310 | the in-place head reader |
| CborIo.Reader.NextInt | files/drivers/abk_fido_key/core.c:1327-1343 | the in-place integer reader |
| CborIo.Reader.NextStr | files/drivers/abk_fido_key/core.c:1345-1377 | the in-place byte and text string reader, with its length check |
| CborIo.Reader.NextCount | files/drivers/abk_fido_key/core.c:1394-1422 | the in-place map and array opener |
| CborIo.Reader.NextBool | files/drivers/abk_fido_key/core.c:1379-1392 | the in-place boolean reader |
| CborIo.Reader.SkipItem | files/drivers/abk_fido_key/core.c:1424-1466 | the recursive skip over the reader's position |
| CborIo.Writer.PutHead | files/drivers/abk_fido_key/core.c:1476-1518 | the bounded head writer with its latched error |
| CborIo.Writer.PutInt | files/drivers/abk_fido_key/core.c:1525-1531 | the bounded integer writer |
| CborIo.Writer.PutStr | files/drivers/abk_fido_key/core.c:1533-1561 | the bounded string writer |
| CborIo.Writer.PutBool | files/drivers/abk_fido_key/core.c:1563-1566 | the bounded boolean writer |
| RequestReaders.ReadGetAssertion | files/drivers/abk_fido_key/core.c:2852-3032 | the whole getAssertion parser, for every buffer |
| RequestReaders.ReadMakeCredential | files/drivers/abk_fido_key/core.c:2574-2850 | the whole makeCredential parser, for every buffer, with its two errors |
| RequestReaders.ReadCose | files/drivers/abk_fido_key/core.c:1582-1658 | the COSE key parser, for every buffer |
| RequestReading.MakeCredentialThere | files/drivers/abk_fido_key/core.c:2574-2850 | for every CBOR item, whatever bytes follow it, the makeCredential parser finds what the tree of items says, or refuses it for the tree's reason |
| AssertReading.GetAssertionThere | files/drivers/abk_fido_key/core.c:2852-3032 | for every CBOR item the getAssertion parser finds what the tree of items says, or refuses it as the tree is |
| AssertReading.CoseKeyThere | files/drivers/abk_fido_key/core.c:1582-1658 | for every CBOR item a COSE key is accepted exactly as an EC2 key on P-256 with two 32-byte coordinates, whatever else it has and in any order |
| MakeFacts.KeyedRequest | files/drivers/abk_fido_key/core.c:2574-2850 | a makeCredential with each key at most once, in any order, is refused for its first unusable member or a missing hash, rp id or user id, else every field is what its own key says |
| MakeFacts.ListExact | files/drivers/abk_fido_key/core.c:2700-2733 | a list of at most 32 descriptors is taken whole and in order, or refused for one of them |
| MakeFacts.OverlongExclude | files/drivers/abk_fido_key/core.c:2700-2733 | a longer list is cut at 32 when it is the last member and refuses the request otherwise |
| MakeFacts.UnsupportedIff | files/drivers/abk_fido_key/core.c:2658-2699 | the algorithm is the reason exactly when all before the parameter list is usable and no entry of the list is an ES256 public key |
| AssertFacts.KeyedRequest | files/drivers/abk_fido_key/core.c:2852-3032 | a getAssertion with each key at most once, in any order, is refused for an unusable member or a missing hash or rp id, else every field is what its own key says |
| FullRequests.FullMakeRoundTrip | files/drivers/abk_fido_key/core.c:2574-2850 | a registration with all nine keys comes back as sent: exclude ids in order, hmac-secret in each form, rk, uv, up, PIN parameter; refused exactly for what does not fit, with the right one of the two errors |
| FullRequests.FullAssertRoundTrip | files/drivers/abk_fido_key/core.c:2852-3032 | a getAssertion with all seven keys comes back as sent, key agreement and both salts included, exactly when the lengths are right |
| FullRequests.ParamsPart | files/drivers/abk_fido_key/core.c:2658-2699 | a list of offered algorithms is taken exactly if ES256 is among them |
| FullRequests.FormIs | files/drivers/abk_fido_key/core.c:2774-2836 | each form of the registration extension asks for a secret or does not |
| Envelopes.DescriptorsOf | files/drivers/abk_fido_key/core.c:2887-2920 | the allow list is recovered in order when it has at most 32 entries of at most 32 bytes, and is an error or left unread otherwise |
| Envelopes.GetAssertionRoundTrip | app/src/main/java/com/abk/extension/fido/WebAuthnCtapBridge.kt:28-40 | the kernel recovers hash, rp id, allow list and options of every companion envelope that fits, and refuses exactly the others |
| MakeEnvelopes.MakeCredentialRoundTrip | app/src/main/java/com/abk/extension/fido/WebAuthnCtapBridge.kt:64-70 | the kernel recovers hash, rp id and user entity of every companion registration envelope that fits, and refuses exactly the others |
| CompanionWriter.CborWriter.PutHead | app/src/main/java/com/abk/extension/fido/WebAuthnCtapBridge.kt:102 | the companion's head writer is the shortest head up to 16 bits and an error above |
| CompanionWriter.CborWriter.PutInt | app/src/main/java/com/abk/extension/fido/WebAuthnCtapBridge.kt:103 | its integers, negative ones included |
| CompanionWriter.CborWriter.PutText | app/src/main/java/com/abk/extension/fido/WebAuthnCtapBridge.kt:104 | its text strings |
| CompanionWriter.CborWriter.PutBytes | app/src/main/java/com/abk/extension/fido/WebAuthnCtapBridge.kt:105 | its byte strings |
| CompanionWriter.CborWriter.PutArray | app/src/main/java/com/abk/extension/fido/WebAuthnCtapBridge.kt:108 | its arrays of prepared items |
| CompanionWriter.BuildDescriptor | app/src/main/java/com/abk/extension/fido/WebAuthnCtapBridge.kt:28-31 | one credential descriptor |
| CompanionWriter.BuildGetAssertion | app/src/main/java/com/abk/extension/fido/WebAuthnCtapBridge.kt:35-40 | the chain of appends builds the getAssertion envelope, or fails exactly when a length passes 16 bits |
| CompanionWriter.BuildMakeCredential | app/src/main/java/com/abk/extension/fido/WebAuthnCtapBridge.kt:64-70 | the chain of appends builds the registration envelope, or fails exactly when a length passes 16 bits |
| Responses.CoseRoundTrip | files/drivers/abk_fido_key/core.c:1582-1658 | a written COSE key reads back as the same 64-byte point wherever it stands |
| Responses.EncodeCoseKey | files/drivers/abk_fido_key/core.c:2397-2418 | the COSE key writer writes that item, and from 77 bytes of room on without an error and ending at 77 |
| Responses.CoseSize | files/drivers/abk_fido_key/core.c:2397-2418 | an encoded key always takes 77 bytes |
| Responses.CoseKeyArray | files/drivers/abk_fido_key/core.c:2420-2431 | the key stays inside the caller's 128-byte array, though the writer is told of more room |
| Responses.EncodeAssertion | files/drivers/abk_fido_key/core.c:3315-3391 | every assertion payload is one well-formed item with the declared number of pairs, inside its buffer |
| Responses.AssertionSize | files/drivers/abk_fido_key/core.c:3293-3391 | no combination of optional parts exceeds 650 of 1536 bytes |
| Responses.EncodeAttestation | files/drivers/abk_fido_key/core.c:3250-3268 | every attestation payload is one well-formed item inside its buffer |
| Responses.AttestationSize | files/drivers/abk_fido_key/core.c:3250-3268 | no attestation exceeds 650 bytes |
| Responses.AuthDataSize | files/drivers/abk_fido_key/core.c:2420-2451 | the exact sizes of both forms of authenticator data, which fit their arrays of 200 and 512 bytes and, with the client data hash, the 256 and 1024 bytes that are signed |
| ResponseFields.AssertionDataFields | files/drivers/abk_fido_key/core.c:2386-2451 | assertion data: rp hash at 0, flags 0x05 at 32, big-endian counter at 33, the hmac output behind 37 |
| ResponseFields.RegistrationDataFields | files/drivers/abk_fido_key/core.c:2420-2441 | registration data: the same with flags 0x45, authenticator id at 37, length at 53, credential id at 55, and the public key read back at 87 |
| ResponseFields.AssertionMembers | files/drivers/abk_fido_key/core.c:3315-3391 | which credential, data and signature stand under keys 1 to 3, the account under 4 exactly when named, the count under 5 exactly when above one |
| ResponseFields.AccountMembers | files/drivers/abk_fido_key/core.c:3368-3381 | id and name of the account, the display name exactly when it says more |
| ResponseFields.AttestationMembers | files/drivers/abk_fido_key/core.c:3250-3268 | format, data and statement under keys 1 to 3, algorithm and signature in the statement |
| ResponseFields.DescriptorMembers | app/src/main/java/com/abk/extension/fido/WebAuthnCtapBridge.kt:28-40 | a descriptor names a public key and its id |
| HidFraming.InitFields | files/drivers/abk_fido_key/core.c:3848-3866 | a first packet carries id, command and length as written |
| HidFraming.ContFields | files/drivers/abk_fido_key/core.c:3867-3877 | a continuation packet carries id, sequence number and bytes as written |
| HidFraming.FragmentsCounted | files/drivers/abk_fido_key/core.c:3848-3877 | the number of packets of a message |
| ReportQueue.Queue.Push | files/drivers/abk_fido_key/core.c:644-668 | bounded FIFO: a full queue refuses |
| ReportQueue.Queue.Pop | files/drivers/abk_fido_key/core.c:670-686 | bounded FIFO: the oldest leaves |
| ReportQueue.Queue.Send | files/drivers/abk_fido_key/core.c:3848-3883 | a message enters packet by packet; a queue that fills keeps the front and never a gap |
| ReportQueue.SentWholeIff | files/drivers/abk_fido_key/core.c:3848-3883 | a message is queued whole exactly when all its packets fit |
| ReportQueue.CborReplyFits | files/drivers/abk_fido_key/core.c:3890-3905 | a CBOR reply takes at most 27 of 32 reports |
| ReportQueue.PingEchoFitsIff | files/drivers/abk_fido_key/core.c:3907-3960 | a PING echo comes back whole exactly up to 1886 bytes |
| Channels.StepIsolated | files/drivers/abk_fido_key/core.c:4029-4132 | one packet moves its own id's message as if that id had the table to itself, and no other's |
| Channels.RoomForOneMore | files/drivers/abk_fido_key/core.c:3821-3835 | with at most four ids a new message always finds its own or a free channel |
| ChannelRuns.NonInterference | files/drivers/abk_fido_key/core.c:4029-4132 | any interleaving of packets of at most four ids gives each id exactly what it would get alone |
| ChannelRuns.StreamRun | files/drivers/abk_fido_key/core.c:4029-4132 | a stream of complete messages is dispatched message by message |
| ChannelRuns.ExactlyOnceDelivery | files/drivers/abk_fido_key/core.c:4029-4132 | any interleaving of complete messages dispatches each exactly once, unchanged, at its last fragment, and frees all channels |
| ChannelRuns.DisturbedIff | files/drivers/abk_fido_key/core.c:3821-3835 | another id's partial message is lost exactly when a first packet finds no own and no free channel and that id owns channel 0 |
| ChannelRuns.CancelChangesNothing | files/drivers/abk_fido_key/core.c:3943-3948 | CANCEL has no lasting effect: its channel is already free |
| ChannelRuns.RefusalsExact | files/drivers/abk_fido_key/core.c:4064-4110 | for any table: length, unknown id and wrong number are refused exactly when that is wrong, with nothing changed but the channel a wrong number frees |
| ChannelRuns.InitOpens | files/drivers/abk_fido_key/core.c:3918-3937 | INIT always opens a channel under the new id, even on a full table, and changes only that channel and its own |
| ChannelRuns.NextCidExact | files/drivers/abk_fido_key/core.c:3837-3846 | the id counter hands an id out again exactly after 0 or the broadcast id was stepped over |
| ChannelRuns.StrayContinuationIff | files/drivers/abk_fido_key/core.c:4100-4132 | a continuation completes an empty message exactly when its channel announces length zero and the number fits; then that channel's command is dispatched |
| ChannelRuns.NoStrayMessages | files/drivers/abk_fido_key/core.c:4100-4132 | without INIT no continuation ever completes an empty message |
| ChannelRuns.CountersNeverWrap | files/drivers/abk_fido_key/core.c:4113-4117 | in every run of at most four ids without INIT the sequence number counts the continuations taken, at most 34, and neither it nor the lengths wrap |
| ChannelTable.Table.FindChannel | files/drivers/abk_fido_key/core.c:3809-3819 | the channel search |
| ChannelTable.Table.AllocChannel | files/drivers/abk_fido_key/core.c:3821-3835 | the channel allocation, channel 0 as the last resort |
| ChannelTable.Table.TakeCid | files/drivers/abk_fido_key/core.c:3837-3846 | the id counter |
| ChannelTable.Table.ProcessPacket | files/drivers/abk_fido_key/core.c:4029-4132 | the packet handler over the channel array |
| LanRelay.ReadRequest | app/src/main/java/com/abk/extension/fido/LanFidoServer.kt:245-277 | exactly one request's packets are taken and the rest left |
| LanRelay.RelayResponse | app/src/main/java/com/abk/extension/fido/LanFidoServer.kt:285-340 | the relay loop, for every stream of packets |
| LanRelay.RelaySafe | app/src/main/java/com/abk/extension/fido/LanFidoServer.kt:285-340 | at any point only keepalives and a front of one matching response have been forwarded |
| LanRelay.RelayForwardsOneResponse | app/src/main/java/com/abk/extension/fido/LanFidoServer.kt:285-340 | what is forwarded is one whole matching response and keepalives of its channel |
| LanRelay.RelayFindsTheAnswer | app/src/main/java/com/abk/extension/fido/LanFidoServer.kt:285-340 | without noise, after any number of complete responses that do not match, exactly the fragments of the matching one are forwarded and the rest is unread |
| LanRelay.AnswersIff | app/src/main/java/com/abk/extension/fido/LanFidoServer.kt:303-310 | a message answers a request exactly on its channel, of its command, a keepalive or an error, and on the broadcast channel only with the very nonce sent |
| RelayNoise.NoiseIsTransparent | app/src/main/java/com/abk/extension/fido/LanFidoServer.kt:285-340 | relaying a stream and relaying its message packets alone end the same way; of the noise exactly the channel's keepalives are forwarded |
| RelayNoise.RelayFindsTheAnswerInNoise | app/src/main/java/com/abk/extension/fido/LanFidoServer.kt:285-340 | with keepalives, stray continuations and foreign first packets anywhere, stale messages and then the answer bring exactly the answer's packets and the channel's keepalives, and nothing behind the answer is read |
| RelayNoise.KeepalivesDoNotHide | app/src/main/java/com/abk/extension/fido/LanFidoServer.kt:310-335 | a stream whose packets other than keepalives are stale messages and then the answer brings exactly that, to the last packet, whatever follows |
| LanSessions.OnlyNewestExchanges | app/src/main/java/com/abk/extension/fido/LanFidoServer.kt:131-149 | from any moment on only the session that was newest then, or a later one, begins an exchange |
| LanSessions.NewestMayExchange | app/src/main/java/com/abk/extension/fido/LanFidoServer.kt:131-149 | the session that took over last can exchange whenever the transport is free, until another takes over, it closes or the server stops |
| LanSessions.Server.Replace | app/src/main/java/com/abk/extension/fido/LanFidoServer.kt:136-144 | the newcomer becomes active and the one it replaces is to be closed |
| LanSessions.Server.Enter | app/src/main/java/com/abk/extension/fido/LanFidoServer.kt:145-148 | an exchange goes ahead exactly for the active session |
| LanSessions.Server.Ended | app/src/main/java/com/abk/extension/fido/LanFidoServer.kt:63-66 | a session that ends gives up the active place only if it still holds it |
| Endpoint.WriteMessage | app/src/main/java/com/abk/extension/fido/CtapHidEndpoint.kt:75-96 | the companion writes the same fragments as the kernel |
| Endpoint.Transceive | app/src/main/java/com/abk/extension/fido/CtapHidEndpoint.kt:9-49 | the reassembly loop, for every sequence of packets |
| Endpoint.NoiseIsIgnored | app/src/main/java/com/abk/extension/fido/CtapHidEndpoint.kt:20-38 | packets of other channels, keepalives and responses to others do not change the result |
| Endpoint.HeardIff | app/src/main/java/com/abk/extension/fido/CtapHidEndpoint.kt:20-38 | the endpoint takes a message for its response exactly on its channel, of its command or an error, with its nonce where that is asked for |
| Endpoint.TransceiveReturnsTheAnswer | app/src/main/java/com/abk/extension/fido/CtapHidEndpoint.kt:9-49 | the fragments of the answer, in any such noise, give back the answer |
| Endpoint.RequestAndReply | app/src/main/java/com/abk/extension/fido/CtapHidEndpoint.kt:9-49 | request and reply survive fragmentation in both directions |
| StoreImage.StrCopyExact | files/drivers/abk_fido_key/core.c:1756-1775 | copying a string field keeps its text and is stable |
| StoreImage.LoadSavedCred | files/drivers/abk_fido_key/core.c:1858-1893 | a saved slot loads as the same credential to every reader |
| StoreImage.LoadSaved | files/drivers/abk_fido_key/core.c:1710-1777 | loading a saved store is the identity up to bytes behind string terminators |
| StoreImage.SaveLoadSave | files/drivers/abk_fido_key/core.c:1858-1893 | saving, loading and saving again gives the same bytes |
| StoreImage.LoadsIff | files/drivers/abk_fido_key/core.c:1710-1850 | a file is loaded exactly if it begins with a sealed version 2 image or is a sealed version 1 image, under either checksum |
| StoreDriver.LiveStore.FromDisk | files/drivers/abk_fido_key/core.c:1710-1777 | the version 2 loader, field by field, for every image |
| StoreDriver.LiveStore.FromDiskV1 | files/drivers/abk_fido_key/core.c:1784-1856 | the version 1 loader, for every image |
| StoreDriver.LiveStore.ToDisk | files/drivers/abk_fido_key/core.c:1858-1893 | the serializer |
| Persistence.InvariantOverRuns | files/drivers/abk_fido_key/core.c:1895-2203 | in every run a loaded clean store equals what the file loads as, except for counter bumps of failed signatures |
| Persistence.StepKeeps | files/drivers/abk_fido_key/core.c:1895-2203 | every kind of load, save, failure, registration and reset keeps that |
| Persistence.NewStore | files/drivers/abk_fido_key/core.c:1917-1925 | a new or reset store has no slot in use, counter 0, no PIN, default retries and the given identity and token |
| Persistence.LoadBringsFile | files/drivers/abk_fido_key/core.c:1927-2029 | the first load brings the file's store but for a legacy PIN, or a blank store to be saved; a later one changes nothing |
| Persistence.RestoreBringsFile | files/drivers/abk_fido_key/core.c:2127-2203 | a restore from a readable file brings its store but for a legacy PIN, whatever memory held; otherwise it changes nothing |
| Persistence.SaveOutcomes | files/drivers/abk_fido_key/core.c:1974-2029 | a written save leaves memory clean and the file its image, one not begun changes nothing, one cut short leaves memory dirty and a file that is refused |
| Persistence.CleanStoreSurvivesReboot | files/drivers/abk_fido_key/core.c:1927-2029 | after a reboot the same credentials are in use and the counter is no greater, unless it wrapped |
| Persistence.UpgradeLeavesDirtyIff | files/drivers/abk_fido_key/core.c:1895-1917 | an upgraded version 1 store is left to be rewritten exactly when a legacy PIN was dropped |
| Persistence.PinResetKeepsCredentialsIff | files/drivers/abk_fido_key/core.c:5115-5121 | the PIN reset command keeps the persisted credentials exactly if the store was loaded or the file held none |
| Persistence.PinResetLosesCredential | files/drivers/abk_fido_key/core.c:5115-5121 | a device just booted with one credential in its file has none left after a PIN reset |
| PersistedRuns.Run | files/drivers/abk_fido_key/core.c:3156-3277 | over every run of authenticator steps, saves, restores and PIN resets, memory as the handlers see it is memory as the save code sees it, and both invariants hold |
| PersistedRuns.FileAnswersLikeMemory | files/drivers/abk_fido_key/core.c:1927-2029 | in every run, while nothing waits to be saved, the file answers every getAssertion from the slots that memory would |
| PersistedRuns.RegistrationReachesFile | files/drivers/abk_fido_key/core.c:3267-3271 | an approved registration whose save succeeds is in the file, in its slot, with nothing waiting to be saved |
| PersistedRuns.SuccessReachesFile | files/drivers/abk_fido_key/core.c:3386-3393 | in every reachable state an answered assertion, registration or reset whose save was written is in the file: same credentials in use and the very counter that was signed |
| PersistDriver.Storage.ReadStore | files/drivers/abk_fido_key/core.c:2036-2125 | reading and checking the file |
| PersistDriver.Storage.FinalizeRestored | files/drivers/abk_fido_key/core.c:1895-1915 | adopting a store just read |
| PersistDriver.Storage.LoadStore | files/drivers/abk_fido_key/core.c:1927-1972 | the load, with a new store when nothing loads |
| PersistDriver.Storage.RestorePersisted | files/drivers/abk_fido_key/core.c:2127-2170 | the restore, which leaves memory alone when it fails |
| PersistDriver.Storage.MaybePersist | files/drivers/abk_fido_key/core.c:1974-2029 | the save, which keeps the dirty flag when it fails |
| CompanionStore.TruncatedIsLongestPrefix | app/src/main/java/com/abk/extension/fido/FidoStoreBlob.kt:210-222 | a name is cut to its longest prefix of whole characters that fits |
| CompanionStore.WriteCString | app/src/main/java/com/abk/extension/fido/FidoStoreBlob.kt:210-222 | the string field writer, in place |
| CompanionStore.ReadCString | app/src/main/java/com/abk/extension/fido/FidoStoreBlob.kt:202-207 | the string field reader: everything before the first NUL, decoded with replacement |
| CompanionStore.TruncatedIsWellFormed | app/src/main/java/com/abk/extension/fido/FidoStoreBlob.kt:210-222 | a well-formed text stays well formed when cut to its field |
| Utf8.DecodedIsWellFormed | app/src/main/java/com/abk/extension/fido/FidoStoreBlob.kt:202-207 | a decoded text is well formed and has no new NUL, whatever the decoder's replacement rule |
| Utf8.DecodedSameIff | app/src/main/java/com/abk/extension/fido/FidoStoreBlob.kt:202-207 | decoding and encoding give the bytes back exactly when they are well-formed UTF-8 |
| CompanionStore.ParseBlob | app/src/main/java/com/abk/extension/fido/FidoStoreBlob.kt:141-168 | the companion parser with its version 1 upgrade |
| CompanionStore.ParsesIff | app/src/main/java/com/abk/extension/fido/FidoStoreBlob.kt:141-183 | a blob is accepted exactly if it begins with a sealed version 2 or version 1 image under the current checksum |
| CompanionStore.SavedIsAccepted | app/src/main/java/com/abk/extension/fido/FidoStoreBlob.kt:141-150 | every image the kernel writes is accepted as it is |
| CompanionStore.ResealedIsAccepted | app/src/main/java/com/abk/extension/fido/FidoStoreBlob.kt:87-95 | every resealed blob is accepted by the kernel loader, with the view the companion edited |
| CompanionEdits.UpgradePathsCommute | app/src/main/java/com/abk/extension/fido/FidoStoreBlob.kt:141-168 | for every version 1 image the companion accepts, kernel upgrade equals companion upgrade, reseal and kernel load |
| CompanionEdits.FileUpgradeCommutesIff | files/drivers/abk_fido_key/core.c:2065-2109 | file against file the two upgrade paths agree exactly for the exact version 1 size; longer files the kernel refuses |
| CompanionEdits.ParseResealIdentity | app/src/main/java/com/abk/extension/fido/FidoStoreBlob.kt:87-95 | parsing and resealing a version 2 image changes nothing |
| CompanionEdits.WithoutSlot | app/src/main/java/com/abk/extension/fido/FidoStoreBlob.kt:47-51 | the slot is wiped in a fresh copy |
| CompanionEdits.DeleteIsExact | app/src/main/java/com/abk/extension/fido/FidoStoreBlob.kt:47-51 | deletion leaves the kernel an empty slot and every other slot as it was |
| CompanionEdits.WithRenamedSlot | app/src/main/java/com/abk/extension/fido/FidoStoreBlob.kt:53-59 | the two names are written in a fresh copy |
| CompanionEdits.RenameIsExact | app/src/main/java/com/abk/extension/fido/FidoStoreBlob.kt:53-59 | a rename changes the two names in the kernel's view and nothing else |
| CompanionEdits.WithCredential | app/src/main/java/com/abk/extension/fido/FidoStoreBlob.kt:65-84 | a record is placed in the first free slot, or there is none |
| CompanionEdits.AddIsExact | app/src/main/java/com/abk/extension/fido/FidoStoreBlob.kt:65-84 | the kernel sees the added credential and every other slot as it was |
| CompanionEdits.OccupiedAgreesIff | app/src/main/java/com/abk/extension/fido/FidoStoreBlob.kt:24-28 | companion and kernel agree on a slot being in use exactly when its first byte is 0 or 1 |
| CompanionEdits.Import | app/src/main/java/com/abk/extension/fido/FidoStoreManager.kt:78-110 | exactly the records that are first with an id the store has not, up to the one that finds it full, stand byte for byte in the first free slots in record order; every other byte stays; imported and skipped count exactly those and the rest; full exactly when they outnumber the free slots; ids stay distinct |
| CompanionEdits.PlacedAreSeen | app/src/main/java/com/abk/extension/fido/FidoStoreManager.kt:78-110 | the kernel then sees each new record's credential in its slot and everything else as before |
| CompanionRecords.CredentialAt | app/src/main/java/com/abk/extension/fido/FidoStoreBlob.kt:26-44 | the record read from a slot, texts decoded with replacement |
| CompanionRecords.AddThenRead | app/src/main/java/com/abk/extension/fido/FidoStoreBlob.kt:26-84 | an added record reads back field by field and no other slot reads differently |
| CompanionRecords.KeptSlotsArePortable | app/src/main/java/com/abk/extension/fido/FidoStoreBlob.kt:26-44 | a slot the kernel saved reads with the kernel's fields; each text is the kernel's exactly when it is well-formed UTF-8, and then the record fits |
| CompanionRecords.ExportImportExact | app/src/main/java/com/abk/extension/fido/FidoStoreManager.kt:78-110 | an exported record imported into any store with room is the same credential to the kernel exactly when its three texts are well-formed UTF-8, and then reads the same to the companion |
| CompanionRecords.MalformedRpIdIsLost | app/src/main/java/com/abk/extension/fido/FidoStoreBlob.kt:202-207 | a relying party id of bytes 62 FF 63 is imported as another id that does not answer for the original |
| Vli.Add | files/drivers/abk_fido_key/core.c:1124-1138 | limb addition with carry is exact, also in place |
| Vli.ModAdd | files/drivers/abk_fido_key/core.c:1140-1148 | one conditional subtraction is exact and congruent in four limbs, and fully reduced exactly below twice the modulus |
| Vli.FromBytes | files/drivers/abk_fido_key/core.c:1081-1100 | 32 big-endian bytes become limbs of the same value |
| Vli.ToBytes | files/drivers/abk_fido_key/core.c:1102-1112 | limbs become bytes of the same value |
| Ecdsa.RoundExact | files/drivers/abk_fido_key/core.c:1180-1204 | a successful round satisfies s k = z + r d modulo the order for every digest; a round fails exactly when x or z + r d is a multiple of it |
| Ecdsa.LoopExact | files/drivers/abk_fido_key/core.c:1179-1208 | the loop ends with the first round that succeeds, with a nonce failure before it, or after sixteen |
| Ecdsa.OrderFitsLimbs | files/drivers/abk_fido_key/core.c:1154 | the P-256 order fits four limbs and twice the order does not, so one subtraction may leave a sum unreduced |
| Ecdsa.VerifierFindsNonce | files/drivers/abk_fido_key/core.c:1186-1204 | the verifier's two scalars add up to the nonce, so it accepts r |
| Signer.Try | files/drivers/abk_fido_key/core.c:1184-1203 | one round over the limb arrays |
| Signer.Sign | files/drivers/abk_fido_key/core.c:1176-1212 | the signing loop over the limb arrays |
| Der.DerExact | files/drivers/abk_fido_key/core.c:1213-1248 | the encoding of any two 32-byte numbers is at most 72 bytes, decodes to both, and is the only string that does |
| Der.StripExact | files/drivers/abk_fido_key/core.c:1230-1235 | stripping ends with the minimal non-negative form of the same value |
| Der.MinimalUnique | files/drivers/abk_fido_key/core.c:1230-1235 | a number has one minimal form |
| Der.PutInteger | files/drivers/abk_fido_key/core.c:1213-1235 | the 33-byte buffer with its shifting loop |
| Der.PutSignature | files/drivers/abk_fido_key/core.c:1237-1248 | the signature buffer |
| Der.SignDer | files/drivers/abk_fido_key/core.c:1150-1250 | the whole signer: a decodable signature that satisfies the equation, or none exactly when no round can succeed |
| VhidRing.FrameIsKept | windows/vhid/abkfidovhid.c:522-533 | a full frame arrives unchanged with and without its leading report id |
| VhidRing.FrameByte | windows/vhid/abkfidovhid.c:522-533 | any report, byte for byte: without its leading id, cut or zero filled |
| VhidRing.Ring.PutDropOldest | windows/vhid/abkfidovhid.c:690-704 | the ring drops its oldest frame when full and keeps the newest in order |
| VhidRing.Ring.Take | windows/vhid/abkfidovhid.c:351-355 | the oldest frame leaves the ring |
| VhidRing.Device.DeliverHostReport | windows/vhid/abkfidovhid.c:671-712 | a report completes the longest waiting read with that very report, only while the backlog is empty; else it is queued, the oldest making room |
| VhidRing.Device.IoRead | windows/vhid/abkfidovhid.c:333-366 | a read with too small a buffer is refused untouched; else it is answered with the very frame that leaves the front of the backlog, or waits when there is none |
| VhidRing.Device.KeepReply | windows/vhid/abkfidovhid.c:464-476 | the reply ring keeps the newest eight |
| VhidRing.Device.GetInputReport | windows/vhid/abkfidovhid.c:640-652 | the oldest uncollected reply |
| VhidRing.EveryFrameOnceInOrder | windows/vhid/abkfidovhid.c:333-712 | in every run frames leave in arrival order, each once, to reads in their order; received = given + backlog + dropped; only a frame with 64 later ones is lost |
| VhidRing.RunKeeps | windows/vhid/abkfidovhid.c:333-712 | the invariant behind it, through cancelled reads too |
| VhidRing.CancelExact | windows/vhid/abkfidovhid.c:333-366 | a cancelled read waits no longer, every other does, and no frame moves |
| HidHub.EveryPacketAccounted | agent/hid_hub.go:35-98 | in every interleaving each packet is in exactly one place, so at most one session gets it |
| HidHub.StepKeeps | agent/hid_hub.go:35-98 | every step of every goroutine keeps that |
| HidHub.OwnerIsForLife | agent/hid_hub.go:35-98 | a packet is given only to the session active then, and stays that session's unless the session closed |
| HidHub.DroppedIff | agent/hid_hub.go:82-92 | a packet is dropped exactly when no session is active and 64 already wait |
| HidHub.NewcomerTakesOver | agent/hid_hub.go:35-53 | a newcomer is active at once, takes the whole backlog and is to close the session before it |
| HidHub.DoneIff | agent/hid_hub.go:35-76 | a session is closed exactly by being superseded, by closing, or by the end of the device |
| HidHub.LeavingExact | agent/hid_hub.go:55-76 | who leaves is active no more and nobody else is affected; a failed read leaves nobody active |
| HidHub.OnlyNewestWrites | agent/hid_hub.go:149-164 | from any moment on only the newest session's replies reach the device |
| HidHub.SupersededIsRefused | agent/hid_hub.go:149-164 | a reply is written exactly when it has 64 bytes, its session is active and open, and the device takes it; the active session is the newest |
| HidHub.NewerCanOvertake | agent/hid_hub.go:37-53 | a run in which a newer packet comes before one that waited |
| HubOrder.InOrderIff | agent/hid_hub.go:46-96 | in every interleaving a session gets its packets in arrival order exactly when no waiting packet was moved into its channel after the reader had put one there |
| HubOrder.InOrderIfMovedFirst | agent/hid_hub.go:46-96 | so a subscribe that finishes moving before the reader sends keeps the order |
| HubDriver.Agent.Take | agent/hid_hub.go:35-42 | subscribe under the mutex |
| HubDriver.Agent.ClosePrevious | agent/hid_hub.go:43-45 | the superseded session is closed |
| HubDriver.Agent.MovePending | agent/hid_hub.go:46-53 | one turn of the moving loop |
| HubDriver.Agent.Leave | agent/hid_hub.go:56-61 | unsubscribe under the mutex |
| HubDriver.Agent.RoutePacket | agent/hid_hub.go:83-92 | a packet is kept, dropped at the limit, or aimed at the active session |
| HubDriver.Agent.SendOrGiveUp | agent/hid_hub.go:93-96 | into the channel, or given up because the session closed |
| HubDriver.Agent.WriteReply | agent/hid_hub.go:149-164 | the size check, the two session checks and the device's own refusal, in this order |

## Left out

- More than one request waiting at a time, and commands arriving on two transports at once: the model has one request in flight.
- Wrap-around of the millisecond clock (`jiffies`): time is an unbounded number.
- The machine sum `pos + len` in the CBOR readers (`core.c:1354`, `core.c:1442`): a mathematical sum that does not wrap.
- Recursion depth of `abk_cbor_skip`: the model recurses on the buffer without a stack limit.
- USB descriptors, endpoints, completion order and `abk_fido_tx_kick`: reports are followed as far as the transmit queue.
- The keepalive timer and the companion's start-up during a wait: they change neither the gate nor the answer.
- SHA-256, HMAC, AES, ECDH, point multiplication and random numbers: their results are parameters.
- CRC-32: one uninterpreted function shared by kernel and companion.
- The hmac-secret computation: whether it fails, and with which error, is a parameter; a credential without a secret is refused as in the code.
- Memory allocation failure in parsing and reassembly: only the allocation inside the store save is modelled.
- Builds without persistence: `ABK_FIDO_PERSIST_ENABLED` is taken as set.
- Writes to the `store_blob` node, except as a replaced store in `Runs`: they adopt a store without touching the file.
- The mapping of handler errors to CTAP status bytes, and the contents of getInfo and of the dummy registration reply.
- Responses.EncodeAssertion: takes the authenticator data and signature as given bytes; their layout is in the functions beside it.
- Vli.Sub: the kernel library's subtraction is taken by its arithmetic meaning, as are its comparison, product and inverse.
- Vli.FromBytes: lengths other than eight bytes per limb, which the driver never uses.
- Ecdsa.VerifierFindsNonce: speaks of scalars; the group of curve points is not part of this model.
- Sockets, encryption and authorization of LAN clients: `LanSessions` starts at a session's first complete request.
- `CborReader` of the companion, JSON and Base64.
- The companion's commit and generation polling: `CompanionEdits.Import` ends with the blob that would be committed.
- Strings of the companion: held as their UTF-8 bytes, so texts with unpaired surrogates are not covered; how many bytes a decoder folds into one replacement character is a parameter.
- VhidRing.Device.IoRead: a framework failure to forward or complete a request is not modelled; neither are report id modes of submissions and statistics other than the drop count.
- HidHub: packets read with another length than 64 bytes are passed over before they count as arrived.
- Logging, last_error and last_trace texts.
