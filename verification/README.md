# A verified model of a Bitmessage node

This project models the parts of a C implementation of the Bitmessage protocol
whose correctness is decided by its own code, and proves what they promise.

| files | what they model |
|---|---|
| `DandelionIndex`, `Dandelion`, `DandelionRuns` | the Dandelion++ relay state: an entry array with an open-addressing index, the stem/fluff decisions, and their behaviour over whole runs |
| `Keyring`, `Wallet`, `WalletRuns` | the identity store with its two-stage key derivation and vault, over every run of its operations |
| `Migration`, `Converter`, `BatchConversion` | the conversion of version 3 addresses to version 4, which may stop after any write, and the batch loop around it |
| `ApiAsync`, `SendPipeline`, `SendOutcomes` | a request that is suspended while its sends complete on another thread, the two-stage proof-of-work chain behind a send, and which sends succeed |
| `SendQueue`, `Connection`, `Inventory`, `Uploads` | the per-connection send queue with partial writes, and the backlog of requested objects that feeds it |
| `Json`, `JsonText`, `JsonOutput`, `Spelling` | the JSON parser and serializer, and the concrete syntax that the parser accepts |
| `Numerals`, `Base58`, `Varint`, `Address`, `Base32`, `Objects`, `Messages`, `WireLayout` | the codecs and wire objects that undo each other, and their bytes on the wire |
| `Authenticity` | what a reader can conclude from an object that anyone may have built |

## How it is built

Where the source changes things in place there is a class or a method on arrays,
sequences or maps, proved against a function on values; what the source promises is
then proved about those functions, for all inputs, or as an invariant of a state
machine, for all runs. Cryptography is symbolic or a parameter: a sealed box opens only
with its own key and associated data, a ciphertext opens under no other key
(`Messages.Sound`), these very bytes of a signature that verifies were made with that key
over what was verified (`Messages.Unforgeable`), hashes are arbitrary functions; these laws can hold together
(`Authenticity.LawsMet`). Sockets are scripts of answers, clocks and random numbers are
arguments, SQL tables are maps and sequences, and a process that stops between two
writes is a prefix of a list of writes. What `ApiAsync` takes for granted of a send, one
callback if it was accepted and none otherwise, is what `SendPipeline` proves. `hide`
keeps definitions out of proofs that do not need them.

Some of the promises hold only under a condition. These are stated with it:

- the 300 seconds during which a fluffed hash stays fluffed count from its first fluff
  (`DandelionRuns.FluffPersists`, `DandelionRuns.FluffForgotten`), not from a later one
  (`DandelionRuns.LaterFluffDoesNotExtend`);
- write readiness is armed exactly when the queue is not empty after every successful call
  whose `epoll_ctl` worked and that sent something, flushed or registered
  (`SendQueue.CallArms`), and over every run of such calls (`SendQueue.SuccessArms`) and,
  until the connection is evicted, with failing sends among them (`SendQueue.RunArms`); an
  empty send reports success and leaves a wrong flag wrong (`SendQueue.EmptySendStaysWrong`);
- a version 4 address decodes if and only if at least four bytes of its ripe remain
  (`Address.DecodeEncode`); base58 decoding returns the bytes without leading zeros
  (`Base58.DecodeEncode`), and an accepted text, an exported key among them, re-encodes to
  itself if and only if it does not start with `1` (`Base58.EncodeDecode`,
  `Address.WifAccepted`, `Address.WifLeadingOne`);
- a message reaches its recipient if and only if the first unlocked identity with the
  recipient's encryption key has the recipient's ripe (`Messages.TrialRoundTrip`); an
  earlier identity that shares the key under another ripe loses it
  (`Messages.SharedKeyLoses`);
- a length that runs past the buffer is refused if and only if it is below 2^64 minus its
  offset (`Objects.GuardExact`); a larger one wraps the sum and is let through
  (`Objects.LargestLengthPasses`). A reader goes past its buffer, which the model reports
  as `OutOfBounds`, exactly when under a valid signature the length of the message wraps,
  or that of an ack that is copied (`Authenticity.OutOfBoundsExact`), and such a body
  exists for every signer and recipient (`Authenticity.SignedMessageLength`). A wrapping
  length of the signature itself reaches the verifier as a negative `int` and is refused
  there, in every buffer of up to 2 GiB (`Objects.SignaturePast`,
  `Authenticity.AnySignatureLength`, `Authenticity.AnyPubkeyLength`), so a key part of that
  size is never read past its end (`Authenticity.PubkeyPastExact`);
- the text of a message that was read lies inside what was signed always for an ordinary
  recipient, and for a channel if and only if the length of the ack does not take the
  cursor back behind the text (`Authenticity.SignedCovers`); otherwise the text may hold
  bytes that nobody signed (`Authenticity.UnsignedText`);
- an identity that was created or imported opens with its passphrase if and only if its
  text has at most 63 characters (`Keyring.CreateSound`, `Keyring.ImportSound`); every
  version 3 identity has longer texts that the importer accepts and stores
  (`WalletRuns.LongTextLoses`);
- an identity keeps its stream number if and only if it is below 2^31 or among the last
  2^31 of the 64-bit numbers (`Keyring.NarrowExact`); its sibling is named for the one that
  was kept;
- a conversion hands on the label and the channel flag unless the update of just that one
  fails, which it does not notice (`Migration.LostExactly`); no key is lost by it
  (`Migration.StopLosesNothing`);
- a message body comes back if and only if the subject does not contain `"\nBody:"`
  (`Messages.SimpleRoundTrip`);
- a pubkey object is accepted for a candidate if and only if its keys hash to the
  candidate's ripe (`Messages.PubkeyV4RoundTrip`);
- an onion peer arrives if and only if its port is not zero (`Objects.OnionRoundTrip`);
- a JSON value comes back if and only if the C library reads its numbers back
  (`Json.RoundTrip`, `Json.Reparse`); whole numbers below 2^53 are among them
  (`Json.WholeReadBack`);
- after a conversion the private keys open with the passphrase of the call if the
  conversion made the version 4 row, and with that row's own passphrase if it was there
  before (`Migration.StopLosesNothing`).

## Model

| member | source | states |
|---|---|---|
| `DandelionIndex.Lookup` | src/infra/dandelion.c:162-183 | a probe through the index returns exactly what a plain scan of the entries returns, and always ends |
| `DandelionIndex.FirstFree` | src/infra/dandelion.c:131-136 | the insertion probe ends at the first free slot on the path |
| `DandelionIndex.Rebuild` | src/infra/dandelion.c:118-141 | a fresh table with one slot per entry, every entry reachable from its home slot |
| `DandelionIndex.AddLast` | src/infra/dandelion.c:206-238 | after appending, the index is sound; the new entry sits in one slot, or in two right after a growth rebuild, and the occupied slots stay at most one above the entry count and below half the capacity |
| `DandelionIndex.NotPassed` | src/infra/dandelion.c:162-183 | a probe that meets a free slot before the hash proves the hash is absent |
| `DandelionIndex.FreeAhead` | src/infra/dandelion.c:118-183 | while some slot is free every probe meets one before it comes round |
| `Dandelion.RelayState.IndexLookup` | src/infra/dandelion.c:162-183 | in every valid state the lookup equals the scan |
| `Dandelion.RelayState.FindOrCreate` | src/infra/dandelion.c:187-239 | finds the entry or appends a fresh one, through growth of both arrays, and keeps the index sound |
| `Dandelion.RelayState.Note` | src/infra/dandelion.c:241-258 | a plain inv marks the hash, a dinv does nothing |
| `Dandelion.RelayState.Choose` | src/infra/dandelion.c:304-339 | the value-level decision and the entry it leaves behind, with the index kept sound; which decision that is, `DandelionRuns.DecideExact` says |
| `Dandelion.RelayState.BeginReshuffle` | src/infra/dandelion.c:276-283 | starts an epoch exactly when 600 seconds have passed or none was started |
| `Dandelion.RelayState.EndReshuffle` | src/infra/dandelion.c:285-302 | records the drawn successor, or that there is none |
| `Dandelion.RelayState.ExpireAndRefluff` | src/infra/dandelion.c:341-397 | marks, prunes and announces as the value-level sweep says, with the index rebuilt when positions shift |
| `Dandelion.RelayState.PruneEntries` | src/infra/dandelion.c:358-382 | the in-place compaction is the stable filter that drops only stale entries |
| `Dandelion.RelayState.IsStemming` | src/infra/dandelion.c:399-406 | true exactly when an unfluffed entry for the hash exists |
| `Dandelion.RelayState.MarkLoop` | src/infra/dandelion.c:346-356 | the first 64 overdue entries, in order, are marked and their hashes returned |
| `Dandelion.Compact` | src/infra/dandelion.c:358-374 | reading ahead of writing, the array prefix becomes the filtered list |
| `Dandelion.Broadcast` | src/infra/dandelion.c:384-395 | only hashes held in the object pool are announced, in order |
| `Dandelion.PruneMembers` | src/infra/dandelion.c:358-374 | pruning keeps an entry if and only if it was not fluffed more than 300 seconds ago |
| `DandelionRuns.DecideExact` | src/infra/dandelion.c:304-339 | fluff if and only if there is no successor or the entry of the hash is fluffed, plain or past its deadline; otherwise stem if and only if the connection is the successor's, and skip if and only if it is not |
| `DandelionRuns.CallEntries` | src/infra/dandelion.c:187-339 | a decision or a note changes no entry but that of its hash, which is made if it was missing, with a deadline ten seconds and the jitter ahead |
| `DandelionRuns.DrawExact` | src/infra/dandelion.c:276-302 | a successor is drawn at the first call and every 600 seconds, and what was found is the successor from then on |
| `DandelionRuns.MarkExact` | src/infra/dandelion.c:346-356 | an entry is marked if and only if it is overdue and fewer than 64 overdue ones stand before it, and its hash is handed out at that place |
| `DandelionRuns.PruneExact` | src/infra/dandelion.c:358-374 | the entries that are not stale remain, each at its place among them |
| `DandelionRuns.HeldPlaces` | src/infra/dandelion.c:384-395 | every hash on hand is announced behind those on hand before it |
| `DandelionRuns.StepDistinct` | src/infra/dandelion.c:187-397 | every call keeps the hashes pairwise distinct |
| `DandelionRuns.RunSane` | src/infra/dandelion.c:187-397 | over every run with a rising clock the hashes stay distinct and no entry is fluffed in the future |
| `DandelionRuns.FluffRecorded` | src/infra/dandelion.c:316-324 | a decision to fluff records its first time |
| `DandelionRuns.FluffPersists` | src/infra/dandelion.c:304-374 | once fluffed, every decision for the hash is to fluff until 300 seconds after the recorded time, whatever happens in between |
| `DandelionRuns.FirstFluffLasts` | src/infra/dandelion.c:304-374 | from start-up, a hash first fluffed at time t is fluffed at every time up to t + 300 |
| `DandelionRuns.FluffForgotten` | src/infra/dandelion.c:304-374 | past that time a sweep forgets the hash and the next decision is to fluff if and only if there is no successor |
| `DandelionRuns.LaterFluffDoesNotExtend` | src/infra/dandelion.c:316-324 | a run from start-up (a successor is drawn, the hash is stemmed, then fluffed at 1000) after which a second fluff at 1200 changes nothing and the sweep at 1301 forgets the hash |
| `DandelionRuns.PlainNeverStemmed` | src/infra/dandelion.c:241-258 | a hash noted from a plain inv is never stemmed while its entry lives |
| `DandelionRuns.SuccessorPerEpoch` | src/infra/dandelion.c:260-339 | epochs are at least 600 seconds apart, the successor changes at most once in each, and the endpoints that stems are answered for change no more often than that |
| `DandelionRuns.SweepMoves` | src/infra/dandelion.c:341-397 | one sweep fluffs exactly min(64, overdue) entries, and otherwise drops only stale ones |
| `DandelionRuns.BacklogDrains` | src/infra/dandelion.c:341-397 | an overdue backlog of n with no newcomers is gone after n/64 sweeps, rounded up |
| `Keyring.OpensExactly` | src/core/keyring.c:575-661 | a stored row whose text was stored whole opens with exactly one passphrase and then yields its two private keys; one whose text was cut opens with none |
| `Keyring.MasterVerified` | src/core/keyring.c:281-318 | the canary accepts exactly the passphrase the vault was made with |
| `Keyring.CreateSound` | src/core/keyring.c:384-463 | an address whose stored text is taken is refused; otherwise, if the row can be written, it has the columns of the identity, opens with its passphrase and no other if its text has at most 63 characters, and never if it has more; no other row changes in any column, and a failure changes nothing |
| `Keyring.VaultSound` | src/core/keyring.c:473-504 | the vault is made once, if it can be written; afterwards a master key is returned if and only if the passphrase is the vault's; no master key is returned without a stored vault that verifies it |
| `Keyring.ImportSound` | src/core/keyring.c:513-566 | an import succeeds if and only if the stored text is new, the row can be written, and the passphrase is the vault's or a vault can be made; then the row has the columns of the identity and opens as a created one does; a failure adds no row |
| `Keyring.NarrowExact` | src/core/api_server.c:1114-1117 | which stream numbers survive the `int` column |
| `Keyring.RewrapSound` | src/core/keyring.c:343-379 | re-sealing a row under the vault changes neither its keys nor the passphrase that opens it |
| `Keyring.BulkOneSound` | src/core/keyring.c:1032-1090 | one step of a bulk unlock answers unlocked, not unlocked or not found exactly as the address deserves, and keeps every row's passphrase and keys through lazy re-sealing and vault creation, whichever of these writes fail |
| `Keyring.BulkSound` | src/core/keyring.c:1099-1180 | over a whole bulk unlock each address gets the answer it deserved at the start: unlocked if and only if it was unlocked or its row opens with the passphrase |
| `Keyring.BulkMigrates` | src/core/keyring.c:1032-1090 | the bulk unlock of a scrypt row that opens makes a missing vault if it can be written, re-seals the row under the vault if and only if the passphrase is the vault's and the row can be written, and touches no other row |
| `Keyring.FindExact` | src/core/keyring.c:972-990 | the entry found is the first of its name, and none is found only if there is none |
| `Keyring.LockExact` | src/core/keyring.c:836-863 | locking takes out the first entry of the name and nothing else |
| `Keyring.UnlockSound` | src/core/keyring.c:615-631 | an unlock works if and only if the row's text was stored whole and the passphrase is the row's; it puts the private keys in front and changes nothing else |
| `Keyring.KeepsExport` | src/core/keyring.c:633-661 | what an owner can export is the same before and after any operation that keeps rows |
| `Wallet.Wallet.CreateIdentity` | src/core/keyring.c:441-463 | the stored row is the one specified |
| `Wallet.Wallet.CheckedMaster` | src/core/keyring.c:281-318 | a master key only after the canary opened |
| `Wallet.Wallet.ResolveOrCreateVault` | src/core/keyring.c:473-504 | checks an existing vault, or makes one |
| `Wallet.Wallet.ImportIdentity` | src/core/keyring.c:513-566 | imports under the vault |
| `Wallet.Wallet.ExportKeys` | src/core/keyring.c:575-661 | the private keys of a row, or nothing |
| `Wallet.Wallet.FindEntry` | src/core/keyring.c:972-990 | the first unlocked entry with that address |
| `Wallet.Wallet.LockEntry` | src/core/keyring.c:836-863 | removes the first such entry and no other |
| `Wallet.Wallet.UnlockOne` | src/core/keyring.c:615-631 | puts the opened identity at the front of the list |
| `Wallet.Wallet.RewrapToVault` | src/core/keyring.c:343-379 | re-seals a row with the keys of its unlocked entry |
| `Wallet.Wallet.UnlockBulkOne` | src/core/keyring.c:1032-1090 | one address of a bulk unlock |
| `Wallet.Wallet.UnlockAddresses` | src/core/keyring.c:1158-1180 | the bulk unlock, deriving the master key once; the answers given are those of the value-level run |
| `WalletRuns.StepKeeps` | src/core/keyring.c:441-900 | every operation, with any passphrase and with any of its writes failing, keeps the store sound and the passphrase and keys of every row that stands before and after |
| `WalletRuns.ConvertKeeps` | src/core/api_server.c:684-730 | so does a conversion, complete or stopped anywhere |
| `WalletRuns.RunSound` | src/core/keyring.c:473-604 | in every reachable state, whichever writes failed, each vault row is sealed, for the text it was stored under, under the one master key the stored canary verifies, and an existing vault is never replaced; so no row is ever sealed under a master key that was not stored |
| `WalletRuns.RunKeepsKeys` | src/core/keyring.c:441-1180 | over every run a stored row keeps the passphrase that opens it and the private keys it yields for as long as it stands |
| `WalletRuns.ImportProper` | src/core/api_server.c:1055-1117 | every import the program accepts meets the one condition the run theorems ask of an event |
| `WalletRuns.ImportedForGood` | src/core/keyring.c:441-1180 | from start-up: an imported identity opens with the passphrase of its import and no other, for as long as its row stands and whatever else happens, if and only if its text was stored whole |
| `WalletRuns.ImportedUnlocks` | src/core/keyring.c:441-1180 | from start-up: after any calls that neither delete nor convert its row, an imported identity is unlocked by the passphrase of its import, to the imported keys, and by no other |
| `WalletRuns.StepStands` | src/core/keyring.c:441-900 | a row goes only by a call that deletes or converts that very row |
| `WalletRuns.LongTextLoses` | src/core/keyring.c:396-408 | for every version 3 identity, a text that the decoder takes for its address, whose import succeeds, and whose row no passphrase opens |
| `WalletRuns.CreateThenConvert` | src/core/api_server.c:684-730 | a created version 3 identity is converted with its passphrase if and only if its text was stored whole and no foreign keys stand under the sibling's name; then the old row is gone and the sibling, made or found, yields the same private keys, with the same passphrase if it was made and with its own if it was found; any other passphrase is refused and changes nothing |
| `WalletRuns.ConvertStaysUnlocked` | src/core/keyring.c:817-827 | an identity unlocked before its conversion has its sibling unlocked afterwards |
| `WalletRuns.ConvertRingExact` | src/core/keyring.c:772-863 | what a conversion, stopped anywhere, leaves unlocked: the sibling if and only if it or the old identity was, with the old one's private keys and the channel flag, the old one until its row is dropped, and every other name as before |
| `WalletRuns.ConvertExactly` | src/core/api_server.c:684-730 | a conversion succeeds if and only if its row is a version 3 row that opens with the passphrase, no foreign keys stand under the sibling's name, and all of its writes, counted, reach the disk |
| `Keyring.AddressesSeparate` | src/core/address.c:101-162 | the text that the encoder gives a version 3 identity is no text of any version 4 identity |
| `Keyring.AcceptedNotV4` | src/core/api_server.c:1055-1117 | whatever text of a version 3 address an import stores, canonical or not, cut or whole, is no text of any version 4 identity |
| `Keyring.AddressesShort` | src/core/keyring.c:759-759 | the text of a version 4 identity always fits the 64-byte buffer |
| `Migration.SiblingDiffers` | src/core/keyring.c:751-760 | the version 4 name of a version 3 row is another name, under whatever text the row is stored |
| `Migration.CompleteIs` | src/core/api_server.c:684-730 | an uninterrupted conversion leaves the sibling with merged label and channel flag as far as their updates worked, no version 3 row, renamed own addresses in the mails, and nothing else changed |
| `Migration.CompleteRows` | src/core/api_server.c:684-730 | the stores after a conversion in terms of those before it: a sibling that was found keeps all but an empty label and a missing flag, one that was made has the columns of the old row, its algorithm, its private keys and the passphrase of the call; every other row, the vault and every other field of every mail is as before |
| `Migration.PlanExact` | src/core/keyring.c:700-770 | a conversion goes ahead if and only if the row is there, has version 3, opens with the passphrase and no foreign keys stand under the sibling's name; and which of the four codes it is refused with otherwise |
| `Migration.WithoutExact` | src/core/identity_store.c:233-250 | a deleted row leaves the others in their order |
| `Migration.LostExactly` | src/core/keyring.c:772-809 | a conversion whose label or flag update fails goes on, and differs from one whose updates work exactly in the label, or the flag, that was lacking and failed |
| `Migration.StopLosesNothing` | src/core/keyring.c:700-834 | stopping after any number of writes, with any of the unnoticed updates failing, leaves the private keys in the old row, unchanged until the last write, in its sibling or in both, every other row untouched and the store sound |
| `Migration.ResumeReaches` | src/core/api_server.c:672-730 | running again after stopping at any write reaches exactly the stores of one uninterrupted run, whose label or flag update works if that of either run landed |
| `Migration.FreshIrrelevant` | src/core/keyring.c:782-812 | two complete runs whose updates work alike differ at most in fresh salts and the place of the new row |
| `Migration.ManyStops` | src/core/api_server.c:672-730 | however often and wherever runs are interrupted, the old row still opens and the run that completes leaves the stores of one uninterrupted run, whose label or flag update works if that of any of the runs did |
| `Migration.RenameTwice` | src/core/messages_store.c:573-596 | renaming own addresses twice is renaming them once |
| `Converter.Session.Master` | src/core/keyring.c:678-698 | the session derives the master key at most once and always gives the vault's answer |
| `Converter.Databases.EnsureSibling` | src/core/keyring.c:700-834 | the error codes, and otherwise exactly the planned writes, with the failing updates of label and flag passed over |
| `Converter.Databases.ConvertOne` | src/core/api_server.c:684-730 | executes a conversion write by write, or changes nothing and returns the planned error |
| `BatchConversion.ListsAll` | src/core/identity_store.c:323-337 | the listing names every version 3 row exactly once |
| `BatchConversion.ConvertLists` | src/core/api_server.c:684-730 | a successful conversion removes its row from the listing and keeps the order of the rest; a failed one, stopped at any write, leaves the listing alone |
| `BatchConversion.ConvertPage` | src/core/api_server.c:810-824 | a page continues the fold of single conversions over the listing, row by row, and the failures stay in front |
| `BatchConversion.ConvertBatch` | src/core/api_server.c:772-840 | the batch ends; its stores and its two lists are exactly those of one conversion after the other over a prefix of the listing, each row once; at most `limit` are converted, and if fewer are, with no listing failing, every version 3 row was tried |
| `WalletRuns.ConvertEffect` | src/core/api_server.c:684-730 | one conversion: a failed one leaves every version 3 row as it was, a successful one replaces its row by a sibling with the same private keys, and no other version 3 row changes |
| `WalletRuns.BatchPlaces` | src/core/api_server.c:772-840 | after a batch a version 3 row is in `converted` and its sibling stands with its private keys, or it is in `failed` or untried and unchanged |
| `WalletRuns.BatchLosesNothing` | src/core/api_server.c:772-840 | private keys that some passphrase opened before a batch are opened by some passphrase after it, wherever its conversions were refused or stopped |
| `ApiAsync.Request.SlotBegin` | src/core/api_server.c:1550-1582 | the send is counted before it is handed over |
| `ApiAsync.Request.SlotEnd` | src/core/api_server.c:1596-1633 | a refused send is uncounted and dropped, an accepted one is registered |
| `ApiAsync.Request.SendDone` | src/core/api_server.c:1500-1538 | records the outcome and asks for a resume exactly when it was the last one of a suspended request |
| `ApiAsync.Request.AttachResponse` | src/core/api_server.c:2539-2546 | marks the slots of one handler as the value-level call does; what that means for the response, `ApiAsync.ResponseExact` says |
| `ApiAsync.Request.TrySuspend` | src/core/api_server.c:2857-2867 | suspends exactly while a send is unfinished |
| `ApiAsync.Request.Finish` | src/core/api_server.c:2732-2766 | one entry per registered, answered slot, in order |
| `ApiAsync.OutstandingExact` | src/core/api_server.c:1500-1633 | in every interleaving the counter is the number of begun sends neither completed nor refused |
| `ApiAsync.ResumedOnce` | src/core/api_server.c:1526-1537 | at most one suspend and one resume, never a resume before the suspend or while a slot is unfinished; an answered request has had its suspend resumed |
| `ApiAsync.ResponseComplete` | src/core/api_server.c:2732-2766 | when the response is built every registered slot is done; an answered slot is an error if and only if its send failed, and otherwise its own result |
| `ApiAsync.ResponseExact` | src/core/api_server.c:2732-2766 | the response, told by the events of the run alone: it holds a result, or an error, for a send if and only if the send was handed over, the last handler that ended after this and knew of it had an answer, and the send completed so; entries stand in the order of the sends, one each |
| `ApiAsync.NoLateAccess` | src/core/api_server.c:1483-1496 | after the resume, the answer or the release no worker step is left that could touch the request |
| `ApiAsync.NeverStuck` | src/core/api_server.c:2855-2868 | a suspended request always has a send that can complete or a worker about to resume it |
| `ApiAsync.WorkersResume` | src/core/api_server.c:1526-1537 | from a suspend the workers take exactly one step per unfinished send and one more, in any order, and only the last resumes |
| `SendPipeline.SendCompletes` | src/core/send_pipeline.c:134-290 | for every send that is over, in every reachable state: callback once if the call returned 0 and never otherwise, released once and last, success only after the sent row, every message proof of work offered after the key was erased |
| `SendOutcomes.SendSucceeds` | src/core/send_pipeline.c:134-290 | over every run, a send that has left the queue has reported success if and only if its call returned 0 and each of its callbacks went well: the object found, the next step working and, behind the first stage, room in the queue; it is copied to the inbox if and only if it succeeded and is to oneself |
| `SendOutcomes.CallReturns` | src/core/send_pipeline.c:482-599 | in every reachable state a call returns 0 if and only if the message was prepared and built, the queue is neither full nor stopping and no send with this id is queued or running; 1 for such a duplicate, -1 otherwise |
| `SendOutcomes.CallbacksInOrder` | src/pow/pow_queue.c:47-140 | over every run the callbacks that ran, followed by the tickets still queued, are the tickets that were queued, in their order |
| `SendOutcomes.SendNowSucceeds` | src/core/send_pipeline.c:482-599 | without a queue a send succeeds if and only if it was prepared and built, its second stage was built and its row inserted |
| `SendPipeline.LiveSendUntouched` | src/core/send_pipeline.c:482-599 | a waiting send has returned 0 and has neither reported nor been released |
| `SendPipeline.SecondStageNoDuplicate` | src/pow/pow_queue.c:148-167 | in every reachable state the second stage is accepted if and only if the queue is neither full nor stopping, so never refused as a duplicate of its own first stage |
| `SendPipeline.DistinctIds` | src/core/send_pipeline.c:541-546 | no two waiting sends share a message id |
| `SendPipeline.StepInv` | src/pow/pow_queue.c:47-140 | every step of callers, worker and shutdown keeps each live ticket with one waiting job and every other job over |
| `SendPipeline.QueueDrains` | src/pow/pow_queue.c:47-140 | without new submissions the worker takes a bounded number of steps, and when none is possible every send ever made is over |
| `SendPipeline.SendNowOver` | src/pow/pow_queue.c:173-180 | the same guarantees when there is no queue and each proof of work runs at once |
| `SendPipeline.Pipeline.SendMessageNow` | src/core/send_pipeline.c:482-599 | the call without a queue has exactly the effects and the return code of the value-level call |
| `SendPipeline.WatchOrders` | src/core/send_pipeline.c:166-235 | what the monitor lets through has its effects in the required order |
| `SendPipeline.Pipeline.KeyInFlight` | src/pow/pow_queue.c:148-167 | duplicates among waiting jobs, and the running one unless asked by the worker |
| `SendPipeline.Pipeline.QueueSubmit` | src/pow/pow_queue.c:169-242 | the return codes, and the ticket queued exactly on 0 |
| `SendPipeline.Pipeline.SendMessageAsync` | src/core/send_pipeline.c:482-599 | the effects of a call on every path, success or failure |
| `SendPipeline.Pipeline.AckPowDone` | src/core/send_pipeline.c:238-290 | the second stage, or the failure report, as the value-level callback says; which of them, `SendOutcomes.SendSucceeds` says |
| `SendPipeline.Pipeline.JobFail` | src/core/send_pipeline.c:180-184 | reports failure, then releases |
| `SendPipeline.Pipeline.RunCallback` | src/pow/pow_queue.c:66-77 | the callback of a ticket, by its stage |
| `SendPipeline.Pipeline.BeginShutdown` | src/pow/pow_queue.c:112-127 | detaches the waiting jobs once |
| `SendPipeline.Pipeline.MsgPowDone` | src/core/send_pipeline.c:187-235 | row, inbox copy, report, release, in this order |
| `SendPipeline.Pipeline.DiscardRest` | src/pow/pow_queue.c:130-139 | the loop over the detached jobs is the value-level discard of all of them |
| `SendPipeline.DiscardFails` | src/pow/pow_queue.c:130-139 | a shutdown gives every detached job its failure report and release, leaves every other job as it was, and afterwards every send ever made is over |
| `SendQueue.FlushMoves` | src/infra/network.c:281-321 | a flush moves bytes from the front of the queue to the socket and does nothing else to the data |
| `SendQueue.FlushArms` | src/infra/network.c:257-276 | after a successful flush the flag is right if `epoll_ctl` worked and unchanged otherwise |
| `SendQueue.CallArms` | src/infra/network.c:257-413 | every successful flush, registration or non-empty send whose `epoll_ctl` worked leaves write interest armed exactly when something is queued; an empty send changes nothing |
| `SendQueue.RunArms` | src/infra/network.c:257-413 | over every run of sends, failed ones among them, successful flushes and successful registrations whose `epoll_ctl` calls work, armed is right unless the connection is evicted |
| `SendQueue.SuccessArms` | src/infra/network.c:257-413 | over every run of successful calls armed is right after each |
| `SendQueue.EmptySendStaysWrong` | src/infra/network.c:323-328 | a run in which a failed send followed by an empty one is successful with bytes queued and nothing armed |
| `SendQueue.RunConserves` | src/infra/network.c:281-413 | over every run, bytes written followed by bytes queued are the accepted packets in order, and the queue never exceeds 16 MiB |
| `SendQueue.StallIsReal` | src/infra/network.c:417-426 | a connection reported stalled has written nothing and never been empty since the recorded time |
| `SendQueue.DrainedStops` | src/infra/network.c:281-321 | a script without fatal answers never fails, and a failure leaves bytes queued |
| `SendQueue.DrainedAnswers` | src/infra/network.c:281-321 | draining uses the answers one by one, each taking as many bytes as it accepted and the first chunk holds; it stops when the queue is empty, the answers are used up or the next one would block, and fails exactly at a fatal one; the bytes written are the sum of the pieces |
| `SendQueue.FlushExact` | src/infra/network.c:281-321 | a flush writes as many bytes as the answers before the first stop take, fails if and only if that stop is fatal with something queued, moves the progress clock if and only if it wrote, and never evicts |
| `SendQueue.SendExact` | src/infra/network.c:323-373 | a non-empty send succeeds if and only if the packet keeps the queue within 16 MiB and the writing does not break; success leaves the mark for eviction alone and failure sets it; and what is written, queued and accepted either way |
| `SendQueue.StalledExact` | src/infra/network.c:417-426 | over every run a connection is stalled if and only if something is queued and more than 120 seconds have passed since the last byte was written or the queue last stopped being empty |
| `Connection.Connection.FlushLocked` | src/infra/network.c:281-321 | the loop over the linked chunks is the value-level flush, with an exact byte count |
| `Connection.Connection.Consume` | src/infra/network.c:287-302 | bytes written leave the front of the list, and a finished chunk is unlinked |
| `Connection.Connection.EnqueueChunk` | src/infra/network.c:341-361 | a packet is linked behind the tail and counted; an empty queue restarts the stall clock |
| `Connection.Connection.NetworkSend` | src/infra/network.c:323-373 | refuses what would exceed the limit, queues and writes the rest, on the linked chunks as `SendQueue.SendExact` says of the value-level send |
| `Connection.Connection.NetworkFlush` | src/infra/network.c:375-386 | a flush under the lock |
| `Connection.Connection.EpollRegister` | src/infra/network.c:396-413 | registers with write interest exactly when something is queued |
| `Connection.Connection.UpdateOutInterest` | src/infra/network.c:257-276 | arms or disarms only when needed and possible |
| `Connection.Connection.SendStalled` | src/infra/network.c:417-426 | stalled exactly when something is queued and 120 seconds passed without progress |
| `Uploads.RunFifo` | src/infra/object_sync.c:1362-1514 | over every run at most 50,000 hashes wait, they are taken once and in the order accepted, and on a live connection every accepted hash is taken or waiting |
| `Uploads.LoopGood` | src/infra/object_sync.c:1397-1466 | a refill takes hashes in order, queues exactly the packets of those on hand, marks the others as not found, and stops only when the backlog is empty, the queue is long enough or the connection is evicted |
| `Uploads.LoopBounded` | src/infra/object_sync.c:1404-1412 | a refill never lifts the send queue above its prior size or the threshold plus one packet |
| `Uploads.RefillGood` | src/infra/object_sync.c:1397-1466 | the same of a whole refill: every hash taken is dealt with as the pool says, in order, and a refill ends only with an empty backlog, a long queue or an evicted connection |
| `Uploads.GetdataGood` | src/infra/object_sync.c:1468-1514 | a malformed message or one over the limit changes nothing; otherwise the first min(n, 50,000 less the backlog) of its n hashes join the end, and the refill follows |
| `Uploads.Uploader.Append` | src/infra/object_sync.c:1362-1395 | the window over the array, through compaction and growth, is the FIFO with the items appended |
| `Uploads.Uploader.Compact` | src/infra/object_sync.c:1368-1374 | moving the window to the front keeps its contents |
| `Uploads.Uploader.TakeOne` | src/infra/object_sync.c:1413-1451 | one turn of the loop, with the send on the linked queue |
| `Uploads.Capacity` | src/infra/object_sync.c:1378-1383 | the doubled capacity suffices and is less than twice what is needed |
| `Uploads.Uploader.RefillUploads` | src/infra/object_sync.c:1397-1466 | the refill loop over window and connection is the value-level refill |
| `Uploads.Uploader.HandleGetdata` | src/infra/object_sync.c:1468-1514 | parses the payload, accepts what fits, then refills, as the value-level call says |
| `Inventory.ParseInventory` | src/infra/protocol.c:382-404 | the loop over the payload gives its hashes, or refuses it |
| `Inventory.BuildPayload` | src/infra/protocol.c:444-459 | the count, then the hashes |
| `Inventory.ItemsExact` | src/infra/protocol.c:382-404 | a payload is accepted if and only if a varint is followed by whole 32-byte hashes, and yields exactly these |
| `Inventory.RoundTrip` | src/infra/protocol.c:382-459 | a built list is parsed back, and so is the same list behind any other count: the count is not looked at |
| `WireLayout.InventoryLayout` | src/infra/protocol.c:444-459 | the number of hashes, then the hashes in their order |
| `Json.WholeRoundTrip` | src/common/json.c:691-803 | values with whole numbers below 2^53 and strings without zero bytes print to text that parses back to the same value, members in order and duplicates kept, and the parser stops exactly at the end of the printed text before a comma, a closing bracket or the end |
| `Json.ValueBack` | src/common/json.c:465-529 | every value whose numbers print as number tokens comes back with each number as the C library reads it, and the parser stops exactly at the end of the printed text |
| `Json.RoundTrip` | src/common/json.c:465-803 | the same value comes back if and only if the C library reads each of its numbers back |
| `Json.Reparse` | src/common/json.c:513-529 | printing an accepted text's value and parsing it again gives it back up to its numbers, and unchanged if and only if the C library reads them back |
| `Json.PrintInjective` | src/common/json.c:730-790 | two values that print alike are equal up to what the C library reads for their numbers, and equal if it reads them back |
| `Json.ParsedClean` | src/common/json.c:211-332 | whatever the parser accepts has strings and keys free of zero bytes |
| `Json.WholePrinted` | src/common/json.c:742-758 | every whole number of 64 bits prints as its decimal digits without leading zeros, behind a minus sign if it is negative |
| `Json.TextBack` | src/common/json.c:691-728 | an escaped string is read back exactly |
| `Json.NumberStop` | src/common/json.c:79-136 | the number scanner stops exactly at the end of a number token |
| `JsonText.ParseText` | src/common/json.c:513-529 | the cursor parser gives the value of the grammar or nothing; `Spelling.ParseExact` says which texts have one |
| `Spelling.ParseExact` | src/common/json.c:211-529 | a text parses to a value if and only if it is a spelling of it: any white space around tokens, any legal escape of each byte of a string, any form of a number, members in order |
| `Spelling.PrintCompact` | src/common/json.c:691-803 | the printed text is a spelling without white space and with only the escapes it needs |
| `JsonText.Cursor.ReadValue` | src/common/json.c:465-511 | the value at the cursor, which is left just behind it |
| `JsonText.Cursor.ReadArray` | src/common/json.c:351-397 | an array, empty or not |
| `JsonText.Cursor.ReadObject` | src/common/json.c:399-463 | an object, empty or not |
| `JsonText.Cursor.ReadItems` | src/common/json.c:366-396 | the items of an array up to its bracket |
| `JsonText.Cursor.ReadPairs` | src/common/json.c:414-462 | the members of an object up to its brace |
| `JsonText.Cursor.ReadText` | src/common/json.c:211-332 | a string with its escapes, cut at the first zero byte |
| `JsonText.Cursor.ReadNumber` | src/common/json.c:79-136 | a number token and its conversion |
| `JsonOutput.StrBuf.Reserve` | src/common/json.c:663-676 | room for the text and its terminating zero, contents kept |
| `JsonOutput.StrBuf.Append` | src/common/json.c:678-684 | the contents with the text behind them |
| `JsonOutput.StrBuf.AppendEscaped` | src/common/json.c:691-728 | the quoted, escaped string |
| `JsonOutput.StrBuf.Serialize` | src/common/json.c:730-790 | the buffer followed by the printed value |
| `JsonOutput.SerializeText` | src/common/json.c:792-803 | the printed value |
| `Base58.DivMod58` | src/common/base58.c:10-21 | the in-place long division: quotient in the array, remainder returned |
| `Base58.WriteDigits` | src/common/base58.c:52-63 | the base-58 digits of the value, never leaving a buffer of twice the input length |
| `Base58.NextDigit` | src/common/base58.c:54-62 | two divisions always clear a leading byte, so the room left suffices |
| `Base58.SkipOnes` | src/common/base58.c:65-68 | drops leading zero digits without changing the value |
| `Base58.WriteOnes` | src/common/base58.c:69-72 | one `1` per leading zero byte in front, within the buffer |
| `Base58.Encode` | src/common/base58.c:23-85 | one `1` per leading zero byte, then the digits without leading zeros |
| `Base58.Decode` | src/common/base58.c:95-156 | the big-endian bytes of the value, or nothing for a foreign character |
| `Base58.DecodeEncode` | src/common/base58.c:95-156 | decoding an encoding returns the bytes without leading zeros, so it is the inverse if and only if the first byte is not zero |
| `Base58.EncodeDecode` | src/common/base58.c:23-156 | encoding a decoded text gives the text without its leading `1`s, so it is the inverse if and only if the text does not start with `1` |
| `Base58.EncodingInjective` | src/common/base58.c:23-85 | no two byte strings share an encoding |
| `Base58.LeadingOnes` | src/common/base58.c:65-85 | the leading `1`s count the leading zero bytes |
| `WireLayout.Alphabet58` | src/common/base58.c:7-7 | the digits are the letters and digits but `0`, `O`, `I` and `l`, in the order of their codes |
| `WireLayout.Accepted58` | src/common/base58.c:95-135 | a text decodes if and only if it is a non-empty text of these characters |
| `Varint.EncodeInto` | src/common/varint.c:30-67 | writes the encoding at its place and nothing else |
| `Varint.RoundTrip` | src/common/varint.c:69-109 | decoding inverts encoding for every 64-bit value, whatever follows |
| `Varint.DecodeShortest` | src/common/varint.c:69-109 | an accepted input is the encoding of its value if and only if it is as short as possible |
| `Varint.DecodeExact` | src/common/varint.c:69-109 | a number is decoded exactly from its four possible spellings, the shortest and the longer ones, and nothing only if the input is shorter than its first byte says |
| `WireLayout.VarintBytes` | src/common/varint.c:30-67 | the bytes of each of the four sizes, highest first |
| `Varint.CastExact` | src/core/crypto.c:372-372 | the cast to `int` is the number in range that differs by a multiple of 2^32 |
| `Varint.ReadBe64` | src/infra/object.c:13-21 | the shift loop reads the big-endian number |
| `Address.Encode` | src/core/address.c:101-162 | the address text for every version, stream and ripe |
| `Address.Decode` | src/core/address.c:204-310 | version, stream and ripe, or refusal with the output untouched |
| `Address.DecodeEncode` | src/core/address.c:204-310 | decoding inverts encoding for versions 2 and 3 always and for version 4 if and only if at least four bytes remain |
| `Address.ReencodeStable` | src/core/address.c:101-310 | re-encoding any accepted address decodes to the same triple |
| `Address.TextInjective` | src/core/address.c:101-162 | two decodable addresses with the same text are the same |
| `Address.OtherTexts` | src/core/address.c:204-212 | every version 3 address is also decoded from its text without `BM-` and from texts with any number of `1`s behind it |
| `Address.TextShort` | src/core/address.c:101-162 | the text of a version 4 address has at most 54 characters |
| `Address.AcceptedExact` | src/core/address.c:204-310 | a text is accepted if and only if it is, with or without `BM-`, base58 of version and stream in any spelling, a ripe without some of its leading zeros, and the checksum; in version 4 without all of its zeros and at least four bytes long |
| `WireLayout.AddressBytes` | src/core/address.c:101-162 | what stands behind `BM-`: version, stream, the ripe with up to two of its leading zeros left out, or all of them in version 4, and the checksum |
| `Address.EncodeWif` | src/core/address.c:164-175 | the wallet import format of a key |
| `Address.DecodeWif` | src/core/address.c:177-202 | the key of a well-formed text, or nothing |
| `Address.WifRoundTrip` | src/core/address.c:164-202 | decoding inverts encoding for every key |
| `WireLayout.WifBytes` | src/core/address.c:164-175 | the byte 128, the key and the checksum over both |
| `Address.WifAccepted` | src/core/address.c:177-202 | every accepted text re-encodes to itself without its leading `1`s, so to itself if and only if it has none |
| `Address.WifLeadingOne` | src/core/address.c:177-202 | the text of every key is accepted with a `1` in front, as the same key |
| `Base32.EncodeLower` | src/infra/object_sync.c:807-831 | the five-bit digits of the data, although the 64-bit buffer loses its high bits |
| `Base32.DecodeLower` | src/core/message_builder.c:518-548 | the bytes of the digits, nothing for a foreign character |
| `Base32.DecodeEncode` | src/core/message_builder.c:518-548 | decoding inverts encoding for data of every length |
| `Base32.EncodeDecode` | src/infra/object_sync.c:807-831 | encoding inverts decoding for texts of whole bytes |
| `WireLayout.OneByte32` | src/infra/object_sync.c:807-831 | one byte: its upper five bits, then its lower three and two zero bits |
| `Objects.ParseHeader` | src/infra/object.c:23-54 | the header fields and the offset behind them, or refusal |
| `Objects.HeaderRoundTrip` | src/core/message_builder.c:105-112 | a built header behind a nonce parses back |
| `Objects.HeaderExact` | src/infra/object.c:23-54 | a header is read exactly from three fixed big-endian numbers and two varints, however these are spelled |
| `WireLayout.HeaderBytes` | src/core/message_builder.c:105-112 | the time of expiry, the kind, the version and the stream, byte by byte |
| `Objects.BuildOnionpeer` | src/core/message_builder.c:550-580 | the object of a v3 onion name, and refusal of anything else |
| `Objects.HandleOnionpeer` | src/infra/object_sync.c:842-876 | the peer to register, always a v3 onion name with a port from 1 to 65535 |
| `Objects.OnionRoundTrip` | src/infra/object_sync.c:842-876 | a v3 onion name and port survive building and handling if and only if the port is not zero |
| `Objects.PeerExact` | src/infra/object_sync.c:842-876 | a body announces a peer if and only if a port from 1 to 65535 is followed by the prefix and the 35 bytes of the peer's name, and nothing else |
| `Objects.TakeVarbytes` | src/core/trial_decrypt.c:170-178 | the length-prefixed string at the cursor and the cursor behind it, with the guard computed modulo 2^64 |
| `Objects.GuardExact` | src/core/trial_decrypt.c:172-175 | a length that runs past the buffer is refused if and only if it is below 2^64 minus its offset |
| `Objects.LargestLengthPasses` | src/core/trial_decrypt.c:172-178 | the length 2^64 - 1 is let through at every offset but the first, and moves the cursor back by one |
| `Objects.VarbytesInside` | src/core/trial_decrypt.c:170-178 | what the guard lets through lies outside the buffer if and only if the sum wraps |
| `Objects.SignaturePast` | src/core/crypto.c:358-375 | a signature's length takes the verifier past the buffer if and only if its cast to `int` does, which needs a length that wraps the sum and a buffer of more than 2 GiB |
| `Objects.TakeSignature` | src/core/crypto.c:358-375 | the signature as the verifier gets it, with its length cast to `int` |
| `Messages.DecodeSimpleText` | src/core/trial_decrypt.c:41-87 | the search loops give subject and body |
| `Messages.SimpleRoundTrip` | src/core/trial_decrypt.c:41-87 | the body comes back if and only if the subject lacks the separator, and then the subject as the first line of its first 500 bytes |
| `Messages.SimpleExact` | src/core/trial_decrypt.c:41-87 | any text: all of it is the body if it has no separator or one at its first or second byte; otherwise the body is what follows the first separator and the subject the first line of at most 500 bytes from the ninth byte up to it |
| `Messages.FirstLineExact` | src/core/trial_decrypt.c:68-77 | a first line ends before the first line break, or with the text |
| `Messages.BuildMsg` | src/core/message_builder.c:266-327 | the signed and encrypted payload |
| `WireLayout.SenderLayout` | src/core/message_builder.c:279-288 | version, stream, flags, both keys without their first byte, and from version 3 the difficulty |
| `WireLayout.ContentLayout` | src/core/message_builder.c:289-292 | the recipient's ripe, the encoding, then message and ack behind their lengths |
| `Messages.BodyRoundTrip` | src/core/trial_decrypt.c:95-258 | the bytes the receiver verifies are the bytes the builder signed, and the body is read if and only if it names the receiver's ripe |
| `Messages.OtherEncoding` | src/core/trial_decrypt.c:232-250 | a body in any other encoding is read under the same conditions, with its whole message as the text and no subject |
| `Messages.MsgRoundTrip` | src/core/message_builder.c:266-327 | a built message read by any holder of the recipient's key gives back every field if the holder has the ripe it names, and is refused otherwise |
| `Messages.TrialDecryptBody` | src/core/trial_decrypt.c:95-258 | the cursor through the plaintext, with every refusal, and with the lengths that wrap the guards |
| `Messages.TrialDecryptMsg` | src/core/trial_decrypt.c:260-309 | the first unlocked identity that opens the object |
| `Messages.TrialRoundTrip` | src/core/trial_decrypt.c:260-309 | with the recipient among the unlocked identities the message is read, with every field, if and only if the first identity holding its encryption key has the recipient's ripe; otherwise nothing is delivered |
| `Messages.SharedKeyLoses` | src/core/trial_decrypt.c:285-303 | an identity that shares the recipient's encryption key under another ripe and comes first makes the message unreadable, though the recipient alone reads it |
| `Messages.ParseSignedPubkey` | src/core/pubkey_cache.c:357-434 | the fields of a signed pubkey, or refusal, with the length guard and the cast of the signature's length |
| `Messages.PubkeyV3RoundTrip` | src/core/pubkey_cache.c:357-434 | a built version 3 pubkey parses back |
| `Messages.PubkeyV4RoundTrip` | src/core/pubkey_cache.c:436-557 | a built version 4 pubkey is opened by the right candidate, and returned if and only if its keys hash to the candidate's ripe |
| `Authenticity.MsgAuthentic` | src/core/trial_decrypt.c:95-258 | whenever a message is read, the signature bytes in it were made over the header and the plaintext in front of them with the key that the reported sender address is hashed from, and every reported field is the one parsed from that plaintext |
| `Authenticity.SignedCovers` | src/core/trial_decrypt.c:163-205 | where text and ack of a message that was read stand against the end of the signed part: always inside it for an ordinary recipient, and for a channel the text is if and only if the length of the ack does not take the cursor back behind it |
| `Authenticity.UnsignedText` | src/core/trial_decrypt.c:180-246 | a body that a channel reads although only the front of its text was signed |
| `Authenticity.OutOfBoundsExact` | src/core/trial_decrypt.c:163-258 | a body is read past its buffer if and only if it names the reader's ripe, its signature verifies and the length of the message wraps or that of an ack that is copied; above 2 GiB also if the cast length of the signature leaves the buffer |
| `Authenticity.AnySignatureLength` | src/core/trial_decrypt.c:189-208 | a body whose signature is declared 2^64 - 1 bytes long passes the length guard and is refused by the verifier, which gets -1 |
| `Authenticity.SignedMessageLength` | src/core/trial_decrypt.c:170-178 | any signer's body whose message is declared 2^64 - 1 bytes long is read past its buffer by every recipient |
| `Authenticity.PubkeyV4Authentic` | src/core/pubkey_cache.c:436-557 | whenever a version 4 pubkey is returned, its keys hash to the candidate's ripe, and the signature bytes in it were made with its signing key over the clear part and exactly the keys and the difficulty that are reported |
| `Authenticity.PubkeyPastExact` | src/core/pubkey_cache.c:403-418 | a key part is read past its buffer if and only if the cast length of its signature leaves it, which needs more than 2 GiB |
| `Authenticity.AnyPubkeyLength` | src/core/pubkey_cache.c:403-418 | keys with a signature declared 2^64 - 1 bytes long pass the length guard and are refused by the verifier |

## Left out

- SQLite itself: statements are functions on maps and sequences, and a failing statement is a write that did not happen.
- The cut of a label at 127 bytes when it is stored.
- OpenSSL: key derivation, sealing, signatures and hashes are symbolic terms or parameters with the laws stated where they are used; `ECDSA_verify` is taken to refuse a negative length.
- The post-quantum branches, which repeat the version 4 shape.
- Allocation failures and logging.
- `broadcast` objects and their one-stage send, which repeat the message send without its first stage.
- Sends outside a request (`api_send_slot` without a state) and the global count of suspended connections.
- The getpubkey and version messages, packet framing and checksums, peer selection, ratings, Tor control, HTTP transport and the command line: single-branch behaviour around the modelled parts.
- The PoW search: a proof of work is an outcome, found or abandoned.
- The random distribution of stem deadlines: any delay of at least ten seconds.
- Recursion depth of the JSON parser, and `long long` overflow on numbers of 2^63 and above, which the source leaves undefined.
- `strtod` and `%.17g`: parameters; exactness is assumed only for whole numbers below 2^53, and a number that does not print as a number token (infinity) is outside the round trip.
- What the source reads when a wrapped length lets a string reach past its buffer: the model ends with `OutOfBounds`.
- Addresses of version 0, for which the leading zero byte of the payload makes the result depend on the checksum.
- The limit of 10,000 identities of a bulk unlock of everything, and the bulk import loop around the modelled import.
- Duplicate unlocks of one address: a lock removes one entry, as in the source, and nothing is claimed about absence.
- Migration.FreshIrrelevant: does not fix the place of a new row in the listing, because the source takes it from the clock.
- SendPipeline.SendNowOver: takes the proof of work as always found, because the synchronous search has no cancel.
