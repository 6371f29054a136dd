# FileTribe, modelled and proved in Dafny

FileTribe is a file-sharing system on Ethereum and IPFS. A group is an on-chain contract: its members vote
for the hash of a new repository state. Every member holds a replica of the repository, validates a proposed
change set before voting for it, and updates to it once the vote has passed. Files are stored as chains of
diffs, sealed in chunks, and the group key travels between members in a challenge-response handshake. This
project models those four parts and proves what they keep on every run.

## The parts

| file | what it holds |
|---|---|
| `Prelude.dfy` | options, bytes, sequence facts |
| `Ledger.dfy` | contract storage, and every transaction as a function that gives the next chain state or reverts |
| `Membership.dfy` | structure, invitations and membership on every run |
| `Authority.dfy` | which transactions succeed, and what alone changes a group's hash, members, invitations and ballots |
| `Ballots.dfy` | what a ballot records; compare-and-swap of the repository hash |
| `Majority.dfy` | routing of proposals, exact firing, progress, strict majority |
| `Continuations.dfy` | what a ballot comes to with other transactions in between, and that it finds its voters |
| `LostUpdates.dfy` | unsafe departures are exactly the ones after which an update can be lost |
| `Departures.dfy` | unfair and unsparing departures are exactly the ones after which a ballot can misfire |
| `Witnesses.dfy` | runs from genesis that show why the voting theorems need their scopes |
| `Contracts.dfy` | the contract code: account, group and consensus objects updating their storage in place, with their loops, proved to be those transactions |
| `Repo.dfy` | diffs, blocks, replicas, commit, validation and update as functions |
| `Replication.dfy` | chain reconstruction, honest commits, convergence of the replicas |
| `Outcomes.dfy` | what commits, validated change sets and updates leave behind: hashes, texts, write lists, keys |
| `Validation.dfy` | exactness of validation, one history per file, write lists |
| `RepoCode.dfy` | the repository code: metas, files, directories and block store as objects, proved to be those functions |
| `Sealing.dfy` | the 192-bit nonce counter, chunked sealing and opening |
| `Handshake.dfy` | the two session state machines and both ends over an unreliable network |

## How to read the theorems

- A run of the contracts is any sequence of transactions from genesis; a transaction that reverts changes
  nothing (`Ledger.Apply`, `Ledger.Exec`). Accounts come from `createAccount`, so that an owner has one account
  is proved and not assumed.
- Theorems about one transaction from a state with `Membership.Inv` hold after every run, by `Membership.RunInv`.
- Ballot histories (`Ballots.LastProposal`), declines (`Membership.DeclineCount`) and departures
  (`Majority.Departures`) are read off the run, not off the contract storage, and theorems connect the two.
- `SafeRun`, `FairRun`, `SparingRun` and `TidyRun` are the scopes of the voting theorems. Each is a condition on the
  state just before a `leave`, `kick` or `join`, and one step is harmless exactly when it meets the condition:
  `ExitKeepsCurrentIff` with `SafeExitIff`, `ExitKeepsTalliedIff` and `ExitKeepsProposerIff` with `FairAndSparingIff`,
  and `JoinKeepsRoutedIff`. Departures while no ballot is open meet the first three (`QuietInScope`), runs without
  departures all four (`StayingIsQuietAndTidy`). `Witnesses.dfy` has runs from genesis: one inside all scopes on which a vote decides,
  and one outside each scope on which the property fails.
- Cryptography is ideal: a digest determines the hashed bytes, a stored block opens with its key only, only the
  signer makes its signatures. The secret box of `Sealing.dfy` and the diff library of `Repo.dfy` are parameters
  with stated laws (`Sealing.Cipher.Lawful`, `Repo.Tools.Correct`), so the theorems hold for every
  implementation that has them. `Tools.fuzzy` is unconstrained: nothing depends on what patching does to a
  text that a diff was not made for.

## Where code and documentation disagree

- `client/fs/meta/filemeta.go:36` says that an empty write list gives everyone write access. In the code it gives
  write access to nobody: no one change set moves the file's head (`Validation.EmptyListFreezesHead`), and no grant
  adds to an empty pending list (`Validation.EmptyListIsFinal`). But validation does not check an entry that keeps the
  head (`client/fs/grouprepo.go:220-224`), and the update installs its write list (`client/fs/file.go:155-157`), so two
  change sets of anybody's move the head of any file (`Validation.NewListMovesHead`). An empty list freezes the file
  over a run exactly when every accepted change set keeps it empty (`Validation.StaysFrozenIff`).
- A declined invitation puts the group in the account's group list just as an accepted one does
  (`eth/contracts/Account.sol:69`); `Membership.MembershipConservation` counts them.

## Model

| member | source | states |
|---|---|---|
| `Membership.SweepOfSingle` | eth/contracts/Account.sol:50-62 | the answer loop, which steps past the element it swaps in, removes exactly the one invitation held from the group and records the group once |
| `Membership.SweepStepsPast` | eth/contracts/Account.sol:50-62 | were a group listed twice, the last time at the end, the loop would take out one entry and step past the other |
| `Membership.OnGroupLeftEffect` | eth/contracts/Account.sol:78-89 | leaving takes out exactly one occurrence of the group and nothing else |
| `Membership.OwnersAreInjective` | eth/contracts/FileTribeDApp.sol:39-46 | on every run, one owner has one account |
| `Membership.RunInv` | eth/contracts/Group.sol:93-184 | every run keeps the structural invariant: members are distinct existing accounts, every listed consensus is the group's own, every stored index is in range, pending invitees are no members, account and group agree on invitations |
| `Membership.InvitationMirror` | eth/contracts/Group.sol:142-184 | on every run, an account holds an invitation exactly once if and only if the group's slot for its owner names it, and then it is no member |
| `Membership.MembershipConservation` | eth/contracts/Account.sol:35-89 | on every run, occurrences of a group in an account's list = 1 if it is a member, plus the number of times it declined |
| `Authority.SucceedsIff` | eth/contracts/Group.sol:44-184 | after any run a transaction succeeds if and only if it is allowed: founding by the account's owner, inviting, kicking and changing the hash by someone who owns a member, joining and declining by the owner of an invited account, leaving by the owner of a member, voting by the owner of a member who has not voted on the open ballot; otherwise nothing changes |
| `Authority.HashChanges` | eth/contracts/Group.sol:59-89 | one transaction sets a group's hash to the one sent by the owner of its only member, or to the payload of a ballot that an allowed vote gives more than half the group's size in entries, and leaves it alone in every other case |
| `Authority.ProposalRecorded` | eth/contracts/Group.sol:59-74 | in a group of several members, the change by an owner of a member opens a listed consensus on the hash of the moment with the recorded proposer as the only entry, and does nothing else |
| `Authority.MembersChange` | eth/contracts/Group.sol:93-174 | one transaction takes out of a group exactly the member whose owner leaves or whom an owner of a member kicks, and brings in exactly the invited account whose owner joins |
| `Authority.GroupsAreFounded` | eth/contracts/Group.sol:31-42 | a new group comes from its founder, who is the only member, with an empty hash and one closed consensus |
| `Authority.InvitationsChange` | eth/contracts/Group.sol:142-184 | an account comes to hold an invitation only from an owner of a member, and gives it up only by its owner's answer |
| `Authority.BallotsChange` | eth/contracts/Consensus.sol:22-48 | a ballot opens by a proposal on it and closes only when a ballot of its group is settled while it is listed |
| `Ballots.BallotIntegrity` | eth/contracts/Consensus.sol:22-62 | on every run, a consensus stores its latest proposal: payload, digest of the hash then current followed by the payload, the proposer first, then the voters since, none twice, each a member when voting |
| `Ballots.DecisionApplies` | eth/contracts/Group.sol:76-89 | the deciding vote never reverts; it installs the payload and closes exactly the listed consensuses |
| `Ballots.ExitKeepsCurrentIff` | eth/contracts/Group.sol:93-132 | a departure keeps all open ballots listed, based on the current hash and with a voter left, if and only if it is safe |
| `Ballots.RunCurrent` | eth/contracts/Group.sol:59-132 | on every run with safe departures, every open ballot is listed, was proposed against the current hash, and the group has two members |
| `Ballots.CompareAndSwap` | eth/contracts/Group.sol:59-89 | on every such run, an applied payload replaces exactly the hash it was proposed against, and no ballot survives the change |
| `Majority.DriftCountsDepartures` | eth/contracts/Group.sol:108-110 | the consensus list outgrows the member list by exactly the number of departures |
| `Majority.JoinerRoutedIff` | eth/contracts/Group.sol:160-174 | a newcomer's proposals are recorded under the newcomer exactly when nobody has left yet or the waiting consensus was its own: the join is tidy |
| `Majority.JoinKeepsRoutedIff` | eth/contracts/Group.sol:160-174 | a join keeps every member routed to its own consensus if and only if it is tidy |
| `Majority.BallotRouting` | eth/contracts/Group.sol:186-188 | on every run whose joins are tidy, re-joins included, each member's stored index leads to a consensus recorded under that member, and is its position or beyond the member list |
| `Majority.ExitKeepsTalliedIff` | eth/contracts/Group.sol:93-132 | a departure leaves every open ballot with at most half the group's size in entries and all its voters members, if and only if the one who leaves has not voted on it and its entries are at most half of those who stay |
| `Majority.RunTallied` | eth/contracts/Consensus.sol:39-48 | on every run whose departures are safe and fair in that sense, an open ballot has at most half the group's size in entries and its voters are still members |
| `Majority.ExactFiring` | eth/contracts/Consensus.sol:39-48 | on every such run, the applying vote is the one that makes exactly half the group's size plus one entries |
| `Majority.Progress` | eth/contracts/Consensus.sol:39-48 | with the members fixed, as many fresh votes as are missing apply the payload on the last one and not earlier |
| `Majority.StayingIsQuietAndTidy` | eth/contracts/Group.sol:93-174 | a run on which nobody leaves the group is within the scope of every voting theorem |
| `Majority.ExitKeepsProposerIff` | eth/contracts/Group.sol:93-132 | a departure leaves the proposers of all open ballots in the group if and only if the one who leaves has none open |
| `Majority.RunProposerIn` | eth/contracts/Consensus.sol:22-31 | on every run whose departures spare proposers in that sense and whose joins are tidy, the recorded proposer of an open ballot is a current member |
| `Majority.StrictMajority` | eth/contracts/Consensus.sol:22-48 | on every run in all scopes, an applied payload is backed by current members only: more than half of them if the proposer's owner did not vote too, exactly half rounded down otherwise |
| `Majority.QuietInScope` | eth/contracts/Group.sol:93-132 | departures while no ballot is open are safe, fair and sparing |
| `Continuations.InterleavedProgress` | eth/contracts/Consensus.sol:39-48 | with invitations, votes on other ballots and any other transactions in between, as long as nobody enters or leaves, no other ballot of the group is decided and nothing new is proposed on this one, votes up to half the group's size are only counted and the next one applies the payload |
| `Continuations.EnoughFreshVoters` | eth/contracts/Consensus.sol:39-62 | an open ballot that is tallied always finds among the members as many distinct fresh voters as it needs to apply |
| `LostUpdates.CanBeDecided` | eth/contracts/Group.sol:142-174 | whoever has voted, newcomers can bring an open ballot of a group with members to its deciding vote |
| `LostUpdates.UnsafeExitLosesUpdate` | eth/contracts/Group.sol:93-132 | after any unsafe departure from a state whose open ballots are current, some run without further departures applies a payload over a hash it was not proposed against |
| `LostUpdates.SafeExitIff` | eth/contracts/Group.sol:93-132 | a departure from such a state is safe if and only if no run without further departures can lose an update after it |
| `Departures.UnfairExitMisfires` | eth/contracts/Group.sol:93-132 | after any departure that is unfair or unsparing, from a state in order, some run without further departures brings an open ballot to a deciding vote without the majority behind it, or with too many entries |
| `Departures.FairAndSparingIff` | eth/contracts/Group.sol:93-132 | on every run in scope, a safe departure is fair and sparing if and only if no ballot it leaves open can misfire in that way before it is opened anew |
| `Witnesses.OrdinaryVoteInScope` | eth/contracts/Consensus.sol:39-48 | a run from genesis within every scope on which the next vote applies a payload |
| `Witnesses.UnsafeDepartureLosesUpdate` | eth/contracts/Group.sol:93-113 | a run from genesis on which a ballot dropped from the list stays open and overwrites a newer hash |
| `Witnesses.DepartedVoterCounts` | eth/contracts/Group.sol:93-113 | a run from genesis with safe, sparing departures and tidy joins on which a departed voter still counts and the ballot fires with one entry too many |
| `Witnesses.DepartedProposerCounts` | eth/contracts/Group.sol:93-113 | a run from genesis with safe, fair departures and tidy joins on which the payload of a departed proposer is one vote of two members from applying |
| `Witnesses.LateJoinerMisrouted` | eth/contracts/Group.sol:160-174 | a run from genesis on which a newcomer's proposals go to another member's consensus |
| `Contracts.World.CreateAccount` | eth/contracts/FileTribeDApp.sol:39-46 | is the transaction function, reverts included |
| `Contracts.World.CreateConsensus` | eth/contracts/FileTribeDApp.sol:56-58 | adds a closed consensus without approvals at a fresh address |
| `Contracts.World.CreateGroup` | eth/contracts/Group.sol:31-42 | is the transaction function, with the group's and its first consensus's storage |
| `Contracts.Account.OnInvitation` | eth/contracts/Account.sol:50-76 | the swap-remove loop computes the specified sweep of the invitation list |
| `Contracts.Account.OnGroupLeft` | eth/contracts/Account.sol:78-89 | the search loop swap-removes the first occurrence only |
| `Contracts.World.IsMember` | eth/contracts/Group.sol:49-57 | the loop decides whether some member is owned by the address |
| `Contracts.World.ChangeIpfsHash` | eth/contracts/Group.sol:59-74 | is the transaction function: sets the hash for a single member, else proposes on the routed consensus |
| `Contracts.World.OnChangeIpfsHashConsensus` | eth/contracts/Group.sol:76-89 | closes every listed consensus and installs the payload, or reverts when the proposer's index leads nowhere or a listed consensus refuses |
| `Contracts.World.Leave` | eth/contracts/Group.sol:93-113 | is the transaction function, reverts included |
| `Contracts.World.Kick` | eth/contracts/Group.sol:115-132 | is the transaction function, reverts included |
| `Contracts.Group.DropMember` | eth/contracts/Group.sol:104-110 | the swap-removals of `leave` and `kick`: members shrink, consensuses do not |
| `Contracts.World.Invite` | eth/contracts/Group.sol:142-158 | is the transaction function, reverts included |
| `Contracts.World.Join` | eth/contracts/Group.sol:160-174 | is the transaction function, reverts included |
| `Contracts.World.Decline` | eth/contracts/Group.sol:176-184 | is the transaction function, reverts included |
| `Contracts.Consensus.Propose` | eth/contracts/Consensus.sol:22-31 | resets the ballot to the new payload with the proposer as its only entry, for the owning group only |
| `Contracts.Consensus.Invalidate` | eth/contracts/Consensus.sol:33-37 | clears the active flag, for the owning group only |
| `Contracts.Consensus.MemberNotVotedYet` | eth/contracts/Consensus.sol:54-62 | the scan decides absence from the approval list |
| `Contracts.World.Approve` | eth/contracts/Consensus.sol:39-48 | is the transaction function: records the vote and, when it decides, calls back into the group |
| `Contracts.World.Execute` | eth/contracts/Group.sol:59-184 | any transaction on a chain with the invariant is the transaction function; every contract keeps its own address and storage |
| `Contracts.Replay` | eth/contracts/Group.sol:59-184 | deployed from genesis and run on any sequence of transactions, the contract objects are in the state that the theorems about runs speak of |
| `Repo.PatchExact` | client/fs/file.go:221-228 | a diff applies to exactly one text and turns it into exactly one other |
| `Repo.PatchApplyExact` | client/fs/file.go:221-228 | patching gives the result of a diff on its own source text, and is up to the library on any other |
| `Repo.SomeCorrectTools` | client/fs/file.go:348 | a diff library with the law exists |
| `Replication.WalkRebuilds` | client/fs/file.go:173-236 | walking a chain of blocks back and applying the popped diffs gives the wanted version, from no file or any earlier version |
| `Replication.ChainReconstruction` | client/fs/file.go:173-236 | `Download` writes the newest version to orig and data for every chain, repeated contents included |
| `Replication.CommitStores` | client/fs/grouprepo.go:116-157 | a commit adds one block a file, built from committed head and orig, and changes only pending metas and newly found files |
| `Replication.FailedCommitsLeaveNoTrace` | client/fs/grouprepo.go:116-181 | any number of commits without update change no committed meta, and the next commit builds the same nodes |
| `Replication.CommitKeepsSync` | client/fs/grouprepo.go:160-181 | a committing replica stays in sync with the old committed state, and the block store stays acyclic |
| `Replication.CommitIsHonest` | client/fs/file.go:318-384 | every node of a commit follows the committed head, carries the hash of the committed text and leads to the data text |
| `Replication.UpdateFileInSync` | client/fs/file.go:151-169 | one file of an honest commit brings an in-sync replica to the next committed state, with or without a local file of that name |
| `Replication.Convergence` | client/fs/grouprepo.go:281-321 | after any run of local edits, write-list edits, failed commits and rounds, all replicas agree on meta and orig of every committed file |
| `Replication.RoundTexts` | client/fs/grouprepo.go:281-321 | after a round, every member's orig equals the committer's data at commit time, and other committed files are as before |
| `Outcomes.UpdateRecordsHash` | client/fs/grouprepo.go:281-321 | an update to no hash or the recorded one changes nothing; any other fails if and only if the key opens no change set there, and otherwise records the hash |
| `Outcomes.WrongKeyLeavesReplica` | client/fs/grouprepo.go:285-292 | a key that does not open the newest block leaves everything but the key as it was |
| `Outcomes.RoundRecordsHash` | client/fs/grouprepo.go:281-321 | after a round every replica has recorded its hash and its key |
| `Outcomes.SecondReceiveIsIdle` | client/fs/grouprepo.go:285-287 | receiving the same round again changes nothing |
| `Outcomes.MovedHeadFitsText` | client/fs/grouprepo.go:218-278 | a validated entry that moves a head comes from someone in the committed list, and its block opens with its key, follows the head and carries the hash of the text that the replica has |
| `Outcomes.MovedHeadIsOneStep` | client/fs/file.go:173-236 | downloading such an entry is applying that one block's diff to the text, whatever key it names for the next block |
| `Outcomes.ChangeSetApplied` | client/fs/grouprepo.go:281-321 | a validated change set with one entry a file does to every known file what its entry says: a new head patches orig and data by the new block and resets the pending changes, the same head keeps texts and pending changes |
| `Outcomes.ListsStayPresent` | client/fs/grouprepo.go:208-211 | over any run of validated change sets no file is left without a write list |
| `Outcomes.ValidNeedsKey` | client/fs/grouprepo.go:203-206 | a change set validates only with the key that opens it |
| `Outcomes.CommitLists` | client/fs/grouprepo.go:116-157 | every entry of a commit has the file's pending write list, and that of a new file the committer alone; its key is the new block's |
| `Outcomes.RoundLists` | client/fs/grouprepo.go:281-321 | after a round every replica has these lists as committed, and nothing pending |
| `Outcomes.CommitterKeepsData` | client/fs/file.go:173-236 | a round leaves the committer's own data directory as it is |
| `Outcomes.CommitterCommitsAgain` | client/fs/grouprepo.go:116-246 | after its round, a committer that could write the known files in its directory can commit the directory again, and every replica validates it |
| `Outcomes.MissedBlockStops` | client/fs/file.go:366-368 | a replica without the text that a committed block was made for downloads nothing from it, unless the block before happens to have the same key |
| `Validation.ValidationExact` | client/fs/grouprepo.go:199-278 | an in-sync peer accepts an honest commit if and only if the proposer may write every committed file in it and the peer has no local file named like a new one |
| `Validation.HeadStep` | client/fs/grouprepo.go:248-278 | a validated change set keeps a file's head or moves it to a block that directly follows it |
| `Validation.NoFork` | client/fs/grouprepo.go:199-278 | of two change sets valid in one state that move a file to different blocks, the one not applied first never validates again, whatever is accepted and stored in between |
| `Validation.LinearHistory` | client/fs/grouprepo.go:199-321 | over any run of validated change sets, each with the store of its time, following blocks back from a later head reaches every earlier head; heads only grow |
| `Validation.HeadMovesIff` | client/fs/grouprepo.go:218-243 | one change set of a proposer can move a committed file's head if and only if the proposer is in its committed write list |
| `Validation.EmptyListFreezesHead` | client/fs/grouprepo.go:226-237 | with an empty committed write list, no one change set that validates moves the file's head |
| `Validation.NewListMovesHead` | client/fs/grouprepo.go:220-224 | two change sets of any proposer, each valid when it comes in, move the head of any committed file: the first keeps the head and replaces the write list |
| `Validation.StaysFrozenIff` | client/fs/grouprepo.go:199-321 | over any run, a file with an empty list keeps the list and the head if and only if in every accepted change set the entry that counts for it has an empty list |
| `Validation.GrantIff` | client/fs/file.go:253-278 | a grant is refused unless the granter is in the list and the target is not, and puts the target at the end |
| `Validation.RevokeIff` | client/fs/file.go:281-316 | a revoke is refused unless both are in the list, and takes out the target with the order of all others kept |
| `Validation.EditsKeepNoDup` | client/fs/file.go:253-316 | any run of grants and revokes keeps the pending list free of duplicates; who is in it is decided by the last allowed edit about that person |
| `Validation.GrantThenRevoke` | client/fs/file.go:281-316 | a grant followed by the same user's revoke of the same target restores the list, order included |
| `Validation.EmptyListIsFinal` | client/fs/file.go:253-316 | no run of grants and revokes adds to an empty pending list |
| `RepoCode.File.FetchDiffs` | client/fs/file.go:192-219 | the fetching loop leaves the diffs of the walk on the stack, or stops when a block cannot be opened |
| `RepoCode.File.ApplyDiffs` | client/fs/file.go:221-228 | the popping loop applies them in reverse order of fetching |
| `RepoCode.File.Download` | client/fs/file.go:173-236 | writes orig and data as specified, or nothing on a failed fetch |
| `RepoCode.File.Update` | client/fs/file.go:151-169 | replaces the meta object; only a new head copies it into the pending changes, which stay an object of their own, and downloads |
| `RepoCode.File.GrantWriteAccess` | client/fs/file.go:253-278 | the loop decides the grant; only the pending list changes, never the committed meta's |
| `RepoCode.File.RevokeWriteAccess` | client/fs/file.go:281-316 | the loops decide and splice out the target; only the pending list changes, never the committed meta's |
| `RepoCode.File.UploadDiff` | client/fs/file.go:318-384 | stores exactly the node of the file under the new key and records the key as pending |
| `RepoCode.GroupRepo.CommitOne` | client/fs/grouprepo.go:124-154 | one iteration is one step of the specified commit |
| `RepoCode.GroupRepo.CommitChanges` | client/fs/grouprepo.go:160-181 | is the specified commit of the replica and the store |
| `RepoCode.GroupRepo.IsDiffNodeValid` | client/fs/grouprepo.go:248-278 | decides whether the new block follows the file's head and carries the hash of its orig |
| `RepoCode.GroupRepo.IsValidChangeSet` | client/fs/grouprepo.go:199-246 | the loop with early returns decides exactly the specified validity |
| `RepoCode.GroupRepo.UpdateOne` | client/fs/grouprepo.go:294-316 | one iteration is one step of the specified update |
| `RepoCode.GroupRepo.Update` | client/fs/grouprepo.go:281-321 | is the specified update; an unfetchable change set changes nothing |
| `Sealing.UpdateNonce` | tribecrypto/fileboxer.go:42-82 | the three-limb carry adds one modulo 2^192 |
| `Sealing.ChunkNonce` | tribecrypto/fileboxer.go:93-112 | chunk i starts at byte 104 i and carries the base nonce plus i modulo 2^192 |
| `Sealing.NoncesDistinct` | tribecrypto/fileboxer.go:93-112 | no nonce repeats within 2^192 chunks |
| `Sealing.RoundTrip` | tribecrypto/fileboxer.go:85-143 | opening a sealed file gives exactly the file, without error or out-of-range slice |
| `Sealing.SealedLength` | tribecrypto/fileboxer.go:85-115 | the ciphertext is 40 bytes longer for every started 64 bytes |
| `Sealing.OpensIff` | tribecrypto/fileboxer.go:118-143 | a ciphertext opens to a text if and only if it is made of boxed pieces of it, all full but the last |
| `Sealing.PanicIff` | tribecrypto/fileboxer.go:118-143 | the out-of-range slice is reached if and only if the full chunks open and 1 to 23 bytes are left over |
| `Sealing.ShortPanics` | tribecrypto/fileboxer.go:129-132 | every ciphertext of 1 to 23 bytes reaches it at once |
| `Sealing.OpenedLength` | tribecrypto/fileboxer.go:118-143 | a ciphertext that opens has a last chunk of at least 40 bytes |
| `Sealing.NextChunkDecides` | tribecrypto/fileboxer.go:118-143 | once some chunks have opened, the next decides: a faulty read, a chunk shorter than a nonce and one that does not open stop there with what was written so far |
| `Sealing.FailureHasPlace` | tribecrypto/fileboxer.go:118-143 | every failed opening has such a chunk, and what was written is what the chunks before it open to |
| `Sealing.FailureKeepsPrefix` | tribecrypto/fileboxer.go:118-143 | the same for a ciphertext read in full chunks |
| `Sealing.FullPiecesOpen` | tribecrypto/fileboxer.go:85-143 | whatever the reads return, the file opens to what was read if every read but the last was full |
| `Sealing.ShortReadsLose` | tribecrypto/fileboxer.go:93-112 | a file sealed in more pieces than its length has room for never opens to what was read |
| `Sealing.SomeLawfulCipher` | tribecrypto/fileboxer.go:101-137 | a cipher with the laws exists |
| `Sealing.Seal` | tribecrypto/fileboxer.go:85-115 | fails without a random nonce; else the loop writes one box a read, for any sizes of reads and whatever errors they report, and the specified sealing when reads are full |
| `Sealing.Open` | tribecrypto/fileboxer.go:118-143 | the loop has the specified outcome on any input, any sizes of reads and any errors that come with bytes, with what was written before an error |
| `Handshake.ServerSession.NextState` | client/communication/sessions/servers/getgroupkey_server_session.go:100-226 | is the server's transition, with every error exit and what is sent |
| `Handshake.ClientSession.NextState` | client/communication/sessions/clients/getgroupkey_client_session.go:98-213 | is the client's transition, with the step that goes on after a failed signature, and the keys handed to the callback |
| `Handshake.RunSafe` | client/communication/sessions/servers/getgroupkey_server_session.go:100-226 | the joint invariant of both ends and the network on every run |
| `Handshake.HandshakeSafety` | client/communication/sessions/servers/getgroupkey_server_session.go:100-226 | under loss, delay, reordering and duplication: one challenge and one answer at most, the answer only after membership and signature checks, one key accepted at most and it is the callback's; a session that has ended was closed exactly once, but the client's exactly twice after a failed signature |
| `Handshake.ClosesTwice` | client/communication/sessions/clients/getgroupkey_client_session.go:150-170 | a run on which the client's session is closed twice |
| `Handshake.ServerOpens` | client/communication/sessions/servers/getgroupkey_server_session.go:103-141 | on every run the server challenges a member and waits, and ends at once with the reason for anybody else or when the challenge does not go out |
| `Handshake.ServerAnswers` | client/communication/sessions/servers/getgroupkey_server_session.go:143-222 | on every run the next delivery ends the server session, with an answer for the client's signature of the challenge and a key that is there, and otherwise with the reason and none |
| `Handshake.RefusalIsFinal` | client/communication/sessions/servers/getgroupkey_server_session.go:103-112 | after a refused membership check no run brings a challenge, an answer or a key |
| `Handshake.BadSignatureIsFinal` | client/communication/sessions/servers/getgroupkey_server_session.go:143-154 | after any delivery but the client's signature of the challenge, every continuation leaves the session ended with that error, without an answer or a key |
| `Handshake.ServerEndIsFinal` | client/communication/sessions/servers/getgroupkey_server_session.go:100-102 | a server session that has ended does nothing any more |
| `Handshake.ClientOpens` | client/communication/sessions/clients/getgroupkey_client_session.go:98-146 | on every run the request goes out, or the client session ends with the reason |
| `Handshake.ClientAnswers` | client/communication/sessions/clients/getgroupkey_client_session.go:147-186 | on every run the client answers a delivery with its signature, or with nothing and an error when signing fails, and goes on waiting unless the message does not go out |
| `Handshake.ClientEnds` | client/communication/sessions/clients/getgroupkey_client_session.go:187-211 | the last delivery ends the client session for good, with the key for a known request and with an error when it is no key |
| `Handshake.HandshakeCompletes` | client/communication/sessions/clients/getgroupkey_client_session.go:98-213 | with honest ends, successful calls and in-order delivery both end without error and the client receives exactly the server's key |
| `Handshake.Drive` | client/communication/sessions/servers/getgroupkey_server_session.go:100-226 | one session object at each end, driven by any sequence of events, ends up in the state that the theorems about runs speak of |

## Left out

- Contracts.World: resolves addresses to contract objects and creates them in place of the factories; Solidity gas, reentrancy and integer overflow are not modelled.
- Contracts.World.Approve: the signature check is commented out in the source, so votes carry no signature here either.
- Ownership transfer, `removeAccount`, and calls to account or group hooks from contracts other than the modelled ones.
- RepoCode.Meta: a write list is a sequence in the meta object, so spare capacity shared between slices cannot be expressed.
- RepoCode.File.Download: the background download is one atomic step, and locks are omitted; disk and network errors other than a block that cannot be fetched or opened are not modelled.
- Repo.PatchExact: patches apply to their own source text exactly; the context matching of the diff library on other texts is the unconstrained `Tools.fuzzy`.
- Replication.ChainReconstruction: says nothing about a replica whose orig text is not on the chain, where the result is up to the fuzzy patching.
- Replication.Convergence: covers the one-block path of `Download`; blocks written by `UploadDiff` carry their own key as the key of the next block, so catching up over several of them is outside.
- RepoCode.GroupRepo.Update: hashes are compared exactly, while the source ignores case.
- Sealing.ShortReadsLose: says nothing about short reads that make no extra piece; whether the shifted chunks still open is then up to the cipher.
- Deleted files: neither commit nor validation of the source treats them.
- Departures.FairAndSparingIff: the senders of the run are external addresses and not account contracts, as the senders of transactions are; the other theorems hold for any senders.
- JSON encodings, keccak, elliptic curves and the secret box itself are ideal functions with stated laws.
- Composing the off-chain voter with the contracts: `client/groupevents.go:172` looks a consensus up by account address, while `eth/contracts/Group.sol:186-188` is keyed by owner, so the two are kept apart.
- Handshake.ClientSession: `Abort` and `IsAlive` of the client; the start of a session from the peer-to-peer manager is reduced to one first delivery.
- The IPFS wrapper, storage paths, address book, publish-subscribe connection, caches, factories and deployment.
