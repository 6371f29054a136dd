/** Departures during a ballot: the ones after which a decision still has the right votes behind it. */
module Departures {
  import opened Prelude
  import opened Ledger
  import opened Membership
  import opened Ballots
  import opened Majority
  import opened Continuations
  import opened LostUpdates

  /** Nothing new is proposed on `b` on the way. */
  ghost predicate NotReopened(c: Chain, txs: seq<Tx>, b: Address) {
    txs != [] ==>
      NotReopened(c, txs[..|txs| - 1], b) && !Opens(ExecFrom(c, txs[..|txs| - 1]), txs[|txs| - 1], b)
  }

  lemma {:induction false} GatheringReopensNothing(c: Chain, txs: seq<Tx>, b: Address)
    requires Gathering(txs)
    ensures NotReopened(c, txs, b) && Staying(txs)
  {
    if txs != [] {
      GatheringReopensNothing(c, txs[..|txs| - 1], b);
    }
  }

  /** The vote of `v` decides `b` without a majority of members behind it, or not at the first vote past half. */
  ghost predicate Misfired(d: Chain, v: Address, b: Address) {
    Decides(d, v, b)
    && (!Backed(d, v, b) || |d.consensuses[b].approvals| != |d.groups[d.consensuses[b].group].members| / 2)
  }

  /** Ballot `b` of `g`, which is open in `c`, misfires after the run, in which nobody leaves and nothing new is
      proposed on it. */
  ghost predicate Misfires(c: Chain, g: Address, txs: seq<Tx>, v: Address, b: Address) {
    Staying(txs) && ActiveIn(c, g, b) && NotReopened(c, txs, b) && Misfired(ExecFrom(c, txs), v, b)
  }

  /** What runs in scope keep about the open ballots of `g`. */
  ghost predicate InOrder(c: Chain, g: Address) {
    && Inv(c) && g in c.groups && Tallied(c, g) && Current(c, g) && ProposerIn(c, g)
    && forall b | ActiveIn(c, g, b) ::
         var B := c.consensuses[b]; B.approvals != [] && B.approvals[0] == B.proposer && NoDup(B.approvals)
  }

  lemma ScopeKeepsOrder(txs: seq<Tx>, g: Address)
    requires InScope(txs, g) && g in Exec(txs).groups
    ensures InOrder(Exec(txs), g)
  {
    RunInv(txs);
    RunTallied(txs, g);
    RunCurrent(txs, g);
    RunProposerIn(txs, g);
    forall b | ActiveIn(Exec(txs), g, b)
      ensures var B := Exec(txs).consensuses[b]; B.approvals != [] && B.approvals[0] == B.proposer && NoDup(B.approvals)
    {
      BallotIntegrity(txs, b);
    }
  }

  // ---- Departures that lead to a misfire --------------------------------------------------------

  /** A departed member stays out of the group that a ballot is finally decided in. */
  lemma StaysOut(c: Chain, g: Address, i: nat, c': Chain, b: Address, d: Chain, v: Address)
    requires Inv(c) && g in c.groups && i < |c.groups[g].members| && RemoveMember(c, g, i) == Some(c')
    requires Inv(c') && OneVoteLeft(c', d, g, b, v)
    ensures var left := c.groups[g].members[i];
            && left in d.accounts && Owner(d, left) == Owner(c, left) && left !in d.groups[g].members
            && forall m | m in d.groups[g].members && m in d.accounts :: Owner(d, m) != Owner(c, left)
  {
    var left := c.groups[g].members[i];
    assert GroupOk(c, g);
    SwapRemoveMembers(c.groups[g].members, i);
    OwnersKept(c, g, i, c');
    forall m | m in d.groups[g].members && m in d.accounts ensures Owner(d, m) != Owner(c, left) {
      assert AccountOk(d, m) && AccountOk(d, left);
    }
  }

  /** The proposer of an open ballot leaves: its payload can still be applied. */
  lemma ProposerGone(c: Chain, g: Address, i: nat, c': Chain, b: Address) returns (txs: seq<Tx>, v: Address)
    requires InOrder(c, g) && i < |c.groups[g].members| && RemoveMember(c, g, i) == Some(c')
    requires ActiveIn(c, g, b) && c.consensuses[b].proposer == c.groups[g].members[i]
    ensures Misfires(c', g, txs, v, b)
  {
    RemoveInv(c, g, i, c');
    OwnersKept(c, g, i, c');
    assert TalliedAt(c, g, b);
    txs, v := CanBeDecided(c', g, b);
    GatheringReopensNothing(c', txs, b);
    var d := ExecFrom(c', txs);
    StaysOut(c, g, i, c', b, d, v);
  }

  /** Distinct owners or not, voters own at most as many members as they are. */
  lemma {:induction false} OwnedAtMost(c: Chain, members: seq<Address>, voters: seq<Address>)
    requires Sane(c) && forall m | m in members :: m in c.accounts
    ensures |Owned(c, members, voters)| <= |voters|
  {
    if voters == [] {
      assert Owned(c, members, voters) == {};
    } else {
      OwnedAtMost(c, members, voters[1..]);
      var rest := Owned(c, members, voters[1..]);
      if m :| m in members && Owner(c, m) == voters[0] {
        forall m' | m' in members && Owner(c, m') == voters[0] ensures m' == m {
          assert AccountOk(c, m) && AccountOk(c, m');
        }
        assert Owned(c, members, voters) == rest + {m};
      } else {
        assert Owned(c, members, voters) == rest;
      }
    }
  }

  /** With a voter that owns no member, the members behind a ballot that fires at the first vote past half are
      too few. */
  lemma StrangerUnbacks(d: Chain, v: Address, b: Address, stranger: Address)
    requires Inv(d) && Decides(d, v, b) && d.consensuses[b].approvals != []
    requires stranger in d.consensuses[b].approvals[1..]
    requires forall m | m in d.groups[d.consensuses[b].group].members && m in d.accounts :: Owner(d, m) != stranger
    ensures Misfired(d, v, b)
  {
    var B := d.consensuses[b];
    var members, voters := d.groups[B.group].members, B.approvals[1..] + [v];
    assert GroupOk(d, B.group);
    var k :| 0 <= k < |B.approvals| - 1 && B.approvals[1..][k] == stranger;
    var others := voters[..k] + voters[k + 1..];
    assert voters == voters[..k] + [stranger] + voters[k + 1..];
    OwnedAtMost(d, members, others);
    assert Owned(d, members, voters) == Owned(d, members, others);
    if Backed(d, v, b) && Owner(d, B.proposer) in voters {
      assert B.proposer in Backers(d, v, b);
      assert Backers(d, v, b) == Owned(d, members, voters);
    }
  }

  /** Someone who has voted on an open ballot leaves: the vote still counts. */
  lemma VoterGone(c: Chain, g: Address, i: nat, c': Chain, b: Address, k: nat) returns (txs: seq<Tx>, v: Address)
    requires InOrder(c, g) && i < |c.groups[g].members| && RemoveMember(c, g, i) == Some(c') && ActiveIn(c, g, b)
    requires 1 <= k < |c.consensuses[b].approvals| && c.consensuses[b].approvals[k] == Owner(c, c.groups[g].members[i])
    ensures Misfires(c', g, txs, v, b)
  {
    RemoveInv(c, g, i, c');
    OwnersKept(c, g, i, c');
    assert TalliedAt(c, g, b);
    txs, v := CanBeDecided(c', g, b);
    GatheringReopensNothing(c', txs, b);
    var d := ExecFrom(c', txs);
    StaysOut(c, g, i, c', b, d, v);
    assert d.consensuses[b].approvals[1..][k - 1] == Owner(c, c.groups[g].members[i]);
    StrangerUnbacks(d, v, b, Owner(c, c.groups[g].members[i]));
  }

  /** Owners are external addresses: none is the address of an account contract. */
  ghost predicate OwnersExternal(c: Chain, g: Address)
    requires g in c.groups
  {
    forall m | m in c.groups[g].members :: Owner(c, m) !in c.accounts
  }

  /** Too few members stay for the entries of an open ballot: the next vote makes one too many. */
  lemma TooFewStay(c: Chain, g: Address, i: nat, c': Chain, b: Address) returns (txs: seq<Tx>, v: Address)
    requires InOrder(c, g) && i < |c.groups[g].members| && RemoveMember(c, g, i) == Some(c') && ActiveIn(c, g, b)
    requires OwnersExternal(c, g) && |c.consensuses[b].approvals| > (|c.groups[g].members| - 1) / 2
    ensures Misfires(c', g, txs, v, b)
  {
    RemoveInv(c, g, i, c');
    OwnersKept(c, g, i, c');
    assert GroupOk(c, g) && TalliedAt(c, g, b);
    SwapRemoveMembers(c.groups[g].members, i);
    txs := [];
    v := FreshMember(c', g, c.consensuses[b].approvals);
    assert CanApprove(c', v, b);
  }

  /** Some member's owner is not among fewer entries, the first of which is an account. */
  lemma FreshMember(c: Chain, g: Address, approvals: seq<Address>) returns (v: Address)
    requires Inv(c) && g in c.groups && OwnersExternal(c, g)
    requires approvals != [] && approvals[0] in c.accounts && |approvals| <= |c.groups[g].members|
    ensures v !in approvals && OwnsMember(c, c.groups[g].members, v)
  {
    var members := c.groups[g].members;
    var owners := Owners(c, members);
    OwnersDiffer(c, g);
    ExceptKeeps(owners, approvals[1..]);
    v := Except(owners, approvals[1..])[0];
    assert v in Except(owners, approvals[1..]);
    var k :| 0 <= k < |owners| && owners[k] == v;
    assert members[k] in members;
    assert approvals == [approvals[0]] + approvals[1..];
  }

  /** After a departure that is unfair or unsparing, some ballot can misfire. */
  lemma UnfairExitMisfires(c: Chain, g: Address, i: nat, c': Chain) returns (txs: seq<Tx>, v: Address, b: Address)
    requires InOrder(c, g) && i < |c.groups[g].members| && RemoveMember(c, g, i) == Some(c') && OwnersExternal(c, g)
    requires !(FairExit(c, g, i) && SparingExit(c, g, i))
    ensures Misfires(c', g, txs, v, b)
  {
    if !SparingExit(c, g, i) {
      b :| ActiveIn(c, g, b) && c.consensuses[b].proposer == c.groups[g].members[i];
      txs, v := ProposerGone(c, g, i, c', b);
    } else {
      b :| ActiveIn(c, g, b) && !FairTo(c, g, i, b);
      if |c.consensuses[b].approvals| > (|c.groups[g].members| - 1) / 2 {
        txs, v := TooFewStay(c, g, i, c', b);
      } else {
        var k :| 1 <= k < |c.consensuses[b].approvals|
                 && c.consensuses[b].approvals[k] == Owner(c, c.groups[g].members[i]);
        txs, v := VoterGone(c, g, i, c', b, k);
      }
    }
  }

  // ---- Departures that do not -------------------------------------------------------------------

  /** A ballot that is open after a step that neither reopens it nor lets anyone leave. */
  lemma OpenStep(c: Chain, tx: Tx, g: Address, b: Address)
    requires Inv(c) && g in c.groups && !Departs(c, tx, g) && !Opens(c, tx, b) && ActiveIn(Apply(c, tx), g, b)
    ensures ActiveIn(c, g, b) && Apply(c, tx).consensuses[b].proposer == c.consensuses[b].proposer
    ensures g in Apply(c, tx).groups && c.groups[g].members <= Apply(c, tx).groups[g].members
    ensures NoDup(c.consensuses[b].approvals) ==> NoDup(Apply(c, tx).consensuses[b].approvals)
  {
    if tx.ChangeIpfsHash? || tx.Approve? {
      VotingFrame(c, tx);
      StillOpen(c, tx, g, b);
      if VotesOn(c, tx, b) {
        VoteRecorded(c, tx, b);
      } else {
        OtherTxFrame(c, tx, b);
      }
    } else {
      OtherTxKeepsActive(c, tx, g, b);
    }
  }

  /** A ballot that is open after a run without departures or a new proposal on it. */
  lemma {:induction false} OpenSince(c: Chain, txs: seq<Tx>, g: Address, b: Address)
    requires Inv(c) && g in c.groups && Staying(txs) && NotReopened(c, txs, b) && ActiveIn(ExecFrom(c, txs), g, b)
    ensures Inv(ExecFrom(c, txs)) && ActiveIn(c, g, b) && g in ExecFrom(c, txs).groups
    ensures ExecFrom(c, txs).consensuses[b].proposer == c.consensuses[b].proposer
    ensures c.groups[g].members <= ExecFrom(c, txs).groups[g].members
    ensures NoDup(c.consensuses[b].approvals) ==> NoDup(ExecFrom(c, txs).consensuses[b].approvals)
  {
    FromInv(c, txs);
    if txs != [] {
      var before, tx := txs[..|txs| - 1], txs[|txs| - 1];
      FromInv(c, before);
      FromExtends(c, before);
      assert tx in txs;
      OpenStep(ExecFrom(c, before), tx, g, b);
      OpenSince(c, before, g, b);
    }
  }

  lemma {:induction false} StayingKeepsTallied(c: Chain, g: Address, txs: seq<Tx>)
    requires Inv(c) && g in c.groups && Tallied(c, g) && Current(c, g) && Staying(txs)
    ensures g in ExecFrom(c, txs).groups && Tallied(ExecFrom(c, txs), g)
  {
    if txs != [] {
      var before := txs[..|txs| - 1];
      StayingKeepsTallied(c, g, before);
      StayingKeepsCurrent(c, g, before);
      FromInv(c, before);
      assert txs[|txs| - 1] in txs;
      StepInv(ExecFrom(c, before), txs[|txs| - 1]);
      StepTallied(ExecFrom(c, before), txs[|txs| - 1], g);
    }
  }

  /** After a departure that is safe, fair and sparing, no open ballot misfires. */
  lemma FairExitFires(c: Chain, g: Address, i: nat, c': Chain, txs: seq<Tx>, v: Address, b: Address)
    requires InOrder(c, g) && i < |c.groups[g].members| && RemoveMember(c, g, i) == Some(c')
    requires SafeExit(c, g, i) && FairExit(c, g, i) && SparingExit(c, g, i)
    ensures !Misfires(c', g, txs, v, b)
  {
    RemoveInv(c, g, i, c');
    OwnersKept(c, g, i, c');
    ExitKeepsCurrentIff(c, g, i, c');
    ExitKeepsTalliedIff(c, g, i, c');
    ExitKeepsProposerIff(c, g, i, c');
    var d := ExecFrom(c', txs);
    if Misfires(c', g, txs, v, b) && ActiveIn(d, g, b) {
      OpenSince(c', txs, g, b);
      StayingKeepsTallied(c', g, txs);
      assert TalliedAt(d, g, b);
      assert d.consensuses[b].proposer in c'.groups[g].members;
      BackedWhenTallied(d, v, b);
    }
    FromExtends(c', txs);
  }

  // ---- On runs ----------------------------------------------------------------------------------

  /** Transactions are sent by external addresses: no sender is an account contract. */
  ghost predicate ExternalSenders(txs: seq<Tx>) {
    forall tx | tx in txs :: tx.sender !in Exec(txs).accounts
  }

  lemma NewAccount(c: Chain, tx: Tx, a: Address)
    requires Inv(c) && a in Apply(c, tx).accounts && a !in c.accounts
    ensures tx.CreateAccount? && Apply(c, tx).accounts[a].owner == tx.sender
  {
    if tx.ChangeIpfsHash? || tx.Approve? {
      VotingFrame(c, tx);
    } else if tx.Join? || tx.Decline? {
      SameAccounts(c, tx);
    }
  }

  lemma SameAccounts(c: Chain, tx: Tx)
    requires Inv(c) && (tx.Join? || tx.Decline?)
    ensures Apply(c, tx).accounts.Keys == c.accounts.Keys
  {
    if Try(c, tx).Some? {
      Answered(c, tx.sender, tx.group);
    }
  }

  /** Every account belongs to the sender of some transaction. */
  lemma {:induction false} OwnersAreSenders(txs: seq<Tx>, a: Address)
    requires a in Exec(txs).accounts
    ensures exists tx :: tx in txs && tx.sender == Exec(txs).accounts[a].owner
  {
    var before, last := txs[..|txs| - 1], txs[|txs| - 1];
    RunInv(before);
    StepInv(Exec(before), last);
    assert last in txs;
    if a in Exec(before).accounts {
      OwnersAreSenders(before, a);
      var tx :| tx in before && tx.sender == Exec(before).accounts[a].owner;
      assert tx in txs;
    } else {
      NewAccount(Exec(before), last, a);
    }
  }

  lemma SendersMakeOwnersExternal(txs: seq<Tx>, g: Address)
    requires ExternalSenders(txs) && g in Exec(txs).groups
    ensures OwnersExternal(Exec(txs), g)
  {
    RunInv(txs);
    assert GroupOk(Exec(txs), g);
    forall m | m in Exec(txs).groups[g].members ensures Owner(Exec(txs), m) !in Exec(txs).accounts {
      OwnersAreSenders(txs, m);
    }
  }

  /** On every run in scope, a safe departure is fair and sparing exactly when no ballot that it leaves open can
      misfire before it is opened anew. */
  lemma FairAndSparingIff(txs: seq<Tx>, tx: Tx, g: Address)
    requires InScope(txs, g) && Departs(Exec(txs), tx, g) && SafeStep(Exec(txs), tx, g)
    requires g in Exec(txs).groups && ExternalSenders(txs)
    ensures FairStep(Exec(txs), tx, g) && SparingStep(Exec(txs), tx, g)
            <==> forall later, v, b :: !Misfires(Apply(Exec(txs), tx), g, later, v, b)
  {
    ScopeKeepsOrder(txs, g);
    SendersMakeOwnersExternal(txs, g);
    var c, c', i := Exec(txs), Apply(Exec(txs), tx), DepartingIndex(Exec(txs), tx);
    if FairExit(c, g, i) && SparingExit(c, g, i) {
      forall later, v, b ensures !Misfires(c', g, later, v, b) {
        FairExitFires(c, g, i, c', later, v, b);
      }
    } else {
      var later, v, b := UnfairExitMisfires(c, g, i, c');
    }
  }
}
