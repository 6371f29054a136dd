/** Voting on a new repository hash: what a ballot records, when it applies, and what an applied ballot was based on. */
module Ballots {
  import opened Prelude
  import opened Ledger
  import opened Membership

  ghost predicate ActiveIn(c: Chain, g: Address, b: Address) {
    b in c.consensuses && c.consensuses[b].group == g && c.consensuses[b].isActive
  }

  ghost predicate NoneActive(c: Chain, g: Address) {
    forall b :: !ActiveIn(c, g, b)
  }

  /** `tx` proposes on consensus `b` and succeeds. */
  ghost predicate Opens(c: Chain, tx: Tx, b: Address) {
    && tx.ChangeIpfsHash? && Try(c, tx).Some?
    && |c.groups[tx.group].members| != 1 && Target(c, tx.group, tx.sender) == Some(b)
  }

  /** `tx` votes on consensus `b` and succeeds. */
  ghost predicate VotesOn(c: Chain, tx: Tx, b: Address) {
    tx.Approve? && tx.consensus == b && Try(c, tx).Some?
  }

  /** `tx` makes a member of `g` leave. */
  ghost predicate Departs(c: Chain, tx: Tx, g: Address) {
    (tx.Leave? || tx.Kick?) && tx.group == g && Try(c, tx).Some?
  }

  /** The position of the member that `tx` takes out of its group. */
  ghost function DepartingIndex(c: Chain, tx: Tx): (i: nat)
    requires (tx.Leave? || tx.Kick?) && tx.group in c.groups
    ensures i <= |c.groups[tx.group].members|
  {
    var members := c.groups[tx.group].members;
    if tx.Leave? then FindOwner(c, members, tx.sender) else IndexOf(members, tx.member)
  }

  // ---- The history of a ballot ------------------------------------------------------------------

  /** One vote with the members the group had when it was cast. */
  datatype Vote = Vote(voter: Address, roster: seq<Address>)

  /** The latest proposal on a consensus: who made it, the hash it was made against, and the votes since. */
  datatype Proposal = Proposal(sender: Address, base: Bytes, payload: Bytes, votes: seq<Vote>)

  ghost function NextProposal(c: Chain, tx: Tx, b: Address, previous: Option<Proposal>): Option<Proposal> {
    if Opens(c, tx, b) then Some(Proposal(tx.sender, c.groups[tx.group].ipfsHash, tx.newHash, []))
    else if VotesOn(c, tx, b) && previous.Some? then
      var p := previous.value;
      Some(p.(votes := p.votes + [Vote(tx.sender, c.groups[c.consensuses[b].group].members)]))
    else previous
  }

  ghost function LastProposal(txs: seq<Tx>, b: Address): Option<Proposal> {
    if txs == [] then None
    else
      var before := txs[..|txs| - 1];
      NextProposal(Exec(before), txs[|txs| - 1], b, LastProposal(before, b))
  }

  ghost predicate OnRoster(c: Chain, v: Vote) {
    exists a :: a in v.roster && Owner(c, a) == v.voter && a in c.accounts
  }

  /** What a consensus stores is exactly its latest proposal: the digest of base and payload, the proposer
      first, then the voters since, no one twice, each a member when voting. */
  ghost predicate Faithful(c: Chain, b: Address, last: Option<Proposal>)
    requires b in c.consensuses
  {
    var B := c.consensuses[b];
    match last
    case None => B == NewConsensus(B.proposer, B.group)
    case Some(p) =>
      && B.payload == p.payload && B.digest == Keccak(p.base + p.payload)
      && |B.approvals| == |p.votes| + 1
      && B.approvals[0] == B.proposer
      && (forall k | 0 <= k < |p.votes| :: B.approvals[k + 1] == p.votes[k].voter && OnRoster(c, p.votes[k]))
      && NoDup(B.approvals)
  }

  ghost predicate History(c: Chain, b: Address, last: Option<Proposal>) {
    if b in c.consensuses then Faithful(c, b, last) else last == None
  }

  lemma FaithfulFrame(c: Chain, c': Chain, b: Address, last: Option<Proposal>)
    requires b in c.consensuses && Faithful(c, b, last) && Extends(c, c')
    requires c'.consensuses[b] == c.consensuses[b].(isActive := c'.consensuses[b].isActive)
    requires last.Some? || c'.consensuses[b] == c.consensuses[b]
    ensures Faithful(c', b, last)
  {
    if last.Some? {
      forall k | 0 <= k < |last.value.votes| ensures OnRoster(c', last.value.votes[k]) {
        var v := last.value.votes[k];
        assert OnRoster(c, v);
        var a :| a in v.roster && Owner(c, a) == v.voter && a in c.accounts;
        assert Owner(c', a) == v.voter;
      }
    }
  }

  /** A transaction that neither proposes nor votes on `b` can only clear its active flag. */
  lemma OtherTxFrame(c: Chain, tx: Tx, b: Address)
    requires Sane(c) && b in c.consensuses && !Opens(c, tx, b) && !VotesOn(c, tx, b)
    ensures b in Apply(c, tx).consensuses
    ensures Apply(c, tx).consensuses[b] == c.consensuses[b]
            || Apply(c, tx).consensuses[b] == c.consensuses[b].(isActive := false)
  {
  }

  lemma VoteRecorded(c: Chain, tx: Tx, b: Address)
    requires VotesOn(c, tx, b)
    ensures b in c.consensuses && b in Apply(c, tx).consensuses && CanApprove(c, tx.sender, b)
    ensures var B' := Apply(c, tx).consensuses[b];
            B' == c.consensuses[b].(approvals := c.consensuses[b].approvals + [tx.sender], isActive := B'.isActive)
  {
  }

  lemma OpenedFaithfully(c: Chain, tx: Tx, b: Address)
    requires Opens(c, tx, b)
    ensures b in Apply(c, tx).consensuses
    ensures Faithful(Apply(c, tx), b, NextProposal(c, tx, b, None))
  {
  }

  lemma VotedFaithfully(c: Chain, tx: Tx, b: Address, previous: Option<Proposal>)
    requires Inv(c) && VotesOn(c, tx, b) && b in c.consensuses && Faithful(c, b, previous) && previous.Some?
    ensures b in Apply(c, tx).consensuses
    ensures Faithful(Apply(c, tx), b, NextProposal(c, tx, b, previous))
  {
    var c', p := Apply(c, tx), previous.value;
    StepInv(c, tx);
    VoteRecorded(c, tx, b);
    var members := c.groups[c.consensuses[b].group].members;
    assert GroupOk(c, c.consensuses[b].group);
    OwnsMemberIff(c, members, tx.sender);
    var next := NextProposal(c, tx, b, previous).value;
    forall k | 0 <= k < |next.votes|
      ensures c'.consensuses[b].approvals[k + 1] == next.votes[k].voter && OnRoster(c', next.votes[k])
    {
      var v := next.votes[k];
      assert OnRoster(c, v);
      var a :| a in v.roster && Owner(c, a) == v.voter && a in c.accounts;
      assert Owner(c', a) == v.voter;
    }
  }

  lemma HistoryStep(c: Chain, tx: Tx, b: Address, previous: Option<Proposal>)
    requires Inv(c) && History(c, b, previous)
    ensures History(Apply(c, tx), b, NextProposal(c, tx, b, previous))
  {
    StepInv(c, tx);
    if Opens(c, tx, b) {
      OpenedFaithfully(c, tx, b);
    } else if b !in c.consensuses {
      NewConsensusIsEmpty(c, tx, b);
    } else if VotesOn(c, tx, b) {
      VoteNeedsProposal(c, tx, b, previous);
      VotedFaithfully(c, tx, b, previous);
    } else {
      OtherTxFrame(c, tx, b);
      FaithfulFrame(c, Apply(c, tx), b, previous);
    }
  }

  lemma NewConsensusIsEmpty(c: Chain, tx: Tx, b: Address)
    requires b !in c.consensuses
    ensures b in Apply(c, tx).consensuses ==>
              var B := Apply(c, tx).consensuses[b]; B == NewConsensus(B.proposer, B.group)
    ensures !VotesOn(c, tx, b)
  {
  }

  lemma VoteNeedsProposal(c: Chain, tx: Tx, b: Address, previous: Option<Proposal>)
    requires b in c.consensuses && VotesOn(c, tx, b) && Faithful(c, b, previous)
    ensures previous.Some?
  {
  }

  /** On every run, every consensus stores exactly its latest proposal, so votes for an old payload never
      count for a new one. */
  lemma {:induction false} BallotIntegrity(txs: seq<Tx>, b: Address)
    ensures History(Exec(txs), b, LastProposal(txs, b))
  {
    if txs != [] {
      var before := txs[..|txs| - 1];
      BallotIntegrity(before, b);
      RunInv(before);
      HistoryStep(Exec(before), txs[|txs| - 1], b, LastProposal(before, b));
    }
  }

  // ---- Compare and swap -------------------------------------------------------------------------

  /** An active ballot of `g` is listed, was proposed against the hash the group has now, and
      has someone to vote on it. */
  ghost predicate CurrentAt(c: Chain, g: Address, b: Address)
    requires g in c.groups && b in c.consensuses
  {
    var G, B := c.groups[g], c.consensuses[b];
    b in G.consensuses && B.digest == Keccak(G.ipfsHash + B.payload) && |G.members| >= 2
  }

  ghost predicate Current(c: Chain, g: Address)
    requires g in c.groups
  {
    forall b | ActiveIn(c, g, b) :: CurrentAt(c, g, b)
  }

  /** The member at position `i` may go: no ballot is open, or enough members stay and the consensus that
      the departure overwrites is closed or still listed elsewhere. */
  ghost predicate SafeExit(c: Chain, g: Address, i: nat)
    requires g in c.groups && i < |c.groups[g].members|
  {
    var G := c.groups[g];
    NoneActive(c, g)
    || (|G.members| >= 3 && i < |G.consensuses|
        && (!ActiveIn(c, g, G.consensuses[i])
            || G.consensuses[i] in G.consensuses[i := G.consensuses[|G.consensuses| - 1]]))
  }

  lemma ListedAfterExit(list: seq<Address>, i: nat, b: Address)
    requires i < |list| && b in list && b != list[i]
    ensures b in list[i := list[|list| - 1]]
  {
    var k :| 0 <= k < |list| && list[k] == b;
    assert list[i := list[|list| - 1]][k] == b;
  }

  /** A departure keeps every open ballot current exactly when it is safe. */
  lemma ExitKeepsCurrentIff(c: Chain, g: Address, i: nat, c': Chain)
    requires Inv(c) && g in c.groups && i < |c.groups[g].members| && RemoveMember(c, g, i) == Some(c')
    requires Current(c, g)
    ensures Current(c', g) <==> SafeExit(c, g, i)
  {
    var G := c.groups[g];
    assert GroupOk(c, g);
    assert forall b :: ActiveIn(c', g, b) <==> ActiveIn(c, g, b);
    if SafeExit(c, g, i) && !NoneActive(c, g) {
      forall b | ActiveIn(c', g, b) ensures CurrentAt(c', g, b) {
        assert CurrentAt(c, g, b);
        if b != G.consensuses[i] {
          ListedAfterExit(G.consensuses, i, b);
        }
      }
    }
    if Current(c', g) && !NoneActive(c, g) {
      var b :| ActiveIn(c, g, b);
      assert CurrentAt(c', g, b);
      if ActiveIn(c, g, G.consensuses[i]) {
        assert CurrentAt(c', g, G.consensuses[i]);
      }
    }
  }

  ghost predicate SafeStep(c: Chain, tx: Tx, g: Address) {
    Departs(c, tx, g) && g in c.groups ==>
      var i := DepartingIndex(c, tx);
      i < |c.groups[g].members| && SafeExit(c, g, i)
  }

  /** Every departure from `g` on the run is safe. */
  ghost predicate SafeRun(txs: seq<Tx>, g: Address) {
    txs != [] ==> SafeRun(txs[..|txs| - 1], g) && SafeStep(Exec(txs[..|txs| - 1]), txs[|txs| - 1], g)
  }

  lemma ProposalCurrent(c: Chain, tx: Tx, g: Address)
    requires Inv(c) && tx.ChangeIpfsHash? && g in c.groups && Current(c, g)
    ensures g in Apply(c, tx).groups && Current(Apply(c, tx), g)
  {
    var c' := Apply(c, tx);
    assert GroupOk(c, g);
    forall b | ActiveIn(c', g, b) ensures CurrentAt(c', g, b) {
      assert ActiveIn(c, g, b) ==> CurrentAt(c, g, b);
    }
  }

  /** The deciding vote never reverts: it puts the payload in place and closes every ballot of the group. */
  lemma DecisionApplies(c: Chain, sender: Address, b: Address)
    requires Inv(c) && Decides(c, sender, b)
    ensures var g := c.consensuses[b].group;
            && TryApprove(c, sender, b).Some?
            && var c' := TryApprove(c, sender, b).value;
            && c'.groups == c.groups[g := c.groups[g].(ipfsHash := c.consensuses[b].payload)]
            && c'.consensuses == Invalidate(CastVote(c, sender, b).consensuses, c.groups[g].consensuses)
  {
    var g := c.consensuses[b].group;
    assert GroupOk(c, g);
    var G := c.groups[g];
    var idx := Slot(G.memberToIdx, Owner(c, c.consensuses[b].proposer));
    assert G.consensuses[idx] in G.consensuses;
  }

  lemma VoteCurrent(c: Chain, tx: Tx, g: Address)
    requires Inv(c) && tx.Approve? && g in c.groups && Current(c, g)
    ensures g in Apply(c, tx).groups && Current(Apply(c, tx), g)
    ensures Decides(c, tx.sender, tx.consensus) && c.consensuses[tx.consensus].group == g ==>
              NoneActive(Apply(c, tx), g)
  {
    var c' := Apply(c, tx);
    if Decides(c, tx.sender, tx.consensus) {
      DecisionApplies(c, tx.sender, tx.consensus);
      var h := c.consensuses[tx.consensus].group;
      assert GroupOk(c, h);
      forall b | ActiveIn(c', g, b) ensures CurrentAt(c', g, b) && g != h {
        assert ActiveIn(c, g, b) && CurrentAt(c, g, b);
      }
    } else {
      forall b | ActiveIn(c', g, b) ensures CurrentAt(c', g, b) {
        assert ActiveIn(c, g, b) && CurrentAt(c, g, b);
      }
    }
  }

  /** Transactions that are no proposals, votes or departures from `g` leave open ballots as current as they were. */
  lemma OtherCurrent(c: Chain, tx: Tx, g: Address)
    requires Inv(c) && g in Apply(c, tx).groups && (g in c.groups ==> Current(c, g))
    requires !tx.ChangeIpfsHash? && !tx.Approve? && !Departs(c, tx, g)
    ensures Current(Apply(c, tx), g)
  {
    var c' := Apply(c, tx);
    forall b | ActiveIn(c', g, b) ensures CurrentAt(c', g, b) {
      OtherTxKeepsActive(c, tx, g, b);
      assert CurrentAt(c, g, b);
    }
  }

  lemma OtherTxKeepsActive(c: Chain, tx: Tx, g: Address, b: Address)
    requires Inv(c) && ActiveIn(Apply(c, tx), g, b)
    requires !tx.ChangeIpfsHash? && !tx.Approve? && !Departs(c, tx, g)
    ensures ActiveIn(c, g, b) && Apply(c, tx).consensuses[b] == c.consensuses[b] && g in c.groups
    ensures g in Apply(c, tx).groups
    ensures Apply(c, tx).groups[g].ipfsHash == c.groups[g].ipfsHash
    ensures c.groups[g].members <= Apply(c, tx).groups[g].members
    ensures c.groups[g].consensuses <= Apply(c, tx).groups[g].consensuses
  {
    NothingAtNext(c);
    if tx.Join? {
      JoinKeepsActive(c, tx, g, b);
    } else if tx.CreateGroup? {
      CreationKeepsActive(c, tx, g, b);
    } else if tx.Leave? || tx.Kick? {
      assert tx.group != g || Try(c, tx).None?;
    }
  }

  lemma JoinKeepsActive(c: Chain, tx: Tx, g: Address, b: Address)
    requires Inv(c) && tx.Join? && ActiveIn(Apply(c, tx), g, b)
    ensures b in c.consensuses && Apply(c, tx).consensuses[b] == c.consensuses[b]
  {
    NothingAtNext(c);
  }

  lemma CreationKeepsActive(c: Chain, tx: Tx, g: Address, b: Address)
    requires Inv(c) && tx.CreateGroup? && ActiveIn(Apply(c, tx), g, b)
    ensures b in c.consensuses && Apply(c, tx).consensuses[b] == c.consensuses[b]
    ensures g in c.groups && Apply(c, tx).groups[g] == c.groups[g]
  {
    NothingAtNext(c);
  }

  lemma StepCurrent(c: Chain, tx: Tx, g: Address)
    requires Inv(c) && g in Apply(c, tx).groups && (g in c.groups ==> Current(c, g)) && SafeStep(c, tx, g)
    ensures Current(Apply(c, tx), g)
  {
    if tx.ChangeIpfsHash? {
      ProposalCurrent(c, tx, g);
    } else if tx.Approve? {
      VoteCurrent(c, tx, g);
    } else if Departs(c, tx, g) {
      ExitKeepsCurrentIff(c, g, DepartingIndex(c, tx), Apply(c, tx));
    } else {
      OtherCurrent(c, tx, g);
    }
  }

  lemma {:induction false} RunCurrent(txs: seq<Tx>, g: Address)
    requires SafeRun(txs, g) && g in Exec(txs).groups
    ensures Current(Exec(txs), g)
  {
    var before, tx := txs[..|txs| - 1], txs[|txs| - 1];
    RunInv(before);
    if g in Exec(before).groups {
      RunCurrent(before, g);
    }
    StepCurrent(Exec(before), tx, g);
  }

  /** On every run whose departures are safe, an applied payload replaces exactly the hash it was proposed
      against, and no ballot of the group survives the change. */
  lemma CompareAndSwap(txs: seq<Tx>, sender: Address, b: Address)
    requires Decides(Exec(txs), sender, b)
    requires SafeRun(txs, Exec(txs).consensuses[b].group)
    ensures var c := Exec(txs);
            var g, c' := c.consensuses[b].group, Apply(c, Approve(sender, b));
            && LastProposal(txs, b).Some?
            && g in c'.groups
            && c.groups[g].ipfsHash == LastProposal(txs, b).value.base
            && c'.groups[g].ipfsHash == LastProposal(txs, b).value.payload
            && NoneActive(c', g)
  {
    var c := Exec(txs);
    var g := c.consensuses[b].group;
    RunInv(txs);
    RunCurrent(txs, g);
    BallotIntegrity(txs, b);
    DecisionApplies(c, sender, b);
    VoteCurrent(c, Approve(sender, b), g);
    assert ActiveIn(c, g, b) && CurrentAt(c, g, b);
    CancelSuffix(c.groups[g].ipfsHash, LastProposal(txs, b).value.base, c.consensuses[b].payload);
  }
}
