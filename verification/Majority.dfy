/** Who stands behind an applied hash: routing of proposals, exact firing of ballots, and strict majority. */
module Majority {
  import opened Prelude
  import opened Ledger
  import opened Membership
  import opened Ballots

  // ---- Routing ----------------------------------------------------------------------------------

  /** The member at position `k` proposes through a consensus recorded under it, and departures from other
      positions will not overwrite that consensus. */
  ghost predicate RoutedAt(c: Chain, g: Address, k: nat)
    requires g in c.groups && k < |c.groups[g].members|
  {
    var G := c.groups[g];
    var idx := Slot(G.memberToIdx, Owner(c, G.members[k]));
    && (idx == k || idx >= |G.members|)
    && idx < |G.consensuses| && G.consensuses[idx] in c.consensuses
    && c.consensuses[G.consensuses[idx]].proposer == G.members[k]
  }

  ghost predicate Routed(c: Chain, g: Address)
    requires g in c.groups
  {
    forall k {:trigger RoutedAt(c, g, k)} | 0 <= k < |c.groups[g].members| :: RoutedAt(c, g, k)
  }

  /** The consensus at the index a newcomer would get is already recorded under it. */
  ghost predicate OwnConsensusWaits(c: Chain, G: GroupData, account: Address) {
    |G.members| < |G.consensuses| && G.consensuses[|G.members|] in c.consensuses
    && c.consensuses[G.consensuses[|G.members|]].proposer == account
  }

  /** Whoever joins gets a new consensus, because no member has left yet, or comes back to its own. */
  ghost predicate TidyJoin(c: Chain, sender: Address, g: Address)
    requires g in c.groups
  {
    var G := c.groups[g];
    |G.members| == |G.consensuses| || OwnConsensusWaits(c, G, Slot(G.invitations, sender))
  }

  ghost predicate TidyStep(c: Chain, tx: Tx, g: Address) {
    tx.Join? && tx.group == g && Try(c, tx).Some? ==> TidyJoin(c, tx.sender, g)
  }

  ghost predicate TidyRun(txs: seq<Tx>, g: Address) {
    txs != [] ==> TidyRun(txs[..|txs| - 1], g) && TidyStep(Exec(txs[..|txs| - 1]), txs[|txs| - 1], g)
  }

  ghost function Departures(txs: seq<Tx>, g: Address): nat {
    if txs == [] then 0
    else Departures(txs[..|txs| - 1], g) + (if Departs(Exec(txs[..|txs| - 1]), txs[|txs| - 1], g) then 1 else 0)
  }

  lemma StepLengths(c: Chain, tx: Tx, g: Address)
    requires Inv(c) && g in Apply(c, tx).groups
    ensures g in c.groups ==>
              |Apply(c, tx).groups[g].consensuses| - |Apply(c, tx).groups[g].members|
              == |c.groups[g].consensuses| - |c.groups[g].members| + (if Departs(c, tx, g) then 1 else 0)
    ensures g !in c.groups ==>
              |Apply(c, tx).groups[g].consensuses| == |Apply(c, tx).groups[g].members| && !Departs(c, tx, g)
  {
    NothingAtNext(c);
    if tx.ChangeIpfsHash? || tx.Approve? {
      VotingFrame(c, tx);
    }
  }

  /** The arrays drift apart by exactly one for every departure, so before the first one every join is tidy. */
  lemma {:induction false} DriftCountsDepartures(txs: seq<Tx>, g: Address)
    ensures g in Exec(txs).groups ==>
              |Exec(txs).groups[g].consensuses| - |Exec(txs).groups[g].members| == Departures(txs, g)
    ensures g !in Exec(txs).groups ==> Departures(txs, g) == 0
  {
    if txs != [] {
      var before, tx := txs[..|txs| - 1], txs[|txs| - 1];
      DriftCountsDepartures(before, g);
      RunInv(before);
      if g in Exec(txs).groups {
        StepLengths(Exec(before), tx, g);
      } else {
        StepInv(Exec(before), tx);
      }
    }
  }

  lemma JoinRouted(c: Chain, sender: Address, g: Address, c': Chain)
    requires Inv(c) && TryJoin(c, sender, g) == Some(c')
    requires Routed(c, g) && TidyJoin(c, sender, g)
    ensures Routed(c', g)
  {
    Answered(c, sender, g);
    NothingAtNext(c);
    assert GroupOk(c, g);
    var G, G' := c.groups[g], c'.groups[g];
    forall k | 0 <= k < |G'.members| ensures RoutedAt(c', g, k) {
      if k < |G.members| {
        assert RoutedAt(c, g, k);
        assert G.members[k] in G.members;
        assert AccountOk(c, G.members[k]) && AccountOk(c, Slot(G.invitations, sender));
      }
    }
  }

  /** Whatever happened before, a newcomer's proposals are recorded under the newcomer exactly when no member
      has left yet, or the consensus waiting at the next index was already its own. */
  lemma JoinerRoutedIff(c: Chain, sender: Address, g: Address, c': Chain)
    requires Inv(c) && TryJoin(c, sender, g) == Some(c')
    ensures && Target(c', g, sender).Some? && Target(c', g, sender).value in c'.consensuses
            && (c'.consensuses[Target(c', g, sender).value].proposer == Slot(c.groups[g].invitations, sender)
                <==> TidyJoin(c, sender, g))
  {
    Answered(c, sender, g);
    NothingAtNext(c);
    assert GroupOk(c, g);
    var G := c.groups[g];
    if |G.members| < |G.consensuses| {
      assert G.consensuses[|G.members|] in G.consensuses;
    }
  }

  /** A join keeps every member routed to its own consensus exactly when it is tidy. */
  lemma JoinKeepsRoutedIff(c: Chain, sender: Address, g: Address, c': Chain)
    requires Inv(c) && TryJoin(c, sender, g) == Some(c') && Routed(c, g)
    ensures g in c'.groups && (Routed(c', g) <==> TidyJoin(c, sender, g))
  {
    if TidyJoin(c, sender, g) {
      JoinRouted(c, sender, g, c');
    }
    JoinerRoutedIff(c, sender, g, c');
    Answered(c, sender, g);
    assert Routed(c', g) ==> RoutedAt(c', g, |c.groups[g].members|);
  }

  lemma ExitRouted(c: Chain, g: Address, i: nat, c': Chain)
    requires Inv(c) && g in c.groups && i <= |c.groups[g].members| && RemoveMember(c, g, i) == Some(c')
    requires Routed(c, g)
    ensures Routed(c', g)
  {
    var G, G' := c.groups[g], c'.groups[g];
    assert GroupOk(c, g);
    OnGroupLeftEffect(c.accounts[G.members[i]], g);
    forall k | 0 <= k < |G'.members| ensures RoutedAt(c', g, k) {
      var from := if k == i then |G.members| - 1 else k;
      assert G'.members[k] == G.members[from];
      assert RoutedAt(c, g, from);
    }
  }

  lemma OtherRouted(c: Chain, tx: Tx, g: Address)
    requires Inv(c) && g in c.groups && Routed(c, g)
    requires !Departs(c, tx, g) && !(tx.Join? && tx.group == g && Try(c, tx).Some?)
    ensures g in Apply(c, tx).groups && Routed(Apply(c, tx), g)
  {
    StepInv(c, tx);
    assert GroupOk(c, g);
    RosterFrame(c, tx, g);
    forall k | 0 <= k < |c.groups[g].members| ensures RoutedAt(Apply(c, tx), g, k) {
      assert RoutedAt(c, g, k);
    }
  }

  /** Who is in the group, and where its consensuses are listed, changes only when someone joins or leaves. */
  lemma RosterFrame(c: Chain, tx: Tx, g: Address)
    requires Inv(c) && g in c.groups
    requires !Departs(c, tx, g) && !(tx.Join? && tx.group == g && Try(c, tx).Some?)
    ensures g in Apply(c, tx).groups
    ensures var G, G' := c.groups[g], Apply(c, tx).groups[g];
            G'.members == G.members && G'.consensuses == G.consensuses && G'.memberToIdx == G.memberToIdx
  {
    NothingAtNext(c);
    if tx.ChangeIpfsHash? || tx.Approve? {
      VotingFrame(c, tx);
    }
  }

  lemma StepRouted(c: Chain, tx: Tx, g: Address)
    requires Inv(c) && g in Apply(c, tx).groups && (g in c.groups ==> Routed(c, g)) && TidyStep(c, tx, g)
    ensures Routed(Apply(c, tx), g)
  {
    if g !in c.groups {
      FoundedRouted(c, tx, g);
    } else if Departs(c, tx, g) {
      ExitRouted(c, g, DepartingIndex(c, tx), Apply(c, tx));
    } else if tx.Join? && tx.group == g && Try(c, tx).Some? {
      JoinRouted(c, tx.sender, g, Apply(c, tx));
    } else {
      OtherRouted(c, tx, g);
    }
  }

  lemma FoundedRouted(c: Chain, tx: Tx, g: Address)
    requires Inv(c) && g in Apply(c, tx).groups && g !in c.groups
    ensures Routed(Apply(c, tx), g)
  {
    if tx.ChangeIpfsHash? || tx.Approve? {
      VotingFrame(c, tx);
    }
    assert tx.CreateGroup?;
    assert RoutedAt(Apply(c, tx), g, 0);
  }

  /** On every run whose joins are tidy, `getConsensus` gives each current member a consensus recorded under it. */
  lemma {:induction false} BallotRouting(txs: seq<Tx>, g: Address)
    requires TidyRun(txs, g) && g in Exec(txs).groups
    ensures Routed(Exec(txs), g)
  {
    var before, tx := txs[..|txs| - 1], txs[|txs| - 1];
    RunInv(before);
    if g in Exec(before).groups {
      BallotRouting(before, g);
    }
    StepRouted(Exec(before), tx, g);
  }

  // ---- Firing -----------------------------------------------------------------------------------

  /** An open ballot of `g` has at most half the group's size in entries, and every voter is still a member. */
  ghost predicate TalliedAt(c: Chain, g: Address, b: Address)
    requires g in c.groups && b in c.consensuses
  {
    var members, approvals := c.groups[g].members, c.consensuses[b].approvals;
    && 1 <= |approvals| <= |members| / 2
    && (forall k | 1 <= k < |approvals| :: OwnsMember(c, members, approvals[k]))
  }

  ghost predicate Tallied(c: Chain, g: Address)
    requires g in c.groups
  {
    forall b | ActiveIn(c, g, b) :: TalliedAt(c, g, b)
  }

  lemma MembershipGrows(c: Chain, c': Chain, members: seq<Address>, members': seq<Address>, who: Address)
    requires OwnsMember(c, members, who) && members <= members'
    requires forall a | a in members :: Owner(c', a) == Owner(c, a)
    ensures OwnsMember(c', members', who)
  {
    OwnsMemberIff(c, members, who);
    OwnsMemberIff(c', members', who);
    var a :| a in members && Owner(c, a) == who;
    assert a in members' && Owner(c', a) == who;
  }

  lemma TalliedFrame(c: Chain, c': Chain, g: Address, b: Address)
    requires Inv(c) && Extends(c, c') && g in c.groups && b in c.consensuses && TalliedAt(c, g, b)
    requires c.groups[g].members <= c'.groups[g].members
    requires c'.consensuses[b].approvals == c.consensuses[b].approvals
    ensures TalliedAt(c', g, b)
  {
    assert GroupOk(c, g);
    forall k | 1 <= k < |c.consensuses[b].approvals|
      ensures OwnsMember(c', c'.groups[g].members, c.consensuses[b].approvals[k])
    {
      MembershipGrows(c, c', c.groups[g].members, c'.groups[g].members, c.consensuses[b].approvals[k]);
    }
  }

  lemma OpenedTallied(c: Chain, tx: Tx, g: Address, b: Address)
    requires Inv(c) && Opens(c, tx, b) && g in Apply(c, tx).groups && ActiveIn(Apply(c, tx), g, b)
    ensures TalliedAt(Apply(c, tx), g, b)
  {
    assert g == tx.group && GroupOk(c, g);
    assert Apply(c, tx).consensuses[b].approvals == [c.consensuses[b].proposer];
  }

  lemma ProposalTallied(c: Chain, tx: Tx, g: Address)
    requires Inv(c) && tx.ChangeIpfsHash? && g in c.groups && Tallied(c, g)
    ensures g in Apply(c, tx).groups && Tallied(Apply(c, tx), g)
  {
    var c' := Apply(c, tx);
    VotingFrame(c, tx);
    StepInv(c, tx);
    forall b | ActiveIn(c', g, b) ensures TalliedAt(c', g, b) {
      if Opens(c, tx, b) {
        OpenedTallied(c, tx, g, b);
      } else {
        OtherTxFrame(c, tx, b);
        assert ActiveIn(c, g, b) && TalliedAt(c, g, b);
        TalliedFrame(c, c', g, b);
      }
    }
  }

  lemma VotedTallied(c: Chain, tx: Tx, g: Address, b: Address)
    requires Inv(c) && VotesOn(c, tx, b) && b in c.consensuses && c.consensuses[b].group == g && g in c.groups
    requires TalliedAt(c, g, b) && !Decides(c, tx.sender, b)
    ensures g in Apply(c, tx).groups && b in Apply(c, tx).consensuses && TalliedAt(Apply(c, tx), g, b)
  {
    var c' := CastVote(c, tx.sender, b);
    assert Apply(c, tx) == c';
    forall k | 1 <= k < |c'.consensuses[b].approvals|
      ensures OwnsMember(c', c'.groups[g].members, c'.consensuses[b].approvals[k])
    {
      MembershipGrows(c, c', c.groups[g].members, c.groups[g].members, c'.consensuses[b].approvals[k]);
    }
  }

  lemma VoteTallied(c: Chain, tx: Tx, g: Address)
    requires Inv(c) && tx.Approve? && g in c.groups && Tallied(c, g) && Current(c, g)
    ensures g in Apply(c, tx).groups && Tallied(Apply(c, tx), g)
  {
    var c' := Apply(c, tx);
    VotingFrame(c, tx);
    StepInv(c, tx);
    forall b | ActiveIn(c', g, b) ensures TalliedAt(c', g, b) {
      StillOpen(c, tx, g, b);
      assert TalliedAt(c, g, b);
      if VotesOn(c, tx, b) {
        Undecided(c, tx, g, b);
        VotedTallied(c, tx, g, b);
      } else {
        OtherTxFrame(c, tx, b);
        TalliedFrame(c, c', g, b);
      }
    }
  }

  /** A ballot that is still open after a vote on it has not been decided. */
  lemma Undecided(c: Chain, tx: Tx, g: Address, b: Address)
    requires Inv(c) && VotesOn(c, tx, b) && ActiveIn(c, g, b) && g in c.groups && Current(c, g)
    requires ActiveIn(Apply(c, tx), g, b)
    ensures !Decides(c, tx.sender, b)
  {
    VoteCurrent(c, tx, g);
  }

  /** The member at position `i` may go as far as ballot `b` is concerned: it has not voted, and the entries
      are still at most half of the members that stay. */
  ghost predicate FairTo(c: Chain, g: Address, i: nat, b: Address)
    requires g in c.groups && i < |c.groups[g].members| && b in c.consensuses
  {
    var members, approvals := c.groups[g].members, c.consensuses[b].approvals;
    && |approvals| <= (|members| - 1) / 2
    && (forall k | 1 <= k < |approvals| :: approvals[k] != Owner(c, members[i]))
  }

  ghost predicate FairExit(c: Chain, g: Address, i: nat)
    requires g in c.groups && i < |c.groups[g].members|
  {
    forall b | ActiveIn(c, g, b) :: FairTo(c, g, i, b)
  }

  /** After a departure, an address owns a member exactly when it did and is not the owner of the one that left. */
  lemma OwnsRemaining(c: Chain, g: Address, i: nat, c': Chain, who: Address)
    requires Inv(c) && g in c.groups && i < |c.groups[g].members| && RemoveMember(c, g, i) == Some(c')
    ensures g in c'.groups
    ensures OwnsMember(c', c'.groups[g].members, who)
            <==> OwnsMember(c, c.groups[g].members, who) && who != Owner(c, c.groups[g].members[i])
  {
    var members, left := c.groups[g].members, c'.groups[g].members;
    assert GroupOk(c, g);
    SwapRemoveMembers(members, i);
    OwnersKept(c, g, i, c');
    OwnsMemberIff(c, members, who);
    OwnsMemberIff(c', left, who);
    if OwnsMember(c, members, who) {
      var a := members[FindOwner(c, members, who)];
      assert a in members && AccountOk(c, a) && AccountOk(c, members[i]);
      assert a in left <==> a != members[i];
      assert a == members[i] <==> who == Owner(c, members[i]);
      assert a in left ==> Owner(c', a) == who;
    }
    forall a | a in left && Owner(c', a) == who ensures OwnsMember(c, members, who) && who != Owner(c, members[i]) {
      assert a in members && Owner(c, a) == who;
      assert AccountOk(c, a) && AccountOk(c, members[i]);
    }
  }

  lemma OwnersKept(c: Chain, g: Address, i: nat, c': Chain)
    requires g in c.groups && i < |c.groups[g].members| && RemoveMember(c, g, i) == Some(c')
    ensures forall a :: Owner(c', a) == Owner(c, a)
    ensures c'.consensuses == c.consensuses && c'.groups.Keys == c.groups.Keys
    ensures c'.groups[g].members == SwapRemove(c.groups[g].members, i)
  {
  }

  lemma ExitKeepsTalliedAtIff(c: Chain, g: Address, i: nat, c': Chain, b: Address)
    requires Inv(c) && g in c.groups && i < |c.groups[g].members| && RemoveMember(c, g, i) == Some(c')
    requires b in c.consensuses && TalliedAt(c, g, b)
    ensures g in c'.groups && b in c'.consensuses && (TalliedAt(c', g, b) <==> FairTo(c, g, i, b))
  {
    OwnersKept(c, g, i, c');
    var approvals := c.consensuses[b].approvals;
    forall k | 1 <= k < |approvals|
      ensures OwnsMember(c', c'.groups[g].members, approvals[k]) <==> approvals[k] != Owner(c, c.groups[g].members[i])
    {
      OwnsRemaining(c, g, i, c', approvals[k]);
    }
  }

  /** A departure keeps every open ballot tallied exactly when it is fair. */
  lemma ExitKeepsTalliedIff(c: Chain, g: Address, i: nat, c': Chain)
    requires Inv(c) && g in c.groups && i < |c.groups[g].members| && RemoveMember(c, g, i) == Some(c')
    requires Tallied(c, g)
    ensures g in c'.groups && (Tallied(c', g) <==> FairExit(c, g, i))
  {
    OwnersKept(c, g, i, c');
    forall b | ActiveIn(c, g, b) ensures ActiveIn(c', g, b) && (TalliedAt(c', g, b) <==> FairTo(c, g, i, b)) {
      ExitKeepsTalliedAtIff(c, g, i, c', b);
    }
    assert forall b :: ActiveIn(c', g, b) ==> ActiveIn(c, g, b);
  }

  ghost predicate FairStep(c: Chain, tx: Tx, g: Address) {
    Departs(c, tx, g) && g in c.groups ==>
      var i := DepartingIndex(c, tx);
      i < |c.groups[g].members| && FairExit(c, g, i)
  }

  /** Every departure from `g` on the run is fair. */
  ghost predicate FairRun(txs: seq<Tx>, g: Address) {
    txs != [] ==> FairRun(txs[..|txs| - 1], g) && FairStep(Exec(txs[..|txs| - 1]), txs[|txs| - 1], g)
  }

  lemma StepTallied(c: Chain, tx: Tx, g: Address)
    requires Inv(c) && g in Apply(c, tx).groups && (g in c.groups ==> Tallied(c, g) && Current(c, g))
    requires FairStep(c, tx, g)
    ensures Tallied(Apply(c, tx), g)
  {
    var c' := Apply(c, tx);
    if tx.ChangeIpfsHash? {
      ProposalTallied(c, tx, g);
    } else if tx.Approve? {
      VoteTallied(c, tx, g);
    } else if Departs(c, tx, g) {
      ExitKeepsTalliedIff(c, g, DepartingIndex(c, tx), c');
    } else {
      StepInv(c, tx);
      forall b | ActiveIn(c', g, b) ensures TalliedAt(c', g, b) {
        OtherTxKeepsActive(c, tx, g, b);
        TalliedFrame(c, c', g, b);
      }
    }
  }

  lemma {:induction false} RunTallied(txs: seq<Tx>, g: Address)
    requires SafeRun(txs, g) && FairRun(txs, g) && g in Exec(txs).groups
    ensures Tallied(Exec(txs), g)
  {
    var before, tx := txs[..|txs| - 1], txs[|txs| - 1];
    RunInv(before);
    if g in Exec(before).groups {
      RunTallied(before, g);
      RunCurrent(before, g);
    }
    StepTallied(Exec(before), tx, g);
  }

  /** On every run whose departures are safe and fair, the vote that applies a payload is the one that brings
      the ballot to exactly half the group's size plus one entries. */
  lemma ExactFiring(txs: seq<Tx>, sender: Address, b: Address)
    requires Decides(Exec(txs), sender, b)
    requires SafeRun(txs, Exec(txs).consensuses[b].group) && FairRun(txs, Exec(txs).consensuses[b].group)
    ensures b in Apply(Exec(txs), Approve(sender, b)).consensuses
    ensures var c := Exec(txs);
            |Apply(c, Approve(sender, b)).consensuses[b].approvals|
            == |c.groups[c.consensuses[b].group].members| / 2 + 1
  {
    var c := Exec(txs);
    var g := c.consensuses[b].group;
    RunInv(txs);
    RunTallied(txs, g);
    assert ActiveIn(c, g, b) && TalliedAt(c, g, b);
    DecisionApplies(c, sender, b);
  }

  // ---- Progress ---------------------------------------------------------------------------------

  function CastAll(c: Chain, b: Address, voters: seq<Address>): Chain {
    if voters == [] then c
    else Apply(CastAll(c, b, voters[..|voters| - 1]), Approve(voters[|voters| - 1], b))
  }

  /** `voters` are distinct owners of members, and none of them has voted on `b`. */
  ghost predicate FreshVoters(c: Chain, b: Address, voters: seq<Address>) {
    b in c.consensuses && c.consensuses[b].group in c.groups && NoDup(voters)
    && forall v | v in voters ::
         v !in c.consensuses[b].approvals && OwnsMember(c, c.groups[c.consensuses[b].group].members, v)
  }

  /** `c` with `voters` appended to the approvals of `b`. */
  function WithVotes(c: Chain, b: Address, voters: seq<Address>): Chain
    requires b in c.consensuses
  {
    c.(consensuses := c.consensuses[b := c.consensuses[b].(approvals := c.consensuses[b].approvals + voters)])
  }

  lemma OneMoreVote(c: Chain, b: Address, voters: seq<Address>, v: Address)
    requires FreshVoters(c, b, voters + [v]) && c.consensuses[b].isActive
    requires |c.consensuses[b].approvals| + |voters| + 1 <= Threshold(c.groups[c.consensuses[b].group])
    ensures TryApprove(WithVotes(c, b, voters), v, b) == Some(WithVotes(c, b, voters + [v]))
  {
    var mid := WithVotes(c, b, voters);
    var all := voters + [v];
    assert all[|voters|] == v && v in all;
    forall k | 0 <= k < |voters| ensures voters[k] != v {
      assert all[k] == voters[k];
    }
    SameOwners(c, mid, c.groups[c.consensuses[b].group].members, v);
    assert CanApprove(mid, v, b) && !Decides(mid, v, b);
    assert c.consensuses[b].approvals + voters + [v] == c.consensuses[b].approvals + (voters + [v]);
    assert CastVote(mid, v, b).consensuses == WithVotes(c, b, voters + [v]).consensuses;
  }

  /** Votes that do not reach the threshold are only recorded. */
  lemma {:induction false} VotesAreRecorded(c: Chain, b: Address, voters: seq<Address>)
    requires FreshVoters(c, b, voters) && c.consensuses[b].isActive
    requires |c.consensuses[b].approvals| + |voters| <= Threshold(c.groups[c.consensuses[b].group])
    ensures CastAll(c, b, voters) == WithVotes(c, b, voters)
  {
    if voters == [] {
      assert c.consensuses[b].approvals + voters == c.consensuses[b].approvals;
      assert WithVotes(c, b, voters).consensuses == c.consensuses;
    } else {
      var front, v := voters[..|voters| - 1], voters[|voters| - 1];
      VotesAreRecorded(c, b, front);
      assert voters == front + [v];
      OneMoreVote(c, b, front, v);
    }
  }

  lemma {:induction false} SameOwners(c: Chain, c': Chain, members: seq<Address>, who: Address)
    requires c.accounts == c'.accounts
    ensures FindOwner(c, members, who) == FindOwner(c', members, who)
  {
    if members != [] {
      SameOwners(c, c', members[1..], who);
    }
  }

  /** With the members fixed, as many fresh votes as are missing apply the payload on the last one and not earlier. */
  lemma Progress(c: Chain, b: Address, voters: seq<Address>)
    requires Inv(c) && FreshVoters(c, b, voters) && ActiveIn(c, c.consensuses[b].group, b) && voters != []
    requires CurrentAt(c, c.consensuses[b].group, b)
    requires |c.consensuses[b].approvals| + |voters| == Threshold(c.groups[c.consensuses[b].group]) + 1
    ensures var g := c.consensuses[b].group;
            && (forall j | 0 <= j < |voters| ::
                  var early := CastAll(c, b, voters[..j]);
                  early.groups == c.groups && ActiveIn(early, g, b))
            && var done := CastAll(c, b, voters);
               && g in done.groups && done.groups[g].ipfsHash == c.consensuses[b].payload
               && !ActiveIn(done, g, b)
  {
    var g := c.consensuses[b].group;
    forall j | 0 <= j < |voters|
      ensures var early := CastAll(c, b, voters[..j]); early.groups == c.groups && ActiveIn(early, g, b)
    {
      VotesAreRecorded(c, b, voters[..j]);
    }
    var front, v := voters[..|voters| - 1], voters[|voters| - 1];
    VotesAreRecorded(c, b, front);
    var mid := CastAll(c, b, front);
    SameOwners(c, mid, c.groups[g].members, v);
    assert v in voters;
    assert Decides(mid, v, b);
    RecordedInv(c, b, front);
    DecisionApplies(mid, v, b);
  }

  lemma {:induction false} RecordedInv(c: Chain, b: Address, voters: seq<Address>)
    requires Inv(c)
    ensures Inv(CastAll(c, b, voters))
  {
    if voters != [] {
      RecordedInv(c, b, voters[..|voters| - 1]);
      StepInv(CastAll(c, b, voters[..|voters| - 1]), Approve(voters[|voters| - 1], b));
    }
  }

  // ---- Strict majority --------------------------------------------------------------------------

  ghost predicate ProposerIn(c: Chain, g: Address)
    requires g in c.groups
  {
    forall b | ActiveIn(c, g, b) :: c.consensuses[b].proposer in c.groups[g].members
  }

  /** The member at position `i` has no open ballot under its name. */
  ghost predicate SparingExit(c: Chain, g: Address, i: nat)
    requires g in c.groups && i < |c.groups[g].members|
  {
    forall b | ActiveIn(c, g, b) :: c.consensuses[b].proposer != c.groups[g].members[i]
  }

  /** A departure keeps the proposers of all open ballots in the group exactly when it spares them. */
  lemma ExitKeepsProposerIff(c: Chain, g: Address, i: nat, c': Chain)
    requires Inv(c) && g in c.groups && i < |c.groups[g].members| && RemoveMember(c, g, i) == Some(c')
    requires ProposerIn(c, g)
    ensures g in c'.groups && (ProposerIn(c', g) <==> SparingExit(c, g, i))
  {
    assert GroupOk(c, g);
    SwapRemoveMembers(c.groups[g].members, i);
    OwnersKept(c, g, i, c');
    assert forall b :: ActiveIn(c', g, b) <==> ActiveIn(c, g, b);
  }

  ghost predicate SparingStep(c: Chain, tx: Tx, g: Address) {
    Departs(c, tx, g) && g in c.groups ==>
      var i := DepartingIndex(c, tx);
      i < |c.groups[g].members| && SparingExit(c, g, i)
  }

  /** Every departure from `g` on the run spares the proposers of open ballots. */
  ghost predicate SparingRun(txs: seq<Tx>, g: Address) {
    txs != [] ==> SparingRun(txs[..|txs| - 1], g) && SparingStep(Exec(txs[..|txs| - 1]), txs[|txs| - 1], g)
  }

  lemma OpenedByMember(c: Chain, tx: Tx, g: Address, b: Address)
    requires Inv(c) && g in c.groups && Routed(c, g) && Opens(c, tx, b) && c.consensuses[b].group == g
    ensures b in Apply(c, tx).consensuses && Apply(c, tx).consensuses[b].proposer in c.groups[g].members
  {
    assert RoutedAt(c, g, FindOwner(c, c.groups[g].members, tx.sender));
  }

  /** A ballot that is open after a vote or a proposal elsewhere was open before, under the same proposer. */
  lemma StillOpen(c: Chain, tx: Tx, g: Address, b: Address)
    requires Inv(c) && (tx.Approve? || tx.ChangeIpfsHash?) && !Opens(c, tx, b) && ActiveIn(Apply(c, tx), g, b)
    ensures ActiveIn(c, g, b) && Apply(c, tx).consensuses[b].proposer == c.consensuses[b].proposer
  {
    SameConsensuses(c, tx);
    if VotesOn(c, tx, b) {
      VoteRecorded(c, tx, b);
    } else {
      OtherTxFrame(c, tx, b);
    }
  }

  lemma SameConsensuses(c: Chain, tx: Tx)
    requires tx.Approve? || tx.ChangeIpfsHash?
    ensures Apply(c, tx).consensuses.Keys == c.consensuses.Keys
  {
    if tx.Approve? && Try(c, tx).Some? {
      ApproveFrame(c, tx.sender, tx.consensus, Apply(c, tx));
    }
  }

  lemma StepProposerIn(c: Chain, tx: Tx, g: Address)
    requires Inv(c) && g in Apply(c, tx).groups && SparingStep(c, tx, g)
    requires g in c.groups ==> ProposerIn(c, g) && Routed(c, g)
    ensures ProposerIn(Apply(c, tx), g)
  {
    var c' := Apply(c, tx);
    StepInv(c, tx);
    forall b | ActiveIn(c', g, b) ensures c'.consensuses[b].proposer in c'.groups[g].members {
      if Opens(c, tx, b) {
        VotingFrame(c, tx);
        OpenedByMember(c, tx, g, b);
      } else if tx.ChangeIpfsHash? || tx.Approve? {
        VotingFrame(c, tx);
        StillOpen(c, tx, g, b);
      } else if !Departs(c, tx, g) {
        OtherTxKeepsActive(c, tx, g, b);
      } else {
        ExitKeepsProposerIff(c, g, DepartingIndex(c, tx), c');
      }
    }
  }

  lemma {:induction false} RunProposerIn(txs: seq<Tx>, g: Address)
    requires SparingRun(txs, g) && TidyRun(txs, g) && g in Exec(txs).groups
    ensures ProposerIn(Exec(txs), g)
  {
    var before, tx := txs[..|txs| - 1], txs[|txs| - 1];
    RunInv(before);
    if g in Exec(before).groups {
      RunProposerIn(before, g);
      BallotRouting(before, g);
    }
    StepProposerIn(Exec(before), tx, g);
  }

  /** The members that own one of the addresses in `voters`. */
  ghost function Owned(c: Chain, members: seq<Address>, voters: seq<Address>): set<Address> {
    set m | m in members && Owner(c, m) in voters
  }

  /** Distinct owners of members own as many distinct members. */
  lemma {:induction false} OwnedCardinality(c: Chain, members: seq<Address>, voters: seq<Address>)
    requires Sane(c) && (forall m | m in members :: m in c.accounts)
    requires NoDup(voters) && forall v | v in voters :: OwnsMember(c, members, v)
    ensures |Owned(c, members, voters)| == |voters|
  {
    if voters != [] {
      var v := voters[0];
      OwnedCardinality(c, members, voters[1..]);
      assert v in voters;
      var m := members[FindOwner(c, members, v)];
      forall m' | m' in members && Owner(c, m') == v ensures m' == m {
        assert AccountOk(c, m) && AccountOk(c, m');
      }
      assert voters == [v] + voters[1..];
      assert Owned(c, members, voters) == Owned(c, members, voters[1..]) + {m};
    } else {
      assert Owned(c, members, voters) == {};
    }
  }

  /** The members behind a ballot once `sender` has voted: its proposer and the members its voters own. */
  ghost function Backers(c: Chain, sender: Address, b: Address): set<Address>
    requires CanApprove(c, sender, b) && c.consensuses[b].approvals != []
  {
    var B := c.consensuses[b];
    Owned(c, c.groups[B.group].members, B.approvals[1..] + [sender]) + {B.proposer}
  }

  /** Everything that `StrictMajority` asks of the steps of a run. */
  ghost predicate InScope(txs: seq<Tx>, g: Address) {
    SafeRun(txs, g) && FairRun(txs, g) && SparingRun(txs, g) && TidyRun(txs, g)
  }

  /** Only members of the group back the payload that the vote of `sender` on `b` applies: more than half of them
      when the proposer's own owner has not voted too, and exactly half (rounded down) otherwise. */
  ghost predicate Backed(c: Chain, sender: Address, b: Address) {
    CanApprove(c, sender, b) && c.consensuses[b].approvals != []
    && var B := c.consensuses[b];
       var members, voters := c.groups[B.group].members, B.approvals[1..] + [sender];
       && (forall m | m in Backers(c, sender, b) :: m in members)
       && (Owner(c, B.proposer) !in voters ==> 2 * |Backers(c, sender, b)| > |members|)
       && (Owner(c, B.proposer) in voters ==> |Backers(c, sender, b)| == |members| / 2)
  }

  /** On every run whose departures are safe, fair and sparing and whose joins are tidy, an applied payload is
      backed by a strict majority of the members, the proposer counted once. */
  lemma StrictMajority(txs: seq<Tx>, sender: Address, b: Address)
    requires Decides(Exec(txs), sender, b) && InScope(txs, Exec(txs).consensuses[b].group)
    ensures Backed(Exec(txs), sender, b)
  {
    var g := Exec(txs).consensuses[b].group;
    RunInv(txs);
    RunTallied(txs, g);
    RunProposerIn(txs, g);
    BallotIntegrity(txs, b);
    assert ActiveIn(Exec(txs), g, b) && TalliedAt(Exec(txs), g, b);
    BackedWhenTallied(Exec(txs), sender, b);
  }

  lemma BackedWhenTallied(c: Chain, sender: Address, b: Address)
    requires Inv(c) && Decides(c, sender, b) && TalliedAt(c, c.consensuses[b].group, b)
    requires c.consensuses[b].proposer in c.groups[c.consensuses[b].group].members && NoDup(c.consensuses[b].approvals)
    ensures Backed(c, sender, b)
  {
    var B := c.consensuses[b];
    var members, voters := c.groups[B.group].members, B.approvals[1..] + [sender];
    assert GroupOk(c, B.group);
    VotersOwnMembers(c, sender, b);
    OwnedCardinality(c, members, voters);
    if Owner(c, B.proposer) in voters {
      assert Backers(c, sender, b) == Owned(c, members, voters);
    }
  }

  lemma VotersOwnMembers(c: Chain, sender: Address, b: Address)
    requires CanApprove(c, sender, b) && TalliedAt(c, c.consensuses[b].group, b) && NoDup(c.consensuses[b].approvals)
    ensures var voters := c.consensuses[b].approvals[1..] + [sender];
            NoDup(voters) && forall v | v in voters :: OwnsMember(c, c.groups[c.consensuses[b].group].members, v)
  {
    var approvals := c.consensuses[b].approvals;
    forall v | v in approvals[1..] ensures OwnsMember(c, c.groups[c.consensuses[b].group].members, v) && v != sender {
      var k :| 0 <= k < |approvals| - 1 && approvals[1..][k] == v;
      assert v == approvals[k + 1] && v in approvals;
    }
  }

  // ---- Runs that are in scope -------------------------------------------------------------------

  /** Nobody leaves `g` while one of its ballots is open. */
  ghost predicate QuietStep(c: Chain, tx: Tx, g: Address) {
    Departs(c, tx, g) ==> NoneActive(c, g)
  }

  ghost predicate QuietRun(txs: seq<Tx>, g: Address) {
    txs != [] ==> QuietRun(txs[..|txs| - 1], g) && QuietStep(Exec(txs[..|txs| - 1]), txs[|txs| - 1], g)
  }

  /** A departure while no ballot is open is safe, fair and sparing. */
  lemma {:induction false} QuietInScope(txs: seq<Tx>, g: Address)
    requires QuietRun(txs, g)
    ensures SafeRun(txs, g) && FairRun(txs, g) && SparingRun(txs, g)
  {
    if txs != [] {
      var before := txs[..|txs| - 1];
      QuietInScope(before, g);
      RunInv(before);
      if g in Exec(before).groups {
        assert GroupOk(Exec(before), g);
      }
    }
  }

  ghost predicate Staying(txs: seq<Tx>) {
    forall tx | tx in txs :: !tx.Leave? && !tx.Kick?
  }

  lemma {:induction false} NobodyLeaves(txs: seq<Tx>, g: Address)
    requires Staying(txs)
    ensures Departures(txs, g) == 0
  {
    if txs != [] {
      NobodyLeaves(txs[..|txs| - 1], g);
    }
  }

  /** As long as nobody leaves, a run is quiet and tidy. */
  lemma {:induction false} StayingIsQuietAndTidy(txs: seq<Tx>, g: Address)
    requires Departures(txs, g) == 0
    ensures QuietRun(txs, g) && TidyRun(txs, g)
  {
    if txs != [] {
      var before := txs[..|txs| - 1];
      StayingIsQuietAndTidy(before, g);
      DriftCountsDepartures(before, g);
    }
  }

  lemma StayingInScope(txs: seq<Tx>, g: Address)
    requires Staying(txs)
    ensures InScope(txs, g)
  {
    NobodyLeaves(txs, g);
    StayingIsQuietAndTidy(txs, g);
    QuietInScope(txs, g);
  }
}
