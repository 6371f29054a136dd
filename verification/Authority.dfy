/** Who may do what: the transactions that succeed, and what alone can change a group's hash and its members. */
module Authority {
  import opened Prelude
  import opened Ledger
  import opened Membership
  import opened Ballots

  /** `who` owns one of the group's members. */
  ghost predicate SpeaksFor(c: Chain, g: Address, who: Address)
    requires g in c.groups
  {
    exists a :: a in c.groups[g].members && a in c.accounts && c.accounts[a].owner == who
  }

  /** `who` owns an account that holds an invitation from the group. */
  ghost predicate HasInvitation(c: Chain, g: Address, who: Address) {
    exists a :: a in c.accounts && c.accounts[a].owner == who && g in c.accounts[a].invitations
  }

  /** What each transaction asks of its sender and of the state. */
  ghost predicate Allowed(c: Chain, tx: Tx) {
    match tx
    case CreateAccount(s) => forall a | a in c.accounts :: c.accounts[a].owner != s
    case CreateGroup(s, a) => a in c.accounts && c.accounts[a].owner == s
    case Invite(s, g, a) =>
      && g in c.groups && SpeaksFor(c, g, s) && a in c.accounts
      && a !in c.groups[g].members && g !in c.accounts[a].invitations
    case Join(s, g) => g in c.groups && HasInvitation(c, g, s)
    case Decline(s, g) => g in c.groups && HasInvitation(c, g, s)
    case Leave(s, g) => g in c.groups && SpeaksFor(c, g, s)
    case Kick(s, g, m) => g in c.groups && SpeaksFor(c, g, s) && m in c.groups[g].members
    case ChangeIpfsHash(s, g, _) => g in c.groups && SpeaksFor(c, g, s)
    case Approve(s, b) => MayVote(c, s, b)
  }

  ghost predicate MayVote(c: Chain, who: Address, b: Address) {
    && b in c.consensuses && c.consensuses[b].group in c.groups
    && SpeaksFor(c, c.consensuses[b].group, who)
    && c.consensuses[b].isActive && who !in c.consensuses[b].approvals
  }

  // ---- Transactions succeed exactly when they are allowed ---------------------------------------

  lemma SpeaksForIff(c: Chain, g: Address, who: Address)
    requires Inv(c) && g in c.groups
    ensures OwnsMember(c, c.groups[g].members, who) <==> SpeaksFor(c, g, who)
  {
    assert GroupOk(c, g);
    OwnsMemberIff(c, c.groups[g].members, who);
  }

  /** The slot of a group for an owner and the invitations that the owner's account holds say the same. */
  lemma HasInvitationIff(c: Chain, g: Address, who: Address)
    requires Inv(c) && g in c.groups
    ensures Slot(c.groups[g].invitations, who) != NULL <==> HasInvitation(c, g, who)
    ensures forall a | a in c.accounts && c.accounts[a].owner == who ::
              g in c.accounts[a].invitations <==> Slot(c.groups[g].invitations, who) == a
  {
    assert GroupOk(c, g);
    NothingAtNext(c);
    forall a | a in c.accounts && c.accounts[a].owner == who
      ensures g in c.accounts[a].invitations <==> Slot(c.groups[g].invitations, who) == a
    {
      assert MirrorAt(c, a, g);
      assert g in c.accounts[a].invitations <==> g in multiset(c.accounts[a].invitations);
    }
    if Slot(c.groups[g].invitations, who) != NULL {
      assert HasInvitation(c, g, who) by {
        var a := Slot(c.groups[g].invitations, who);
        assert a in c.accounts && c.accounts[a].owner == who && g in c.accounts[a].invitations;
      }
    }
    if a :| a in c.accounts && c.accounts[a].owner == who && g in c.accounts[a].invitations {
      assert AccountOk(c, a);
    }
  }

  /** On every run, the registry names exactly the accounts there are, each under its owner. */
  lemma {:induction false} RegistryNamesAccounts(txs: seq<Tx>, who: Address)
    ensures var c := Exec(txs);
            Slot(c.registry, who) != NULL <==> exists a :: a in c.accounts && c.accounts[a].owner == who
  {
    RunInv(txs);
    Registered(Exec(txs));
    NothingAtNext(Exec(txs));
    if txs != [] && Slot(Exec(txs).registry, who) != NULL {
      var before, tx := txs[..|txs| - 1], txs[|txs| - 1];
      RegistryNamesAccounts(before, who);
      RunInv(before);
      StepInv(Exec(before), tx);
      RegistryStep(Exec(before), tx, who);
    }
  }

  lemma RegistryStep(c: Chain, tx: Tx, who: Address)
    requires Inv(c)
    ensures var c' := Apply(c, tx);
            Slot(c'.registry, who) == Slot(c.registry, who)
            || (c.next in c'.accounts && c'.accounts[c.next].owner == who)
  {
    if tx.Approve? && Try(c, tx).Some? {
      ApproveFrame(c, tx.sender, tx.consensus, Apply(c, tx));
    }
  }

  lemma InviteIff(c: Chain, tx: Tx)
    requires Inv(c) && tx.Invite?
    ensures Try(c, tx).Some? <==> Allowed(c, tx)
  {
    if tx.group in c.groups && tx.account in c.accounts {
      var owner := c.accounts[tx.account].owner;
      SpeaksForIff(c, tx.group, tx.sender);
      HasInvitationIff(c, tx.group, owner);
      assert GroupOk(c, tx.group) && AccountOk(c, tx.account);
      if Slot(c.groups[tx.group].invitations, owner) != NULL {
        assert AccountOk(c, Slot(c.groups[tx.group].invitations, owner));
      }
    }
  }

  lemma AnswerIff(c: Chain, tx: Tx)
    requires Inv(c) && (tx.Join? || tx.Decline?)
    ensures Try(c, tx).Some? <==> Allowed(c, tx)
  {
    if tx.group in c.groups {
      assert GroupOk(c, tx.group);
      HasInvitationIff(c, tx.group, tx.sender);
    }
  }

  lemma DepartureIff(c: Chain, tx: Tx)
    requires Inv(c) && (tx.Leave? || tx.Kick?)
    ensures Try(c, tx).Some? <==> Allowed(c, tx)
  {
    if tx.group in c.groups {
      assert GroupOk(c, tx.group);
      SpeaksForIff(c, tx.group, tx.sender);
      assert forall k | 0 <= k < |c.groups[tx.group].members| :: c.groups[tx.group].members[k] in c.accounts;
    }
  }

  lemma ChangeIff(c: Chain, tx: Tx)
    requires Inv(c) && tx.ChangeIpfsHash?
    ensures Try(c, tx).Some? <==> Allowed(c, tx)
  {
    if tx.group in c.groups {
      assert GroupOk(c, tx.group);
      SpeaksForIff(c, tx.group, tx.sender);
      var G := c.groups[tx.group];
      assert G.consensuses[Slot(G.memberToIdx, tx.sender)] in G.consensuses;
    }
  }

  lemma VoteIff(c: Chain, tx: Tx)
    requires Inv(c) && tx.Approve?
    ensures Try(c, tx).Some? <==> Allowed(c, tx)
  {
    if tx.consensus in c.consensuses && c.consensuses[tx.consensus].group in c.groups {
      SpeaksForIff(c, c.consensuses[tx.consensus].group, tx.sender);
      if Decides(c, tx.sender, tx.consensus) {
        DecisionApplies(c, tx.sender, tx.consensus);
      }
    }
  }

  /** After any run, a transaction succeeds if and only if it is allowed, and otherwise changes nothing. */
  lemma SucceedsIff(txs: seq<Tx>, tx: Tx)
    ensures Try(Exec(txs), tx).Some? <==> Allowed(Exec(txs), tx)
    ensures !Allowed(Exec(txs), tx) ==> Exec(txs + [tx]) == Exec(txs)
  {
    RunInv(txs);
    var c := Exec(txs);
    match tx
    case CreateAccount(s) => RegistryNamesAccounts(txs, s);
    case CreateGroup(_, _) =>
    case Invite(_, _, _) => InviteIff(c, tx);
    case Join(_, _) => AnswerIff(c, tx);
    case Decline(_, _) => AnswerIff(c, tx);
    case Leave(_, _) => DepartureIff(c, tx);
    case Kick(_, _, _) => DepartureIff(c, tx);
    case ChangeIpfsHash(_, _, _) => ChangeIff(c, tx);
    case Approve(_, _) => VoteIff(c, tx);
    assert (txs + [tx])[..|txs|] == txs;
  }

  // ---- What changes the hash of a group ---------------------------------------------------------

  /** The owner of the only member sends a new hash. */
  ghost predicate SetsAlone(c: Chain, tx: Tx, g: Address)
    requires g in c.groups
  {
    tx.ChangeIpfsHash? && tx.group == g && |c.groups[g].members| == 1 && SpeaksFor(c, g, tx.sender)
  }

  /** An allowed vote gives a ballot of the group more than half the group's size in entries. */
  ghost predicate Settles(c: Chain, tx: Tx, g: Address)
    requires g in c.groups
  {
    && tx.Approve? && MayVote(c, tx.sender, tx.consensus) && c.consensuses[tx.consensus].group == g
    && 2 * (|c.consensuses[tx.consensus].approvals| + 1) > |c.groups[g].members|
  }

  lemma SettlesIff(c: Chain, tx: Tx, g: Address)
    requires Inv(c) && g in c.groups && tx.Approve?
    ensures Settles(c, tx, g)
            <==> Decides(c, tx.sender, tx.consensus) && c.consensuses[tx.consensus].group == g
  {
    if tx.consensus in c.consensuses && c.consensuses[tx.consensus].group == g {
      SpeaksForIff(c, g, tx.sender);
    }
  }

  /** One transaction sets a group's hash to the one that the owner of its only member sends, or to the payload of a
      ballot that it settles, and leaves it alone in all other cases. */
  lemma HashChanges(c: Chain, tx: Tx, g: Address)
    requires Inv(c) && g in c.groups
    ensures g in Apply(c, tx).groups
    ensures Apply(c, tx).groups[g].ipfsHash
            == if SetsAlone(c, tx, g) then tx.newHash
               else if Settles(c, tx, g) then c.consensuses[tx.consensus].payload
               else c.groups[g].ipfsHash
  {
    if tx.Approve? {
      VoteSetsHash(c, tx, g);
    } else if tx.ChangeIpfsHash? {
      SpeaksForIff(c, g, tx.sender);
    } else {
      NothingAtNext(c);
    }
  }

  lemma VoteSetsHash(c: Chain, tx: Tx, g: Address)
    requires Inv(c) && g in c.groups && tx.Approve?
    ensures g in Apply(c, tx).groups
    ensures Apply(c, tx).groups[g].ipfsHash
            == if Settles(c, tx, g) then c.consensuses[tx.consensus].payload else c.groups[g].ipfsHash
  {
    SettlesIff(c, tx, g);
    if Decides(c, tx.sender, tx.consensus) {
      DecisionApplies(c, tx.sender, tx.consensus);
    }
  }

  /** A proposal is made by a member: it is recorded on a consensus of the group, based on the hash of the moment,
      and in a group of several members that is all that `changeIpfsHash` does. */
  lemma ProposalRecorded(c: Chain, tx: Tx)
    requires Inv(c) && tx.ChangeIpfsHash? && tx.group in c.groups && |c.groups[tx.group].members| != 1
    requires SpeaksFor(c, tx.group, tx.sender)
    ensures exists b :: b in c.groups[tx.group].consensuses && b in c.consensuses && Proposed(c, Apply(c, tx), tx, b)
  {
    assert GroupOk(c, tx.group);
    SpeaksForIff(c, tx.group, tx.sender);
    var G := c.groups[tx.group];
    var b := G.consensuses[Slot(G.memberToIdx, tx.sender)];
    assert b in G.consensuses && Proposed(c, Apply(c, tx), tx, b);
  }

  ghost predicate Proposed(c: Chain, c': Chain, tx: Tx, b: Address)
    requires tx.ChangeIpfsHash? && tx.group in c.groups && b in c.consensuses
  {
    var B := c.consensuses[b];
    c' == c.(consensuses := c.consensuses[b :=
               ConsensusData(true, B.proposer, B.group, Keccak(c.groups[tx.group].ipfsHash + tx.newHash), tx.newHash,
                             [B.proposer])])
  }

  // ---- What changes the members of a group ------------------------------------------------------

  /** `a` goes: its owner leaves, or someone who speaks for the group kicks it. */
  ghost predicate Goes(c: Chain, tx: Tx, g: Address, a: Address)
    requires g in c.groups
  {
    a in c.accounts
    && ((tx.Leave? && tx.group == g && c.accounts[a].owner == tx.sender)
        || (tx.Kick? && tx.group == g && tx.member == a && SpeaksFor(c, g, tx.sender)))
  }

  /** `a` comes: its owner joins on an invitation that the account holds. */
  ghost predicate Comes(c: Chain, tx: Tx, g: Address, a: Address) {
    tx.Join? && tx.group == g && a in c.accounts && c.accounts[a].owner == tx.sender && g in c.accounts[a].invitations
  }

  lemma DepartureEffect(c: Chain, tx: Tx, g: Address, a: Address)
    requires Inv(c) && g in c.groups && (tx.Leave? || tx.Kick?)
    ensures g in Apply(c, tx).groups
    ensures a in Apply(c, tx).groups[g].members <==> a in c.groups[g].members && !Goes(c, tx, g, a)
  {
    assert GroupOk(c, g);
    DepartureIff(c, tx);
    if tx.group == g && Try(c, tx).Some? {
      SwapRemoveMembers(c.groups[g].members, DepartingIndex(c, tx));
      SpeaksForIff(c, g, tx.sender);
      DepartingMember(c, tx, a);
    }
  }

  /** The position that a departure removes is that of the member who goes. */
  lemma DepartingMember(c: Chain, tx: Tx, a: Address)
    requires Inv(c) && (tx.Leave? || tx.Kick?) && Try(c, tx).Some?
    ensures DepartingIndex(c, tx) < |c.groups[tx.group].members|
    ensures a in c.groups[tx.group].members ==>
              (Goes(c, tx, tx.group, a) <==> a == c.groups[tx.group].members[DepartingIndex(c, tx)])
  {
    assert GroupOk(c, tx.group);
    SpeaksForIff(c, tx.group, tx.sender);
    var members, i := c.groups[tx.group].members, DepartingIndex(c, tx);
    if a in members && tx.Leave? {
      assert AccountOk(c, a) && AccountOk(c, members[i]);
    }
  }

  lemma JoinEffect(c: Chain, tx: Tx, g: Address, a: Address)
    requires Inv(c) && g in c.groups && tx.Join?
    ensures g in Apply(c, tx).groups
    ensures a in Apply(c, tx).groups[g].members <==> a in c.groups[g].members || Comes(c, tx, g, a)
  {
    AnswerIff(c, tx);
    assert GroupOk(c, g);
    if tx.group == g {
      HasInvitationIff(c, g, tx.sender);
    }
  }

  /** One transaction takes out of a group exactly who goes, and brings in exactly who comes. */
  lemma MembersChange(c: Chain, tx: Tx, g: Address, a: Address)
    requires Inv(c) && g in c.groups
    ensures g in Apply(c, tx).groups
    ensures a in Apply(c, tx).groups[g].members
            <==> (a in c.groups[g].members && !Goes(c, tx, g, a)) || Comes(c, tx, g, a)
  {
    NothingAtNext(c);
    if tx.Leave? || tx.Kick? {
      DepartureEffect(c, tx, g, a);
    } else if tx.Join? {
      JoinEffect(c, tx, g, a);
    } else if tx.ChangeIpfsHash? || tx.Approve? {
      VotingFrame(c, tx);
    }
  }

  /** A new group has its founder as the only member, no hash, and a closed consensus of the founder. */
  lemma GroupsAreFounded(c: Chain, tx: Tx, g: Address)
    requires Inv(c) && g in Apply(c, tx).groups && g !in c.groups
    ensures tx.CreateGroup? && tx.account in c.accounts && c.accounts[tx.account].owner == tx.sender
    ensures var G := Apply(c, tx).groups[g];
            && G.members == [tx.account] && G.ipfsHash == [] && |G.consensuses| == 1
            && G.consensuses[0] in Apply(c, tx).consensuses
            && Apply(c, tx).consensuses[G.consensuses[0]] == NewConsensus(tx.account, g)
  {
    if tx.ChangeIpfsHash? || tx.Approve? {
      VotingFrame(c, tx);
    }
  }

  // ---- What changes an invitation and a ballot --------------------------------------------------

  /** The transaction invites account `a` into `g`. */
  ghost predicate Invites(c: Chain, tx: Tx, g: Address, a: Address) {
    tx.Invite? && tx.group == g && tx.account == a && Allowed(c, tx)
  }

  /** The owner of account `a` answers the invitation into `g`. */
  ghost predicate AnswersFor(c: Chain, tx: Tx, g: Address, a: Address)
    requires a in c.accounts
  {
    (tx.Join? || tx.Decline?) && tx.group == g && c.accounts[a].owner == tx.sender
  }

  /** An account comes to hold an invitation only from someone who speaks for the group, and gives it up only by its
      owner's answer. */
  lemma InvitationsChange(c: Chain, tx: Tx, g: Address, a: Address)
    requires Inv(c) && g in c.groups && a in c.accounts
    ensures a in Apply(c, tx).accounts
    ensures g in Apply(c, tx).accounts[a].invitations
            <==> (g in c.accounts[a].invitations && !AnswersFor(c, tx, g, a)) || Invites(c, tx, g, a)
  {
    NothingAtNext(c);
    if tx.Invite? {
      InviteIff(c, tx);
    } else if tx.Join? || tx.Decline? {
      AnswerGivesUp(c, tx, g, a);
    } else if tx.ChangeIpfsHash? || tx.Approve? {
      VotingFrame(c, tx);
    } else if tx.Leave? || tx.Kick? {
      DepartureKeepsInvitations(c, tx, a);
    }
  }

  lemma DepartureKeepsInvitations(c: Chain, tx: Tx, a: Address)
    requires Inv(c) && a in c.accounts && (tx.Leave? || tx.Kick?)
    ensures a in Apply(c, tx).accounts && Apply(c, tx).accounts[a].invitations == c.accounts[a].invitations
  {
    if Try(c, tx).Some? {
      RemovalKeepsInvitations(c, tx.group, DepartingIndex(c, tx), Apply(c, tx), a);
    }
  }

  lemma RemovalKeepsInvitations(c: Chain, g: Address, i: nat, c': Chain, a: Address)
    requires g in c.groups && i <= |c.groups[g].members| && RemoveMember(c, g, i) == Some(c') && a in c.accounts
    ensures a in c'.accounts && c'.accounts[a].invitations == c.accounts[a].invitations
  {
    OnGroupLeftEffect(c.accounts[c.groups[g].members[i]], g);
  }

  lemma AnswerGivesUp(c: Chain, tx: Tx, g: Address, a: Address)
    requires Inv(c) && g in c.groups && a in c.accounts && (tx.Join? || tx.Decline?)
    ensures a in Apply(c, tx).accounts
    ensures g in Apply(c, tx).accounts[a].invitations
            <==> g in c.accounts[a].invitations && !AnswersFor(c, tx, g, a)
  {
    AnswerIff(c, tx);
    HasInvitationIff(c, g, tx.sender);
    if Try(c, tx).Some? {
      AnswerEffect(c, tx, a, g);
      var after := Apply(c, tx).accounts[a];
      assert g in after.invitations <==> g in multiset(after.invitations);
      assert g in c.accounts[a].invitations <==> g in multiset(c.accounts[a].invitations);
    }
  }

  /** A ballot of `g` opens by a proposal that is recorded on it, and closes only when a ballot of `g` is settled
      while it is listed. */
  lemma BallotsChange(c: Chain, tx: Tx, g: Address, b: Address)
    requires Inv(c) && g in c.groups && b in c.consensuses
    ensures ActiveIn(Apply(c, tx), g, b)
            <==> (Opens(c, tx, b) && tx.group == g)
                 || (ActiveIn(c, g, b) && !(Settles(c, tx, g) && b in c.groups[g].consensuses))
  {
    if tx.Approve? {
      VoteCloses(c, tx, g, b);
    } else if tx.ChangeIpfsHash? {
      assert GroupOk(c, g);
    } else {
      NothingAtNext(c);
    }
  }

  lemma VoteCloses(c: Chain, tx: Tx, g: Address, b: Address)
    requires Inv(c) && g in c.groups && b in c.consensuses && tx.Approve?
    ensures ActiveIn(Apply(c, tx), g, b)
            <==> ActiveIn(c, g, b) && !(Settles(c, tx, g) && b in c.groups[g].consensuses)
  {
    SettlesIff(c, tx, g);
    if Decides(c, tx.sender, tx.consensus) {
      DecisionApplies(c, tx.sender, tx.consensus);
      assert GroupOk(c, c.consensuses[tx.consensus].group);
    }
  }
}
