/** What every run of transactions keeps about accounts, members and invitations. */
module Membership {
  import opened Prelude
  import opened Ledger

  /** An account is the one registered for its owner, so owners identify accounts; it only lists existing groups. */
  ghost predicate AccountOk(c: Chain, a: Address)
    requires a in c.accounts
  {
    var acc := c.accounts[a];
    && 0 < a < c.next
    && Slot(c.registry, acc.owner) == a
    && (forall g | g in acc.groups :: g in c.groups)
    && (forall g | g in acc.invitations :: g in c.groups)
  }

  ghost predicate ConsensusesOk(c: Chain) {
    forall b | b in c.consensuses ::
      0 < b < c.next && c.consensuses[b].group in c.groups && c.consensuses[b].proposer in c.accounts
  }

  ghost predicate GroupOk(c: Chain, g: Address)
    requires g in c.groups
  {
    var G := c.groups[g];
    && 0 < g < c.next
    && NoDup(G.members)
    && (forall a | a in G.members :: a in c.accounts)
    && |G.members| <= |G.consensuses| && G.consensuses != []
    && (forall b | b in G.consensuses :: b in c.consensuses && c.consensuses[b].group == g)
    && (forall o | o in G.memberToIdx :: G.memberToIdx[o] < |G.consensuses|)
    && (forall o | o in G.invitations && G.invitations[o] != NULL ::
          G.invitations[o] in c.accounts && c.accounts[G.invitations[o]].owner == o && G.invitations[o] !in G.members)
  }

  /** The structural invariant of the whole system. */
  ghost predicate Sane(c: Chain) {
    && c.next > 0
    && (forall a {:trigger AccountOk(c, a)} | a in c.accounts :: AccountOk(c, a))
    && ConsensusesOk(c)
    && (forall g {:trigger GroupOk(c, g)} | g in c.groups :: GroupOk(c, g))
  }

  /** The occurrences of `g` among the invitations that account `a` holds mirror the group's own slot. */
  ghost predicate MirrorAt(c: Chain, a: Address, g: Address)
    requires a in c.accounts && g in c.groups
  {
    multiset(c.accounts[a].invitations)[g] == (if Slot(c.groups[g].invitations, c.accounts[a].owner) == a then 1 else 0)
  }

  ghost predicate Mirrored(c: Chain) {
    forall a, g {:trigger MirrorAt(c, a, g)} | a in c.accounts && g in c.groups :: MirrorAt(c, a, g)
  }

  ghost predicate Inv(c: Chain) {
    Sane(c) && Mirrored(c)
  }

  /** Occurrences of `g` in the account's group list beyond its being a member now. */
  ghost function Surplus(c: Chain, a: Address, g: Address): int {
    (if a in c.accounts then multiset(c.accounts[a].groups)[g] else 0) as int
    - (if g in c.groups && a in c.groups[g].members then 1 else 0)
  }

  /** `tx` is a decline that succeeds, of group `g` by account `a`. */
  ghost predicate Declines(c: Chain, tx: Tx, a: Address, g: Address) {
    tx.Decline? && tx.group == g && Try(c, tx).Some? && Slot(c.groups[g].invitations, tx.sender) == a
  }

  ghost function DeclineCount(txs: seq<Tx>, a: Address, g: Address): nat {
    if txs == [] then 0
    else DeclineCount(txs[..|txs| - 1], a, g)
         + (if Declines(Exec(txs[..|txs| - 1]), txs[|txs| - 1], a, g) then 1 else 0)
  }

  // ---- Owners -----------------------------------------------------------------------------------

  /** `isMember(who)` answers true exactly when `who` owns a member, and the search finds that member. */
  lemma OwnsMemberIff(c: Chain, members: seq<Address>, who: Address)
    ensures OwnsMember(c, members, who) <==> exists a :: a in members && Owner(c, a) == who
  {
    var i := FindOwner(c, members, who);
    if i < |members| {
      assert members[i] in members;
    }
  }

  // ---- The invitation loop ----------------------------------------------------------------------

  lemma {:induction false} SweepWithoutMatch(acc: AccountData, g: Address, i: nat)
    requires forall k | i <= k < |acc.invitations| :: acc.invitations[k] != g
    ensures Sweep(acc, g, i) == acc
    decreases |acc.invitations| - i
  {
    if i < |acc.invitations| {
      SweepWithoutMatch(acc, g, i + 1);
    }
  }

  /** With exactly one invitation from `g`, the loop that skips the swapped-in element removes exactly it. */
  lemma {:induction false} SweepOfSingle(acc: AccountData, g: Address, i: nat, k: nat)
    requires i <= k < |acc.invitations| && acc.invitations[k] == g
    requires multiset(acc.invitations)[g] == 1
    ensures Sweep(acc, g, i) == acc.(groups := acc.groups + [g], invitations := SwapRemove(acc.invitations, k))
    decreases k - i
  {
    SwapRemoveMultiset(acc.invitations, k);
    if acc.invitations[i] != g {
      SweepOfSingle(acc, g, i + 1, k);
    } else {
      if i < k { CountTwice(acc.invitations, i, k); }
      var next := acc.(groups := acc.groups + [g], invitations := SwapRemove(acc.invitations, i));
      assert g !in multiset(next.invitations);
      SweepWithoutMatch(next, g, i + 1);
    }
  }

  lemma {:induction false} SweepPast(acc: AccountData, g: Address, i: nat, k: nat)
    requires i <= k <= |acc.invitations| && forall j | i <= j < k :: acc.invitations[j] != g
    ensures Sweep(acc, g, i) == Sweep(acc, g, k)
    decreases k - i
  {
    if i < k {
      SweepPast(acc, g, i + 1, k);
    }
  }

  /** Were a group listed twice, the last time at the end, the loop would take out one entry only: the other one is
      swapped into its place and stepped past. */
  lemma SweepStepsPast(acc: AccountData, g: Address, front: seq<Address>, mid: seq<Address>)
    requires g !in front && g !in mid && acc.invitations == front + [g] + mid + [g]
    ensures Sweep(acc, g, 0) == acc.(groups := acc.groups + [g], invitations := front + [g] + mid)
  {
    var i := |front|;
    assert forall j | 0 <= j < i :: acc.invitations[j] == front[j];
    SweepPast(acc, g, 0, i);
    assert SwapRemove(acc.invitations, i) == front + [g] + mid;
    var next := acc.(groups := acc.groups + [g], invitations := front + [g] + mid);
    assert forall j | i + 1 <= j < |next.invitations| :: next.invitations[j] == mid[j - i - 1];
    SweepWithoutMatch(next, g, i + 1);
  }

  lemma CountTwice<T>(s: seq<T>, i: nat, k: nat)
    requires i < k < |s| && s[i] == s[k]
    ensures multiset(s)[s[i]] >= 2
  {
    assert s == s[..k] + s[k..];
    assert s[..k][i] == s[i] && s[k..][0] == s[i];
  }

  /** The effect of answering an invitation that is held once. */
  lemma SweepEffect(acc: AccountData, g: Address)
    requires multiset(acc.invitations)[g] == 1
    ensures Sweep(acc, g, 0).groups == acc.groups + [g]
    ensures Sweep(acc, g, 0).owner == acc.owner
    ensures multiset(Sweep(acc, g, 0).invitations) == multiset(acc.invitations) - multiset{g}
  {
    assert g in multiset(acc.invitations);
    var k := IndexOf(acc.invitations, g);
    SweepOfSingle(acc, g, 0, k);
    SwapRemoveMultiset(acc.invitations, k);
  }

  lemma OnGroupLeftEffect(acc: AccountData, g: Address)
    ensures OnGroupLeft(acc, g).owner == acc.owner && OnGroupLeft(acc, g).invitations == acc.invitations
    ensures multiset(OnGroupLeft(acc, g).groups) == multiset(acc.groups) - multiset{g}
  {
    var i := IndexOf(acc.groups, g);
    if i < |acc.groups| {
      SwapRemoveMultiset(acc.groups, i);
    } else {
      assert g !in multiset(acc.groups);
    }
  }

  // ---- Framing ----------------------------------------------------------------------------------

  /** What no transaction undoes: contracts stay, an account keeps its owner and a consensus its group and proposer. */
  ghost predicate Extends(c: Chain, c': Chain) {
    && c.next <= c'.next
    && (forall a | a in c.accounts :: a in c'.accounts && c'.accounts[a].owner == c.accounts[a].owner)
    && (forall g | g in c.groups :: g in c'.groups)
    && (forall b | b in c.consensuses :: b in c'.consensuses && c'.consensuses[b].group == c.consensuses[b].group
                                         && c'.consensuses[b].proposer == c.consensuses[b].proposer)
  }

  lemma GroupFrame(c: Chain, c': Chain, g: Address)
    requires g in c.groups && GroupOk(c, g) && Extends(c, c')
    requires c'.groups[g] == c.groups[g].(ipfsHash := c'.groups[g].ipfsHash)
    ensures GroupOk(c', g)
  {
  }

  lemma AccountFrame(c: Chain, c': Chain, a: Address)
    requires a in c.accounts && AccountOk(c, a) && Extends(c, c') && c'.accounts[a] == c.accounts[a]
    requires Slot(c'.registry, c.accounts[a].owner) == a
    ensures AccountOk(c', a)
  {
  }

  /** Only account `a` and group `g` may need attention; everything else is framed. */
  lemma SaneByFrame(c: Chain, c': Chain, a: Address, g: Address)
    requires Sane(c) && Extends(c, c') && ConsensusesOk(c')
    requires forall x | x in c'.accounts && x != a ::
               x in c.accounts && c'.accounts[x] == c.accounts[x] && Slot(c'.registry, c.accounts[x].owner) == x
    requires forall x | x in c'.groups && x != g :: x in c.groups && c'.groups[x] == c.groups[x]
    requires a in c'.accounts ==> AccountOk(c', a)
    requires g in c'.groups ==> GroupOk(c', g)
    ensures Sane(c')
  {
    forall x | x in c'.accounts ensures AccountOk(c', x) {
      if x != a {
        assert AccountOk(c, x);
        AccountFrame(c, c', x);
      }
    }
    forall x | x in c'.groups ensures GroupOk(c', x) {
      if x != g {
        assert GroupOk(c, x);
        GroupFrame(c, c', x);
      }
    }
  }

  /** The registry still names every old account after a new one is registered. */
  lemma CreateAccountSane(c: Chain, sender: Address, c': Chain)
    requires Sane(c) && TryCreateAccount(c, sender) == Some(c')
    ensures Sane(c') && Extends(c, c')
  {
    NothingAtNext(c);
    forall a | a in c.accounts ensures a != c.next && Slot(c'.registry, c.accounts[a].owner) == a {
      assert AccountOk(c, a);
    }
    SaneByFrame(c, c', c.next, NULL);
  }

  lemma CreateGroupSane(c: Chain, sender: Address, account: Address, c': Chain)
    requires Sane(c) && TryCreateGroup(c, sender, account) == Some(c')
    ensures Sane(c') && Extends(c, c')
  {
    Registered(c);
    CreatedGroupOk(c, sender, account, c');
    SaneByFrame(c, c', account, c.next);
  }

  lemma CreatedGroupOk(c: Chain, sender: Address, account: Address, c': Chain)
    requires Sane(c) && TryCreateGroup(c, sender, account) == Some(c')
    ensures Extends(c, c') && ConsensusesOk(c')
    ensures account in c'.accounts && AccountOk(c', account)
    ensures c.next in c'.groups && GroupOk(c', c.next)
  {
    NothingAtNext(c);
    assert AccountOk(c, account);
    assert c'.groups[c.next] == GroupData([account], [], [c.next + 1], map[], map[]);
  }

  lemma NothingAtNext(c: Chain)
    requires Sane(c)
    ensures c.next !in c.accounts && c.next !in c.groups && NULL !in c.groups && NULL !in c.accounts
    ensures forall b | b in c.consensuses :: b < c.next
    ensures forall a | a in c.accounts :: c.next !in c.accounts[a].groups && c.next !in c.accounts[a].invitations
  {
    assert c.next in c.accounts ==> AccountOk(c, c.next);
    assert c.next in c.groups ==> GroupOk(c, c.next);
    assert NULL in c.groups ==> GroupOk(c, NULL);
    assert NULL in c.accounts ==> AccountOk(c, NULL);
    forall a | a in c.accounts
      ensures c.next !in c.accounts[a].groups && c.next !in c.accounts[a].invitations
    {
      assert AccountOk(c, a);
    }
  }

  lemma Registered(c: Chain)
    requires Sane(c)
    ensures forall a | a in c.accounts :: Slot(c.registry, c.accounts[a].owner) == a
  {
    forall a | a in c.accounts ensures Slot(c.registry, c.accounts[a].owner) == a {
      assert AccountOk(c, a);
    }
  }

  lemma InviteSane(c: Chain, sender: Address, g: Address, account: Address, c': Chain)
    requires Sane(c) && TryInvite(c, sender, g, account) == Some(c')
    ensures Sane(c') && Extends(c, c')
  {
    Registered(c);
    assert GroupOk(c, g) && AccountOk(c, account);
    SaneByFrame(c, c', account, g);
  }

  /** An invitation that the group knows is held once by the account, and answering it leaves the account in order. */
  lemma Answered(c: Chain, sender: Address, g: Address)
    requires Inv(c) && g in c.groups && Slot(c.groups[g].invitations, sender) != NULL
    ensures var account := Slot(c.groups[g].invitations, sender);
            && account in c.accounts && c.accounts[account].owner == sender && account !in c.groups[g].members
            && (var acc := c.accounts[account];
                var acc' := Sweep(acc, g, 0);
                && acc'.owner == acc.owner && acc'.groups == acc.groups + [g]
                && multiset(acc.invitations)[g] == 1
                && multiset(acc'.invitations) == multiset(acc.invitations) - multiset{g}
                && (forall h | h in acc'.invitations :: h in c.groups)
                && (forall h | h in acc'.groups :: h in c.groups))
  {
    var account := Slot(c.groups[g].invitations, sender);
    assert GroupOk(c, g) && AccountOk(c, account) && MirrorAt(c, account, g);
    var acc := c.accounts[account];
    SweepEffect(acc, g);
    forall h | h in Sweep(acc, g, 0).invitations ensures h in c.groups {
      assert h in multiset(Sweep(acc, g, 0).invitations);
      assert h in multiset(acc.invitations);
    }
  }

  lemma JoinExtends(c: Chain, sender: Address, g: Address, c': Chain)
    requires Inv(c) && TryJoin(c, sender, g) == Some(c')
    ensures Extends(c, c') && ConsensusesOk(c')
  {
    Answered(c, sender, g);
    NothingAtNext(c);
    assert GroupOk(c, g);
  }

  lemma JoinedAccountOk(c: Chain, sender: Address, g: Address, c': Chain)
    requires Inv(c) && TryJoin(c, sender, g) == Some(c')
    ensures var account := Slot(c.groups[g].invitations, sender); account in c'.accounts && AccountOk(c', account)
  {
    Answered(c, sender, g);
    assert AccountOk(c, Slot(c.groups[g].invitations, sender));
  }

  lemma JoinedGroupOk(c: Chain, sender: Address, g: Address, c': Chain)
    requires Inv(c) && TryJoin(c, sender, g) == Some(c')
    ensures g in c'.groups && GroupOk(c', g)
  {
    Answered(c, sender, g);
    NothingAtNext(c);
    assert GroupOk(c, g);
  }

  lemma JoinSane(c: Chain, sender: Address, g: Address, c': Chain)
    requires Inv(c) && TryJoin(c, sender, g) == Some(c')
    ensures Sane(c') && Extends(c, c')
  {
    Registered(c);
    JoinExtends(c, sender, g, c');
    JoinedAccountOk(c, sender, g, c');
    JoinedGroupOk(c, sender, g, c');
    SaneByFrame(c, c', Slot(c.groups[g].invitations, sender), g);
  }

  lemma DeclineSane(c: Chain, sender: Address, g: Address, c': Chain)
    requires Inv(c) && TryDecline(c, sender, g) == Some(c')
    ensures Sane(c') && Extends(c, c')
  {
    Answered(c, sender, g);
    Registered(c);
    var account := Slot(c.groups[g].invitations, sender);
    assert AccountOk(c, account) && GroupOk(c, g);
    SaneByFrame(c, c', account, g);
  }

  lemma RemoveSane(c: Chain, g: Address, i: nat, c': Chain)
    requires Sane(c) && g in c.groups && i <= |c.groups[g].members| && RemoveMember(c, g, i) == Some(c')
    ensures Sane(c') && Extends(c, c')
  {
    Registered(c);
    var G := c.groups[g];
    var account := G.members[i];
    assert GroupOk(c, g) && AccountOk(c, account);
    SwapRemoveMembers(G.members, i);
    OnGroupLeftEffect(c.accounts[account], g);
    var acc, acc' := c.accounts[account], c'.accounts[account];
    forall h | h in acc'.groups ensures h in c.groups {
      assert h in multiset(acc'.groups);
      assert h in multiset(acc.groups);
    }
    SaneByFrame(c, c', account, g);
  }

  lemma ChangeSane(c: Chain, sender: Address, g: Address, newHash: Bytes, c': Chain)
    requires Sane(c) && TryChangeIpfsHash(c, sender, g, newHash) == Some(c')
    ensures Sane(c') && Extends(c, c')
  {
    Registered(c);
    NothingAtNext(c);
    ChangeExtends(c, sender, g, newHash, c');
    assert GroupOk(c, g);
    GroupFrame(c, c', g);
    SaneByFrame(c, c', NULL, g);
  }

  lemma ChangeExtends(c: Chain, sender: Address, g: Address, newHash: Bytes, c': Chain)
    requires Sane(c) && TryChangeIpfsHash(c, sender, g, newHash) == Some(c')
    ensures Extends(c, c') && ConsensusesOk(c')
    ensures c'.accounts == c.accounts && c'.registry == c.registry && c'.groups.Keys == c.groups.Keys
    ensures c'.groups == c.groups[g := c.groups[g].(ipfsHash := c'.groups[g].ipfsHash)]
  {
  }

  lemma ApproveFrame(c: Chain, sender: Address, b: Address, c': Chain)
    requires TryApprove(c, sender, b) == Some(c')
    ensures c'.accounts == c.accounts && c'.registry == c.registry && c'.next == c.next
    ensures c'.groups.Keys == c.groups.Keys && c'.consensuses.Keys == c.consensuses.Keys
    ensures forall g | g in c.groups :: c'.groups[g] == c.groups[g].(ipfsHash := c'.groups[g].ipfsHash)
  {
  }

  lemma ApproveKeepsOrigin(c: Chain, sender: Address, b: Address, c': Chain)
    requires TryApprove(c, sender, b) == Some(c')
    ensures forall x | x in c.consensuses :: x in c'.consensuses
              && c'.consensuses[x].group == c.consensuses[x].group
              && c'.consensuses[x].proposer == c.consensuses[x].proposer
  {
  }

  lemma ApproveExtends(c: Chain, sender: Address, b: Address, c': Chain)
    requires ConsensusesOk(c) && TryApprove(c, sender, b) == Some(c')
    ensures Extends(c, c') && ConsensusesOk(c')
  {
    ApproveFrame(c, sender, b, c');
    ApproveKeepsOrigin(c, sender, b, c');
  }

  lemma ApproveSane(c: Chain, sender: Address, b: Address, c': Chain)
    requires Sane(c) && TryApprove(c, sender, b) == Some(c')
    ensures Sane(c') && Extends(c, c')
  {
    Registered(c);
    ApproveFrame(c, sender, b, c');
    ApproveExtends(c, sender, b, c');
    forall a | a in c'.accounts ensures AccountOk(c', a) {
      assert AccountOk(c, a);
    }
    forall g | g in c'.groups ensures GroupOk(c', g) {
      assert GroupOk(c, g);
      GroupFrame(c, c', g);
    }
  }

  lemma StepSane(c: Chain, tx: Tx)
    requires Inv(c)
    ensures Sane(Apply(c, tx)) && Extends(c, Apply(c, tx))
  {
    match Try(c, tx)
    case None =>
    case Some(c') =>
      match tx
      case CreateAccount(s) => CreateAccountSane(c, s, c');
      case CreateGroup(s, a) => CreateGroupSane(c, s, a, c');
      case Invite(s, g, a) => InviteSane(c, s, g, a, c');
      case Join(s, g) => JoinSane(c, s, g, c');
      case Decline(s, g) => DeclineSane(c, s, g, c');
      case Leave(s, g) => RemoveSane(c, g, FindOwner(c, c.groups[g].members, s), c');
      case Kick(s, g, m) => RemoveSane(c, g, IndexOf(c.groups[g].members, m), c');
      case ChangeIpfsHash(s, g, h) => ChangeSane(c, s, g, h, c');
      case Approve(s, b) => ApproveSane(c, s, b, c');
  }

  // ---- Invitations mirrored in the accounts -----------------------------------------------------

  lemma CreationMirrorAt(c: Chain, tx: Tx, a: Address, g: Address)
    requires Inv(c) && (tx.CreateAccount? || tx.CreateGroup? || tx.Invite?)
    requires a in Apply(c, tx).accounts && g in Apply(c, tx).groups
    ensures MirrorAt(Apply(c, tx), a, g)
  {
    if tx.Invite? {
      InviteMirrorAt(c, tx, a, g);
    } else {
      NothingAtNext(c);
      assert a in c.accounts ==> AccountOk(c, a);
      assert g in c.groups ==> GroupOk(c, g);
      assert a in c.accounts && g in c.groups ==> MirrorAt(c, a, g);
    }
  }

  lemma InviteMirrorAt(c: Chain, tx: Tx, a: Address, g: Address)
    requires Inv(c) && tx.Invite? && a in Apply(c, tx).accounts && g in Apply(c, tx).groups
    ensures MirrorAt(Apply(c, tx), a, g)
  {
    assert AccountOk(c, a) && MirrorAt(c, a, g);
    if Try(c, tx).Some? {
      assert AccountOk(c, tx.account);
    }
  }

  /** What answering an invitation comes down to, for one account and one group: `joined` tells joins from declines. */
  lemma AnswerEffect(c: Chain, tx: Tx, a: Address, g: Address)
    requires Inv(c) && (tx.Join? || tx.Decline?) && Try(c, tx).Some? && a in c.accounts && g in c.groups
    ensures var c', account := Apply(c, tx), Slot(c.groups[tx.group].invitations, tx.sender);
            && account != NULL && c'.accounts.Keys == c.accounts.Keys && c'.groups.Keys == c.groups.Keys
            && c'.accounts[a].owner == c.accounts[a].owner
            && (if a == account && g == tx.group then
                  && multiset(c'.accounts[a].invitations)[g] == 0
                  && multiset(c'.accounts[a].groups)[g] == multiset(c.accounts[a].groups)[g] + 1
                  && Slot(c'.groups[g].invitations, c.accounts[a].owner) == NULL
                  && a !in c.groups[g].members && (a in c'.groups[g].members <==> tx.Join?)
                else
                  && multiset(c'.accounts[a].invitations)[g] == multiset(c.accounts[a].invitations)[g]
                  && multiset(c'.accounts[a].groups)[g] == multiset(c.accounts[a].groups)[g]
                  && Slot(c'.groups[g].invitations, c.accounts[a].owner)
                     == Slot(c.groups[g].invitations, c.accounts[a].owner)
                  && (a in c'.groups[g].members <==> a in c.groups[g].members))
  {
    AnsweredLists(c, tx, a, g);
    AnsweredGroup(c, tx, a, g);
  }

  lemma AnsweredLists(c: Chain, tx: Tx, a: Address, g: Address)
    requires Inv(c) && (tx.Join? || tx.Decline?) && Try(c, tx).Some? && a in c.accounts && g in c.groups
    ensures var c', account := Apply(c, tx), Slot(c.groups[tx.group].invitations, tx.sender);
            && c'.accounts.Keys == c.accounts.Keys && c'.accounts[a].owner == c.accounts[a].owner
            && (if a == account && g == tx.group then
                  && multiset(c'.accounts[a].invitations)[g] == 0
                  && multiset(c'.accounts[a].groups)[g] == multiset(c.accounts[a].groups)[g] + 1
                else
                  && multiset(c'.accounts[a].invitations)[g] == multiset(c.accounts[a].invitations)[g]
                  && multiset(c'.accounts[a].groups)[g] == multiset(c.accounts[a].groups)[g])
  {
    var account := Slot(c.groups[tx.group].invitations, tx.sender);
    Answered(c, tx.sender, tx.group);
    AnsweredAccounts(c, tx);
    if a == account {
      var acc, acc' := c.accounts[a], Sweep(c.accounts[a], tx.group, 0);
      assert multiset(acc'.groups) == multiset(acc.groups) + multiset{tx.group};
    }
  }

  lemma AnsweredAccounts(c: Chain, tx: Tx)
    requires (tx.Join? || tx.Decline?) && Try(c, tx).Some?
    ensures var account := Slot(c.groups[tx.group].invitations, tx.sender);
            account in c.accounts
            && Apply(c, tx).accounts == c.accounts[account := Sweep(c.accounts[account], tx.group, 0)]
  {
  }

  lemma AnsweredGroup(c: Chain, tx: Tx, a: Address, g: Address)
    requires Inv(c) && (tx.Join? || tx.Decline?) && Try(c, tx).Some? && a in c.accounts && g in c.groups
    ensures var c', account := Apply(c, tx), Slot(c.groups[tx.group].invitations, tx.sender);
            && account != NULL && c'.groups.Keys == c.groups.Keys
            && (if a == account && g == tx.group then
                  && Slot(c'.groups[g].invitations, c.accounts[a].owner) == NULL
                  && a !in c.groups[g].members && (a in c'.groups[g].members <==> tx.Join?)
                else
                  && Slot(c'.groups[g].invitations, c.accounts[a].owner)
                     == Slot(c.groups[g].invitations, c.accounts[a].owner)
                  && (a in c'.groups[g].members <==> a in c.groups[g].members))
  {
    Answered(c, tx.sender, tx.group);
    assert AccountOk(c, a) && AccountOk(c, Slot(c.groups[tx.group].invitations, tx.sender));
  }

  lemma AnswerMirrorAt(c: Chain, tx: Tx, a: Address, g: Address)
    requires Inv(c) && (tx.Join? || tx.Decline?) && Try(c, tx).Some? && a in c.accounts && g in c.groups
    ensures a in Apply(c, tx).accounts && g in Apply(c, tx).groups && MirrorAt(Apply(c, tx), a, g)
  {
    AnswerEffect(c, tx, a, g);
    assert AccountOk(c, a) && MirrorAt(c, a, g);
  }

  lemma RemoveMirrorAt(c: Chain, g0: Address, i: nat, c': Chain, a: Address, g: Address)
    requires Inv(c) && g0 in c.groups && i <= |c.groups[g0].members| && RemoveMember(c, g0, i) == Some(c')
    requires a in c.accounts && g in c.groups
    ensures MirrorAt(c', a, g)
  {
    assert MirrorAt(c, a, g);
    OnGroupLeftEffect(c.accounts[c.groups[g0].members[i]], g0);
  }

  lemma RemoveInv(c: Chain, g: Address, i: nat, c': Chain)
    requires Inv(c) && g in c.groups && i <= |c.groups[g].members| && RemoveMember(c, g, i) == Some(c')
    ensures Inv(c') && Extends(c, c')
  {
    RemoveSane(c, g, i, c');
    forall a, h | a in c'.accounts && h in c'.groups ensures MirrorAt(c', a, h) {
      RemoveMirrorAt(c, g, i, c', a, h);
    }
  }

  /** Proposing and voting touch neither accounts nor who is in or invited to a group. */
  lemma VotingFrame(c: Chain, tx: Tx)
    requires tx.ChangeIpfsHash? || tx.Approve?
    ensures var c' := Apply(c, tx);
            && c'.accounts == c.accounts && c'.groups.Keys == c.groups.Keys
            && forall g | g in c.groups :: c'.groups[g] == c.groups[g].(ipfsHash := c'.groups[g].ipfsHash)
  {
    if tx.Approve? && Try(c, tx).Some? {
      ApproveFrame(c, tx.sender, tx.consensus, Apply(c, tx));
    }
  }

  lemma StepMirrorAt(c: Chain, tx: Tx, a: Address, g: Address)
    requires Inv(c) && a in Apply(c, tx).accounts && g in Apply(c, tx).groups
    ensures MirrorAt(Apply(c, tx), a, g)
  {
    if Try(c, tx).None? {
      assert MirrorAt(c, a, g);
    } else {
      match tx
      case Join(_, _) => AnswerMirrorAt(c, tx, a, g);
      case Decline(_, _) => AnswerMirrorAt(c, tx, a, g);
      case Leave(s, h) => RemoveMirrorAt(c, h, FindOwner(c, c.groups[h].members, s), Apply(c, tx), a, g);
      case Kick(s, h, m) => RemoveMirrorAt(c, h, IndexOf(c.groups[h].members, m), Apply(c, tx), a, g);
      case ChangeIpfsHash(_, _, _) => VotingFrame(c, tx); assert MirrorAt(c, a, g);
      case Approve(_, _) => VotingFrame(c, tx); assert MirrorAt(c, a, g);
      case _ => CreationMirrorAt(c, tx, a, g);
    }
  }

  lemma StepInv(c: Chain, tx: Tx)
    requires Inv(c)
    ensures Inv(Apply(c, tx)) && Extends(c, Apply(c, tx))
  {
    StepSane(c, tx);
    forall a, g | a in Apply(c, tx).accounts && g in Apply(c, tx).groups
      ensures MirrorAt(Apply(c, tx), a, g)
    {
      StepMirrorAt(c, tx, a, g);
    }
  }

  /** Every run keeps the invariant. */
  lemma {:induction false} RunInv(txs: seq<Tx>)
    ensures Inv(Exec(txs))
  {
    if txs != [] {
      RunInv(txs[..|txs| - 1]);
      StepInv(Exec(txs[..|txs| - 1]), txs[|txs| - 1]);
    }
  }

  /** On every run, a group lists no member twice, a pending invitee is no member, and account `a` holds `g`
      exactly once among its invitations when `g`'s slot for its owner is `a`, and not at all otherwise. */
  lemma InvitationMirror(txs: seq<Tx>, a: Address, g: Address)
    requires a in Exec(txs).accounts && g in Exec(txs).groups
    ensures var c := Exec(txs);
            var G, acc := c.groups[g], c.accounts[a];
            && NoDup(G.members)
            && (Slot(G.invitations, acc.owner) == a ==> multiset(acc.invitations)[g] == 1 && a !in G.members)
            && (Slot(G.invitations, acc.owner) != a ==> g !in acc.invitations)
  {
    RunInv(txs);
    var c := Exec(txs);
    assert GroupOk(c, g) && AccountOk(c, a) && MirrorAt(c, a, g);
    assert g in c.accounts[a].invitations <==> g in multiset(c.accounts[a].invitations);
  }

  /** On every run, one owner has one account. */
  lemma OwnersAreInjective(txs: seq<Tx>, a: Address, a': Address)
    requires a in Exec(txs).accounts && a' in Exec(txs).accounts && Owner(Exec(txs), a) == Owner(Exec(txs), a')
    ensures a == a'
  {
    RunInv(txs);
    assert AccountOk(Exec(txs), a) && AccountOk(Exec(txs), a');
  }

  // ---- Conservation of membership ---------------------------------------------------------------

  lemma RemovedFromLists(c: Chain, g0: Address, i: nat, c': Chain)
    requires Inv(c) && g0 in c.groups && i <= |c.groups[g0].members| && RemoveMember(c, g0, i) == Some(c')
    requires Surplus(c, c.groups[g0].members[i], g0) >= 0
    ensures var account := c.groups[g0].members[i];
            && account in c.accounts && c'.accounts.Keys == c.accounts.Keys && c'.groups.Keys == c.groups.Keys
            && (forall x | x in c.accounts && x != account :: c'.accounts[x] == c.accounts[x])
            && multiset(c'.accounts[account].groups) == multiset(c.accounts[account].groups) - multiset{g0}
            && g0 in c.accounts[account].groups
            && (forall h | h in c.groups && h != g0 :: c'.groups[h] == c.groups[h])
            && (forall x :: x in c'.groups[g0].members <==> x in c.groups[g0].members && x != account)
  {
    var G := c.groups[g0];
    assert GroupOk(c, g0) && AccountOk(c, G.members[i]);
    SwapRemoveMembers(G.members, i);
    OnGroupLeftEffect(c.accounts[G.members[i]], g0);
    assert g0 in multiset(c.accounts[G.members[i]].groups);
  }

  lemma RemoveSurplus(c: Chain, g0: Address, i: nat, c': Chain, a: Address, g: Address)
    requires Inv(c) && g0 in c.groups && i <= |c.groups[g0].members| && RemoveMember(c, g0, i) == Some(c')
    requires Surplus(c, c.groups[g0].members[i], g0) >= 0
    ensures Surplus(c', a, g) == Surplus(c, a, g)
  {
    RemovedFromLists(c, g0, i, c');
    var account := c.groups[g0].members[i];
    assert g in c'.groups && a in c'.groups[g].members
           <==> g in c.groups && a in c.groups[g].members && !(g == g0 && a == account);
    assert a in c.accounts ==>
             multiset(c'.accounts[a].groups)[g] == multiset(c.accounts[a].groups)[g]
             - (if g == g0 && a == account then 1 else 0);
  }

  lemma AnswerSurplus(c: Chain, tx: Tx, a: Address, g: Address)
    requires Inv(c) && (tx.Join? || tx.Decline?) && Try(c, tx).Some?
    ensures Surplus(Apply(c, tx), a, g) == Surplus(c, a, g) + (if Declines(c, tx, a, g) then 1 else 0)
  {
    Answered(c, tx.sender, tx.group);
    if a in c.accounts && g in c.groups {
      AnswerEffect(c, tx, a, g);
    } else {
      AnswerElsewhere(c, tx, a, g);
    }
  }

  lemma AnswerElsewhere(c: Chain, tx: Tx, a: Address, g: Address)
    requires Inv(c) && (tx.Join? || tx.Decline?) && Try(c, tx).Some? && !(a in c.accounts && g in c.groups)
    ensures Surplus(Apply(c, tx), a, g) == Surplus(c, a, g)
  {
    Answered(c, tx.sender, tx.group);
  }

  lemma CreationSurplus(c: Chain, tx: Tx, a: Address, g: Address)
    requires Inv(c) && (tx.CreateAccount? || tx.CreateGroup? || tx.Invite?)
    ensures Surplus(Apply(c, tx), a, g) == Surplus(c, a, g)
  {
    NothingAtNext(c);
    assert g in c.groups ==> GroupOk(c, g);
  }

  lemma StepSurplus(c: Chain, tx: Tx, a: Address, g: Address)
    requires Inv(c) && forall x, h :: Surplus(c, x, h) >= 0
    ensures Surplus(Apply(c, tx), a, g) == Surplus(c, a, g) + (if Declines(c, tx, a, g) then 1 else 0)
  {
    if Try(c, tx).Some? {
      match tx
      case Join(_, _) => AnswerSurplus(c, tx, a, g);
      case Decline(_, _) => AnswerSurplus(c, tx, a, g);
      case Leave(s, h) => RemoveSurplus(c, h, FindOwner(c, c.groups[h].members, s), Apply(c, tx), a, g);
      case Kick(s, h, m) => RemoveSurplus(c, h, IndexOf(c.groups[h].members, m), Apply(c, tx), a, g);
      case ChangeIpfsHash(_, _, _) => VotingFrame(c, tx);
      case Approve(_, _) => VotingFrame(c, tx);
      case _ => CreationSurplus(c, tx, a, g);
    }
  }

  /** On every run, account `a` lists group `g` once if it is a member, plus once for every time it declined `g`. */
  lemma {:induction false} MembershipConservation(txs: seq<Tx>, a: Address, g: Address)
    ensures Surplus(Exec(txs), a, g) == DeclineCount(txs, a, g)
  {
    if txs != [] {
      var before := txs[..|txs| - 1];
      forall x, h ensures Surplus(Exec(before), x, h) == DeclineCount(before, x, h) {
        MembershipConservation(before, x, h);
      }
      RunInv(before);
      StepSurplus(Exec(before), txs[|txs| - 1], a, g);
    }
  }
}
