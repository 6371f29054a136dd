/** The contracts' code: one object per deployed contract, with the loops of the source, updating its storage in
    place. Contracts reach each other through addresses, which the `World` resolves as the EVM does. Every
    transaction method is proved to be the transaction of the same name, reverts included. */
module Contracts {
  import opened Prelude
  import opened Ledger
  import opened Membership
  import opened Ballots

  /** The chain after an attempted transaction: a revert restores the state. */
  ghost function After(c: Chain, outcome: Option<Chain>): Chain {
    if outcome.Some? then outcome.value else c
  }

  lemma FirstIndex<T>(s: seq<T>, x: T, i: nat)
    requires i < |s| && s[i] == x && forall j | 0 <= j < i :: s[j] != x
    ensures IndexOf(s, x) == i
  {
  }

  lemma FirstOwner(c: Chain, members: seq<Address>, who: Address, i: nat)
    requires i <= |members| && (i < |members| ==> Owner(c, members[i]) == who)
    requires forall j | 0 <= j < i :: Owner(c, members[j]) != who
    ensures FindOwner(c, members, who) == i
  {
  }

  lemma InvalidateNext(m: map<Address, ConsensusData>, listed: seq<Address>, i: nat)
    requires i < |listed| && listed[i] in m
    ensures var before := Invalidate(m, listed[..i]);
            Invalidate(m, listed[..i + 1]) == before[listed[i] := before[listed[i]].(isActive := false)]
  {
    assert listed[..i + 1] == listed[..i] + [listed[i]];
  }

  // ---- Storage writes on the chain --------------------------------------------------------------

  function PutAccount(c: Chain, a: Address, data: AccountData): Chain {
    c.(accounts := c.accounts[a := data])
  }

  function PutGroup(c: Chain, g: Address, data: GroupData): Chain {
    c.(groups := c.groups[g := data])
  }

  /** `c` with a new consensus of `account` at the next address. */
  function PutConsensus(c: Chain, account: Address, g: Address): Chain {
    c.(next := c.next + 1, consensuses := c.consensuses[c.next := NewConsensus(account, g)])
  }

  /** The first writes of `join`: the account comes in and gets a consensus. */
  function Admitted(c: Chain, g: Address, owner: Address, account: Address): Chain
    requires g in c.groups
  {
    var G := c.groups[g];
    PutGroup(PutConsensus(c, account, g), g,
             G.(members := G.members + [account], consensuses := G.consensuses + [c.next],
                memberToIdx := G.memberToIdx[owner := |G.members|]))
  }

  /** All writes of `join`: the account comes in, answers its invitation, and the group forgets the invitation. */
  function TakenIn(c: Chain, g: Address, owner: Address, account: Address): Chain
    requires g in c.groups && account in c.accounts
  {
    var admitted := Admitted(c, g, owner, account);
    var swept := PutAccount(admitted, account, Sweep(admitted.accounts[account], g, 0));
    PutGroup(swept, g, swept.groups[g].(invitations := swept.groups[g].invitations[owner := NULL]))
  }

  /** The chain once a group of `account` has been deployed. */
  function Deployed(c: Chain, account: Address): Chain {
    PutGroup(PutConsensus(c.(next := c.next + 1), account, c.next), c.next,
             GroupData([account], [], [c.next + 1], map[], map[]))
  }

  lemma DeployThenList(c: Chain, sender: Address, account: Address)
    requires account in c.accounts && c.accounts[account].owner == sender
    ensures var acc := c.accounts[account];
            TryCreateGroup(c, sender, account)
            == Some(PutAccount(Deployed(c, account), account, acc.(groups := acc.groups + [c.next])))
  {
  }

  /** The writes of `join`, one after the other, make up the transaction. */
  lemma JoinWrites(c: Chain, sender: Address, g: Address, account: Address)
    requires g in c.groups && Slot(c.groups[g].invitations, sender) == account != NULL
    requires account in c.accounts && c.accounts[account].owner == sender
    ensures TryJoin(c, sender, g) == Some(TakenIn(c, g, sender, account))
  {
    var admitted := Admitted(c, g, sender, account).groups[g];
    assert c.groups[g := admitted][g := admitted.(invitations := admitted.invitations[sender := NULL])]
        == c.groups[g := admitted.(invitations := admitted.invitations[sender := NULL])];
  }

  /** Every consensus that the group lists is its own. */
  ghost predicate AllOwn(c: Chain, g: Address)
    requires g in c.groups
  {
    forall k | 0 <= k < |c.groups[g].consensuses| ::
      c.groups[g].consensuses[k] in c.consensuses && c.consensuses[c.groups[g].consensuses[k]].group == g
  }

  lemma CallbackReverts(c: Chain, g: Address, b: Address)
    requires g in c.groups && b in c.consensuses
    ensures var listed := c.groups[g].consensuses;
            var idx := Slot(c.groups[g].memberToIdx, Owner(c, c.consensuses[b].proposer));
            OnConsensus(c, g, b).None? <==> idx >= |listed| || listed[idx] == NULL || !AllOwn(c, g)
  {
  }

  class Account {
    const self: Address
    const owner: Address
    var groups: seq<Address>
    var invitations: seq<Address>

    ghost function Data(): AccountData
      reads this
    {
      AccountData(owner, groups, invitations)
    }

    constructor (self: Address, owner: Address)
      ensures this.self == self && Data() == AccountData(owner, [], [])
    {
      this.self, this.owner, groups, invitations := self, owner, [], [];
    }

    method Invite(sender: Address)
      modifies `invitations
      ensures invitations == old(invitations) + [sender]
    {
      invitations := invitations + [sender];
    }

    /** The loop of `onInvitationAccepted` and `onInvitationDeclined`. */
    method OnInvitation(sender: Address)
      modifies this
      ensures Data() == Sweep(old(Data()), sender, 0)
    {
      var i := 0;
      while i < |invitations|
        invariant Sweep(Data(), sender, i) == Sweep(old(Data()), sender, 0)
        decreases |invitations| - i
      {
        if invitations[i] == sender {
          groups := groups + [sender];
          invitations := invitations[i := invitations[|invitations| - 1]];
          invitations := invitations[..|invitations| - 1];
        }
        i := i + 1;
      }
    }

    method OnGroupLeft(group: Address)
      modifies `groups
      ensures Data() == Ledger.OnGroupLeft(old(Data()), group)
    {
      for i := 0 to |groups|
        invariant groups == old(groups)
        invariant forall j | 0 <= j < i :: groups[j] != group
      {
        if groups[i] == group {
          FirstIndex(groups, group, i);
          groups := groups[i := groups[|groups| - 1]];
          groups := groups[..|groups| - 1];
          return;
        }
      }
    }
  }

  class Consensus {
    const self: Address
    const proposer: Address
    const group: Address
    var isActive: bool
    var digest: Digest
    var payload: Bytes
    var approvals: seq<Address>

    ghost function Data(): ConsensusData
      reads this
    {
      ConsensusData(isActive, proposer, group, digest, payload, approvals)
    }

    constructor (self: Address, proposer: Address, group: Address)
      ensures this.self == self && Data() == NewConsensus(proposer, group)
    {
      this.self, this.proposer, this.group := self, proposer, group;
      isActive, digest, payload, approvals := false, NoDigest, [], [];
    }

    method Propose(sender: Address, digest: Digest, payload: Bytes) returns (ok: bool)
      modifies this
      ensures ok == (sender == group)
      ensures Data() == if ok then Ledger.Propose(old(Data()), digest, payload) else old(Data())
    {
      if sender != group {
        return false;
      }
      this.digest := digest;
      this.payload := payload;
      approvals := [];
      approvals := approvals + [proposer];
      isActive := true;
      return true;
    }

    method Invalidate(sender: Address) returns (ok: bool)
      modifies `isActive
      ensures ok == (sender == group)
      ensures isActive == if ok then false else old(isActive)
    {
      if sender != group {
        return false;
      }
      isActive := false;
      return true;
    }

    method MemberNotVotedYet(member: Address) returns (notVoted: bool)
      ensures notVoted == (member !in approvals)
    {
      for i := 0 to |approvals|
        invariant member !in approvals[..i]
      {
        if approvals[i] == member {
          return false;
        }
      }
      return true;
    }
  }

  class Group {
    const self: Address
    var members: seq<Address>
    var ipfsHash: Bytes
    var consensuses: seq<Address>
    var memberToIdx: map<Address, nat>
    var invitations: map<Address, Address>

    ghost function Data(): GroupData
      reads this
    {
      GroupData(members, ipfsHash, consensuses, memberToIdx, invitations)
    }

    constructor (self: Address, account: Address, consensus: Address)
      ensures this.self == self && Data() == GroupData([account], [], [consensus], map[], map[])
    {
      this.self := self;
      members, ipfsHash, consensuses, memberToIdx, invitations := [account], [], [consensus], map[], map[];
    }

    /** The swap-removals of `leave` and `kick`: the members shrink, the consensuses do not. */
    method DropMember(i: nat)
      requires i < |members| <= |consensuses|
      modifies `members, `consensuses
      ensures Data() == old(Data()).(members := SwapRemove(old(members), i),
                                     consensuses := old(consensuses)[i := old(consensuses)[|old(consensuses)| - 1]])
    {
      members := members[i := members[|members| - 1]];
      consensuses := consensuses[i := consensuses[|consensuses| - 1]];
      members := members[..|members| - 1];
    }

    /** The position at which the search loop of `kick` stops. */
    method FindMember(member: Address) returns (i: nat)
      ensures i == IndexOf(members, member)
    {
      i := 0;
      while i < |members|
        invariant i <= |members|
        invariant forall j | 0 <= j < i :: members[j] != member
      {
        if members[i] == member {
          FirstIndex(members, member, i);
          return;
        }
        i := i + 1;
      }
      assert member !in members;
    }
  }

  class World {
    var next: Address
    var registry: map<Address, Address>
    var accounts: map<Address, Account>
    var groups: map<Address, Group>
    var consensuses: map<Address, Consensus>
    ghost var accountView: map<Address, AccountData>
    ghost var groupView: map<Address, GroupData>
    ghost var consensusView: map<Address, ConsensusData>

    ghost function State(): Chain
      reads this
    {
      Chain(next, registry, accountView, groupView, consensusView)
    }

    // ---- Every contract under its own address, storing what its view says -------------------------

    ghost predicate AccountLinked(a: Address)
      requires a in accounts
      reads `accounts, `accountView, accounts[a]
    {
      a in accountView && accounts[a].self == a && accounts[a].Data() == accountView[a]
    }

    ghost predicate AccountsLinked()
      reads `accounts, `accountView, accounts.Values
    {
      accounts.Keys == accountView.Keys && forall a {:trigger AccountLinked(a)} | a in accounts :: AccountLinked(a)
    }

    ghost predicate GroupLinked(g: Address)
      requires g in groups
      reads `groups, `groupView, groups[g]
    {
      g in groupView && groups[g].self == g && groups[g].Data() == groupView[g]
    }

    ghost predicate GroupsLinked()
      reads `groups, `groupView, groups.Values
    {
      groups.Keys == groupView.Keys && forall g {:trigger GroupLinked(g)} | g in groups :: GroupLinked(g)
    }

    ghost predicate ConsensusLinked(b: Address)
      requires b in consensuses
      reads `consensuses, `consensusView, consensuses[b]
    {
      b in consensusView && consensuses[b].self == b && consensuses[b].Data() == consensusView[b]
    }

    ghost predicate ConsensusesLinked()
      reads `consensuses, `consensusView, consensuses.Values
    {
      && consensuses.Keys == consensusView.Keys
      && forall b {:trigger ConsensusLinked(b)} | b in consensuses :: ConsensusLinked(b)
    }

    ghost predicate Linked()
      reads this, accounts.Values, groups.Values, consensuses.Values
    {
      AccountsLinked() && GroupsLinked() && ConsensusesLinked()
    }

    /** Changing or adding one account leaves the others linked. */
    twostate lemma AccountRelinked(a: Address)
      requires old(AccountsLinked()) && a in accounts && accounts == old(accounts)[a := accounts[a]]
      requires accounts[a].self == a && accountView == old(accountView)[a := accounts[a].Data()]
      requires forall x | x in old(accounts) && accounts[x] != accounts[a] ::
                 accounts[x].Data() == old(accounts[x].Data())
      ensures AccountsLinked()
    {
      forall x | x in accounts ensures AccountLinked(x) {
        assert x != a ==> old(AccountLinked(x));
      }
    }

    twostate lemma GroupRelinked(g: Address)
      requires old(GroupsLinked()) && g in groups && groups == old(groups)[g := groups[g]]
      requires groups[g].self == g && groupView == old(groupView)[g := groups[g].Data()]
      requires forall x | x in old(groups) && groups[x] != groups[g] :: groups[x].Data() == old(groups[x].Data())
      ensures GroupsLinked()
    {
      forall x | x in groups ensures GroupLinked(x) {
        assert x != g ==> old(GroupLinked(x));
      }
    }

    twostate lemma ConsensusRelinked(b: Address)
      requires old(ConsensusesLinked()) && b in consensuses && consensuses == old(consensuses)[b := consensuses[b]]
      requires consensuses[b].self == b && consensusView == old(consensusView)[b := consensuses[b].Data()]
      requires forall x | x in old(consensuses) && consensuses[x] != consensuses[b] ::
                 consensuses[x].Data() == old(consensuses[x].Data())
      ensures ConsensusesLinked()
    {
      forall x | x in consensuses ensures ConsensusLinked(x) {
        assert x != b ==> old(ConsensusLinked(x));
      }
    }

    constructor ()
      ensures Linked() && State() == GENESIS && accounts == map[] && groups == map[] && consensuses == map[]
    {
      next, registry, accounts, groups, consensuses := 1, map[], map[], map[], map[];
      accountView, groupView, consensusView := map[], map[], map[];
    }

    // ---- Storage writes and calls, each leaving every contract linked ------------------------------

    method AddGroup(account: Address, g: Address)
      requires Linked() && account in accounts
      modifies `accountView, accounts[account]
      ensures Linked()
      ensures var c := old(State());
              State() == PutAccount(c, account, c.accounts[account].(groups := c.accounts[account].groups + [g]))
    {
      assert AccountLinked(account);
      accounts[account].groups := accounts[account].groups + [g];
      accountView := accountView[account := accounts[account].Data()];
      AccountRelinked(account);
    }

    method SetInvitation(g: Address, owner: Address, account: Address)
      requires Linked() && g in groups
      modifies `groupView, groups[g]
      ensures Linked()
      ensures var c := old(State());
              State() == PutGroup(c, g, c.groups[g].(invitations := c.groups[g].invitations[owner := account]))
    {
      assert GroupLinked(g);
      groups[g].invitations := groups[g].invitations[owner := account];
      groupView := groupView[g := groups[g].Data()];
      GroupRelinked(g);
    }

    method Enter(g: Address, owner: Address, account: Address)
      requires Linked() && g in groups
      modifies `groupView, groups[g]
      ensures Linked()
      ensures var G := old(groupView)[g];
              groupView == old(groupView)[g := G.(memberToIdx := G.memberToIdx[owner := |G.members|],
                                                  members := G.members + [account])]
    {
      assert GroupLinked(g);
      groups[g].memberToIdx := groups[g].memberToIdx[owner := |groups[g].members|];
      groups[g].members := groups[g].members + [account];
      groupView := groupView[g := groups[g].Data()];
      GroupRelinked(g);
    }

    method AddConsensus(g: Address, b: Address)
      requires Linked() && g in groups
      modifies `groupView, groups[g]
      ensures Linked()
      ensures groupView == old(groupView)[g := old(groupView)[g].(consensuses := old(groupView)[g].consensuses + [b])]
    {
      assert GroupLinked(g);
      groups[g].consensuses := groups[g].consensuses + [b];
      groupView := groupView[g := groups[g].Data()];
      GroupRelinked(g);
    }

    method SetIpfsHash(g: Address, newHash: Bytes)
      requires Linked() && g in groups
      modifies `groupView, groups[g]
      ensures Linked() && State() == PutGroup(old(State()), g, old(State()).groups[g].(ipfsHash := newHash))
    {
      assert GroupLinked(g);
      groups[g].ipfsHash := newHash;
      groupView := groupView[g := groups[g].Data()];
      GroupRelinked(g);
    }

    method DropMember(g: Address, i: nat)
      requires Linked() && g in groups && i < |groupView[g].members| <= |groupView[g].consensuses|
      modifies `groupView, groups[g]
      ensures Linked()
      ensures var G := old(groupView)[g];
              groupView == old(groupView)[g := G.(members := SwapRemove(G.members, i),
                                    consensuses := G.consensuses[i := G.consensuses[|G.consensuses| - 1]])]
    {
      assert GroupLinked(g);
      groups[g].DropMember(i);
      groupView := groupView[g := groups[g].Data()];
      GroupRelinked(g);
    }

    method RecordVote(b: Address, sender: Address)
      requires Linked() && b in consensuses
      modifies `consensusView, consensuses[b]
      ensures Linked() && State() == CastVote(old(State()), sender, b)
    {
      assert ConsensusLinked(b);
      consensuses[b].approvals := consensuses[b].approvals + [sender];
      consensusView := consensusView[b := consensuses[b].Data()];
      ConsensusRelinked(b);
    }

    method CallInvite(account: Address, sender: Address)
      requires Linked() && account in accounts
      modifies `accountView, accounts[account]
      ensures Linked()
      ensures var c := old(State());
              State() == PutAccount(c, account,
                c.accounts[account].(invitations := c.accounts[account].invitations + [sender]))
    {
      assert AccountLinked(account);
      accounts[account].Invite(sender);
      accountView := accountView[account := accounts[account].Data()];
      AccountRelinked(account);
    }

    method CallOnInvitation(account: Address, sender: Address)
      requires Linked() && account in accounts
      modifies `accountView, accounts[account]
      ensures Linked()
      ensures State() == PutAccount(old(State()), account, Sweep(old(State()).accounts[account], sender, 0))
    {
      assert AccountLinked(account);
      accounts[account].OnInvitation(sender);
      accountView := accountView[account := accounts[account].Data()];
      AccountRelinked(account);
    }

    method CallOnGroupLeft(account: Address, group: Address)
      requires Linked() && account in accounts
      modifies `accountView, accounts[account]
      ensures Linked()
      ensures accountView == old(accountView)[account := Ledger.OnGroupLeft(old(accountView)[account], group)]
    {
      assert AccountLinked(account);
      accounts[account].OnGroupLeft(group);
      accountView := accountView[account := accounts[account].Data()];
      AccountRelinked(account);
    }

    method CallPropose(b: Address, sender: Address, digest: Digest, payload: Bytes) returns (ok: bool)
      requires Linked() && b in consensuses
      modifies `consensusView, consensuses[b]
      ensures Linked() && ok == (sender == old(consensusView)[b].group)
      ensures consensusView == if ok
                               then old(consensusView)[b := Ledger.Propose(old(consensusView)[b], digest, payload)]
                               else old(consensusView)
    {
      assert ConsensusLinked(b);
      ok := consensuses[b].Propose(sender, digest, payload);
      consensusView := consensusView[b := consensuses[b].Data()];
      ConsensusRelinked(b);
    }

    method CallInvalidate(b: Address, sender: Address) returns (ok: bool)
      requires Linked() && b in consensuses
      modifies `consensusView, consensuses[b]
      ensures Linked() && ok == (sender == old(consensusView)[b].group)
      ensures consensusView == if ok then old(consensusView)[b := old(consensusView)[b].(isActive := false)]
                               else old(consensusView)
    {
      assert ConsensusLinked(b);
      ok := consensuses[b].Invalidate(sender);
      consensusView := consensusView[b := consensuses[b].Data()];
      ConsensusRelinked(b);
    }

    // ---- FileTribeDApp ----------------------------------------------------------------------------

    method CreateAccount(sender: Address) returns (ok: bool)
      requires Linked()
      modifies `next, `registry, `accounts, `accountView
      ensures Linked() && fresh(accounts.Values - old(accounts.Values))
      ensures ok == TryCreateAccount(old(State()), sender).Some?
      ensures State() == After(old(State()), TryCreateAccount(old(State()), sender))
    {
      if Slot(registry, sender) != NULL {
        return false;
      }
      var a := next;
      next := next + 1;
      var account := new Account(a, sender);
      accounts, accountView := accounts[a := account], accountView[a := account.Data()];
      AccountRelinked(a);
      registry := registry[sender := a];
      return true;
    }

    method CreateConsensus(proposer: Address, group: Address) returns (b: Address)
      requires Linked()
      modifies `next, `consensuses, `consensusView
      ensures Linked() && fresh(consensuses.Values - old(consensuses.Values))
      ensures b == old(next) && next == old(next) + 1
      ensures consensusView == old(consensusView)[b := NewConsensus(proposer, group)]
    {
      b := next;
      next := next + 1;
      var consensus := new Consensus(b, proposer, group);
      consensuses, consensusView := consensuses[b := consensus], consensusView[b := consensus.Data()];
      ConsensusRelinked(b);
    }

    // ---- Account ----------------------------------------------------------------------------------

    method CreateGroup(sender: Address, account: Address) returns (ok: bool)
      requires Linked()
      modifies `next, `accountView, `groups, `groupView, `consensuses, `consensusView, accounts.Values
      ensures Linked() && fresh(groups.Values - old(groups.Values))
      ensures fresh(consensuses.Values - old(consensuses.Values))
      ensures ok == TryCreateGroup(old(State()), sender, account).Some?
      ensures State() == After(old(State()), TryCreateGroup(old(State()), sender, account))
    {
      if account !in accounts {
        return false;
      }
      assert AccountLinked(account);
      if accounts[account].owner != sender {
        return false;
      }
      DeployThenList(State(), sender, account);
      var g := DeployGroup(account);
      AddGroup(account, g);
      return true;
    }

    /** `createGroup` of the dApp with the constructor of the group, which asks for the creator's consensus. */
    method DeployGroup(account: Address) returns (g: Address)
      requires Linked()
      modifies `next, `groups, `groupView, `consensuses, `consensusView
      ensures Linked() && fresh(groups.Values - old(groups.Values))
      ensures fresh(consensuses.Values - old(consensuses.Values))
      ensures g == old(next) && State() == Deployed(old(State()), account)
    {
      g := next;
      next := next + 1;
      var b := CreateConsensus(account, g);
      StoreGroup(g, account, b);
    }

    method StoreGroup(g: Address, account: Address, b: Address)
      requires Linked()
      modifies `groups, `groupView
      ensures Linked() && fresh(groups.Values - old(groups.Values))
      ensures groupView == old(groupView)[g := GroupData([account], [], [b], map[], map[])]
    {
      var group := new Group(g, account, b);
      groups, groupView := groups[g := group], groupView[g := group.Data()];
      GroupRelinked(g);
    }

    // ---- Group ------------------------------------------------------------------------------------

    method IsMember(g: Address, who: Address) returns (found: bool)
      requires Linked() && g in groups && forall a | a in groupView[g].members :: a in accounts
      ensures found == OwnsMember(State(), groupView[g].members, who)
    {
      var i := FindOwned(g, who);
      return i < |groups[g].members|;
    }

    /** Where the search loops of `isMember` and `leave` stop. */
    method FindOwned(g: Address, who: Address) returns (i: nat)
      requires Linked() && g in groups && forall a | a in groupView[g].members :: a in accounts
      ensures i == FindOwner(State(), groupView[g].members, who) && groups[g].members == groupView[g].members
    {
      assert GroupLinked(g);
      var members := groups[g].members;
      i := 0;
      while i < |members|
        invariant i <= |members|
        invariant forall j | 0 <= j < i :: Owner(State(), members[j]) != who
      {
        assert members[i] in members && AccountLinked(members[i]);
        if accounts[members[i]].owner == who {
          break;
        }
        i := i + 1;
      }
      FirstOwner(State(), members, who, i);
    }

    /** The common end of `leave` and `kick`, for the member at position `i`. */
    method Drop(g: Address, i: nat)
      requires Linked() && g in groups && i < |groupView[g].members| <= |groupView[g].consensuses|
      requires groupView[g].members[i] in accounts
      modifies `accountView, `groupView, accounts.Values, groups[g]
      ensures Linked() && RemoveMember(old(State()), g, i) == Some(State())
    {
      assert GroupLinked(g);
      CallOnGroupLeft(groups[g].members[i], g);
      DropMember(g, i);
    }

    method Leave(sender: Address, g: Address) returns (ok: bool)
      requires Linked() && Inv(State()) && g in groups
      modifies `accountView, `groupView, accounts.Values, groups[g]
      ensures Linked() && ok == TryLeave(old(State()), sender, g).Some?
      ensures State() == After(old(State()), TryLeave(old(State()), sender, g))
    {
      assert GroupOk(State(), g);
      var i := FindOwned(g, sender);
      if i >= |groups[g].members| {
        return false;
      }
      Drop(g, i);
      return true;
    }

    method Kick(sender: Address, g: Address, member: Address) returns (ok: bool)
      requires Linked() && Inv(State()) && g in groups
      modifies `accountView, `groupView, accounts.Values, groups[g]
      ensures Linked() && ok == TryKick(old(State()), sender, g, member).Some?
      ensures State() == After(old(State()), TryKick(old(State()), sender, g, member))
    {
      assert GroupOk(State(), g) && GroupLinked(g);
      var allowed := IsMember(g, sender);
      if !allowed {
        return false;
      }
      var i := groups[g].FindMember(member);
      if i >= |groups[g].members| {
        return false;
      }
      Drop(g, i);
      return true;
    }

    /** The checks of `invite`: a member asks, and the account is neither a member nor invited yet. */
    method MayInvite(sender: Address, g: Address, account: Address) returns (ok: bool)
      requires Linked() && Inv(State()) && g in groups
      ensures ok == TryInvite(State(), sender, g, account).Some?
    {
      assert GroupOk(State(), g) && GroupLinked(g);
      var allowed := IsMember(g, sender);
      if !allowed {
        return false;
      }
      var i := groups[g].FindMember(account);
      if i < |groups[g].members| || account !in accounts {
        return false;
      }
      assert AccountLinked(account);
      return Slot(groups[g].invitations, accounts[account].owner) == NULL;
    }

    method Invite(sender: Address, g: Address, account: Address) returns (ok: bool)
      requires Linked() && Inv(State()) && g in groups
      modifies `accountView, `groupView, accounts.Values, groups[g]
      ensures Linked() && ok == TryInvite(old(State()), sender, g, account).Some?
      ensures State() == After(old(State()), TryInvite(old(State()), sender, g, account))
    {
      ok := MayInvite(sender, g, account);
      if ok {
        assert AccountLinked(account);
        CallInvite(account, g);
        SetInvitation(g, accounts[account].owner, account);
      }
    }

    /** The part of `join` that takes the account in and gives it a consensus. */
    method Admit(g: Address, owner: Address, account: Address)
      requires Linked() && g in groups
      modifies `next, `groupView, `consensuses, `consensusView, groups[g]
      ensures Linked() && fresh(consensuses.Values - old(consensuses.Values))
      ensures State() == Admitted(old(State()), g, owner, account)
    {
      Enter(g, owner, account);
      var b := CreateConsensus(account, g);
      AddConsensus(g, b);
    }

    method TakeIn(g: Address, sender: Address, account: Address)
      requires Linked() && g in groups && g in groupView && account in accounts && account in accountView
      requires accounts[account].owner == sender
      modifies `next, `accountView, `groupView, `consensuses, `consensusView, accounts[account], groups[g]
      ensures Linked() && fresh(consensuses.Values - old(consensuses.Values))
      ensures State() == TakenIn(old(State()), g, sender, account)
    {
      Admit(g, accounts[account].owner, account);
      CallOnInvitation(account, g);
      SetInvitation(g, sender, NULL);
    }

    method Join(sender: Address, g: Address) returns (ok: bool)
      requires Linked() && Inv(State()) && g in groups
      modifies `next, `accountView, `groupView, `consensuses, `consensusView, accounts.Values, groups[g]
      ensures Linked() && fresh(consensuses.Values - old(consensuses.Values))
      ensures ok == TryJoin(old(State()), sender, g).Some?
      ensures State() == After(old(State()), TryJoin(old(State()), sender, g))
    {
      assert GroupLinked(g);
      var account := Slot(groups[g].invitations, sender);
      if account == NULL {
        return false;
      }
      Answered(State(), sender, g);
      assert AccountLinked(account);
      JoinWrites(State(), sender, g, account);
      TakeIn(g, sender, account);
      return true;
    }

    method Decline(sender: Address, g: Address) returns (ok: bool)
      requires Linked() && Inv(State()) && g in groups
      modifies `accountView, `groupView, accounts.Values, groups[g]
      ensures Linked() && ok == TryDecline(old(State()), sender, g).Some?
      ensures State() == After(old(State()), TryDecline(old(State()), sender, g))
    {
      assert GroupLinked(g);
      var account := Slot(groups[g].invitations, sender);
      if account == NULL {
        return false;
      }
      Answered(State(), sender, g);
      CallOnInvitation(account, g);
      SetInvitation(g, sender, NULL);
      return true;
    }

    method ChangeIpfsHash(sender: Address, g: Address, newHash: Bytes) returns (ok: bool)
      requires Linked() && Inv(State()) && g in groups
      modifies `groupView, `consensusView, groups[g], consensuses.Values
      ensures Linked() && ok == TryChangeIpfsHash(old(State()), sender, g, newHash).Some?
      ensures State() == After(old(State()), TryChangeIpfsHash(old(State()), sender, g, newHash))
    {
      assert GroupOk(State(), g) && GroupLinked(g);
      var allowed := IsMember(g, sender);
      if !allowed {
        return false;
      }
      var G := groups[g];
      var digest := Keccak(G.ipfsHash + newHash);
      ghost var c := State();
      if |G.members| == 1 {
        SetIpfsHash(g, newHash);
        assert TryChangeIpfsHash(c, sender, g, newHash) == Some(State());
        return true;
      }
      ok := ProposeAs(sender, g, digest, newHash);
      assert TryChangeIpfsHash(c, sender, g, newHash) == Some(State());
    }

    /** The end of `changeIpfsHash` in a group of several members. */
    method ProposeAs(sender: Address, g: Address, digest: Digest, newHash: Bytes) returns (ok: bool)
      requires Linked() && g in groups && GroupOk(State(), g)
      modifies `consensusView, consensuses.Values
      ensures Linked() && ok && Target(old(State()), g, sender).Some?
      ensures var b := Target(old(State()), g, sender).value;
              && b in old(consensusView) && old(consensusView)[b].group == g
              && consensusView == old(consensusView)[b := Ledger.Propose(old(consensusView)[b], digest, newHash)]
    {
      assert GroupLinked(g);
      var idx := Slot(groups[g].memberToIdx, sender);
      var b := groups[g].consensuses[idx];
      assert b in groupView[g].consensuses;
      ok := CallPropose(b, g, digest, newHash);
    }

    /** The loop of `onChangeIpfsHashConsensus`. */
    method InvalidateAll(g: Address)
      requires Linked() && g in groups
      requires forall x | x in groupView[g].consensuses :: x in consensuses && consensusView[x].group == g
      modifies `consensusView, consensuses.Values
      ensures Linked() && consensusView == Ledger.Invalidate(old(consensusView), groupView[g].consensuses)
    {
      assert GroupLinked(g);
      var listed := groups[g].consensuses;
      for i := 0 to |listed|
        invariant Linked() && consensusView == Ledger.Invalidate(old(consensusView), listed[..i])
      {
        InvalidateNext(old(consensusView), listed, i);
        assert listed[i] in listed;
        var closed := CallInvalidate(listed[i], g);
      }
      assert listed[..|listed|] == listed;
    }

    /** Whether `invalidate` succeeds on every consensus that the group lists. A call that reverts undoes the ones
        before it, so this is settled before anything is written. */
    method MayInvalidateAll(g: Address) returns (ok: bool)
      requires Linked() && g in groups
      ensures ok == AllOwn(State(), g)
    {
      assert GroupLinked(g);
      var listed := groups[g].consensuses;
      for i := 0 to |listed|
        invariant forall k | 0 <= k < i :: listed[k] in consensusView && consensusView[listed[k]].group == g
      {
        if listed[i] !in consensuses {
          return false;
        }
        assert ConsensusLinked(listed[i]);
        if consensuses[listed[i]].group != g {
          return false;
        }
      }
      return true;
    }

    /** The callback of ballot `b` with its payload: every listed consensus is closed and the payload becomes the
        hash, unless the proposer's index leads nowhere or a listed consensus refuses. */
    method OnChangeIpfsHashConsensus(g: Address, b: Address, payload: Bytes) returns (ok: bool)
      requires Linked() && g in groups && b in consensuses && payload == consensusView[b].payload
      modifies `groupView, `consensusView, groups[g], consensuses.Values
      ensures Linked() && ok == OnConsensus(old(State()), g, b).Some?
      ensures State() == After(old(State()), OnConsensus(old(State()), g, b))
    {
      ghost var c := State();
      var idx := ProposerIndex(g, b);
      assert GroupLinked(g);
      CallbackReverts(c, g, b);
      if idx >= |groups[g].consensuses| || groups[g].consensuses[idx] == NULL {
        return false;
      }
      ok := MayInvalidateAll(g);
      if ok {
        ApplyPayload(g, payload);
      }
    }

    method ApplyPayload(g: Address, payload: Bytes)
      requires Linked() && g in groups && g in groupView && AllOwn(State(), g)
      modifies `groupView, `consensusView, groups[g], consensuses.Values
      ensures Linked()
      ensures var c := old(State());
              State() == c.(groups := c.groups[g := c.groups[g].(ipfsHash := payload)],
                            consensuses := Ledger.Invalidate(c.consensuses, c.groups[g].consensuses))
    {
      forall x | x in groupView[g].consensuses ensures x in consensusView && consensusView[x].group == g {
        var k :| 0 <= k < |groupView[g].consensuses| && groupView[g].consensuses[k] == x;
      }
      InvalidateAll(g);
      SetIpfsHash(g, payload);
    }

    /** The stored index of the owner of the account that proposed ballot `b`. */
    method ProposerIndex(g: Address, b: Address) returns (idx: nat)
      requires Linked() && g in groups && b in consensuses
      ensures idx == Slot(groupView[g].memberToIdx, Owner(State(), consensusView[b].proposer))
    {
      assert GroupLinked(g) && ConsensusLinked(b);
      var proposer, owner := consensuses[b].proposer, NULL;
      if proposer in accounts {
        assert AccountLinked(proposer);
        owner := accounts[proposer].owner;
      }
      idx := Slot(groups[g].memberToIdx, owner);
    }

    // ---- Consensus --------------------------------------------------------------------------------

    /** The checks of `approve`: a member asks, the ballot is open, and the member has not voted yet. */
    method MayApprove(sender: Address, b: Address) returns (ok: bool)
      requires Linked() && Inv(State()) && b in consensuses
      ensures ok == CanApprove(State(), sender, b)
    {
      assert ConsensusLinked(b) && GroupOk(State(), consensusView[b].group);
      var allowed := IsMember(consensuses[b].group, sender);
      if !allowed || !consensuses[b].isActive {
        return false;
      }
      ok := consensuses[b].MemberNotVotedYet(sender);
    }

    method Approve(sender: Address, b: Address) returns (ok: bool)
      requires Linked() && Inv(State()) && b in consensuses
      modifies `groupView, `consensusView, groups.Values, consensuses.Values
      ensures Linked() && ok == TryApprove(old(State()), sender, b).Some?
      ensures State() == After(old(State()), TryApprove(old(State()), sender, b))
    {
      var allowed := MayApprove(sender, b);
      if !allowed {
        return false;
      }
      assert ConsensusLinked(b);
      var g := consensuses[b].group;
      assert GroupLinked(g);
      var threshold := |groups[g].members| / 2;
      ghost var c := State();
      RecordVote(b, sender);
      assert ConsensusLinked(b);
      if |consensuses[b].approvals| > threshold {
        DecisionApplies(c, sender, b);
        ok := OnChangeIpfsHashConsensus(g, b, consensuses[b].payload);
      } else {
        ok := true;
      }
    }

    // ---- Transactions -----------------------------------------------------------------------------

    /** A transaction of a group on a group that is there. */
    method ExecuteOnGroup(tx: Tx)
      requires Linked() && Inv(State())
      requires (tx.Leave? || tx.Kick? || tx.Invite? || tx.Decline? || tx.ChangeIpfsHash?) && tx.group in groups
      modifies `accountView, `groupView, `consensusView, accounts.Values, groups.Values, consensuses.Values
      ensures Linked() && State() == Apply(old(State()), tx)
    {
      var ok;
      match tx
      case Invite(s, g, a) => ok := Invite(s, g, a);
      case Decline(s, g) => ok := Decline(s, g);
      case Leave(s, g) => ok := Leave(s, g);
      case Kick(s, g, m) => ok := Kick(s, g, m);
      case ChangeIpfsHash(s, g, h) => ok := ChangeIpfsHash(s, g, h);
    }

    /** A transaction that deploys contracts. */
    method ExecuteDeployment(tx: Tx)
      requires Linked() && Inv(State())
      requires tx.CreateAccount? || tx.CreateGroup? || (tx.Join? && tx.group in groups)
      modifies this, accounts.Values, groups.Values
      ensures Linked() && State() == Apply(old(State()), tx)
      ensures fresh(accounts.Values - old(accounts.Values)) && fresh(groups.Values - old(groups.Values))
      ensures fresh(consensuses.Values - old(consensuses.Values))
    {
      var ok;
      match tx
      case CreateAccount(s) => ok := CreateAccount(s);
      case CreateGroup(s, a) => ok := CreateGroup(s, a);
      case Join(s, g) => ok := Join(s, g);
    }

    /** Any transaction, sent to the contract that its address names. */
    method Execute(tx: Tx)
      requires Linked() && Inv(State())
      modifies this, accounts.Values, groups.Values, consensuses.Values
      ensures Linked() && State() == Apply(old(State()), tx)
      ensures fresh(accounts.Values - old(accounts.Values)) && fresh(groups.Values - old(groups.Values))
      ensures fresh(consensuses.Values - old(consensuses.Values))
    {
      if tx.Approve? {
        if tx.consensus in consensuses {
          var ok := Approve(tx.sender, tx.consensus);
        }
      } else if tx.CreateAccount? || tx.CreateGroup? {
        ExecuteDeployment(tx);
      } else if tx.group in groups {
        if tx.Join? {
          ExecuteDeployment(tx);
        } else {
          ExecuteOnGroup(tx);
        }
      }
    }
  }

  /** The deployed code, run from genesis on any sequence of transactions, is the transition system of the theorems. */
  method Replay(txs: seq<Tx>) returns (w: World)
    ensures fresh(w) && w.Linked() && w.State() == Exec(txs)
  {
    w := new World();
    RunInv([]);
    for i := 0 to |txs|
      invariant fresh(w) && fresh(w.accounts.Values) && fresh(w.groups.Values) && fresh(w.consensuses.Values)
      invariant w.Linked() && w.State() == Exec(txs[..i])
    {
      RunInv(txs[..i]);
      w.Execute(txs[i]);
      assert txs[..i + 1][..i] == txs[..i];
    }
    assert txs[..|txs|] == txs;
  }
}
