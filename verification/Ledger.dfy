/** The contracts as one transition system: contract storage keyed by address, and one function per
    transaction that either gives the next chain state or reverts. */
module Ledger {
  import opened Prelude

  type Address = nat

  const NULL: Address := 0

  /** A digest is ideal: two digests are equal exactly when the hashed bytes are. */
  datatype Digest = NoDigest | Keccak(preimage: Bytes)

  datatype AccountData = AccountData(owner: Address, groups: seq<Address>, invitations: seq<Address>)

  datatype GroupData = GroupData(
    members: seq<Address>,
    ipfsHash: Bytes,
    consensuses: seq<Address>,
    memberToIdx: map<Address, nat>,
    invitations: map<Address, Address>)

  datatype ConsensusData = ConsensusData(
    isActive: bool,
    proposer: Address,
    group: Address,
    digest: Digest,
    payload: Bytes,
    approvals: seq<Address>)

  /** `next` is the address the next created contract gets; `registry` is the owner-to-account map of the dApp. */
  datatype Chain = Chain(
    next: Address,
    registry: map<Address, Address>,
    accounts: map<Address, AccountData>,
    groups: map<Address, GroupData>,
    consensuses: map<Address, ConsensusData>)

  datatype Tx =
    | CreateAccount(sender: Address)
    | CreateGroup(sender: Address, account: Address)
    | Invite(sender: Address, group: Address, account: Address)
    | Join(sender: Address, group: Address)
    | Decline(sender: Address, group: Address)
    | Leave(sender: Address, group: Address)
    | Kick(sender: Address, group: Address, member: Address)
    | ChangeIpfsHash(sender: Address, group: Address, newHash: Bytes)
    | Approve(sender: Address, consensus: Address)

  const GENESIS := Chain(1, map[], map[], map[], map[])

  /** Reading a Solidity mapping: an absent key reads as zero. */
  function Slot(m: map<Address, nat>, k: Address): nat {
    if k in m then m[k] else 0
  }

  function Owner(c: Chain, a: Address): Address {
    if a in c.accounts then c.accounts[a].owner else NULL
  }

  /** The position of the first member owned by `who`, or the number of members. */
  function FindOwner(c: Chain, members: seq<Address>, who: Address): (i: nat)
    ensures i <= |members|
    ensures forall j | 0 <= j < i :: Owner(c, members[j]) != who
    ensures i < |members| ==> Owner(c, members[i]) == who
  {
    if members == [] then 0 else if Owner(c, members[0]) == who then 0 else 1 + FindOwner(c, members[1..], who)
  }

  predicate OwnsMember(c: Chain, members: seq<Address>, who: Address) {
    FindOwner(c, members, who) < |members|
  }

  function Threshold(g: GroupData): nat {
    |g.members| / 2
  }

  // ---- Account hooks ----------------------------------------------------------------------------

  /** The loop of `onInvitationAccepted` and `onInvitationDeclined` from index `i` on: it records the
      group and swap-removes every match it meets, then steps past the element it has just moved in. */
  function Sweep(acc: AccountData, g: Address, i: nat): AccountData
    decreases |acc.invitations| - i
  {
    if i >= |acc.invitations| then acc
    else if acc.invitations[i] == g then
      Sweep(acc.(groups := acc.groups + [g], invitations := SwapRemove(acc.invitations, i)), g, i + 1)
    else Sweep(acc, g, i + 1)
  }

  function OnGroupLeft(acc: AccountData, g: Address): AccountData {
    var i := IndexOf(acc.groups, g);
    if i < |acc.groups| then acc.(groups := SwapRemove(acc.groups, i)) else acc
  }

  // ---- Transactions -----------------------------------------------------------------------------

  function TryCreateAccount(c: Chain, sender: Address): Option<Chain> {
    if Slot(c.registry, sender) != NULL then None
    else Some(c.(next := c.next + 1,
                 registry := c.registry[sender := c.next],
                 accounts := c.accounts[c.next := AccountData(sender, [], [])]))
  }

  function NewConsensus(proposer: Address, group: Address): ConsensusData {
    ConsensusData(false, proposer, group, NoDigest, [], [])
  }

  /** The new group gets address `c.next` and its creator's consensus the address after it. */
  function TryCreateGroup(c: Chain, sender: Address, account: Address): Option<Chain> {
    if account !in c.accounts || c.accounts[account].owner != sender then None
    else
      var acc := c.accounts[account];
      Some(c.(next := c.next + 2,
              accounts := c.accounts[account := acc.(groups := acc.groups + [c.next])],
              groups := c.groups[c.next := GroupData([account], [], [c.next + 1], map[], map[])],
              consensuses := c.consensuses[c.next + 1 := NewConsensus(account, c.next)]))
  }

  function TryInvite(c: Chain, sender: Address, g: Address, account: Address): Option<Chain> {
    if g !in c.groups || !OwnsMember(c, c.groups[g].members, sender) || account in c.groups[g].members
       || account !in c.accounts || Slot(c.groups[g].invitations, c.accounts[account].owner) != NULL then None
    else
      var acc, G := c.accounts[account], c.groups[g];
      Some(c.(accounts := c.accounts[account := acc.(invitations := acc.invitations + [g])],
              groups := c.groups[g := G.(invitations := G.invitations[acc.owner := account])]))
  }

  function TryJoin(c: Chain, sender: Address, g: Address): Option<Chain> {
    if g !in c.groups then None
    else
      var G := c.groups[g];
      var account := Slot(G.invitations, sender);
      if account == NULL || account !in c.accounts then None
      else
        var acc := c.accounts[account];
        Some(c.(next := c.next + 1,
                accounts := c.accounts[account := Sweep(acc, g, 0)],
                groups := c.groups[g := G.(members := G.members + [account],
                                           consensuses := G.consensuses + [c.next],
                                           memberToIdx := G.memberToIdx[acc.owner := |G.members|],
                                           invitations := G.invitations[sender := NULL])],
                consensuses := c.consensuses[c.next := NewConsensus(account, g)]))
  }

  function TryDecline(c: Chain, sender: Address, g: Address): Option<Chain> {
    if g !in c.groups then None
    else
      var G := c.groups[g];
      var account := Slot(G.invitations, sender);
      if account == NULL || account !in c.accounts then None
      else
        Some(c.(accounts := c.accounts[account := Sweep(c.accounts[account], g, 0)],
                groups := c.groups[g := G.(invitations := G.invitations[sender := NULL])]))
  }

  /** What `leave` and `kick` do once the member's position is known: only `_members` shrinks. */
  function RemoveMember(c: Chain, g: Address, i: nat): Option<Chain>
    requires g in c.groups && i <= |c.groups[g].members|
  {
    var G := c.groups[g];
    if i == |G.members| || i >= |G.consensuses| || G.members[i] !in c.accounts then None
    else
      var account := G.members[i];
      Some(c.(accounts := c.accounts[account := OnGroupLeft(c.accounts[account], g)],
              groups := c.groups[g := G.(members := SwapRemove(G.members, i),
                                         consensuses := G.consensuses[i := G.consensuses[|G.consensuses| - 1]])]))
  }

  function TryLeave(c: Chain, sender: Address, g: Address): Option<Chain> {
    if g !in c.groups then None
    else RemoveMember(c, g, FindOwner(c, c.groups[g].members, sender))
  }

  function TryKick(c: Chain, sender: Address, g: Address, member: Address): Option<Chain> {
    if g !in c.groups || !OwnsMember(c, c.groups[g].members, sender) then None
    else RemoveMember(c, g, IndexOf(c.groups[g].members, member))
  }

  function Propose(b: ConsensusData, digest: Digest, payload: Bytes): ConsensusData {
    b.(isActive := true, digest := digest, payload := payload, approvals := [b.proposer])
  }

  /** The consensus that a proposal by `sender` goes to. */
  function Target(c: Chain, g: Address, sender: Address): Option<Address> {
    if g !in c.groups then None
    else
      var G := c.groups[g];
      var idx := Slot(G.memberToIdx, sender);
      if idx < |G.consensuses| then Some(G.consensuses[idx]) else None
  }

  function TryChangeIpfsHash(c: Chain, sender: Address, g: Address, newHash: Bytes): Option<Chain> {
    if g !in c.groups || !OwnsMember(c, c.groups[g].members, sender) then None
    else
      var G := c.groups[g];
      if |G.members| == 1 then Some(c.(groups := c.groups[g := G.(ipfsHash := newHash)]))
      else
        match Target(c, g, sender)
        case None => None
        case Some(b) =>
          if b !in c.consensuses || c.consensuses[b].group != g then None
          else Some(c.(consensuses :=
                         c.consensuses[b := Propose(c.consensuses[b], Keccak(G.ipfsHash + newHash), newHash)]))
  }

  function Invalidate(m: map<Address, ConsensusData>, listed: seq<Address>): map<Address, ConsensusData> {
    map b | b in m :: if b in listed then m[b].(isActive := false) else m[b]
  }

  /** `onChangeIpfsHashConsensus`, called by consensus `b` of group `g` with its payload. */
  function OnConsensus(c: Chain, g: Address, b: Address): Option<Chain>
    requires g in c.groups && b in c.consensuses
  {
    var G := c.groups[g];
    var idx := Slot(G.memberToIdx, Owner(c, c.consensuses[b].proposer));
    if idx >= |G.consensuses| || G.consensuses[idx] == NULL
       || (exists k | 0 <= k < |G.consensuses| ::
             G.consensuses[k] !in c.consensuses || c.consensuses[G.consensuses[k]].group != g) then None
    else Some(c.(groups := c.groups[g := G.(ipfsHash := c.consensuses[b].payload)],
                 consensuses := Invalidate(c.consensuses, G.consensuses)))
  }

  /** `sender` may vote on `b` now: it owns a member, the ballot is active, and it has not voted yet. */
  predicate CanApprove(c: Chain, sender: Address, b: Address) {
    b in c.consensuses
    && c.consensuses[b].group in c.groups
    && OwnsMember(c, c.groups[c.consensuses[b].group].members, sender)
    && c.consensuses[b].isActive
    && sender !in c.consensuses[b].approvals
  }

  /** The vote that this transaction casts is the deciding one. */
  predicate Decides(c: Chain, sender: Address, b: Address) {
    CanApprove(c, sender, b)
    && |c.consensuses[b].approvals| + 1 > Threshold(c.groups[c.consensuses[b].group])
  }

  function CastVote(c: Chain, sender: Address, b: Address): Chain
    requires b in c.consensuses
  {
    var B := c.consensuses[b];
    c.(consensuses := c.consensuses[b := B.(approvals := B.approvals + [sender])])
  }

  function TryApprove(c: Chain, sender: Address, b: Address): Option<Chain> {
    if !CanApprove(c, sender, b) then None
    else if Decides(c, sender, b) then OnConsensus(CastVote(c, sender, b), c.consensuses[b].group, b)
    else Some(CastVote(c, sender, b))
  }

  function Try(c: Chain, tx: Tx): Option<Chain> {
    match tx
    case CreateAccount(s) => TryCreateAccount(c, s)
    case CreateGroup(s, a) => TryCreateGroup(c, s, a)
    case Invite(s, g, a) => TryInvite(c, s, g, a)
    case Join(s, g) => TryJoin(c, s, g)
    case Decline(s, g) => TryDecline(c, s, g)
    case Leave(s, g) => TryLeave(c, s, g)
    case Kick(s, g, m) => TryKick(c, s, g, m)
    case ChangeIpfsHash(s, g, h) => TryChangeIpfsHash(c, s, g, h)
    case Approve(s, b) => TryApprove(c, s, b)
  }

  /** A reverted transaction leaves the chain as it was. */
  function Apply(c: Chain, tx: Tx): Chain {
    match Try(c, tx)
    case Some(c') => c'
    case None => c
  }

  /** The chain after a run of transactions from genesis. */
  function Exec(txs: seq<Tx>): Chain {
    if txs == [] then GENESIS else Apply(Exec(txs[..|txs| - 1]), txs[|txs| - 1])
  }
}
