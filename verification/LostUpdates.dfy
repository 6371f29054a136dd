/** Unsafe departures are exactly the ones after which an update can be lost. */
module LostUpdates {
  import opened Prelude
  import opened Ledger
  import opened Membership
  import opened Ballots
  import opened Majority
  import opened Continuations

  // ---- Taking in new members --------------------------------------------------------------------

  /** Nobody leaves and nothing is proposed: members only come in and vote. */
  ghost predicate Gathering(txs: seq<Tx>) {
    forall tx | tx in txs :: !tx.Leave? && !tx.Kick? && !tx.ChangeIpfsHash?
  }

  /** `d` is `c` after `n` newcomers have joined `g`: its ballots are as they were, and new consensuses are listed
      after the old ones. */
  ghost predicate Enlarged(c: Chain, d: Chain, g: Address, n: nat) {
    && g in c.groups && g in d.groups && Extends(c, d)
    && c.groups[g].members <= d.groups[g].members && |d.groups[g].members| == |c.groups[g].members| + n
    && (forall a | a in d.groups[g].members :: a in c.groups[g].members || a !in c.accounts)
    && d.groups[g].ipfsHash == c.groups[g].ipfsHash
    && (forall b | b in c.consensuses :: d.consensuses[b] == c.consensuses[b])
    && (forall b | b in d.groups[g].consensuses && b in c.consensuses :: b in c.groups[g].consensuses)
  }

  lemma EnlargedTwice(c: Chain, mid: Chain, d: Chain, g: Address, m: nat, n: nat)
    requires Enlarged(c, mid, g, m) && Enlarged(mid, d, g, n)
    ensures Enlarged(c, d, g, m + n)
  {
  }

  lemma {:induction false} FreshNumber(s: set<nat>) returns (n: nat)
    ensures forall x | x in s :: x < n
  {
    if s == {} {
      return 0;
    }
    var x :| x in s;
    var rest := FreshNumber(s - {x});
    n := if x < rest then rest else x + 1;
    assert s == (s - {x}) + {x};
  }

  /** An owner without an account is not invited anywhere. */
  lemma StrangerNotInvited(c: Chain, g: Address, owner: Address)
    requires Inv(c) && g in c.groups && owner !in c.registry && owner != NULL
    ensures Slot(c.groups[g].invitations, owner) == NULL
  {
    assert GroupOk(c, g);
    Registered(c);
    NothingAtNext(c);
  }

  /** The chain after a stranger has created an account. */
  ghost function WithAccount(c: Chain, owner: Address): Chain {
    c.(next := c.next + 1, registry := c.registry[owner := c.next],
       accounts := c.accounts[c.next := AccountData(owner, [], [])])
  }

  /** The chain after group `g` has invited account `a` of `owner`, which had no invitation. */
  ghost function WithInvitation(c: Chain, g: Address, a: Address, owner: Address): Chain
    requires g in c.groups
  {
    c.(accounts := c.accounts[a := AccountData(owner, [], [g])],
       groups := c.groups[g := c.groups[g].(invitations := c.groups[g].invitations[owner := a])])
  }

  lemma StrangerInvited(c: Chain, g: Address, owner: Address)
    requires Inv(c) && g in c.groups && c.groups[g].members != [] && owner !in c.registry && owner != NULL
    ensures var mid := WithAccount(c, owner);
            && Apply(c, CreateAccount(owner)) == mid
            && Apply(mid, Invite(Owner(c, c.groups[g].members[0]), g, c.next)) == WithInvitation(mid, g, c.next, owner)
  {
    var mid, members := WithAccount(c, owner), c.groups[g].members;
    var host := Owner(c, members[0]);
    NothingAtNext(c);
    StrangerNotInvited(c, g, owner);
    assert GroupOk(c, g) && members[0] in members;
    OwnsMemberIff(mid, members, host);
    assert Owner(mid, members[0]) == host;
    assert [] + [g] == [g];
  }

  lemma StrangerJoins(c: Chain, g: Address, owner: Address)
    requires Inv(c) && g in c.groups && owner !in c.registry && owner != NULL
    ensures var invited := WithInvitation(WithAccount(c, owner), g, c.next, owner);
            var d := Apply(invited, Join(owner, g));
            && g in d.groups && d.groups[g].members == c.groups[g].members + [c.next]
            && d.groups[g].consensuses == c.groups[g].consensuses + [c.next + 1]
            && d.groups[g].ipfsHash == c.groups[g].ipfsHash
            && d.consensuses == c.consensuses[c.next + 1 := NewConsensus(c.next, g)]
            && c.next in d.accounts && d.accounts[c.next].owner == owner
  {
    NothingAtNext(c);
    var invited := WithInvitation(WithAccount(c, owner), g, c.next, owner);
    assert Slot(invited.groups[g].invitations, owner) == c.next;
    assert multiset([g])[g] == 1;
    SweepEffect(AccountData(owner, [], [g]), g);
  }

  /** A group with members can always take in a newcomer whose address is above any bound. */
  lemma Recruit(c: Chain, g: Address, bound: nat) returns (owner: Address, txs: seq<Tx>)
    requires Inv(c) && g in c.groups && c.groups[g].members != []
    ensures owner >= bound && Gathering(txs)
    ensures var d := ExecFrom(c, txs);
            Inv(d) && Enlarged(c, d, g, 1) && OwnsMember(d, d.groups[g].members, owner)
  {
    var above := FreshNumber(c.registry.Keys);
    owner := above + bound + 1;
    var host := Owner(c, c.groups[g].members[0]);
    txs := [CreateAccount(owner)] + [Invite(host, g, c.next)] + [Join(owner, g)];
    StrangerInvited(c, g, owner);
    StrangerJoins(c, g, owner);
    ExecFromNext(c, [], CreateAccount(owner));
    ExecFromNext(c, [CreateAccount(owner)], Invite(host, g, c.next));
    ExecFromNext(c, [CreateAccount(owner)] + [Invite(host, g, c.next)], Join(owner, g));
    assert [] + [CreateAccount(owner)] == [CreateAccount(owner)];
    FromInv(c, txs);
    FromExtends(c, txs);
    NewcomerIn(c, g, owner, ExecFrom(c, txs));
  }

  lemma NewcomerIn(c: Chain, g: Address, owner: Address, d: Chain)
    requires Inv(c) && g in c.groups && g in d.groups && Extends(c, d)
    requires d.groups[g].members == c.groups[g].members + [c.next]
    requires c.next in d.accounts && d.accounts[c.next].owner == owner
    requires d.groups[g].consensuses == c.groups[g].consensuses + [c.next + 1]
    requires d.groups[g].ipfsHash == c.groups[g].ipfsHash
    requires d.consensuses == c.consensuses[c.next + 1 := NewConsensus(c.next, g)]
    ensures Enlarged(c, d, g, 1) && OwnsMember(d, d.groups[g].members, owner)
  {
    NothingAtNext(c);
    assert c.next in d.groups[g].members && Owner(d, c.next) == owner;
    OwnsMemberIff(d, d.groups[g].members, owner);
  }

  lemma {:induction false} FromExtends(c: Chain, txs: seq<Tx>)
    requires Inv(c)
    ensures Extends(c, ExecFrom(c, txs))
  {
    if txs != [] {
      var before := txs[..|txs| - 1];
      FromExtends(c, before);
      FromInv(c, before);
      StepInv(ExecFrom(c, before), txs[|txs| - 1]);
    }
  }

  lemma ConsNoDup(x: Address, s: seq<Address>)
    requires NoDup(s) && x !in s
    ensures NoDup([x] + s)
  {
    forall j, k | 0 <= j < k < |s| + 1 ensures ([x] + s)[j] != ([x] + s)[k] {
      assert ([x] + s)[k] == s[k - 1];
    }
  }

  /** The same for any number of newcomers. */
  lemma {:induction false} RecruitMany(c: Chain, g: Address, bound: nat, n: nat)
    returns (owners: seq<Address>, txs: seq<Tx>)
    requires Inv(c) && g in c.groups && c.groups[g].members != []
    ensures |owners| == n && NoDup(owners) && (forall o | o in owners :: o >= bound) && Gathering(txs)
    ensures var d := ExecFrom(c, txs);
            Inv(d) && Enlarged(c, d, g, n) && forall o | o in owners :: OwnsMember(d, d.groups[g].members, o)
    decreases n
  {
    if n == 0 {
      return [], [];
    }
    var owner, first := Recruit(c, g, bound);
    var mid := ExecFrom(c, first);
    var others, rest := RecruitMany(mid, g, owner + 1, n - 1);
    ConsNoDup(owner, others);
    owners, txs := [owner] + others, first + rest;
    ExecFromAppend(c, first, rest);
    var d := ExecFrom(c, txs);
    EnlargedTwice(c, mid, d, g, 1, n - 1);
    StillOwns(mid, d, g, n - 1, owner);
  }

  lemma StillOwns(c: Chain, d: Chain, g: Address, n: nat, owner: Address)
    requires Inv(c) && Enlarged(c, d, g, n) && OwnsMember(c, c.groups[g].members, owner)
    ensures OwnsMember(d, d.groups[g].members, owner)
  {
    assert GroupOk(c, g);
    MembershipGrows(c, d, c.groups[g].members, d.groups[g].members, owner);
  }

  // ---- Bringing an open ballot to its decision --------------------------------------------------

  ghost function VoteTxs(b: Address, voters: seq<Address>): seq<Tx> {
    if voters == [] then [] else VoteTxs(b, voters[..|voters| - 1]) + [Approve(voters[|voters| - 1], b)]
  }

  lemma {:induction false} VotesAreCast(c: Chain, b: Address, voters: seq<Address>)
    ensures ExecFrom(c, VoteTxs(b, voters)) == CastAll(c, b, voters) && Gathering(VoteTxs(b, voters))
  {
    if voters != [] {
      VotesAreCast(c, b, voters[..|voters| - 1]);
      ExecFromNext(c, VoteTxs(b, voters[..|voters| - 1]), Approve(voters[|voters| - 1], b));
    }
  }

  /** `d` is reached from `c` with `b` one vote from its decision and everything else about the ballots of `g`
      as it was. */
  ghost predicate OneVoteLeft(c: Chain, d: Chain, g: Address, b: Address, v: Address) {
    && Inv(d) && ActiveIn(c, g, b) && b in d.consensuses && Decides(d, v, b)
    && g in c.groups && g in d.groups && d.groups[g].ipfsHash == c.groups[g].ipfsHash
    && d.consensuses[b] == c.consensuses[b].(approvals := d.consensuses[b].approvals)
    && c.consensuses[b].approvals <= d.consensuses[b].approvals
    && (forall x | x in c.consensuses && x != b :: x in d.consensuses && d.consensuses[x] == c.consensuses[x])
    && (forall x | x in d.groups[g].consensuses && x in c.consensuses :: x in c.groups[g].consensuses)
    && d.groups[g].members != [] && Extends(c, d)
    && (forall a | a in d.groups[g].members :: a in c.groups[g].members || a !in c.accounts)
  }

  /** Whoever has voted so far, newcomers can bring an open ballot of a group with members to its decision. */
  lemma CanBeDecided(c: Chain, g: Address, b: Address) returns (txs: seq<Tx>, v: Address)
    requires Inv(c) && ActiveIn(c, g, b) && g in c.groups && c.groups[g].members != []
    ensures Gathering(txs) && OneVoteLeft(c, ExecFrom(c, txs), g, b, v)
  {
    var n, approvals := |c.groups[g].members|, c.consensuses[b].approvals;
    var voted := set x | x in approvals;
    var bound := FreshNumber(voted);
    assert forall x | x in approvals :: x in voted;
    var owners, joins := RecruitMany(c, g, bound, n + 1);
    var mid := ExecFrom(c, joins);
    var votes;
    votes, v := NewcomersVote(mid, g, b, owners);
    txs := joins + votes;
    ExecFromAppend(c, joins, votes);
    FromExtends(c, txs);
    LeftAfterJoining(c, mid, ExecFrom(c, txs), g, b, n + 1, v);
  }

  /** More newcomers than half the group decide a ballot that none of them has voted on. */
  lemma NewcomersVote(c: Chain, g: Address, b: Address, owners: seq<Address>) returns (txs: seq<Tx>, v: Address)
    requires Inv(c) && ActiveIn(c, g, b) && g in c.groups && |owners| > Threshold(c.groups[g]) && NoDup(owners)
    requires forall o | o in owners :: o !in c.consensuses[b].approvals && OwnsMember(c, c.groups[g].members, o)
    ensures Gathering(txs) && Inv(ExecFrom(c, txs)) && Decides(ExecFrom(c, txs), v, b)
    ensures exists k | 0 <= k < |owners| :: ExecFrom(c, txs) == WithVotes(c, b, owners[..k])
  {
    var approvals, t := c.consensuses[b].approvals, Threshold(c.groups[g]);
    var k := if |approvals| <= t then t - |approvals| else 0;
    v := owners[k];
    LastVoteLeft(c, g, b, owners, k);
    txs := VoteTxs(b, owners[..k]);
    VotesAreCast(c, b, owners[..k]);
  }

  lemma LeftAfterJoining(c: Chain, mid: Chain, d: Chain, g: Address, b: Address, n: nat, v: Address)
    requires ActiveIn(c, g, b) && Enlarged(c, mid, g, n) && Extends(c, d) && Inv(d) && Decides(d, v, b)
    requires c.groups[g].members != []
    requires exists voters :: d == WithVotes(mid, b, voters)
    ensures OneVoteLeft(c, d, g, b, v)
  {
  }

  lemma LastVoteLeft(c: Chain, g: Address, b: Address, owners: seq<Address>, k: nat)
    requires Inv(c) && ActiveIn(c, g, b) && g in c.groups && k < |owners| && NoDup(owners)
    requires forall o | o in owners :: o !in c.consensuses[b].approvals && OwnsMember(c, c.groups[g].members, o)
    requires var t, n := Threshold(c.groups[g]), |c.consensuses[b].approvals|; k == if n <= t then t - n else 0
    ensures CastAll(c, b, owners[..k]) == WithVotes(c, b, owners[..k])
    ensures Inv(WithVotes(c, b, owners[..k])) && Decides(WithVotes(c, b, owners[..k]), owners[k], b)
  {
    var voters := owners[..k];
    assert forall o | o in voters :: o in owners;
    if k > 0 {
      VotesAreRecorded(c, b, voters);
    } else {
      assert c.consensuses[b].approvals + voters == c.consensuses[b].approvals;
      assert WithVotes(c, b, voters).consensuses == c.consensuses;
    }
    RecordedInv(c, b, voters);
    SameOwners(c, WithVotes(c, b, voters), c.groups[g].members, owners[k]);
    assert owners[k] in owners && owners[k] !in voters;
  }

  // ---- Losing an update -------------------------------------------------------------------------

  /** After the run, in which nobody leaves, the vote of `v` applies a payload of `g` that was proposed against
      another hash. */
  ghost predicate LosesUpdate(c: Chain, g: Address, txs: seq<Tx>, v: Address, b: Address) {
    var d := ExecFrom(c, txs);
    Staying(txs) && Decides(d, v, b) && d.consensuses[b].group == g
    && d.consensuses[b].digest != Keccak(d.groups[g].ipfsHash + d.consensuses[b].payload)
  }

  /** An open ballot based on another hash is enough. */
  lemma StaleBallotLosesUpdate(c: Chain, g: Address, b: Address) returns (txs: seq<Tx>, v: Address)
    requires Inv(c) && ActiveIn(c, g, b) && g in c.groups && c.groups[g].members != []
    requires c.consensuses[b].digest != Keccak(c.groups[g].ipfsHash + c.consensuses[b].payload)
    ensures LosesUpdate(c, g, txs, v, b)
  {
    txs, v := CanBeDecided(c, g, b);
  }

  /** A last member changes the hash alone, and no ballot notices. */
  lemma LastMemberChanges(c: Chain, g: Address, newHash: Bytes) returns (tx: Tx)
    requires Inv(c) && g in c.groups && |c.groups[g].members| == 1
    ensures Staying([tx]) && Apply(c, tx) == c.(groups := c.groups[g := c.groups[g].(ipfsHash := newHash)])
  {
    var members := c.groups[g].members;
    tx := ChangeIpfsHash(Owner(c, members[0]), g, newHash);
    assert members[0] in members;
    OwnsMemberIff(c, members, Owner(c, members[0]));
  }

  /** In a larger group any member can open a ballot, on a listed consensus. */
  lemma MemberProposes(c: Chain, g: Address, newHash: Bytes) returns (tx: Tx, b: Address)
    requires Inv(c) && g in c.groups && |c.groups[g].members| >= 2
    ensures Staying([tx]) && b in c.groups[g].consensuses && b in c.consensuses
    ensures Apply(c, tx) == c.(consensuses := c.consensuses[b := Propose(c.consensuses[b],
                                Keccak(c.groups[g].ipfsHash + newHash), newHash)])
    ensures ActiveIn(Apply(c, tx), g, b)
  {
    var members := c.groups[g].members;
    var proposer := Owner(c, members[0]);
    tx := ChangeIpfsHash(proposer, g, newHash);
    assert members[0] in members;
    OwnsMemberIff(c, members, proposer);
    assert GroupOk(c, g);
    b := c.groups[g].consensuses[Slot(c.groups[g].memberToIdx, proposer)];
    assert b in c.groups[g].consensuses;
  }

  lemma RivalDecides(c: Chain, d: Chain, g: Address, b: Address, rival: Address, v: Address, newHash: Bytes)
    requires OneVoteLeft(c, d, g, rival, v) && ActiveIn(c, g, b) && b != rival && b !in c.groups[g].consensuses
    requires c.consensuses[rival].payload == newHash
    ensures var d' := Apply(d, Approve(v, rival));
            && Inv(d') && ActiveIn(d', g, b) && d'.consensuses[b] == c.consensuses[b]
            && g in d'.groups && d'.groups[g].members != [] && d'.groups[g].ipfsHash == newHash
  {
    DecisionApplies(d, v, rival);
    StepInv(d, Approve(v, rival));
  }

  /** An open ballot that is not listed survives the decision of a listed one, which changes the hash. */
  lemma UnlistedSurvives(c: Chain, g: Address, b: Address, newHash: Bytes) returns (txs: seq<Tx>)
    requires Inv(c) && ActiveIn(c, g, b) && g in c.groups && |c.groups[g].members| >= 2 && b !in c.groups[g].consensuses
    ensures var d := ExecFrom(c, txs);
            && Staying(txs) && Inv(d) && ActiveIn(d, g, b) && d.consensuses[b] == c.consensuses[b]
            && g in d.groups && d.groups[g].members != [] && d.groups[g].ipfsHash == newHash
  {
    var tx, rival := MemberProposes(c, g, newHash);
    var proposed := Apply(c, tx);
    StepInv(c, tx);
    var votes, v := CanBeDecided(proposed, g, rival);
    var mid := ExecFrom(proposed, votes);
    RivalDecides(proposed, mid, g, b, rival, v, newHash);
    ExecFromNext(c, [], tx);
    assert [] + [tx] == [tx];
    ExecFromAppend(c, [tx], votes);
    ExecFromNext(c, [tx] + votes, Approve(v, rival));
    txs := [tx] + votes + [Approve(v, rival)];
  }

  /** After an unsafe departure from a state whose open ballots are current, some run without further departures
      applies a payload over a hash it was not proposed against. */
  lemma UnsafeExitLosesUpdate(c: Chain, g: Address, i: nat, c': Chain) returns (txs: seq<Tx>, v: Address, b: Address)
    requires Inv(c) && g in c.groups && i < |c.groups[g].members| && RemoveMember(c, g, i) == Some(c')
    requires Current(c, g) && !SafeExit(c, g, i)
    ensures LosesUpdate(c', g, txs, v, b)
  {
    var newHash := c.groups[g].ipfsHash + [0];
    var first;
    b, first := StaleAfterExit(c, g, i, c', newHash);
    var d := ExecFrom(c', first);
    var rest;
    rest, v := StaleBallotLosesUpdate(d, g, b);
    txs := first + rest;
    ExecFromAppend(c', first, rest);
  }

  lemma StaleAfterExit(c: Chain, g: Address, i: nat, c': Chain, newHash: Bytes) returns (b: Address, txs: seq<Tx>)
    requires Inv(c) && g in c.groups && i < |c.groups[g].members| && RemoveMember(c, g, i) == Some(c')
    requires Current(c, g) && !SafeExit(c, g, i)
    requires newHash == c.groups[g].ipfsHash + [0]
    ensures var d := ExecFrom(c', txs);
            && Staying(txs) && Inv(d) && ActiveIn(d, g, b) && g in d.groups && d.groups[g].members != []
            && d.consensuses[b].digest != Keccak(d.groups[g].ipfsHash + d.consensuses[b].payload)
  {
    OwnersKept(c, g, i, c');
    RemoveInv(c, g, i, c');
    assert GroupOk(c, g);
    var G := c.groups[g];
    if |G.members| == 2 {
      b :| ActiveIn(c, g, b);
      assert CurrentAt(c, g, b);
      var tx := LastMemberChanges(c', g, newHash);
      txs := [tx];
      ExecFromNext(c', [], tx);
      assert [] + [tx] == [tx];
      StepInv(c', tx);
    } else {
      var x :| ActiveIn(c, g, x);
      assert CurrentAt(c, g, x);
      b := G.consensuses[i];
      assert CurrentAt(c, g, b);
      txs := UnlistedSurvives(c', g, b, newHash);
    }
    assert |newHash + c.consensuses[b].payload| != |G.ipfsHash + c.consensuses[b].payload|;
  }

  /** From current ballots, runs without departures lose nothing. */
  lemma {:induction false} StayingKeepsCurrent(c: Chain, g: Address, txs: seq<Tx>)
    requires Inv(c) && g in c.groups && Current(c, g) && Staying(txs)
    ensures g in ExecFrom(c, txs).groups && Current(ExecFrom(c, txs), g)
  {
    if txs != [] {
      var before := txs[..|txs| - 1];
      StayingKeepsCurrent(c, g, before);
      FromInv(c, before);
      assert txs[|txs| - 1] in txs;
      StepInv(ExecFrom(c, before), txs[|txs| - 1]);
      StepCurrent(ExecFrom(c, before), txs[|txs| - 1], g);
    }
  }

  /** A departure from a state whose open ballots are current is safe exactly when no run without further
      departures can lose an update after it. */
  lemma SafeExitIff(c: Chain, g: Address, i: nat, c': Chain)
    requires Inv(c) && g in c.groups && i < |c.groups[g].members| && RemoveMember(c, g, i) == Some(c')
    requires Current(c, g)
    ensures SafeExit(c, g, i) <==> forall txs, v, b :: !LosesUpdate(c', g, txs, v, b)
  {
    ExitKeepsCurrentIff(c, g, i, c');
    OwnersKept(c, g, i, c');
    RemoveInv(c, g, i, c');
    if SafeExit(c, g, i) {
      forall txs, v, b ensures !LosesUpdate(c', g, txs, v, b) {
        if LosesUpdate(c', g, txs, v, b) {
          StayingKeepsCurrent(c', g, txs);
          assert ActiveIn(ExecFrom(c', txs), g, b);
        }
      }
    } else {
      var txs, v, b := UnsafeExitLosesUpdate(c, g, i, c');
    }
  }
}
