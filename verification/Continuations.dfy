/** What can still happen to an open ballot: who can finish it, and what a departure can make of it later. */
module Continuations {
  import opened Prelude
  import opened Ledger
  import opened Membership
  import opened Ballots
  import opened Majority

  /** The chain after a run of transactions from `c`. */
  function ExecFrom(c: Chain, txs: seq<Tx>): Chain {
    if txs == [] then c else Apply(ExecFrom(c, txs[..|txs| - 1]), txs[|txs| - 1])
  }

  lemma ExecFromNext(c: Chain, txs: seq<Tx>, tx: Tx)
    ensures ExecFrom(c, txs + [tx]) == Apply(ExecFrom(c, txs), tx)
  {
    assert (txs + [tx])[..|txs|] == txs;
  }

  lemma {:induction false} ExecFromAppend(c: Chain, txs: seq<Tx>, more: seq<Tx>)
    ensures ExecFrom(c, txs + more) == ExecFrom(ExecFrom(c, txs), more)
  {
    if more == [] {
      assert txs + more == txs;
    } else {
      ExecFromAppend(c, txs, more[..|more| - 1]);
      assert (txs + more)[..|txs + more| - 1] == txs + more[..|more| - 1];
    }
  }

  lemma {:induction false} FromInv(c: Chain, txs: seq<Tx>)
    requires Inv(c)
    ensures Inv(ExecFrom(c, txs))
  {
    if txs != [] {
      FromInv(c, txs[..|txs| - 1]);
      StepInv(ExecFrom(c, txs[..|txs| - 1]), txs[|txs| - 1]);
    }
  }

  // ---- Progress among other transactions --------------------------------------------------------

  /** Nobody enters or leaves `g`, nothing new is proposed on `b`, and no other ballot of `g` is decided. */
  ghost predicate Calm(c: Chain, tx: Tx, g: Address, b: Address) {
    && !Departs(c, tx, g) && !(tx.Join? && tx.group == g && Try(c, tx).Some?) && !Opens(c, tx, b)
    && (tx.Approve? && tx.consensus != b && Decides(c, tx.sender, tx.consensus) ==>
          c.consensuses[tx.consensus].group != g)
  }

  ghost predicate CalmFrom(c: Chain, txs: seq<Tx>, g: Address, b: Address) {
    txs != [] ==> CalmFrom(c, txs[..|txs| - 1], g, b) && Calm(ExecFrom(c, txs[..|txs| - 1]), txs[|txs| - 1], g, b)
  }

  /** Who has voted on `b` on the way, in order. */
  ghost function VotersFrom(c: Chain, txs: seq<Tx>, b: Address): seq<Address> {
    if txs == [] then []
    else
      VotersFrom(c, txs[..|txs| - 1], b)
      + (if VotesOn(ExecFrom(c, txs[..|txs| - 1]), txs[|txs| - 1], b) then [txs[|txs| - 1].sender] else [])
  }

  /** `d` has the ballot of `c` with `voters` added to it, for the same group with the same hash. */
  ghost predicate Advanced(c: Chain, d: Chain, g: Address, b: Address, voters: seq<Address>) {
    && g in c.groups && b in c.consensuses && g in d.groups && b in d.consensuses
    && d.groups[g].members == c.groups[g].members && d.groups[g].ipfsHash == c.groups[g].ipfsHash
    && d.consensuses[b] == c.consensuses[b].(approvals := c.consensuses[b].approvals + voters)
  }

  lemma OwnVote(c: Chain, tx: Tx, g: Address, b: Address)
    requires Inv(c) && ActiveIn(c, g, b) && VotesOn(c, tx, b)
    requires |c.consensuses[b].approvals| + 1 <= Threshold(c.groups[g])
    ensures Advanced(c, Apply(c, tx), g, b, [tx.sender])
  {
    assert !Decides(c, tx.sender, b);
    assert CanApprove(c, tx.sender, b);
  }

  lemma OtherVote(c: Chain, tx: Tx, g: Address, b: Address)
    requires Inv(c) && ActiveIn(c, g, b) && Calm(c, tx, g, b) && tx.Approve? && !VotesOn(c, tx, b)
    ensures Advanced(c, Apply(c, tx), g, b, [])
  {
    OtherTxFrame(c, tx, b);
    assert c.consensuses[b].approvals + [] == c.consensuses[b].approvals;
    if Try(c, tx).Some? && Decides(c, tx.sender, tx.consensus) {
      DecisionApplies(c, tx.sender, tx.consensus);
      assert GroupOk(c, c.consensuses[tx.consensus].group);
    }
  }

  lemma OtherProposal(c: Chain, tx: Tx, g: Address, b: Address)
    requires Inv(c) && ActiveIn(c, g, b) && Calm(c, tx, g, b) && tx.ChangeIpfsHash? && |c.groups[g].members| >= 2
    ensures Advanced(c, Apply(c, tx), g, b, [])
  {
    assert c.consensuses[b].approvals + [] == c.consensuses[b].approvals;
  }

  lemma OtherStep(c: Chain, tx: Tx, g: Address, b: Address)
    requires Inv(c) && ActiveIn(c, g, b) && Calm(c, tx, g, b) && !tx.Approve? && !tx.ChangeIpfsHash?
    ensures Advanced(c, Apply(c, tx), g, b, [])
  {
    RosterFrame(c, tx, g);
    HashKept(c, tx, g);
    BallotKept(c, tx, b);
    assert c.consensuses[b].approvals + [] == c.consensuses[b].approvals;
  }

  lemma HashKept(c: Chain, tx: Tx, g: Address)
    requires Inv(c) && g in c.groups && !tx.Approve? && !tx.ChangeIpfsHash? && !Departs(c, tx, g)
    ensures g in Apply(c, tx).groups && Apply(c, tx).groups[g].ipfsHash == c.groups[g].ipfsHash
  {
    NothingAtNext(c);
  }

  lemma BallotKept(c: Chain, tx: Tx, b: Address)
    requires Inv(c) && b in c.consensuses && !tx.Approve? && !tx.ChangeIpfsHash?
    ensures b in Apply(c, tx).consensuses && Apply(c, tx).consensuses[b] == c.consensuses[b]
  {
    NothingAtNext(c);
  }

  lemma CalmStep(c: Chain, tx: Tx, g: Address, b: Address)
    requires Inv(c) && ActiveIn(c, g, b) && Calm(c, tx, g, b) && |c.groups[g].members| >= 2
    requires VotesOn(c, tx, b) ==> |c.consensuses[b].approvals| + 1 <= Threshold(c.groups[g])
    ensures Advanced(c, Apply(c, tx), g, b, if VotesOn(c, tx, b) then [tx.sender] else [])
  {
    if VotesOn(c, tx, b) {
      OwnVote(c, tx, g, b);
    } else if tx.Approve? {
      OtherVote(c, tx, g, b);
    } else if tx.ChangeIpfsHash? {
      OtherProposal(c, tx, g, b);
    } else {
      OtherStep(c, tx, g, b);
    }
  }

  /** Votes on a ballot add up, as long as what happens in between is calm. */
  lemma {:induction false} VotesAddUp(c: Chain, txs: seq<Tx>, g: Address, b: Address)
    requires Inv(c) && ActiveIn(c, g, b) && g in c.groups && |c.groups[g].members| >= 2 && CalmFrom(c, txs, g, b)
    requires |c.consensuses[b].approvals| + |VotersFrom(c, txs, b)| <= Threshold(c.groups[g])
    ensures Inv(ExecFrom(c, txs)) && Advanced(c, ExecFrom(c, txs), g, b, VotersFrom(c, txs, b))
  {
    if txs == [] {
      assert c.consensuses[b].approvals + [] == c.consensuses[b].approvals;
    } else {
      var before, tx := txs[..|txs| - 1], txs[|txs| - 1];
      VotesAddUp(c, before, g, b);
      var mid := ExecFrom(c, before);
      StepInv(mid, tx);
      CalmStep(mid, tx, g, b);
      AdvancedTwice(c, mid, Apply(mid, tx), g, b, VotersFrom(c, before, b),
                    if VotesOn(mid, tx, b) then [tx.sender] else []);
    }
  }

  /** With anything in between but departures, joins, decisions on other ballots and a new proposal on this one,
      up to half of the group's size in votes are only counted, and the next vote applies the payload. */
  lemma InterleavedProgress(c: Chain, txs: seq<Tx>, g: Address, b: Address, v: Address)
    requires Inv(c) && ActiveIn(c, g, b) && g in c.groups && |c.groups[g].members| >= 2 && CalmFrom(c, txs, g, b)
    requires |c.consensuses[b].approvals| + |VotersFrom(c, txs, b)| <= Threshold(c.groups[g])
    ensures var d := ExecFrom(c, txs);
            && Advanced(c, d, g, b, VotersFrom(c, txs, b))
            && (|d.consensuses[b].approvals| == Threshold(c.groups[g]) && CanApprove(d, v, b) ==>
                  Passed(d, Apply(d, Approve(v, b)), g, c.consensuses[b].payload))
  {
    VotesAddUp(c, txs, g, b);
    LastVotePasses(ExecFrom(c, txs), g, b, v);
  }

  lemma LastVotePasses(d: Chain, g: Address, b: Address, v: Address)
    requires Inv(d) && g in d.groups && b in d.consensuses && d.consensuses[b].group == g
    ensures |d.consensuses[b].approvals| == Threshold(d.groups[g]) && CanApprove(d, v, b) ==>
              Passed(d, Apply(d, Approve(v, b)), g, d.consensuses[b].payload)
  {
    if |d.consensuses[b].approvals| == Threshold(d.groups[g]) && CanApprove(d, v, b) {
      DecisionApplies(d, v, b);
    }
  }

  /** The step makes the payload the hash of the group and closes every listed consensus. */
  ghost predicate Passed(c: Chain, c': Chain, g: Address, payload: Bytes) {
    g in c.groups && g in c'.groups && c'.groups[g].ipfsHash == payload
    && forall b | b in c.groups[g].consensuses :: !ActiveIn(c', g, b)
  }

  lemma AdvancedTwice(c: Chain, mid: Chain, d: Chain, g: Address, b: Address, voters: seq<Address>, more: seq<Address>)
    requires Advanced(c, mid, g, b, voters) && Advanced(mid, d, g, b, more)
    ensures Advanced(c, d, g, b, voters + more)
  {
    assert c.consensuses[b].approvals + voters + more == c.consensuses[b].approvals + (voters + more);
  }

  // ---- There are always enough voters -----------------------------------------------------------

  /** `s` without the elements of `taken`. */
  function Except(s: seq<Address>, taken: seq<Address>): seq<Address> {
    if taken == [] then s
    else
      var rest := Except(s, taken[1..]);
      var i := IndexOf(rest, taken[0]);
      if i < |rest| then SwapRemove(rest, i) else rest
  }

  lemma {:induction false} ExceptKeeps(s: seq<Address>, taken: seq<Address>)
    requires NoDup(s)
    ensures NoDup(Except(s, taken)) && |Except(s, taken)| >= |s| - |taken|
    ensures forall x | x in Except(s, taken) :: x in s && x !in taken
  {
    if taken != [] {
      ExceptKeeps(s, taken[1..]);
      var rest := Except(s, taken[1..]);
      var i := IndexOf(rest, taken[0]);
      if i < |rest| {
        SwapRemoveMembers(rest, i);
      }
    }
  }

  function Owners(c: Chain, members: seq<Address>): (owners: seq<Address>)
    ensures |owners| == |members| && forall k | 0 <= k < |members| :: owners[k] == Owner(c, members[k])
  {
    seq(|members|, k requires 0 <= k < |members| => Owner(c, members[k]))
  }

  lemma OwnersDiffer(c: Chain, g: Address)
    requires Inv(c) && g in c.groups
    ensures NoDup(Owners(c, c.groups[g].members))
    ensures forall who | who in Owners(c, c.groups[g].members) :: OwnsMember(c, c.groups[g].members, who)
  {
    var members := c.groups[g].members;
    assert GroupOk(c, g);
    var owners := Owners(c, members);
    forall j, k | 0 <= j < k < |owners| ensures owners[j] != owners[k] {
      assert members[j] in members && members[k] in members;
      assert AccountOk(c, members[j]) && AccountOk(c, members[k]);
    }
    forall who | who in owners ensures OwnsMember(c, members, who) {
      var k :| 0 <= k < |owners| && owners[k] == who;
      assert members[k] in members;
      OwnsMemberIff(c, members, who);
    }
  }

  /** A tallied ballot always finds as many members without a vote as it still needs. */
  lemma EnoughFreshVoters(c: Chain, g: Address, b: Address) returns (voters: seq<Address>)
    requires Inv(c) && ActiveIn(c, g, b) && TalliedAt(c, g, b)
    ensures FreshVoters(c, b, voters)
    ensures |c.consensuses[b].approvals| + |voters| == Threshold(c.groups[g]) + 1
  {
    var owners, approvals := Owners(c, c.groups[g].members), c.consensuses[b].approvals;
    OwnersDiffer(c, g);
    ExceptKeeps(owners, approvals);
    voters := Except(owners, approvals)[..Threshold(c.groups[g]) + 1 - |approvals|];
    assert forall v | v in voters :: v in Except(owners, approvals);
  }
}
