/** Concrete runs: one within the scopes of the voting theorems, and others showing that the scopes are needed. */
module Witnesses {
  import opened Prelude
  import opened Ledger
  import opened Ballots
  import opened Majority

  /** Owners 101, 102 and 103 have accounts 1, 2 and 3; account 1 founded group 4 and the others joined.
      Their consensuses are 5, 6 and 7. */
  const FOUNDED := Chain(
    8, REGISTRY,
    map[1 := AccountData(101, [4], []), 2 := AccountData(102, [4], []), 3 := AccountData(103, [4], [])],
    map[4 := GroupData([1, 2, 3], [], [5, 6, 7], map[102 := 1, 103 := 2], map[102 := NULL, 103 := NULL])],
    map[5 := NewConsensus(1, 4), 6 := NewConsensus(2, 4), 7 := NewConsensus(3, 4)])

  /** One more transaction on a run. */
  lemma ExecNext(before: seq<Tx>, c: Chain, tx: Tx, c': Chain) returns (txs: seq<Tx>)
    requires Exec(before) == c && Try(c, tx) == Some(c')
    ensures txs == before + [tx] && Exec(txs) == c'
  {
    txs := before + [tx];
    assert txs[..|before|] == before;
  }

  lemma SameChain(c: Chain, d: Chain)
    requires c.next == d.next && c.registry == d.registry
    requires c.accounts == d.accounts && c.groups == d.groups && c.consensuses == d.consensuses
    ensures c == d
  {
  }

  const REGISTRY: map<Address, Address> := map[101 := 1, 102 := 2, 103 := 3]
  const UNLISTED: map<Address, AccountData> :=
    map[1 := AccountData(101, [], []), 2 := AccountData(102, [], []), 3 := AccountData(103, [], [])]

  const REGISTERED := Chain(4, REGISTRY, UNLISTED, map[], map[])

  const ALONE := Chain(
    6, REGISTRY, UNLISTED[1 := AccountData(101, [4], [])],
    map[4 := GroupData([1], [], [5], map[], map[])],
    map[5 := NewConsensus(1, 4)])

  const PAIR := Chain(
    7, REGISTRY, UNLISTED[1 := AccountData(101, [4], [])][2 := AccountData(102, [4], [])],
    map[4 := GroupData([1, 2], [], [5, 6], map[102 := 1], map[102 := NULL])],
    map[5 := NewConsensus(1, 4), 6 := NewConsensus(2, 4)])

  lemma AccountsCreated() returns (txs: seq<Tx>)
    ensures Exec(txs) == REGISTERED && Staying(txs)
  {
    var one := Chain(2, map[101 := 1], map[1 := AccountData(101, [], [])], map[], map[]);
    var two := Chain(3, map[101 := 1, 102 := 2],
                     map[1 := AccountData(101, [], []), 2 := AccountData(102, [], [])], map[], map[]);
    txs := ExecNext([], GENESIS, CreateAccount(101), one);
    txs := ExecNext(txs, one, CreateAccount(102), two);
    txs := ExecNext(txs, two, CreateAccount(103), REGISTERED);
  }

  lemma GroupCreated()
    ensures TryCreateGroup(REGISTERED, 101, 1) == Some(ALONE)
  {
    var d := TryCreateGroup(REGISTERED, 101, 1).value;
    assert d.accounts[1] == AccountData(101, [4], []);
    SameChain(d, ALONE);
  }

  /** `c` once account `a` of owner `o` has been invited to group 4. */
  function Invited(c: Chain, a: Address, o: Address): Chain
    requires 4 in c.groups
  {
    c.(accounts := c.accounts[a := AccountData(o, [], [4])],
       groups := c.groups[4 := c.groups[4].(invitations := c.groups[4].invitations[o := a])])
  }

  /** `c` once that account has joined. */
  function Joined(c: Chain, a: Address, o: Address): Chain
    requires 4 in c.groups
  {
    var G := c.groups[4];
    c.(next := c.next + 1,
       accounts := c.accounts[a := AccountData(o, [4], [])],
       groups := c.groups[4 := GroupData(G.members + [a], G.ipfsHash, G.consensuses + [c.next],
                                         G.memberToIdx[o := |G.members|], G.invitations[o := NULL])],
       consensuses := c.consensuses[c.next := NewConsensus(a, 4)])
  }

  lemma InviteFirst(c: Chain, host: Address, a: Address, o: Address)
    requires 4 in c.groups && a in c.accounts && c.accounts[a] == AccountData(o, [], [])
    requires OwnsMember(c, c.groups[4].members, host) && a !in c.groups[4].members
    requires Slot(c.groups[4].invitations, o) == NULL
    ensures TryInvite(c, host, 4, a) == Some(Invited(c, a, o))
  {
    var d := TryInvite(c, host, 4, a).value;
    assert d.accounts[a] == AccountData(o, [], [4]);
    SameChain(d, Invited(c, a, o));
  }

  lemma ThenJoin(c: Chain, a: Address, o: Address)
    requires 4 in c.groups && a != NULL
    ensures TryJoin(Invited(c, a, o), o, 4) == Some(Joined(c, a, o))
  {
    var invited, G := Invited(c, a, o), c.groups[4];
    OneInvitation(o);
    assert G.invitations[o := a][o := NULL] == G.invitations[o := NULL];
    var d := TryJoin(invited, o, 4).value;
    assert d.accounts == c.accounts[a := AccountData(o, [4], [])];
    assert d.groups == Joined(c, a, o).groups;
    SameChain(d, Joined(c, a, o));
  }

  lemma OneInvitation(o: Address)
    ensures Sweep(AccountData(o, [], [4]), 4, 0) == AccountData(o, [4], [])
  {
    assert SwapRemove([4], 0) == [];
  }

  lemma SecondJoins()
    ensures Joined(ALONE, 2, 102) == PAIR
  {
    assert Joined(ALONE, 2, 102).groups[4] == PAIR.groups[4];
    SameChain(Joined(ALONE, 2, 102), PAIR);
  }

  lemma ThirdGroup()
    ensures Joined(PAIR, 3, 103).groups == FOUNDED.groups
  {
    var G := PAIR.groups[4];
    assert G.members + [3] == [1, 2, 3] && G.consensuses + [7] == [5, 6, 7];
    assert G.memberToIdx[103 := 2] == map[102 := 1, 103 := 2];
    assert G.invitations[103 := NULL] == map[102 := NULL, 103 := NULL];
  }

  lemma ThirdJoins()
    ensures Joined(PAIR, 3, 103) == FOUNDED
  {
    ThirdGroup();
    assert Joined(PAIR, 3, 103).accounts == FOUNDED.accounts;
    SameChain(Joined(PAIR, 3, 103), FOUNDED);
  }

  lemma AloneReached() returns (txs: seq<Tx>)
    ensures Exec(txs) == ALONE && Staying(txs)
  {
    txs := AccountsCreated();
    GroupCreated();
    txs := ExecNext(txs, REGISTERED, CreateGroup(101, 1), ALONE);
  }

  lemma PairReached() returns (txs: seq<Tx>)
    ensures Exec(txs) == PAIR && Staying(txs)
  {
    txs := AloneReached();
    assert OwnsMember(ALONE, [1], 101);
    InviteFirst(ALONE, 101, 2, 102);
    txs := ExecNext(txs, ALONE, Invite(101, 4, 2), Invited(ALONE, 2, 102));
    ThenJoin(ALONE, 2, 102);
    SecondJoins();
    txs := ExecNext(txs, Invited(ALONE, 2, 102), Join(102, 4), PAIR);
  }

  lemma ThirdInvited() returns (txs: seq<Tx>)
    ensures Exec(txs) == Invited(PAIR, 3, 103) && Staying(txs)
  {
    txs := PairReached();
    assert OwnsMember(PAIR, [1, 2], 101);
    InviteFirst(PAIR, 101, 3, 103);
    txs := ExecNext(txs, PAIR, Invite(101, 4, 3), Invited(PAIR, 3, 103));
  }

  lemma GroupFounded() returns (txs: seq<Tx>)
    ensures Exec(txs) == FOUNDED && Staying(txs)
  {
    txs := ThirdInvited();
    ThenJoin(PAIR, 3, 103);
    ThirdJoins();
    txs := ExecNext(txs, Invited(PAIR, 3, 103), Join(103, 4), FOUNDED);
  }

  // ---- A departure during a ballot loses an update ----------------------------------------------

  const STALE := ConsensusData(true, 1, 4, Keccak([1]), [1], [1])
  const RIVAL := ConsensusData(true, 3, 4, Keccak([2]), [2], [3])

  const PROPOSED := FOUNDED.(consensuses := FOUNDED.consensuses[5 := STALE])

  const LEFT := PROPOSED.(
    accounts := PROPOSED.accounts[1 := AccountData(101, [], [])],
    groups := map[4 := PROPOSED.groups[4].(members := [3, 2], consensuses := [7, 6, 7])])

  const CONTESTED := LEFT.(consensuses := LEFT.consensuses[7 := RIVAL])

  const OVERTAKEN := CONTESTED.(
    groups := map[4 := CONTESTED.groups[4].(ipfsHash := [2])],
    consensuses := CONTESTED.consensuses[7 := RIVAL.(isActive := false, approvals := [3, 102])])

  lemma ProposeStale()
    ensures TryChangeIpfsHash(FOUNDED, 101, 4, [1]) == Some(PROPOSED)
  {
    assert OwnsMember(FOUNDED, [1, 2, 3], 101);
    assert Target(FOUNDED, 4, 101) == Some(5);
    assert FOUNDED.groups[4].ipfsHash + [1] == [1];
  }

  lemma LeaveDuringBallot()
    ensures TryLeave(PROPOSED, 101, 4) == Some(LEFT)
  {
    assert FindOwner(PROPOSED, [1, 2, 3], 101) == 0;
    assert SwapRemove([1, 2, 3], 0) == [3, 2];
    assert SwapRemove([4], 0) == [];
    assert OnGroupLeft(PROPOSED.accounts[1], 4) == AccountData(101, [], []);
    assert [5, 6, 7][0 := 7] == [7, 6, 7];
    SameChain(TryLeave(PROPOSED, 101, 4).value, LEFT);
  }

  lemma ProposeRival()
    ensures TryChangeIpfsHash(LEFT, 103, 4, [2]) == Some(CONTESTED)
  {
    assert OwnsMember(LEFT, [3, 2], 103);
    assert Target(LEFT, 4, 103) == Some(7);
    assert LEFT.groups[4].ipfsHash + [2] == [2];
  }

  lemma SecondOwner(c: Chain)
    requires c.accounts == LEFT.accounts
    ensures OwnsMember(c, [3, 2], 102)
  {
    assert [3, 2][1..] == [2];
    assert FindOwner(c, [2], 102) == 0;
  }

  /** The callback of consensus `b` of group 4 in a chain with the members and consensuses that are left. */
  lemma Callback(c: Chain, b: Address)
    requires 4 in c.groups && b in c.consensuses && c.groups[4].consensuses == [7, 6, 7]
    requires 6 in c.consensuses && c.consensuses[6].group == 4 && 7 in c.consensuses && c.consensuses[7].group == 4
    requires Slot(c.groups[4].memberToIdx, Owner(c, c.consensuses[b].proposer)) < 3
    ensures OnConsensus(c, 4, b)
            == Some(c.(groups := c.groups[4 := c.groups[4].(ipfsHash := c.consensuses[b].payload)],
                       consensuses := Invalidate(c.consensuses, [7, 6, 7])))
  {
  }

  lemma RivalCast()
    ensures Decides(CONTESTED, 102, 7)
    ensures CastVote(CONTESTED, 102, 7).consensuses[7] == RIVAL.(approvals := [3, 102])
  {
    SecondOwner(CONTESTED);
    assert [3] + [102] == [3, 102];
  }

  lemma ApproveRival()
    ensures TryApprove(CONTESTED, 102, 7) == Some(OVERTAKEN)
  {
    RivalCast();
    var voted := CastVote(CONTESTED, 102, 7);
    Callback(voted, 7);
    SameChain(OnConsensus(voted, 4, 7).value, OVERTAKEN);
  }

  lemma ProposedReached() returns (txs: seq<Tx>)
    ensures Exec(txs) == PROPOSED && Staying(txs)
  {
    txs := GroupFounded();
    ProposeStale();
    txs := ExecNext(txs, FOUNDED, ChangeIpfsHash(101, 4, [1]), PROPOSED);
  }

  lemma FirstVoteDecides()
    ensures Decides(PROPOSED, 102, 5)
  {
    assert [1, 2, 3][1..] == [2, 3];
    assert FindOwner(PROPOSED, [2, 3], 102) == 0;
  }

  /** An ordinary vote from genesis is within every scope: 101 has proposed [1], nobody has left, and the vote
      of 102 applies the payload. */
  lemma OrdinaryVoteInScope() returns (txs: seq<Tx>)
    ensures InScope(txs, 4)
    ensures Exec(txs) == PROPOSED && Decides(PROPOSED, 102, 5)
  {
    txs := ProposedReached();
    StayingInScope(txs, 4);
    FirstVoteDecides();
  }

  lemma LeftReached() returns (txs: seq<Tx>)
    ensures Exec(txs) == LEFT
  {
    txs := ProposedReached();
    LeaveDuringBallot();
    txs := ExecNext(txs, PROPOSED, Leave(101, 4), LEFT);
  }

  lemma ContestedReached() returns (txs: seq<Tx>)
    ensures Exec(txs) == CONTESTED
  {
    txs := LeftReached();
    ProposeRival();
    txs := ExecNext(txs, LEFT, ChangeIpfsHash(103, 4, [2]), CONTESTED);
  }

  lemma OvertakenReached() returns (txs: seq<Tx>)
    ensures Exec(txs) == OVERTAKEN
  {
    txs := ContestedReached();
    ApproveRival();
    txs := ExecNext(txs, CONTESTED, Approve(102, 7), OVERTAKEN);
  }

  lemma StaleVoteDecides()
    ensures Decides(OVERTAKEN, 102, 5) && Try(OVERTAKEN, Approve(102, 5)).Some?
    ensures Apply(OVERTAKEN, Approve(102, 5)).groups == map[4 := OVERTAKEN.groups[4].(ipfsHash := [1])]
  {
    SecondOwner(OVERTAKEN);
    Callback(CastVote(OVERTAKEN, 102, 5), 5);
  }

  /** No safe run ends here: the next vote would install a payload that was not proposed against the hash. */
  lemma OvertakenUnsafe(txs: seq<Tx>)
    requires Exec(txs) == OVERTAKEN
    ensures !SafeRun(txs, 4)
  {
    StaleVoteDecides();
    if SafeRun(txs, 4) {
      CompareAndSwap(txs, 102, 5);
      BallotIntegrity(txs, 5);
    }
  }

  /** Without a safe departure, an applied payload can replace a hash it was not proposed against. In group 4,
      101 proposes [1] and leaves, then 103 proposes [2] and 102 approves it. The consensus dropped from the list
      is still open after its proposer has left, and one more vote of 102 puts in place the payload [1], which
      is based on the empty hash. */
  lemma UnsafeDepartureLosesUpdate() returns (txs: seq<Tx>)
    ensures Exec(txs) == OVERTAKEN && !SafeRun(txs, 4)
    ensures OVERTAKEN.groups[4].ipfsHash == [2] && OVERTAKEN.consensuses[5].digest == Keccak([] + [1])
    ensures OVERTAKEN.consensuses[5].proposer !in OVERTAKEN.groups[4].members
    ensures Decides(OVERTAKEN, 102, 5)
    ensures Apply(OVERTAKEN, Approve(102, 5)).groups == map[4 := OVERTAKEN.groups[4].(ipfsHash := [1])]
  {
    txs := OvertakenReached();
    OvertakenUnsafe(txs);
    StaleVoteDecides();
  }

  // ---- A newcomer after a departure -------------------------------------------------------------

  const DESERTED := FOUNDED.(
    accounts := FOUNDED.accounts[2 := AccountData(102, [], [])],
    groups := FOUNDED.groups[4 := FOUNDED.groups[4].(members := [1, 3], consensuses := [5, 7, 7])])

  const VACATED := DESERTED.(
    next := 9,
    registry := DESERTED.registry[104 := 8],
    accounts := DESERTED.accounts[8 := AccountData(104, [], [])])

  lemma SecondFound()
    ensures FindOwner(FOUNDED, [1, 2, 3], 102) == 1
  {
    assert [1, 2, 3][1..] == [2, 3];
    assert FindOwner(FOUNDED, [2, 3], 102) == 0;
  }

  lemma SecondLeaves()
    ensures TryLeave(FOUNDED, 102, 4) == Some(DESERTED)
  {
    SecondFound();
    assert SwapRemove([1, 2, 3], 1) == [1, 3];
    assert SwapRemove([4], 0) == [];
    assert OnGroupLeft(FOUNDED.accounts[2], 4) == AccountData(102, [], []);
    assert [5, 6, 7][1 := 7] == [5, 7, 7];
    SameChain(TryLeave(FOUNDED, 102, 4).value, DESERTED);
  }

  lemma DesertedReached() returns (txs: seq<Tx>)
    ensures Exec(txs) == DESERTED
  {
    txs := GroupFounded();
    SecondLeaves();
    txs := ExecNext(txs, FOUNDED, Leave(102, 4), DESERTED);
  }

  lemma VacatedReached() returns (txs: seq<Tx>)
    ensures Exec(txs) == VACATED
  {
    txs := DesertedReached();
    txs := ExecNext(txs, DESERTED, CreateAccount(104), VACATED);
  }

  lemma LateInvited() returns (txs: seq<Tx>)
    ensures Exec(txs) == Invited(VACATED, 8, 104)
  {
    txs := VacatedReached();
    assert OwnsMember(VACATED, [1, 3], 101);
    InviteFirst(VACATED, 101, 8, 104);
    txs := ExecNext(txs, VACATED, Invite(101, 4, 8), Invited(VACATED, 8, 104));
  }

  lemma LateJoinReached() returns (txs: seq<Tx>)
    ensures Exec(txs) == Joined(VACATED, 8, 104)
  {
    txs := LateInvited();
    ThenJoin(VACATED, 8, 104);
    txs := ExecNext(txs, Invited(VACATED, 8, 104), Join(104, 4), Joined(VACATED, 8, 104));
  }

  /** After 102 has left the founded group, 104 creates account 8, is invited and joins: the newcomer's proposals
      go to consensus 7, which is recorded under account 3. */
  lemma LateJoinerMisrouted() returns (txs: seq<Tx>)
    ensures !TidyRun(txs, 4)
    ensures var c := Exec(txs);
            && 4 in c.groups && c.groups[4].members == [1, 3, 8] && Owner(c, 8) == 104
            && Target(c, 4, 104) == Some(7) && 7 in c.consensuses && c.consensuses[7].proposer == 3
  {
    txs := LateJoinReached();
    var c := Exec(txs);
    assert c.groups[4].members == [1, 3, 8];
    assert !RoutedAt(c, 4, 2);
    if TidyRun(txs, 4) {
      BallotRouting(txs, 4);
    }
  }

  // ---- A departure during a ballot, without a lost update ---------------------------------------

  const SPARE := FOUNDED.(
    next := 9,
    registry := FOUNDED.registry[104 := 8],
    accounts := FOUNDED.accounts[8 := AccountData(104, [], [])])

  const QUARTET := SPARE.(
    next := 10,
    accounts := SPARE.accounts[8 := AccountData(104, [4], [])],
    groups := map[4 := GroupData([1, 2, 3, 8], [], [5, 6, 7, 9], map[102 := 1, 103 := 2, 104 := 3],
                                 map[102 := NULL, 103 := NULL, 104 := NULL])],
    consensuses := SPARE.consensuses[9 := NewConsensus(8, 4)])

  const OPENED := QUARTET.(consensuses := QUARTET.consensuses[5 := STALE])

  const HALFWAY := QUARTET.(consensuses := QUARTET.consensuses[5 := STALE.(approvals := [1, 102])])

  const THINNED := HALFWAY.(
    accounts := HALFWAY.accounts[2 := AccountData(102, [], [])],
    groups := HALFWAY.groups[4 := HALFWAY.groups[4].(members := [1, 8, 3], consensuses := [5, 9, 7, 9])])

  lemma FourthJoins()
    ensures Joined(SPARE, 8, 104) == QUARTET
  {
    var G := SPARE.groups[4];
    assert G.members + [8] == [1, 2, 3, 8] && G.consensuses + [9] == [5, 6, 7, 9];
    assert G.memberToIdx[104 := 3] == map[102 := 1, 103 := 2, 104 := 3];
    assert G.invitations[104 := NULL] == map[102 := NULL, 103 := NULL, 104 := NULL];
    assert Joined(SPARE, 8, 104).groups == QUARTET.groups;
    SameChain(Joined(SPARE, 8, 104), QUARTET);
  }

  lemma SpareReached() returns (txs: seq<Tx>)
    ensures Exec(txs) == SPARE && Staying(txs)
  {
    txs := GroupFounded();
    txs := ExecNext(txs, FOUNDED, CreateAccount(104), SPARE);
  }

  lemma FourthMayJoin()
    ensures TryInvite(SPARE, 101, 4, 8) == Some(Invited(SPARE, 8, 104))
  {
    assert OwnsMember(SPARE, [1, 2, 3], 101);
    InviteFirst(SPARE, 101, 8, 104);
  }

  lemma FourthInvited() returns (txs: seq<Tx>)
    ensures Exec(txs) == Invited(SPARE, 8, 104) && Staying(txs)
  {
    txs := SpareReached();
    FourthMayJoin();
    txs := ExecNext(txs, SPARE, Invite(101, 4, 8), Invited(SPARE, 8, 104));
  }

  lemma QuartetReached() returns (txs: seq<Tx>)
    ensures Exec(txs) == QUARTET && Staying(txs)
  {
    txs := FourthInvited();
    ThenJoin(SPARE, 8, 104);
    FourthJoins();
    txs := ExecNext(txs, Invited(SPARE, 8, 104), Join(104, 4), QUARTET);
  }

  lemma FirstMayPropose()
    ensures OwnsMember(QUARTET, [1, 2, 3, 8], 101) && Target(QUARTET, 4, 101) == Some(5)
  {
  }

  lemma OpenBallot()
    ensures TryChangeIpfsHash(QUARTET, 101, 4, [1]) == Some(OPENED)
  {
    FirstMayPropose();
    assert QUARTET.groups[4].ipfsHash + [1] == [1];
    SameChain(TryChangeIpfsHash(QUARTET, 101, 4, [1]).value, OPENED);
  }

  /** The position of 102 among the four members, whatever else the chain holds. */
  lemma SecondOfFour(c: Chain)
    requires c.accounts == QUARTET.accounts
    ensures FindOwner(c, [1, 2, 3, 8], 102) == 1
  {
    assert [1, 2, 3, 8][1..] == [2, 3, 8];
    assert FindOwner(c, [2, 3, 8], 102) == 0;
  }

  lemma HalfVote()
    ensures TryApprove(OPENED, 102, 5) == Some(HALFWAY)
  {
    SecondOfFour(OPENED);
    assert !Decides(OPENED, 102, 5);
    var voted := CastVote(OPENED, 102, 5);
    assert voted.consensuses[5].approvals == [1, 102];
    SameChain(voted, HALFWAY);
  }

  lemma WithoutSecond()
    ensures SwapRemove([1, 2, 3, 8], 1) == [1, 8, 3] && [5, 6, 7, 9][1 := 9] == [5, 9, 7, 9]
    ensures OnGroupLeft(AccountData(102, [4], []), 4) == AccountData(102, [], [])
  {
    assert SwapRemove([4], 0) == [];
  }

  lemma SecondRemoved()
    ensures RemoveMember(HALFWAY, 4, 1) == Some(THINNED)
  {
    WithoutSecond();
  }

  lemma VoterLeaves()
    ensures TryLeave(HALFWAY, 102, 4) == Some(THINNED)
  {
    SecondOfFour(HALFWAY);
    SecondRemoved();
  }

  lemma OpenedReached() returns (txs: seq<Tx>)
    ensures Exec(txs) == OPENED && Staying(txs)
  {
    txs := QuartetReached();
    OpenBallot();
    txs := ExecNext(txs, QUARTET, ChangeIpfsHash(101, 4, [1]), OPENED);
  }

  lemma HalfwayReached() returns (txs: seq<Tx>)
    ensures Exec(txs) == HALFWAY && Staying(txs)
  {
    txs := OpenedReached();
    HalfVote();
    txs := ExecNext(txs, OPENED, Approve(102, 5), HALFWAY);
  }

  lemma SafeAndSparing()
    ensures SafeStep(HALFWAY, Leave(102, 4), 4) && SparingStep(HALFWAY, Leave(102, 4), 4)
  {
    SecondOfFour(HALFWAY);
  }

  lemma Unfair()
    ensures !FairStep(HALFWAY, Leave(102, 4), 4)
  {
    VoterLeaves();
    SecondOfFour(HALFWAY);
    assert ActiveIn(HALFWAY, 4, 5);
    assert !FairTo(HALFWAY, 4, 1, 5);
  }

  lemma LateVoteDecides()
    ensures Decides(THINNED, 103, 5) && !OwnsMember(THINNED, [1, 8, 3], 102)
  {
    assert [1, 8, 3][1..] == [8, 3] && [8, 3][1..] == [3] && [3][1..] == [];
    assert FindOwner(THINNED, [3], 103) == 0 && FindOwner(THINNED, [8, 3], 103) == 1;
    assert FindOwner(THINNED, [3], 102) == 1 && FindOwner(THINNED, [8, 3], 102) == 2;
  }

  /** Exact firing and backing by current members need fair departures: of four members 101 proposes, 102 votes
      and leaves. The departure is safe and sparing and every join was tidy, but the ballot now has more entries
      than half the group, one of them of a stranger, and the next vote makes one entry too many. */
  lemma DepartedVoterCounts() returns (txs: seq<Tx>)
    ensures SafeRun(txs, 4) && SparingRun(txs, 4) && TidyRun(txs, 4) && !FairRun(txs, 4)
    ensures Exec(txs) == THINNED && Decides(THINNED, 103, 5)
    ensures THINNED.consensuses[5].approvals[1] == 102 && !OwnsMember(THINNED, THINNED.groups[4].members, 102)
    ensures |THINNED.consensuses[5].approvals| + 1 > |THINNED.groups[4].members| / 2 + 1
  {
    txs := ThinnedReached();
    LateVoteDecides();
  }

  lemma ThinnedReached() returns (txs: seq<Tx>)
    ensures SafeRun(txs, 4) && SparingRun(txs, 4) && TidyRun(txs, 4) && !FairRun(txs, 4)
    ensures Exec(txs) == THINNED
  {
    var before := HalfwayReached();
    StayingInScope(before, 4);
    VoterLeaves();
    SafeAndSparing();
    Unfair();
    txs := ExecNext(before, HALFWAY, Leave(102, 4), THINNED);
    assert txs[..|txs| - 1] == before;
  }

  // ---- A proposer who leaves --------------------------------------------------------------------

  const SHIFTED := QUARTET.(
    accounts := QUARTET.accounts[1 := AccountData(101, [], [])],
    groups := QUARTET.groups[4 := QUARTET.groups[4].(members := [8, 2, 3], consensuses := [9, 6, 7, 9])])

  const LATEST := ConsensusData(true, 8, 4, Keccak([1]), [1], [8])

  const CALLED := SHIFTED.(consensuses := SHIFTED.consensuses[9 := LATEST])

  const ORPHANED := CALLED.(
    accounts := CALLED.accounts[8 := AccountData(104, [], [])],
    groups := CALLED.groups[4 := CALLED.groups[4].(members := [3, 2], consensuses := [9, 6, 7, 9])])

  lemma FounderRemoved()
    ensures RemoveMember(QUARTET, 4, 0) == Some(SHIFTED)
  {
    assert SwapRemove([1, 2, 3, 8], 0) == [8, 2, 3] && [5, 6, 7, 9][0 := 9] == [9, 6, 7, 9];
    assert SwapRemove([4], 0) == [];
  }

  lemma FounderLeaves()
    ensures TryLeave(QUARTET, 101, 4) == Some(SHIFTED)
    ensures NoneActive(QUARTET, 4)
  {
    FounderRemoved();
    assert FindOwner(QUARTET, [1, 2, 3, 8], 101) == 0;
  }

  lemma FounderGone() returns (txs: seq<Tx>)
    ensures Exec(txs) == SHIFTED && QuietRun(txs, 4) && TidyRun(txs, 4)
  {
    var before := QuartetReached();
    NobodyLeaves(before, 4);
    StayingIsQuietAndTidy(before, 4);
    FounderLeaves();
    txs := ExecNext(before, QUARTET, Leave(101, 4), SHIFTED);
    assert txs[..|txs| - 1] == before;
  }

  lemma NewcomerProposes()
    ensures TryChangeIpfsHash(SHIFTED, 104, 4, [1]) == Some(CALLED)
  {
    assert FindOwner(SHIFTED, [8, 2, 3], 104) == 0;
    assert Target(SHIFTED, 4, 104) == Some(9);
    assert SHIFTED.groups[4].ipfsHash + [1] == [1];
    SameChain(TryChangeIpfsHash(SHIFTED, 104, 4, [1]).value, CALLED);
  }

  lemma CalledReached() returns (txs: seq<Tx>)
    ensures Exec(txs) == CALLED && QuietRun(txs, 4) && TidyRun(txs, 4)
  {
    var before := FounderGone();
    NewcomerProposes();
    txs := ExecNext(before, SHIFTED, ChangeIpfsHash(104, 4, [1]), CALLED);
    assert txs[..|txs| - 1] == before;
  }

  lemma ProposerRemoved()
    ensures RemoveMember(CALLED, 4, 0) == Some(ORPHANED)
  {
    assert SwapRemove([8, 2, 3], 0) == [3, 2] && [9, 6, 7, 9][0 := 9] == [9, 6, 7, 9];
    assert SwapRemove([4], 0) == [];
  }

  lemma ProposerLeaves()
    ensures TryLeave(CALLED, 104, 4) == Some(ORPHANED)
    ensures DepartingIndex(CALLED, Leave(104, 4)) == 0
  {
    ProposerRemoved();
    assert FindOwner(CALLED, [8, 2, 3], 104) == 0;
  }

  lemma OnlyLatestOpen(b: Address)
    requires ActiveIn(CALLED, 4, b)
    ensures b == 9
  {
  }

  lemma FairButNotSparing()
    ensures SafeStep(CALLED, Leave(104, 4), 4) && FairStep(CALLED, Leave(104, 4), 4)
    ensures !SparingStep(CALLED, Leave(104, 4), 4)
  {
    ProposerLeaves();
    assert ActiveIn(CALLED, 4, 9);
    assert [9, 6, 7, 9][0 := 9][0] == 9;
    forall b | ActiveIn(CALLED, 4, b) ensures FairTo(CALLED, 4, 0, b) {
      OnlyLatestOpen(b);
    }
  }

  /** A strict majority needs sparing departures: 101 has left and 104 proposes from the last listed consensus,
      which stays listed when 104 leaves. The departure is safe and fair and every join was tidy, but the next
      vote applies the payload of a proposer who is gone, with one of two members behind it. */
  lemma DepartedProposerCounts() returns (txs: seq<Tx>)
    ensures SafeRun(txs, 4) && FairRun(txs, 4) && TidyRun(txs, 4) && !SparingRun(txs, 4)
    ensures Exec(txs) == ORPHANED && Decides(ORPHANED, 102, 9)
    ensures ORPHANED.groups[4].members == [3, 2] && ORPHANED.consensuses[9].proposer == 8
    ensures ORPHANED.consensuses[9].approvals == [8]
  {
    var before := CalledReached();
    QuietInScope(before, 4);
    ProposerLeaves();
    FairButNotSparing();
    txs := ExecNext(before, CALLED, Leave(104, 4), ORPHANED);
    assert txs[..|txs| - 1] == before;
    SecondOwnsLast();
  }

  lemma SecondOwnsLast()
    ensures Decides(ORPHANED, 102, 9)
  {
    assert [3, 2][1..] == [2];
    assert FindOwner(ORPHANED, [2], 102) == 0;
  }
}
