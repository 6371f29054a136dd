/** What commits, change sets and updates leave behind: recorded hashes, texts, write lists and keys. */
module Outcomes {
  import opened Prelude
  import opened Repo
  import opened Replication
  import opened Validation

  // ---- What an update records -------------------------------------------------------------------

  /** Block `cid` holds a change set that `boxer` opens. */
  ghost predicate HoldsChangeSet(store: Store, cid: Cid, boxer: Key) {
    1 <= cid <= |store| && exists metas :: store[cid - 1] == MetasBlock(boxer, metas)
  }

  /** An update to a hash that is not there, or is recorded already, changes nothing. Any other update fails exactly
      when the replica's key does not open a change set there, and otherwise records the hash. */
  lemma UpdateRecordsHash(t: Tools, store: Store, r: Replica, cid: Cid)
    requires Acyclic(store)
    ensures cid == NO_CID || cid == r.ipfsHash ==> Update(t, store, r, cid) == Some(r)
    ensures cid != NO_CID && cid != r.ipfsHash ==>
              (Update(t, store, r, cid).Some? <==> HoldsChangeSet(store, cid, r.boxer))
    ensures cid != NO_CID && Update(t, store, r, cid).Some? ==> Update(t, store, r, cid).value.ipfsHash == cid
  {
    if cid != NO_CID && cid != r.ipfsHash && OpenMetas(store, cid, r.boxer).Some? {
      assert store[cid - 1] == MetasBlock(r.boxer, OpenMetas(store, cid, r.boxer).value);
    }
  }

  /** Receiving a key that does not open the newest block leaves a replica as it was, but for the key. */
  lemma WrongKeyLeavesReplica(t: Tools, store: Store, r: Replica, boxer: Key)
    requires Acyclic(store) && !HoldsChangeSet(store, |store|, boxer)
    ensures Receive(t, store, r, boxer) == r.(boxer := boxer)
  {
    UpdateRecordsHash(t, store, r.(boxer := boxer), |store|);
  }

  /** After a round every replica has recorded its hash and its key. */
  lemma RoundRecordsHash(s: Swarm, e: Event, g: Committed, k: nat)
    requires AllInSync(s, g) && Legal(s, e) && e.Round? && k < |Step(s, e).replicas|
    ensures Step(s, e).replicas[k].ipfsHash == |Step(s, e).store| && Step(s, e).replicas[k].boxer == e.boxer
  {
    var r := s.replicas[e.i];
    var c := Commit(e.tools, r, s.store, e.names, e.boxer);
    CommitKeepsSync(e.tools, r, s.store, e.names, e.boxer, g);
    CommitIsHonest(e.tools, r, s.store, e.names, e.boxer, g);
    var before := s.replicas[e.i := c.replica][k];
    assert before.ipfsHash <= |s.store|;
    UpdateFilesFrame(e.tools, c.store, before.(boxer := e.boxer), c.metas);
  }

  /** Receiving the same round again changes nothing. */
  lemma SecondReceiveIsIdle(s: Swarm, e: Event, g: Committed, k: nat, t: Tools)
    requires AllInSync(s, g) && Legal(s, e) && e.Round? && k < |Step(s, e).replicas| && Acyclic(Step(s, e).store)
    ensures Receive(t, Step(s, e).store, Step(s, e).replicas[k], e.boxer) == Step(s, e).replicas[k]
  {
    RoundRecordsHash(s, e, g, k);
  }

  // ---- What a validated change set does to a file -----------------------------------------------

  /** The block of a validated entry that moves a head was made for the text that the replica has. */
  lemma MovedHeadFitsText(r: Replica, store: Store, m: FileMeta, proposer: Address) returns (node: DiffNode)
    requires MetaValid(r, store, m, proposer) && m.fileName in r.files
    requires m.ipfsHash != r.files[m.fileName].meta.ipfsHash
    ensures 1 <= m.ipfsHash <= |store| && store[m.ipfsHash - 1] == NodeBlock(m.dataKey, node)
    ensures node.next == r.files[m.fileName].meta.ipfsHash
    ensures m.fileName in r.orig && node.hash == HashOf(r.orig[m.fileName])
    ensures proposer in r.files[m.fileName].meta.writers.value && r.files[m.fileName].meta.writers.Some?
  {
    node := OpenNode(store, m.ipfsHash, m.dataKey).value;
  }

  /** So downloading it takes that one block, whatever the key of the next one is. */
  lemma MovedHeadIsOneStep(t: Tools, r: Replica, store: Store, m: FileMeta, proposer: Address, node: DiffNode)
    requires Acyclic(store) && MetaValid(r, store, m, proposer) && m.fileName in r.files
    requires m.ipfsHash != r.files[m.fileName].meta.ipfsHash && OpenNode(store, m.ipfsHash, m.dataKey) == Some(node)
    ensures m.fileName in r.orig
    ensures Downloaded(t, store, m, Lookup(r.orig, m.fileName)) == Some(t.PatchApply(node.diff, r.orig[m.fileName]))
  {
    var fitting := MovedHeadFitsText(r, store, m, proposer);
    var own := Lookup(r.orig, m.fileName);
    assert Walk(store, m.ipfsHash, m.dataKey, OwnHash(own)) == Some([node.diff]);
    assert [node.diff][..0] == [];
    assert t.PatchAll([node.diff], OwnText(own)) == t.PatchApply(node.diff, r.orig[m.fileName]);
  }

  /** An update leaves files without an entry in the change set alone. */
  lemma {:induction false} UpdateElsewhere(t: Tools, store: Store, r: Replica, metas: seq<FileMeta>, name: string)
    requires Acyclic(store) && LastFor(metas, name).None?
    ensures var r' := UpdateFiles(t, store, r, metas);
            && (name in r'.files <==> name in r.files) && (name in r.files ==> r'.files[name] == r.files[name])
            && Lookup(r'.orig, name) == Lookup(r.orig, name) && Lookup(r'.data, name) == Lookup(r.data, name)
  {
    if metas != [] {
      var before := metas[..|metas| - 1];
      UpdateElsewhere(t, store, r, before, name);
      UpdateOfOther(t, store, UpdateFiles(t, store, r, before), metas[|metas| - 1], name);
    }
  }

  lemma {:induction false} LastForIsOnly(metas: seq<FileMeta>, name: string)
    requires Distinct(metas)
    ensures metas != [] && metas[|metas| - 1].fileName == name ==> LastFor(metas[..|metas| - 1], name).None?
    ensures LastFor(metas, name).Some? ==> LastFor(metas, name).value in metas
    ensures LastFor(metas, name).None? ==> forall m | m in metas :: m.fileName != name
  {
    if metas != [] {
      var before, last := metas[..|metas| - 1], metas[|metas| - 1];
      LastForIsOnly(before, name);
      if last.fileName == name {
        forall m | m in before ensures m.fileName != name {
          var k :| 0 <= k < |before| && before[k] == m;
          assert metas[k].fileName != metas[|metas| - 1].fileName;
        }
        NoEntry(before, name);
      }
    }
  }

  lemma {:induction false} NoEntry(metas: seq<FileMeta>, name: string)
    requires forall m | m in metas :: m.fileName != name
    ensures LastFor(metas, name).None?
  {
    if metas != [] {
      NoEntry(metas[..|metas| - 1], name);
    }
  }

  /** What the entry of a validated change set does to a known file: with a new head, the text is patched by the one
      new block and the pending changes start anew; with the same head, texts and pending changes stay. */
  ghost predicate EntryApplied(t: Tools, store: Store, r: Replica, r': Replica, m: FileMeta)
    requires m.fileName in r.files
  {
    var name := m.fileName;
    && name in r'.files
    && if m.ipfsHash == r.files[name].meta.ipfsHash then
         && r'.files[name] == FileState(m, r.files[name].pending)
         && Lookup(r'.orig, name) == Lookup(r.orig, name) && Lookup(r'.data, name) == Lookup(r.data, name)
       else
         && r'.files[name] == FileState(m, m)
         && 1 <= m.ipfsHash <= |store| && store[m.ipfsHash - 1].NodeBlock? && name in r.orig
         && var text := t.PatchApply(store[m.ipfsHash - 1].node.diff, r.orig[name]);
            Lookup(r'.orig, name) == Some(text) && Lookup(r'.data, name) == Some(text)
  }

  lemma EntryApplies(t: Tools, store: Store, r: Replica, mid: Replica, m: FileMeta, proposer: Address)
    requires Acyclic(store) && MetaValid(r, store, m, proposer) && m.fileName in r.files && m.fileName in mid.files
    requires mid.files[m.fileName] == r.files[m.fileName]
    requires Lookup(mid.orig, m.fileName) == Lookup(r.orig, m.fileName)
    requires Lookup(mid.data, m.fileName) == Lookup(r.data, m.fileName)
    ensures EntryApplied(t, store, r, UpdateFile(t, store, mid, m), m)
  {
    if m.ipfsHash != r.files[m.fileName].meta.ipfsHash {
      var node := MovedHeadFitsText(r, store, m, proposer);
      MovedHeadIsOneStep(t, r, store, m, proposer, node);
    }
  }

  /** A validated change set with one entry a file does to every known file what its entry says. */
  lemma {:induction false} ChangeSetApplied(t: Tools, store: Store, r: Replica, metas: seq<FileMeta>,
                                            proposer: Address, name: string)
    requires Acyclic(store) && Distinct(metas) && MetasValid(r, store, metas, proposer) && name in r.files
    requires LastFor(metas, name).Some?
    ensures LastFor(metas, name).value.fileName == name
    ensures EntryApplied(t, store, r, UpdateFiles(t, store, r, metas), LastFor(metas, name).value)
  {
    var before, last := metas[..|metas| - 1], metas[|metas| - 1];
    var mid := UpdateFiles(t, store, r, before);
    LastForIsOnly(metas, name);
    assert MetaValid(r, store, last, proposer);
    if last.fileName == name {
      UpdateElsewhere(t, store, r, before, name);
      EntryApplies(t, store, r, mid, last, proposer);
    } else {
      ChangeSetApplied(t, store, r, before, proposer, name);
      EntryUndisturbed(t, store, r, mid, LastFor(before, name).value, last);
    }
  }

  lemma EntryUndisturbed(t: Tools, store: Store, r: Replica, mid: Replica, m: FileMeta, other: FileMeta)
    requires Acyclic(store) && m.fileName in r.files && EntryApplied(t, store, r, mid, m)
    requires other.fileName != m.fileName
    ensures EntryApplied(t, store, r, UpdateFile(t, store, mid, other), m)
  {
    UpdateOfOther(t, store, mid, other, m.fileName);
  }

  lemma UpdateOfOther(t: Tools, store: Store, r: Replica, other: FileMeta, name: string)
    requires Acyclic(store) && other.fileName != name
    ensures var r' := UpdateFile(t, store, r, other);
            && (name in r'.files <==> name in r.files) && (name in r.files ==> r'.files[name] == r.files[name])
            && Lookup(r'.orig, name) == Lookup(r.orig, name) && Lookup(r'.data, name) == Lookup(r.data, name)
  {
  }

  /** Validated change sets never leave a file without a write list. */
  lemma {:induction false} ListsStayPresent(t: Tools, r: Replica, changes: seq<Change>)
    requires forall c | c in changes :: Acyclic(c.store)
    requires forall n | n in r.files :: r.files[n].meta.writers.Some?
    ensures forall n | n in Accept(t, r, changes).files :: Accept(t, r, changes).files[n].meta.writers.Some?
  {
    if changes != [] {
      var before, last := changes[..|changes| - 1], changes[|changes| - 1];
      ListsStayPresent(t, r, before);
      if Valid(Accept(t, r, before), last) {
        UpdateKeepsLists(t, last.store, Accept(t, r, before), last.metas);
      }
    }
  }

  lemma {:induction false} UpdateKeepsLists(t: Tools, store: Store, r: Replica, metas: seq<FileMeta>)
    requires Acyclic(store) && (forall m | m in metas :: m.writers.Some?)
    requires forall n | n in r.files :: r.files[n].meta.writers.Some?
    ensures forall n | n in UpdateFiles(t, store, r, metas).files ::
              UpdateFiles(t, store, r, metas).files[n].meta.writers.Some?
  {
    if metas != [] {
      UpdateKeepsLists(t, store, r, metas[..|metas| - 1]);
      assert metas[|metas| - 1] in metas;
    }
  }

  /** A change set validates only if the key opens it. */
  lemma ValidNeedsKey(r: Replica, store: Store, cid: Cid, boxer: Key, proposer: Address)
    requires ChangeSetValid(r, store, cid, boxer, proposer)
    ensures HoldsChangeSet(store, cid, boxer)
  {
    assert store[cid - 1] == MetasBlock(boxer, OpenMetas(store, cid, boxer).value);
  }

  // ---- Write lists through a commit -------------------------------------------------------------

  /** The write list that a commit gives a file: the pending one, and for a new file the committer alone. */
  function ListFor(r: Replica, name: string): Option<seq<Address>> {
    if name in r.files then r.files[name].pending.writers else Some([r.user])
  }

  /** Every entry of a commit has that list, under a key of its own for the new block, and a new file has no
      head yet. */
  lemma CommitLists(t: Tools, r: Replica, store: Store, names: seq<string>, boxer: Key, i: nat)
    requires NoDup(names) && (forall n | n in names :: n in r.data) && i < |names|
    ensures var s := Commit(t, r, store, names, boxer);
            && i < |s.metas| && s.metas[i].writers == ListFor(r, names[i])
            && s.metas[i].dataKey == t.dataKey(names[i]) && names[i] in s.replica.files
            && s.replica.files[names[i]].pending == s.metas[i]
            && (names[i] !in r.files ==>
                  s.replica.files[names[i]].meta == FileMeta(names[i], NO_CID, t.metaKey(names[i]), Some([r.user])))
  {
    CommitStores(t, r, store, names);
    assert CommitFiles(t, r, store, names).metas[i] == PendingAt(t, r, store, names, i);
  }

  /** After a round, the file of every replica has the list that the committer's commit gave it, and nothing pending. */
  lemma RoundLists(s: Swarm, e: Event, g: Committed, k: nat, i: nat)
    requires AllInSync(s, g) && Legal(s, e) && e.Round? && k < |Step(s, e).replicas| && i < |e.names|
    ensures var r', name := Step(s, e).replicas[k], e.names[i];
            && name in r'.files && r'.files[name].meta.writers == ListFor(s.replicas[e.i], name)
            && r'.files[name].pending == r'.files[name].meta
    ensures Agree(s, e, g).metas.Keys == Agree(s, e, g).texts.Keys
    ensures e.names[i] in Agree(s, e, g).metas
            && Agree(s, e, g).metas[e.names[i]].writers == ListFor(s.replicas[e.i], e.names[i])
  {
    var r := s.replicas[e.i];
    var c := Commit(e.tools, r, s.store, e.names, e.boxer);
    CommitLists(e.tools, r, s.store, e.names, e.boxer, i);
    RoundInstalls(s, e, g, k, i);
    RoundAgrees(s, e, g, i);
  }

  lemma RoundAgrees(s: Swarm, e: Event, g: Committed, i: nat)
    requires AllInSync(s, g) && Legal(s, e) && e.Round? && i < |e.names|
    ensures var g', c := Agree(s, e, g), Commit(e.tools, s.replicas[e.i], s.store, e.names, e.boxer);
            && g'.metas.Keys == g'.texts.Keys && i < |c.metas|
            && e.names[i] in g'.metas && g'.metas[e.names[i]] == c.metas[i]
  {
    var r := s.replicas[e.i];
    var c := Commit(e.tools, r, s.store, e.names, e.boxer);
    CommitIsHonest(e.tools, r, s.store, e.names, e.boxer, g);
    AdvanceAllTexts(g, c.metas, r.data);
    assert c.metas[i] in c.metas;
  }

  /** Every replica installs the entries of a round as meta and as pending changes. */
  lemma RoundInstalls(s: Swarm, e: Event, g: Committed, k: nat, i: nat)
    requires AllInSync(s, g) && Legal(s, e) && e.Round? && k < |Step(s, e).replicas| && i < |e.names|
    ensures var r', c := Step(s, e).replicas[k], Commit(e.tools, s.replicas[e.i], s.store, e.names, e.boxer);
            i < |c.metas| && e.names[i] in r'.files && r'.files[e.names[i]] == FileState(c.metas[i], c.metas[i])
  {
    var r := s.replicas[e.i];
    var c := Commit(e.tools, r, s.store, e.names, e.boxer);
    CommitKeepsSync(e.tools, r, s.store, e.names, e.boxer, g);
    CommitIsHonest(e.tools, r, s.store, e.names, e.boxer, g);
    var keyed := s.replicas[e.i := c.replica][k].(boxer := e.boxer);
    forall n ensures FileInSync(keyed, g, |s.store|, n) {
      assert FileInSync(s.replicas[e.i := c.replica][k], g, |s.store|, n);
    }
    HonestEntryInstalls(e.tools, c.store, keyed, g, |s.store|, c.metas, r.data, i);
  }

  lemma HonestEntryInstalls(t: Tools, store: Store, r: Replica, g: Committed, bound: nat,
                            metas: seq<FileMeta>, texts: map<string, string>, i: nat)
    requires Acyclic(store) && i < |metas| && g.metas.Keys == g.texts.Keys && HonestSet(store, g, metas, texts)
    requires forall name {:trigger FileInSync(r, g, bound, name)} :: FileInSync(r, g, bound, name)
    ensures metas[i].fileName in UpdateFiles(t, store, r, metas).files
    ensures UpdateFiles(t, store, r, metas).files[metas[i].fileName] == FileState(metas[i], metas[i])
    decreases |metas|
  {
    var before, last := metas[..|metas| - 1], metas[|metas| - 1];
    var name := metas[i].fileName;
    assert metas[i] in metas && FileInSync(r, g, bound, name);
    if i == |metas| - 1 {
      NoEntry(before, name);
      UpdateElsewhere(t, store, r, before, name);
    } else {
      assert forall m | m in before :: m in metas;
      HonestEntryInstalls(t, store, r, g, bound, before, texts, i);
      assert last.fileName != name;
      UpdateOfOther(t, store, UpdateFiles(t, store, r, before), last, name);
    }
  }

  lemma {:induction false} UpdateKeepsData(t: Tools, store: Store, r: Replica, g: Committed, bound: nat,
                                           metas: seq<FileMeta>)
    requires Acyclic(store) && InSync(r, g, bound) && bound <= |store| && HonestSet(store, g, metas, r.data)
    ensures UpdateFiles(t, store, r, metas).data == r.data
  {
    if metas != [] {
      var before, last := metas[..|metas| - 1], metas[|metas| - 1];
      assert forall m | m in before :: m in metas;
      UpdateKeepsData(t, store, r, g, bound, before);
      UpdateFilesInSync(t, store, r, g, bound, before, r.data);
      HonestAfter(store, g, metas, r.data);
      OwnTextStays(t, store, UpdateFiles(t, store, r, before), AdvanceAll(g, before, r.data), last);
    }
  }

  /** An honest entry for the text that the data directory has leaves the directory as it is. */
  lemma OwnTextStays(t: Tools, store: Store, r: Replica, g: Committed, m: FileMeta)
    requires Acyclic(store) && InSync(r, g, |store|) && m.fileName in r.data && Honest(store, g, m, r.data[m.fileName])
    ensures UpdateFile(t, store, r, m).data == r.data
  {
    UpdateFileInSync(t, store, r, g, |store|, m, r.data[m.fileName]);
    assert r.data[m.fileName := r.data[m.fileName]] == r.data;
  }

  /** The last entry of an honest change set is honest after the others. */
  lemma HonestAfter(store: Store, g: Committed, metas: seq<FileMeta>, texts: map<string, string>)
    requires g.metas.Keys == g.texts.Keys && HonestSet(store, g, metas, texts) && metas != []
    ensures var before, last := metas[..|metas| - 1], metas[|metas| - 1];
            && (forall m | m in before :: m.fileName in texts) && last.fileName in texts
            && AdvanceAll(g, before, texts).metas.Keys == AdvanceAll(g, before, texts).texts.Keys
            && Honest(store, AdvanceAll(g, before, texts), last, texts[last.fileName])
  {
    var before, last := metas[..|metas| - 1], metas[|metas| - 1];
    assert forall m | m in before :: m in metas;
    AdvanceAllElsewhere(g, before, texts, last.fileName);
    assert last in metas && Honest(store, g, last, texts[last.fileName]);
  }

  /** A round leaves the committer's own data directory as it is. */
  lemma CommitterKeepsData(s: Swarm, e: Event, g: Committed)
    requires AllInSync(s, g) && Legal(s, e) && e.Round?
    ensures |Step(s, e).replicas| == |s.replicas| && Step(s, e).replicas[e.i].data == s.replicas[e.i].data
  {
    var r := s.replicas[e.i];
    var c := Commit(e.tools, r, s.store, e.names, e.boxer);
    CommitKeepsSync(e.tools, r, s.store, e.names, e.boxer, g);
    CommitIsHonest(e.tools, r, s.store, e.names, e.boxer, g);
    var keyed := c.replica.(boxer := e.boxer);
    forall n ensures FileInSync(keyed, g, |s.store|, n) {
      assert FileInSync(c.replica, g, |s.store|, n);
    }
    UpdateKeepsData(e.tools, c.store, keyed, g, |s.store|, c.metas);
  }

  /** After its round, a committer that could write every known file in its directory can commit the directory again:
      the next commit validates at every replica. */
  lemma CommitterCommitsAgain(s: Swarm, e: Event, g: Committed, k: nat, names: seq<string>, boxer: Key, t: Tools)
    requires AllInSync(s, g) && Legal(s, e) && e.Round? && k < |s.replicas| && t.Correct()
    requires var r := s.replicas[e.i];
             Lists(names, r.data) && forall f | f in r.data && f in r.files :: CanWrite(r.files[f].pending, r.user)
    ensures |Step(s, e).replicas| == |s.replicas| && Step(s, e).replicas[e.i].data == s.replicas[e.i].data
    ensures var s' := Step(s, e);
            var c := Commit(t, s'.replicas[e.i], s'.store, names, boxer);
            ChangeSetValid(s'.replicas[k], c.store, |c.store|, boxer, s.replicas[e.i].user)
  {
    CommitterKeepsData(s, e, g);
    var s', g', r := Step(s, e), Agree(s, e, g), s.replicas[e.i];
    RoundInSync(s, e, g);
    forall f | f in r.data ensures f in g'.metas && CanWrite(g'.metas[f], r.user) {
      assert f in e.names;
      var i :| 0 <= i < |e.names| && e.names[i] == f;
      RoundLists(s, e, g, k, i);
    }
    ValidationExact(t, s'.replicas[k], s'.replicas[e.i], s'.store, names, boxer, g', r.user);
  }

  // ---- Replicas that missed a block -------------------------------------------------------------

  /** A committed block names its own key as the key of the block before it. A replica that does not have the text
      of that block downloads nothing unless the two blocks happen to share the key. */
  lemma MissedBlockStops(t: Tools, r: Replica, store: Store, names: seq<string>, boxer: Key, i: nat,
                         t': Tools, orig: Option<string>)
    requires NoDup(names) && (forall n | n in names :: n in r.data) && i < |names|
    requires Acyclic(Commit(t, r, store, names, boxer).store)
    requires OwnHash(orig) != OwnHash(Lookup(r.orig, names[i])) && names[i] in r.files
    requires var head := r.files[names[i]].meta.ipfsHash;
             1 <= head <= |store| && (store[head - 1].NodeBlock? ==> store[head - 1].key != t.dataKey(names[i]))
    ensures var s := Commit(t, r, store, names, boxer);
            i < |s.metas| && Downloaded(t', s.store, s.metas[i], orig).None?
  {
    var n, whole := names[i], Commit(t, r, store, names, boxer).store;
    CommittedNode(t, r, store, names, boxer, i);
    var cid, node := Commit(t, r, store, names, boxer).metas[i].ipfsHash, NodeFor(t, r, n, r.data[n]);
    assert OpenNode(whole, node.next, node.nextBoxer).None?;
    WalkStops(whole, cid, t.dataKey(n), OwnHash(orig), node);
  }

  /** The block that a commit makes for a file is the one its entry opens; blocks that were there stay. */
  lemma CommittedNode(t: Tools, r: Replica, store: Store, names: seq<string>, boxer: Key, i: nat)
    requires NoDup(names) && (forall n | n in names :: n in r.data) && i < |names|
    ensures var s := Commit(t, r, store, names, boxer);
            && store <= s.store && i < |s.metas| && s.metas[i].dataKey == t.dataKey(names[i])
            && OpenNode(s.store, s.metas[i].ipfsHash, t.dataKey(names[i]))
               == Some(NodeFor(t, r, names[i], r.data[names[i]]))
  {
    CommitStores(t, r, store, names);
    var s := CommitFiles(t, r, store, names);
    assert s.metas[i] == PendingAt(t, r, store, names, i);
    assert s.store[|store| + i] == NodeBlock(t.dataKey(names[i]), NodeFor(t, r, names[i], r.data[names[i]]));
  }

  lemma WalkStops(store: Store, cid: Cid, key: Key, own: Hash, node: DiffNode)
    requires Acyclic(store) && OpenNode(store, cid, key) == Some(node)
    requires node.next != NO_CID && node.hash != own && OpenNode(store, node.next, node.nextBoxer).None?
    ensures Walk(store, cid, key, own).None?
  {
  }
}
