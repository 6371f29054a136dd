/** What the diff chain and the rounds of commits guarantee. */
module Replication {
  import opened Prelude
  import opened Repo

  // ---- Rebuilding a file from its chain of diffs ------------------------------------------------

  /** `versions[0]` is the empty text, and for `j >= 1` block `cids[j]` under `keys[j]` holds the step from
      version `j - 1` to version `j`: its diff, the hash of version `j - 1`, and the name and key of block `j - 1`. */
  ghost predicate IsChain(store: Store, versions: seq<string>, cids: seq<Cid>, keys: seq<Key>) {
    && |versions| == |cids| == |keys| >= 2
    && versions[0] == "" && cids[0] == NO_CID
    && forall j | 1 <= j < |versions| :: IsLink(store, versions, cids, keys, j)
  }

  ghost predicate IsLink(store: Store, versions: seq<string>, cids: seq<Cid>, keys: seq<Key>, j: nat)
    requires |versions| == |cids| == |keys| && 1 <= j < |versions|
  {
    match OpenNode(store, cids[j], keys[j])
    case None => false
    case Some(node) =>
      && node.next == cids[j - 1]
      && node.hash == (if j == 1 then NoHash else HashOf(versions[j - 1]))
      && (j > 1 ==> node.nextBoxer == keys[j - 1])
      && Patch(node.diff, versions[j - 1]) == Some(versions[j])
  }

  /** The replica has nothing yet, an empty file, or one of the earlier versions. */
  ghost predicate OnChain(versions: seq<string>, n: nat, orig: Option<string>)
    requires n < |versions|
  {
    OwnText(orig) == "" || exists k :: 1 <= k < n && versions[k] == OwnText(orig)
  }

  lemma {:induction false} WalkRebuilds(t: Tools, store: Store, versions: seq<string>, cids: seq<Cid>, keys: seq<Key>,
                                        n: nat, orig: Option<string>)
    requires Acyclic(store) && IsChain(store, versions, cids, keys) && 1 <= n < |versions| && OnChain(versions, n, orig)
    ensures var scripts := Walk(store, cids[n], keys[n], OwnHash(orig));
            scripts.Some? && t.PatchAll(scripts.value, OwnText(orig)) == versions[n]
  {
    assert IsLink(store, versions, cids, keys, n);
    var node := OpenNode(store, cids[n], keys[n]).value;
    assert [node.diff][..0] == [];
    if n > 1 {
      assert IsLink(store, versions, cids, keys, n - 1);
      if node.hash != OwnHash(orig) {
        WalkRebuilds(t, store, versions, cids, keys, n - 1, orig);
        var scripts := Walk(store, cids[n - 1], keys[n - 1], OwnHash(orig)).value;
        assert (scripts + [node.diff])[..|scripts|] == scripts;
      }
    }
  }

  /** `Download` rebuilds the newest version from the whole chain, from an empty file, or from whatever
      earlier version the replica has, repeated contents included. */
  lemma ChainReconstruction(t: Tools, store: Store, versions: seq<string>, cids: seq<Cid>, keys: seq<Key>,
                            meta: FileMeta, r: Replica)
    requires Acyclic(store) && IsChain(store, versions, cids, keys)
    requires meta.ipfsHash == cids[|cids| - 1] && meta.dataKey == keys[|keys| - 1]
    requires OnChain(versions, |versions| - 1, Lookup(r.orig, meta.fileName))
    ensures var newest := versions[|versions| - 1];
            Download(t, store, r, meta)
            == r.(orig := r.orig[meta.fileName := newest], data := r.data[meta.fileName := newest])
  {
    WalkRebuilds(t, store, versions, cids, keys, |versions| - 1, Lookup(r.orig, meta.fileName));
  }

  // ---- Replicas in sync -------------------------------------------------------------------------

  /** The committed state that in-sync replicas share: the meta and the text of every committed file. */
  datatype Committed = Committed(metas: map<string, FileMeta>, texts: map<string, string>)

  ghost predicate FileInSync(r: Replica, g: Committed, bound: nat, name: string)
    requires g.metas.Keys == g.texts.Keys
  {
    if name in g.metas then
      && name in r.files && r.files[name].meta == g.metas[name]
      && name in r.orig && r.orig[name] == g.texts[name]
      && 1 <= g.metas[name].ipfsHash <= bound
    else
      name !in r.orig && (name in r.files ==> r.files[name].meta.ipfsHash == NO_CID)
  }

  ghost predicate FileWellNamed(f: FileState, name: string) {
    && f.meta.fileName == name && f.meta.writers.Some?
    && f.pending.fileName == name && f.pending.writers.Some?
  }

  /** The replica agrees with `g`; its other files are local only. Blocks it knows of are among the first `bound`. */
  ghost predicate InSync(r: Replica, g: Committed, bound: nat) {
    && g.metas.Keys == g.texts.Keys
    && r.ipfsHash <= bound
    && (forall name {:trigger FileInSync(r, g, bound, name)} :: FileInSync(r, g, bound, name))
    && (forall name | name in r.files :: FileWellNamed(r.files[name], name))
  }

  /** `meta` is an honest next version of its file, taking the committed text to `text`. */
  ghost predicate Honest(store: Store, g: Committed, meta: FileMeta, text: string)
    requires g.metas.Keys == g.texts.Keys
  {
    && meta.writers.Some? && meta.ipfsHash != NO_CID
    && match OpenNode(store, meta.ipfsHash, meta.dataKey)
       case None => false
       case Some(node) =>
         if meta.fileName in g.metas then
           && node.next == g.metas[meta.fileName].ipfsHash != meta.ipfsHash
           && node.hash == HashOf(g.texts[meta.fileName])
           && Patch(node.diff, g.texts[meta.fileName]) == Some(text)
         else node.next == NO_CID && node.hash == NoHash && Patch(node.diff, "") == Some(text)
  }

  function Advance(g: Committed, meta: FileMeta, text: string): Committed {
    Committed(g.metas[meta.fileName := meta], g.texts[meta.fileName := text])
  }

  /** One file of an honest commit brings an in-sync replica to the next committed state, whatever local file
      of the same name it had. */
  lemma UpdateFileInSync(t: Tools, store: Store, r: Replica, g: Committed, bound: nat, meta: FileMeta, text: string)
    requires Acyclic(store) && InSync(r, g, bound) && bound <= |store| && Honest(store, g, meta, text)
    ensures var r' := UpdateFile(t, store, r, meta);
            && InSync(r', Advance(g, meta, text), |store|)
            && r'.data == r.data[meta.fileName := text]
            && r'.boxer == r.boxer && r'.user == r.user
  {
    var name, r' := meta.fileName, UpdateFile(t, store, r, meta);
    var g' := Advance(g, meta, text);
    assert FileInSync(r, g, bound, name);
    var node := OpenNode(store, meta.ipfsHash, meta.dataKey).value;
    assert [node.diff][..0] == [];
    assert t.PatchAll([node.diff], OwnText(Lookup(r.orig, name))) == text;
    assert r'.orig == r.orig[name := text];
    forall n ensures FileInSync(r', g', |store|, n) {
      assert FileInSync(r, g, bound, n);
    }
  }

  ghost predicate Distinct(metas: seq<FileMeta>) {
    forall i, j | 0 <= i < j < |metas| :: metas[i].fileName != metas[j].fileName
  }

  ghost function AdvanceAll(g: Committed, metas: seq<FileMeta>, texts: map<string, string>): Committed
    requires forall m | m in metas :: m.fileName in texts
  {
    if metas == [] then g
    else
      var last := metas[|metas| - 1];
      Advance(AdvanceAll(g, metas[..|metas| - 1], texts), last, texts[last.fileName])
  }

  /** `metas` is an honest change set for the texts of a data directory. */
  ghost predicate HonestSet(store: Store, g: Committed, metas: seq<FileMeta>, texts: map<string, string>)
    requires g.metas.Keys == g.texts.Keys
  {
    Distinct(metas) && forall m | m in metas :: m.fileName in texts && Honest(store, g, m, texts[m.fileName])
  }

  lemma {:induction false} AdvanceAllElsewhere(g: Committed, metas: seq<FileMeta>, texts: map<string, string>,
                                               name: string)
    requires forall m | m in metas :: m.fileName in texts && m.fileName != name
    requires g.metas.Keys == g.texts.Keys
    ensures var g' := AdvanceAll(g, metas, texts);
            && g'.metas.Keys == g'.texts.Keys
            && (name in g'.metas <==> name in g.metas)
            && (name in g.metas ==> g'.metas[name] == g.metas[name] && g'.texts[name] == g.texts[name])
  {
    if metas != [] {
      AdvanceAllElsewhere(g, metas[..|metas| - 1], texts, name);
    }
  }

  lemma {:induction false} UpdateFilesFrame(t: Tools, store: Store, r: Replica, metas: seq<FileMeta>)
    requires Acyclic(store)
    ensures var r' := UpdateFiles(t, store, r, metas);
            r'.ipfsHash == r.ipfsHash && r'.boxer == r.boxer && r'.user == r.user
  {
    if metas != [] {
      UpdateFilesFrame(t, store, r, metas[..|metas| - 1]);
    }
  }

  lemma {:induction false} UpdateFilesInSync(t: Tools, store: Store, r: Replica, g: Committed, bound: nat,
                                             metas: seq<FileMeta>, texts: map<string, string>)
    requires Acyclic(store) && InSync(r, g, bound) && bound <= |store| && HonestSet(store, g, metas, texts)
    ensures InSync(UpdateFiles(t, store, r, metas), AdvanceAll(g, metas, texts), |store|)
  {
    if metas == [] {
      WiderBound(r, g, bound, |store|);
    } else {
      var before, last := metas[..|metas| - 1], metas[|metas| - 1];
      assert forall m | m in before :: m in metas;
      UpdateFilesInSync(t, store, r, g, bound, before, texts);
      AdvanceAllElsewhere(g, before, texts, last.fileName);
      assert last in metas && Honest(store, g, last, texts[last.fileName]);
      UpdateFileInSync(t, store, UpdateFiles(t, store, r, before), AdvanceAll(g, before, texts), |store|,
                       last, texts[last.fileName]);
    }
  }

  lemma WiderBound(r: Replica, g: Committed, bound: nat, wider: nat)
    requires InSync(r, g, bound) && bound <= wider
    ensures InSync(r, g, wider)
  {
    forall n ensures FileInSync(r, g, wider, n) {
      assert FileInSync(r, g, bound, n);
    }
  }

  // ---- What a commit stores ---------------------------------------------------------------------

  ghost predicate Lists(names: seq<string>, data: map<string, string>) {
    NoDup(names) && forall n :: n in names <==> n in data
  }

  /** The pending changes that committing the `i`-th listed file leaves. */
  ghost function PendingAt(t: Tools, r: Replica, store: Store, names: seq<string>, i: nat): FileMeta
    requires i < |names|
  {
    KnownFile(t, r, names[i]).pending.(dataKey := t.dataKey(names[i]), ipfsHash := |store| + i + 1)
  }

  ghost predicate CommittedBlocks(t: Tools, r: Replica, store: Store, names: seq<string>, s: CommitState) {
    && |s.metas| == |names| && |s.store| == |store| + |names| && store <= s.store
    && (forall i | 0 <= i < |names| :: s.metas[i] == PendingAt(t, r, store, names, i))
    && (forall i | 0 <= i < |names| :: names[i] in r.data
          && s.store[|store| + i] == NodeBlock(t.dataKey(names[i]), NodeFor(t, r, names[i], r.data[names[i]])))
  }

  ghost predicate CommittedFiles(t: Tools, r: Replica, store: Store, names: seq<string>, s: CommitState) {
    && CommittedBlocks(t, r, store, names, s)
    && (forall n | n in s.replica.files :: n in r.files || n in names)
    && (forall n | n in r.files && n !in names :: n in s.replica.files && s.replica.files[n] == r.files[n])
    && (forall i | 0 <= i < |names| :: names[i] in s.replica.files
          && s.replica.files[names[i]] == KnownFile(t, r, names[i]).(pending := PendingAt(t, r, store, names, i)))
    && s.replica == r.(files := s.replica.files)
  }

  lemma CommitFileBlocks(t: Tools, r: Replica, store: Store, before: seq<string>, last: string, s: CommitState)
    requires last !in before && s.replica.data == r.data && last in r.data
    requires CommittedFiles(t, r, store, before, s)
    ensures KnownFile(t, s.replica, last) == KnownFile(t, r, last)
    ensures CommittedBlocks(t, r, store, before + [last], CommitFile(t, s, last))
  {
  }

  lemma CommitFileStores(t: Tools, r: Replica, store: Store, before: seq<string>, last: string, s: CommitState)
    requires last !in before && s.replica.data == r.data && last in r.data
    requires CommittedFiles(t, r, store, before, s)
    ensures CommittedFiles(t, r, store, before + [last], CommitFile(t, s, last))
  {
    CommitFileBlocks(t, r, store, before, last, s);
  }

  /** A commit adds one block a file, built from the committed head and the orig text alone, and changes
      nothing in the replica but pending changes and newly found local files. */
  lemma {:induction false} CommitStores(t: Tools, r: Replica, store: Store, names: seq<string>)
    requires NoDup(names) && forall n | n in names :: n in r.data
    ensures CommittedFiles(t, r, store, names, CommitFiles(t, r, store, names))
  {
    if names != [] {
      var before, last := names[..|names| - 1], names[|names| - 1];
      CommitStores(t, r, store, before);
      assert names == before + [last];
      CommitFileStores(t, r, store, before, last, CommitFiles(t, r, store, before));
    }
  }

  /** One commit that is never followed by an update. */
  datatype Attempt = Attempt(tools: Tools, names: seq<string>, boxer: Key)

  ghost predicate Listed(attempts: seq<Attempt>, data: map<string, string>) {
    forall a | a in attempts :: NoDup(a.names) && forall n | n in a.names :: n in data
  }

  ghost function AfterAttempts(r: Replica, store: Store, attempts: seq<Attempt>): (s: CommitState)
    requires Listed(attempts, r.data)
    ensures s.replica.data == r.data && s.replica.orig == r.orig
  {
    if attempts == [] then CommitState(r, store, [])
    else
      var before := AfterAttempts(r, store, attempts[..|attempts| - 1]);
      var last := attempts[|attempts| - 1];
      Commit(last.tools, before.replica, before.store, last.names, last.boxer)
  }

  /** Any number of commits that are not followed by an update leave every known file's meta as it was, and the
      next commit builds the very same node for every file as if they had not happened. */
  lemma {:induction false} FailedCommitsLeaveNoTrace(r: Replica, store: Store, attempts: seq<Attempt>,
                                                     t: Tools, name: string, text: string)
    requires Listed(attempts, r.data)
    ensures var r' := AfterAttempts(r, store, attempts).replica;
            && (name in r.files ==> name in r'.files && r'.files[name].meta == r.files[name].meta)
            && NodeFor(t, r', name, text) == NodeFor(t, r, name, text)
    ensures store <= AfterAttempts(r, store, attempts).store
  {
    if attempts != [] {
      var before, last := attempts[..|attempts| - 1], attempts[|attempts| - 1];
      assert last in attempts && forall a | a in before :: a in attempts;
      FailedCommitsLeaveNoTrace(r, store, before, t, name, text);
      var earlier := AfterAttempts(r, store, before);
      OneCommitLeavesNoTrace(earlier.replica, earlier.store, last, t, name, text);
    }
  }

  lemma OneCommitLeavesNoTrace(r: Replica, store: Store, a: Attempt, t: Tools, name: string, text: string)
    requires NoDup(a.names) && forall n | n in a.names :: n in r.data
    ensures var r' := Commit(a.tools, r, store, a.names, a.boxer).replica;
            && (name in r.files ==> name in r'.files && r'.files[name].meta == r.files[name].meta)
            && NodeFor(t, r', name, text) == NodeFor(t, r, name, text)
    ensures store <= Commit(a.tools, r, store, a.names, a.boxer).store
  {
    CommitStores(a.tools, r, store, a.names);
    var s := CommitFiles(a.tools, r, store, a.names);
    if name in a.names {
      var i :| 0 <= i < |a.names| && a.names[i] == name;
      assert s.replica.files[a.names[i]]
             == KnownFile(a.tools, r, name).(pending := PendingAt(a.tools, r, store, a.names, i));
    }
  }

  /** The committing replica stays in sync with the old committed state: a commit that is not followed by an
      update leaves no trace in what is committed. */
  lemma CommitKeepsSync(t: Tools, r: Replica, store: Store, names: seq<string>, boxer: Key, g: Committed)
    requires InSync(r, g, |store|) && Acyclic(store) && NoDup(names) && forall n | n in names :: n in r.data
    ensures InSync(Commit(t, r, store, names, boxer).replica, g, |store|)
    ensures Acyclic(Commit(t, r, store, names, boxer).store)
  {
    CommitStores(t, r, store, names);
    var s := CommitFiles(t, r, store, names);
    forall n ensures FileInSync(s.replica, g, |store|, n) &&
                     (n in s.replica.files ==> FileWellNamed(s.replica.files[n], n)) {
      CommittedFile(t, r, store, names, s, n);
      assert FileInSync(r, g, |store|, n);
    }
    CommitAcyclic(t, r, store, names, g, s, boxer);
  }

  /** A commit leaves a file as it was known, but for its pending changes. */
  lemma CommittedFile(t: Tools, r: Replica, store: Store, names: seq<string>, s: CommitState, n: string)
    requires CommittedFiles(t, r, store, names, s)
    ensures n in s.replica.files ==>
              var known := KnownFile(t, r, n);
              s.replica.files[n] == known.(pending := s.replica.files[n].pending)
              && s.replica.files[n].pending.fileName == known.pending.fileName
              && s.replica.files[n].pending.writers == known.pending.writers
    ensures n in r.files ==> n in s.replica.files
  {
    if n in names {
      var i :| 0 <= i < |names| && names[i] == n;
      assert s.replica.files[names[i]] == KnownFile(t, r, n).(pending := PendingAt(t, r, store, names, i));
    }
  }

  lemma CommitAcyclic(t: Tools, r: Replica, store: Store, names: seq<string>, g: Committed, s: CommitState, boxer: Key)
    requires InSync(r, g, |store|) && Acyclic(store) && CommittedBlocks(t, r, store, names, s)
    ensures Acyclic(s.store + [MetasBlock(boxer, s.metas)])
  {
    forall k | 0 <= k < |s.store| && s.store[k].NodeBlock? ensures s.store[k].node.next <= k {
      if k < |store| {
        assert s.store[k] == store[k];
      } else {
        var n := names[k - |store|];
        assert s.store[|store| + (k - |store|)] == NodeBlock(t.dataKey(n), NodeFor(t, r, n, r.data[n]));
        assert FileInSync(r, g, |store|, n);
      }
    }
  }

  /** What an in-sync replica commits is an honest change set for its data directory. */
  lemma CommitIsHonest(t: Tools, r: Replica, store: Store, names: seq<string>, boxer: Key, g: Committed)
    requires InSync(r, g, |store|) && t.Correct() && Lists(names, r.data)
    ensures var s := Commit(t, r, store, names, boxer);
            && OpenMetas(s.store, |s.store|, boxer) == Some(s.metas)
            && |s.store| == |store| + |names| + 1
            && HonestSet(s.store, g, s.metas, r.data)
            && |s.metas| == |names| && (forall i | 0 <= i < |names| :: s.metas[i].fileName == names[i])
  {
    CommitStores(t, r, store, names);
    var s, s' := CommitFiles(t, r, store, names), Commit(t, r, store, names, boxer);
    forall i | 0 <= i < |names|
      ensures s.metas[i].fileName == names[i] && names[i] in r.data
              && Honest(s'.store, g, s.metas[i], r.data[names[i]])
    {
      HonestAt(t, r, store, names, g, s, s'.store, i);
    }
    HonestByIndex(s'.store, g, s.metas, names, r.data);
  }

  lemma HonestByIndex(store: Store, g: Committed, metas: seq<FileMeta>, names: seq<string>, texts: map<string, string>)
    requires g.metas.Keys == g.texts.Keys && |metas| == |names| && NoDup(names)
    requires forall i | 0 <= i < |names| ::
               metas[i].fileName == names[i] && names[i] in texts && Honest(store, g, metas[i], texts[names[i]])
    ensures HonestSet(store, g, metas, texts)
  {
    forall m | m in metas ensures m.fileName in texts && Honest(store, g, m, texts[m.fileName]) {
      var i :| 0 <= i < |metas| && metas[i] == m;
      assert metas[i].fileName == names[i];
    }
    forall i, j | 0 <= i < j < |metas| ensures metas[i].fileName != metas[j].fileName {
      assert metas[i].fileName == names[i] && metas[j].fileName == names[j];
    }
  }

  lemma HonestAt(t: Tools, r: Replica, store: Store, names: seq<string>, g: Committed, s: CommitState,
                 store': Store, i: nat)
    requires InSync(r, g, |store|) && t.Correct() && CommittedFiles(t, r, store, names, s) && i < |names|
    requires s.store <= store'
    ensures s.metas[i].fileName == names[i] && Honest(store', g, s.metas[i], r.data[names[i]])
  {
    var n := names[i];
    assert FileInSync(r, g, |store|, n);
    assert s.metas[i] == PendingAt(t, r, store, names, i);
    assert store'[|store| + i] == s.store[|store| + i];
    assert OpenNode(store', s.metas[i].ipfsHash, s.metas[i].dataKey) == Some(NodeFor(t, r, n, r.data[n]));
  }

  // ---- Rounds -----------------------------------------------------------------------------------

  datatype Swarm = Swarm(replicas: seq<Replica>, store: Store)

  /** Members edit and delete local files, change pending write lists, commit without success, or make a round:
      member `i` commits its data directory under `boxer`, and every member updates to that commit. */
  datatype Event =
    | Edit(i: nat, name: string, text: string)
    | Remove(i: nat, name: string)
    | SetWriters(i: nat, name: string, writers: seq<Address>)
    | FailedCommit(i: nat, names: seq<string>, boxer: Key, tools: Tools)
    | Round(i: nat, names: seq<string>, boxer: Key, tools: Tools)

  ghost predicate Legal(s: Swarm, e: Event) {
    e.i < |s.replicas|
    && (e.SetWriters? ==> e.name in s.replicas[e.i].files)
    && (e.FailedCommit? || e.Round? ==> Lists(e.names, s.replicas[e.i].data) && e.tools.Correct())
  }

  /** The member receives the round's key and updates. */
  ghost function Receive(t: Tools, store: Store, r: Replica, boxer: Key): Replica
    requires Acyclic(store)
  {
    var keyed := r.(boxer := boxer);
    match Update(t, store, keyed, |store|)
    case Some(r') => r'
    case None => keyed
  }

  ghost function Step(s: Swarm, e: Event): Swarm
    requires Legal(s, e)
  {
    var r := s.replicas[e.i];
    match e
    case Edit(i, name, text) => s.(replicas := s.replicas[i := r.(data := r.data[name := text])])
    case Remove(i, name) => s.(replicas := s.replicas[i := r.(data := r.data - {name})])
    case SetWriters(i, name, writers) =>
      var f := r.files[name];
      s.(replicas := s.replicas[i := r.(files := r.files[name := f.(pending := f.pending.(writers := Some(writers)))])])
    case FailedCommit(i, names, boxer, t) =>
      var c := Commit(t, r, s.store, names, boxer);
      Swarm(s.replicas[i := c.replica], c.store)
    case Round(i, names, boxer, t) =>
      var c := Commit(t, r, s.store, names, boxer);
      if Acyclic(c.store) then
        var holding := s.replicas[i := c.replica];
        Swarm(seq(|holding|, k requires 0 <= k < |holding| => Receive(t, c.store, holding[k], boxer)), c.store)
      else s
  }

  /** The committed state after an event: a round moves every file of the committer's data directory. */
  ghost function Agree(s: Swarm, e: Event, g: Committed): Committed
    requires Legal(s, e)
  {
    if e.Round? then
      var r := s.replicas[e.i];
      var metas := Commit(e.tools, r, s.store, e.names, e.boxer).metas;
      if forall m | m in metas :: m.fileName in r.data then AdvanceAll(g, metas, r.data) else g
    else g
  }

  ghost predicate AllInSync(s: Swarm, g: Committed) {
    Acyclic(s.store) && forall k | 0 <= k < |s.replicas| :: InSync(s.replicas[k], g, |s.store|)
  }

  lemma LocalStepInSync(s: Swarm, e: Event, g: Committed)
    requires AllInSync(s, g) && Legal(s, e) && (e.Edit? || e.Remove? || e.SetWriters?)
    ensures AllInSync(Step(s, e), g)
  {
    var r, r' := s.replicas[e.i], Step(s, e).replicas[e.i];
    forall n ensures FileInSync(r', g, |s.store|, n) {
      assert FileInSync(r, g, |s.store|, n);
    }
  }

  lemma FailedStepInSync(s: Swarm, e: Event, g: Committed)
    requires AllInSync(s, g) && Legal(s, e) && e.FailedCommit?
    ensures AllInSync(Step(s, e), g)
  {
    var r, s' := s.replicas[e.i], Step(s, e);
    CommitStores(e.tools, r, s.store, e.names);
    CommitKeepsSync(e.tools, r, s.store, e.names, e.boxer, g);
    forall k | 0 <= k < |s'.replicas| ensures InSync(s'.replicas[k], g, |s'.store|) {
      WiderBound(s'.replicas[k], g, |s.store|, |s'.store|);
    }
  }

  lemma RoundInSync(s: Swarm, e: Event, g: Committed)
    requires AllInSync(s, g) && Legal(s, e) && e.Round?
    ensures AllInSync(Step(s, e), Agree(s, e, g))
  {
    var r := s.replicas[e.i];
    var c := Commit(e.tools, r, s.store, e.names, e.boxer);
    CommitKeepsSync(e.tools, r, s.store, e.names, e.boxer, g);
    CommitIsHonest(e.tools, r, s.store, e.names, e.boxer, g);
    AllReceive(s.replicas[e.i := c.replica], e.tools, c.store, e.boxer, g, |s.store|, c.metas, r.data);
  }

  lemma AllReceive(replicas: seq<Replica>, t: Tools, store: Store, boxer: Key, g: Committed, bound: nat,
                   metas: seq<FileMeta>, texts: map<string, string>)
    requires Acyclic(store) && bound < |store| && OpenMetas(store, |store|, boxer) == Some(metas)
    requires g.metas.Keys == g.texts.Keys && HonestSet(store, g, metas, texts)
    requires forall k | 0 <= k < |replicas| :: InSync(replicas[k], g, bound)
    ensures forall k | 0 <= k < |replicas| ::
              InSync(Receive(t, store, replicas[k], boxer), AdvanceAll(g, metas, texts), |store|)
  {
    forall k | 0 <= k < |replicas|
      ensures InSync(Receive(t, store, replicas[k], boxer), AdvanceAll(g, metas, texts), |store|)
    {
      ReceiveInSync(t, store, replicas[k], boxer, g, bound, metas, texts);
    }
  }

  lemma ReceiveInSync(t: Tools, store: Store, r: Replica, boxer: Key, g: Committed, bound: nat,
                      metas: seq<FileMeta>, texts: map<string, string>)
    requires Acyclic(store) && InSync(r, g, bound) && bound < |store|
    requires OpenMetas(store, |store|, boxer) == Some(metas) && HonestSet(store, g, metas, texts)
    ensures InSync(Receive(t, store, r, boxer), AdvanceAll(g, metas, texts), |store|)
  {
    var keyed := r.(boxer := boxer);
    forall n ensures FileInSync(keyed, g, bound, n) {
      assert FileInSync(r, g, bound, n);
    }
    UpdateFilesInSync(t, store, keyed, g, bound, metas, texts);
    UpdateFilesFrame(t, store, keyed, metas);
    var updated, g' := UpdateFiles(t, store, keyed, metas), AdvanceAll(g, metas, texts);
    forall n ensures FileInSync(updated.(ipfsHash := |store|), g', |store|, n) {
      assert FileInSync(updated, g', |store|, n);
    }
  }

  ghost function After(s: Swarm, events: seq<Event>): Swarm {
    if events == [] then s
    else
      var before := After(s, events[..|events| - 1]);
      if Legal(before, events[|events| - 1]) then Step(before, events[|events| - 1]) else before
  }

  /** The committed state that a run leads to, read off its rounds alone. */
  ghost function Agreed(s: Swarm, events: seq<Event>, g: Committed): Committed {
    if events == [] then g
    else
      var before := After(s, events[..|events| - 1]);
      var agreed := Agreed(s, events[..|events| - 1], g);
      if Legal(before, events[|events| - 1]) then Agree(before, events[|events| - 1], agreed) else agreed
  }

  /** Started in sync, all replicas agree after any run on the meta and the orig text of every committed file. */
  lemma {:induction false} Convergence(s: Swarm, events: seq<Event>, g: Committed)
    requires AllInSync(s, g)
    ensures AllInSync(After(s, events), Agreed(s, events, g))
  {
    if events != [] {
      var before, e := events[..|events| - 1], events[|events| - 1];
      Convergence(s, before, g);
      var mid, agreed := After(s, before), Agreed(s, before, g);
      if Legal(mid, e) {
        if e.Round? {
          RoundInSync(mid, e, agreed);
        } else if e.FailedCommit? {
          FailedStepInSync(mid, e, agreed);
        } else {
          LocalStepInSync(mid, e, agreed);
        }
      }
    }
  }

  lemma {:induction false} AdvanceAllTexts(g: Committed, metas: seq<FileMeta>, texts: map<string, string>)
    requires g.metas.Keys == g.texts.Keys && Distinct(metas) && forall m | m in metas :: m.fileName in texts
    ensures var g' := AdvanceAll(g, metas, texts);
            && g'.metas.Keys == g'.texts.Keys
            && (forall m | m in metas :: m.fileName in g'.metas && g'.metas[m.fileName] == m
                                         && g'.texts[m.fileName] == texts[m.fileName])
  {
    if metas != [] {
      var before, last := metas[..|metas| - 1], metas[|metas| - 1];
      AdvanceAllTexts(g, before, texts);
      forall m | m in metas ensures m == last || m in before {
      }
      assert forall m | m in before :: m.fileName != last.fileName;
    }
  }

  lemma AdvancedText(g: Committed, metas: seq<FileMeta>, names: seq<string>, texts: map<string, string>, name: string)
    requires g.metas.Keys == g.texts.Keys && Lists(names, texts) && |metas| == |names|
    requires forall i | 0 <= i < |names| :: metas[i].fileName == names[i]
    ensures forall m | m in metas :: m.fileName in texts
    ensures var g' := AdvanceAll(g, metas, texts);
            && g'.metas.Keys == g'.texts.Keys
            && (name in texts ==> name in g'.texts && g'.texts[name] == texts[name])
            && (name !in texts && name in g.texts ==> name in g'.texts && g'.texts[name] == g.texts[name])
  {
    forall m | m in metas ensures m.fileName in texts {
      var i :| 0 <= i < |metas| && metas[i] == m;
      assert metas[i].fileName == names[i];
    }
    forall i, j | 0 <= i < j < |metas| ensures metas[i].fileName != metas[j].fileName {
      assert metas[i].fileName == names[i] && metas[j].fileName == names[j];
    }
    AdvanceAllTexts(g, metas, texts);
    if name in texts {
      var i :| 0 <= i < |names| && names[i] == name;
      assert metas[i] in metas && metas[i].fileName == name;
    } else {
      AdvanceAllElsewhere(g, metas, texts, name);
    }
  }

  /** What a round agrees on, in terms of the committer's data directory. */
  lemma AgreedTexts(s: Swarm, e: Event, g: Committed, name: string)
    requires AllInSync(s, g) && Legal(s, e) && e.Round?
    ensures var committer, g' := s.replicas[e.i], Agree(s, e, g);
            && g'.metas.Keys == g'.texts.Keys
            && (name in committer.data ==> name in g'.texts && g'.texts[name] == committer.data[name])
            && (name !in committer.data && name in g.texts ==> name in g'.texts && g'.texts[name] == g.texts[name])
  {
    var r := s.replicas[e.i];
    CommitIsHonest(e.tools, r, s.store, e.names, e.boxer, g);
    AdvancedText(g, Commit(e.tools, r, s.store, e.names, e.boxer).metas, e.names, r.data, name);
  }

  /** After a round, every member's orig of every file in the committer's data directory is the committer's
      text at commit time, and every other committed file is as before. */
  lemma RoundTexts(s: Swarm, e: Event, g: Committed, k: nat, name: string)
    requires AllInSync(s, g) && Legal(s, e) && e.Round? && k < |Step(s, e).replicas|
    ensures var committer, r' := s.replicas[e.i], Step(s, e).replicas[k];
            && (name in committer.data ==> name in r'.orig && r'.orig[name] == committer.data[name])
            && (name !in committer.data && name in g.texts ==> name in r'.orig && r'.orig[name] == g.texts[name])
  {
    RoundInSync(s, e, g);
    AgreedTexts(s, e, g, name);
    assert FileInSync(Step(s, e).replicas[k], Agree(s, e, g), |Step(s, e).store|, name);
  }
}
