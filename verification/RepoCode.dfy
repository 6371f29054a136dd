/** The repository's code: files, directories and the block store as objects updated in place, with the loops
    of the source, each method proved to be the function of the same name on replicas. */
module RepoCode {
  import opened Prelude
  import opened Repo
  import R = Repo

  class Ipfs {
    var blocks: Store

    constructor (blocks: Store)
      ensures this.blocks == blocks
    {
      this.blocks := blocks;
    }

    /** Encrypted blocks never repeat, so a new block gets a new name. */
    method Add(block: Block) returns (cid: Cid)
      modifies this
      ensures blocks == old(blocks) + [block] && cid == |blocks|
    {
      blocks := blocks + [block];
      cid := |blocks|;
    }
  }

  /** The data and the orig directory of a group on one machine. */
  class Disk {
    var data: map<string, string>
    var orig: map<string, string>

    constructor (data: map<string, string>, orig: map<string, string>)
      ensures this.data == data && this.orig == orig
    {
      this.data, this.orig := data, orig;
    }
  }

  function Reverse<T>(s: seq<T>): seq<T> {
    if s == [] then [] else [s[|s| - 1]] + Reverse(s[..|s| - 1])
  }

  class Meta {
    const fileName: string
    var ipfsHash: Cid
    var dataKey: Key
    var writers: Option<seq<Address>>

    function Value(): FileMeta
      reads this
    {
      FileMeta(fileName, ipfsHash, dataKey, writers)
    }

    constructor (value: FileMeta)
      ensures Value() == value
    {
      fileName, ipfsHash, dataKey, writers := value.fileName, value.ipfsHash, value.dataKey, value.writers;
    }

    /** The deep copy of the source, which decodes into the object that is already there. */
    method CopyFrom(source: Meta)
      requires source.fileName == fileName
      modifies this
      ensures Value() == old(source.Value())
    {
      ipfsHash, dataKey, writers := source.ipfsHash, source.dataKey, source.writers;
    }
  }

  class File {
    const name: string
    var meta: Meta
    const pending: Meta

    /** The committed meta and the pending changes are two objects: editing one leaves the other alone. */
    ghost predicate Apart()
      reads this, meta, pending
    {
      meta != pending && meta.fileName == name && pending.fileName == name
    }

    ghost function State(): FileState
      reads this, meta, pending
    {
      FileState(meta.Value(), pending.Value())
    }

    /** A file new to the repository, with a deep copy of the meta as pending changes. */
    constructor (meta: Meta)
      ensures Apart() && fresh(pending) && this.meta == meta && name == meta.fileName
      ensures State() == FileState(meta.Value(), meta.Value())
    {
      name, this.meta := meta.fileName, meta;
      pending := new Meta(FileMeta(meta.fileName, meta.ipfsHash, meta.dataKey, meta.writers));
    }

    /** The first loop of `Download`: the stack of diffs, or nothing when a block cannot be fetched and opened. */
    method FetchDiffs(ipfs: Ipfs, own: Hash) returns (diffs: Option<seq<Script>>)
      requires Acyclic(ipfs.blocks)
      ensures Walk(ipfs.blocks, meta.ipfsHash, meta.dataKey, own)
              == if diffs.Some? then Some(Reverse(diffs.value)) else None
    {
      var stack: seq<Script> := [];
      var cid, key := meta.ipfsHash, meta.dataKey;
      ghost var whole := Walk(ipfs.blocks, cid, key, own);
      assert whole.Some? ==> whole.value + [] == whole.value;
      while true
        invariant whole == Extended(Walk(ipfs.blocks, cid, key, own), Reverse(stack))
        decreases cid
      {
        var found := OpenNode(ipfs.blocks, cid, key);
        if found.None? {
          return None;
        }
        var node := found.value;
        PushReverse(stack, node.diff);
        ExtendedTwice(Walk(ipfs.blocks, node.next, node.nextBoxer, own), node.diff, Reverse(stack));
        stack := stack + [node.diff];
        if node.next == NO_CID {
          break;
        }
        if node.hash == own {
          break;
        }
        cid, key := node.next, node.nextBoxer;
      }
      return Some(stack);
    }

    /** The second loop of `Download`: pops every diff and applies it. */
    static method ApplyDiffs(t: Tools, diffs: seq<Script>, start: string) returns (text: string)
      ensures text == t.PatchAll(Reverse(diffs), start)
    {
      var stack := diffs;
      text := start;
      ghost var applied: seq<Script> := [];
      while stack != []
        invariant applied + Reverse(stack) == Reverse(diffs)
        invariant text == t.PatchAll(applied, start)
      {
        var top := stack[|stack| - 1];
        stack := stack[..|stack| - 1];
        assert (applied + [top])[..|applied|] == applied;
        applied := applied + [top];
        text := t.PatchApply(top, text);
      }
      assert applied + [] == applied;
    }

    method Download(disk: Disk, ipfs: Ipfs, t: Tools)
      requires Acyclic(ipfs.blocks) && meta.fileName == name
      modifies disk
      ensures match Downloaded(t, ipfs.blocks, meta.Value(), Lookup(old(disk.orig), name))
              case None => disk.orig == old(disk.orig) && disk.data == old(disk.data)
              case Some(text) => disk.orig == old(disk.orig)[name := text] && disk.data == old(disk.data)[name := text]
    {
      var currentStr, origHash := "", NoHash;
      if name in disk.orig {
        origHash := HashOf(disk.orig[name]);
        currentStr := disk.orig[name];
      }
      var diffs := FetchDiffs(ipfs, origHash);
      if diffs.None? {
        return;
      }
      currentStr := ApplyDiffs(t, diffs.value, currentStr);
      disk.orig := disk.orig[name := currentStr];
      disk.data := disk.data[name := currentStr];
    }

    method Update(fileMeta: Meta, disk: Disk, ipfs: Ipfs, t: Tools)
      requires Acyclic(ipfs.blocks) && Apart() && fileMeta.fileName == name && fileMeta != pending
      modifies this, pending, disk
      ensures Apart() && meta == fileMeta
      ensures old(meta.ipfsHash) == fileMeta.ipfsHash ==>
                pending.Value() == old(pending.Value()) && disk.orig == old(disk.orig) && disk.data == old(disk.data)
      ensures old(meta.ipfsHash) != fileMeta.ipfsHash ==>
                pending.Value() == fileMeta.Value()
                && match Downloaded(t, ipfs.blocks, meta.Value(), Lookup(old(disk.orig), name))
                   case None => disk.orig == old(disk.orig) && disk.data == old(disk.data)
                   case Some(text) => disk.orig == old(disk.orig)[name := text]
                                      && disk.data == old(disk.data)[name := text]
    {
      var oldIpfsHash := meta.ipfsHash;
      meta := fileMeta;
      if oldIpfsHash != fileMeta.ipfsHash {
        pending.CopyFrom(meta);
        Download(disk, ipfs, t);
      }
    }

    /** Only the pending list changes; the committed meta is never touched. */
    method GrantWriteAccess(user: Address, target: Address) returns (ok: bool)
      requires Apart()
      modifies pending
      ensures Apart() && meta.Value() == old(meta.Value())
      ensures ok == Grant(old(pending.writers), user, target).Some?
      ensures pending.Value()
              == if ok then old(pending.Value()).(writers := Grant(old(pending.writers), user, target))
                 else old(pending.Value())
    {
      var writers := if pending.writers.Some? then pending.writers.value else [];
      var hasWriteAccess := false;
      for i := 0 to |writers|
        invariant hasWriteAccess == (user in writers[..i]) && target !in writers[..i]
      {
        if writers[i] == user {
          hasWriteAccess := true;
        }
        if writers[i] == target {
          return false;
        }
      }
      assert writers[..|writers|] == writers;
      if !hasWriteAccess {
        return false;
      }
      pending.writers := Some(writers + [target]);
      return true;
    }

    /** The first loop of `RevokeWriteAccess`, which stops once it has seen both. */
    static method FindBoth(writers: seq<Address>, user: Address, target: Address)
      returns (foundUser: bool, foundTarget: bool)
      ensures foundUser && foundTarget <==> user in writers && target in writers
      ensures foundUser ==> user in writers
      ensures foundTarget ==> target in writers
    {
      foundUser, foundTarget := false, false;
      var k := 0;
      while k < |writers|
        invariant k <= |writers|
        invariant foundUser == (user in writers[..k]) && foundTarget == (target in writers[..k])
      {
        if writers[k] == user {
          foundUser := true;
        }
        if writers[k] == target {
          foundTarget := true;
        }
        k := k + 1;
        if foundUser && foundTarget {
          break;
        }
      }
      assert writers[..|writers|] == writers;
    }

    method RevokeWriteAccess(user: Address, target: Address) returns (ok: bool)
      requires Apart()
      modifies pending
      ensures Apart() && meta.Value() == old(meta.Value())
      ensures ok == Revoke(old(pending.writers), user, target).Some?
      ensures pending.Value()
              == if ok then old(pending.Value()).(writers := Revoke(old(pending.writers), user, target))
                 else old(pending.Value())
    {
      var writers := if pending.writers.Some? then pending.writers.value else [];
      var userHasWriteAccess, targetHasWriteAccess := FindBoth(writers, user, target);
      if !userHasWriteAccess {
        return false;
      }
      if !targetHasWriteAccess {
        return false;
      }
      for i := 0 to |writers|
        invariant pending.Value() == old(pending.Value()) && target !in writers[..i]
      {
        if writers[i] == target {
          FoundAt(writers, target, i);
          pending.writers := Some(writers[..i] + writers[i + 1..]);
          break;
        }
      }
      return true;
    }

    /** Makes the file's next block and stores it; the new key goes into the pending changes. */
    method UploadDiff(disk: Disk, ipfs: Ipfs, t: Tools) returns (cid: Cid)
      requires name in disk.data && Apart()
      modifies pending, ipfs
      ensures Apart() && meta.Value() == old(meta.Value())
      ensures pending.Value() == old(pending.Value()).(dataKey := t.dataKey(name))
      ensures cid == |ipfs.blocks|
      ensures ipfs.blocks == old(ipfs.blocks) + [NodeBlock(t.dataKey(name),
                DiffNode(OwnHash(Lookup(disk.orig, name)), t.diff(OwnText(Lookup(disk.orig, name)), disk.data[name]),
                         meta.ipfsHash, t.dataKey(name)))]
    {
      var key := t.dataKey(name);
      pending.dataKey := key;
      var hash, originalStr := NoHash, "";
      if name in disk.orig {
        hash := HashOf(disk.orig[name]);
        originalStr := disk.orig[name];
      }
      var node := DiffNode(hash, t.diff(originalStr, disk.data[name]), meta.ipfsHash, key);
      cid := ipfs.Add(NodeBlock(key, node));
    }

    /** Uploads the diff and records its hash as pending; the result is what goes into the change set. */
    method Record(disk: Disk, ipfs: Ipfs, t: Tools) returns (entry: FileMeta)
      requires name in disk.data && Apart()
      modifies pending, ipfs
      ensures Apart() && meta.Value() == old(meta.Value()) && entry == pending.Value()
      ensures pending.Value() == old(pending.Value()).(dataKey := t.dataKey(name), ipfsHash := |ipfs.blocks|)
      ensures ipfs.blocks == old(ipfs.blocks) + [NodeBlock(t.dataKey(name),
                DiffNode(OwnHash(Lookup(disk.orig, name)), t.diff(OwnText(Lookup(disk.orig, name)), disk.data[name]),
                         meta.ipfsHash, t.dataKey(name)))]
    {
      var newIpfsHash := UploadDiff(disk, ipfs, t);
      pending.ipfsHash := newIpfsHash;
      entry := pending.Value();
    }
  }

  ghost function Extended(deeper: Option<seq<Script>>, nearer: seq<Script>): Option<seq<Script>> {
    match deeper case None => None case Some(scripts) => Some(scripts + nearer)
  }

  lemma ExtendedTwice(deeper: Option<seq<Script>>, script: Script, nearer: seq<Script>)
    ensures Extended(Extended(deeper, [script]), nearer) == Extended(deeper, [script] + nearer)
  {
    if deeper.Some? {
      assert deeper.value + [script] + nearer == deeper.value + ([script] + nearer);
    }
  }

  lemma PushReverse<T>(s: seq<T>, x: T)
    ensures Reverse(s + [x]) == [x] + Reverse(s)
  {
    assert (s + [x])[..|s|] == s;
  }

  lemma FoundAt<T>(s: seq<T>, x: T, i: nat)
    requires i < |s| && s[i] == x && x !in s[..i]
    ensures IndexOf(s, x) == i
  {
    assert forall j | 0 <= j < i :: s[..i][j] == s[j];
  }

  lemma CommitNext(t: Tools, r: Replica, store: Store, names: seq<string>, i: nat,
                   before: CommitState, one: CommitState)
    requires i < |names| && (forall n | n in names :: n in r.data)
    requires CommitFiles(t, r, store, names[..i]) == before
    requires CommitFile(t, before.(metas := []), names[i]) == one
    ensures CommitFiles(t, r, store, names[..i + 1]) == one.(metas := before.metas + one.metas)
  {
    assert names[..i + 1][..i] == names[..i];
  }

  class GroupRepo {
    const user: Address
    const disk: Disk
    var files: map<string, File>
    var ipfsHash: Cid
    var boxer: Key
    ghost var view: map<string, FileState>

    constructor (user: Address, disk: Disk, ipfsHash: Cid, boxer: Key)
      ensures Linked() && State() == Replica(user, ipfsHash, boxer, map[], disk.data, disk.orig)
    {
      this.user, this.disk, this.ipfsHash, this.boxer := user, disk, ipfsHash, boxer;
      files, view := map[], map[];
    }

    /** `view` is what the file objects store, each under its own name. */
    ghost predicate Linked()
      reads this, files.Values, Metas()
    {
      files.Keys == view.Keys && forall n {:trigger LinkedAt(n)} | n in files :: LinkedAt(n)
    }

    ghost predicate LinkedAt(n: string)
      requires n in files
      reads this, files[n], files[n].meta, files[n].pending
    {
      n in view && files[n].name == n && files[n].Apart() && files[n].State() == view[n]
    }

    /** The objects of the files; no two files share one, as each carries its file's name. */
    ghost function Metas(): set<Meta>
      reads this, files.Values
    {
      (set n | n in files :: files[n].meta) + (set n | n in files :: files[n].pending)
    }

    ghost function Pendings(): set<Meta>
      reads this
    {
      set n | n in files :: files[n].pending
    }

    /** Files stay in the repository, and only new ones come in. */
    twostate predicate Kept()
      reads this
    {
      forall n {:trigger files[n]} | n in files ::
        (n in old(files) && files[n] == old(files[n])) || (fresh(files[n]) && fresh(files[n].pending))
    }

    ghost function State(): Replica
      reads this, disk
    {
      Replica(user, ipfsHash, boxer, view, disk.data, disk.orig)
    }

    /** Changing one file, new or old, leaves the other files as `view` has them: no two share an object. */
    twostate lemma Relinked(name: string)
      requires old(Linked()) && name in files && files == old(files)[name := files[name]]
      requires files[name].name == name && files[name].Apart() && view == old(view)[name := files[name].State()]
      requires forall n | n in old(files) && files[n] != files[name] :: files[n].meta == old(files[n].meta)
      requires forall m: Meta {:trigger m.Value()} | old(allocated(m)) && m != files[name].pending ::
                 m.Value() == old(m.Value())
      ensures Linked()
    {
      forall n | n in files ensures LinkedAt(n) {
        if n != name {
          assert old(LinkedAt(n));
          assert files[n].meta.Value() == old(files[n].meta.Value());
          assert files[n].pending.Value() == old(files[n].pending.Value());
        }
      }
    }

    /** The file under `name`, made if it is new, as `getPendingChanges` looks it up. */
    method Known(name: string, t: Tools) returns (file: File)
      requires Linked()
      modifies `files, `view
      ensures Linked() && Kept() && name in files && files[name] == file
      ensures State() == old(State()).(files := old(view)[name := KnownFile(t, old(State()), name)])
    {
      if name in files {
        file := files[name];
        assert LinkedAt(name);
      } else {
        var meta := new Meta(FileMeta(name, NO_CID, t.metaKey(name), Some([user])));
        file := new File(meta);
        files, view := files[name := file], view[name := file.State()];
        Relinked(name);
      }
    }

    // The body of the loop of `getPendingChanges`, for one file of the data directory.
    method CommitOne(name: string, ipfs: Ipfs, t: Tools) returns (pending: FileMeta)
      requires Linked() && name in disk.data
      modifies `files, `view, Pendings(), ipfs
      ensures Linked() && Kept()
      ensures CommitFile(t, CommitState(old(State()), old(ipfs.blocks), []), name)
              == CommitState(State(), ipfs.blocks, [pending])
    {
      ghost var r := State();
      var file := Known(name, t);
      pending := RecordAt(name, ipfs, t);
      assert pending == PendingFor(t, r, old(ipfs.blocks), name);
      assert view == r.files[name := KnownFile(t, r, name).(pending := pending)];
    }

    /** The file under `name` uploads its diff and records it as pending. */
    method RecordAt(name: string, ipfs: Ipfs, t: Tools) returns (pending: FileMeta)
      requires Linked() && name in files && name in view && name in disk.data
      modifies `view, files[name].pending, ipfs
      ensures Linked()
      ensures pending == old(view)[name].pending.(dataKey := t.dataKey(name), ipfsHash := |ipfs.blocks|)
      ensures view == old(view)[name := FileState(old(view)[name].meta, pending)]
      ensures ipfs.blocks == old(ipfs.blocks) + [NodeBlock(t.dataKey(name),
                DiffNode(OwnHash(Lookup(disk.orig, name)), t.diff(OwnText(Lookup(disk.orig, name)), disk.data[name]),
                         old(view)[name].meta.ipfsHash, t.dataKey(name)))]
    {
      assert LinkedAt(name);
      pending := files[name].Record(disk, ipfs, t);
      view := view[name := files[name].State()];
      Relinked(name);
    }

    /** `names` is the listing of the data directory. */
    method CommitChanges(names: seq<string>, newBoxer: Key, ipfs: Ipfs, t: Tools) returns (cid: Cid)
      requires Linked() && forall n | n in names :: n in disk.data
      modifies `files, `view, Pendings(), ipfs
      ensures Linked() && cid == |ipfs.blocks|
      ensures var s := Commit(t, old(State()), old(ipfs.blocks), names, newBoxer);
              State() == s.replica && ipfs.blocks == s.store
    {
      var metas: seq<FileMeta> := [];
      for i := 0 to |names|
        invariant Linked() && Kept()
        invariant CommitFiles(t, old(State()), old(ipfs.blocks), names[..i]) == CommitState(State(), ipfs.blocks, metas)
      {
        ghost var before := CommitState(State(), ipfs.blocks, metas);
        var pending := CommitOne(names[i], ipfs, t);
        CommitNext(t, old(State()), old(ipfs.blocks), names, i, before, CommitState(State(), ipfs.blocks, [pending]));
        metas := metas + [pending];
      }
      assert names[..|names|] == names;
      cid := ipfs.Add(MetasBlock(newBoxer, metas));
    }

    method IsDiffNodeValid(file: File, newMeta: FileMeta, ipfs: Ipfs) returns (ok: bool)
      ensures ok == NodeValid(ipfs.blocks, file.meta.ipfsHash, Lookup(disk.orig, file.name), newMeta)
    {
      var found := OpenNode(ipfs.blocks, newMeta.ipfsHash, newMeta.dataKey);
      if found.None? {
        return false;
      }
      if found.value.next != file.meta.ipfsHash {
        return false;
      }
      if file.name !in disk.orig {
        return false;
      }
      return found.value.hash == HashOf(disk.orig[file.name]);
    }

    /** Accepts (true) or rejects the change set that a member proposes. */
    method IsValidChangeSet(newIpfsHash: Cid, newBoxer: Key, proposer: Address, ipfs: Ipfs) returns (ok: bool)
      requires Linked()
      ensures ok == ChangeSetValid(State(), ipfs.blocks, newIpfsHash, newBoxer, proposer)
    {
      var found := OpenMetas(ipfs.blocks, newIpfsHash, newBoxer);
      if found.None? {
        return false;
      }
      var newMetas := found.value;
      for k := 0 to |newMetas|
        invariant forall m | m in newMetas[..k] :: MetaValid(State(), ipfs.blocks, m, proposer)
      {
        var newMeta := newMetas[k];
        assert newMeta in newMetas && newMetas[..k + 1] == newMetas[..k] + [newMeta];
        if newMeta.writers.None? {
          return false;
        }
        if newMeta.fileName !in files {
          continue;
        }
        var file := files[newMeta.fileName];
        assert LinkedAt(newMeta.fileName);
        if file.meta.ipfsHash == newMeta.ipfsHash {
          continue;
        }
        var hasWriteAccess := false;
        var writers := if file.meta.writers.Some? then file.meta.writers.value else [];
        for j := 0 to |writers|
          invariant !hasWriteAccess && proposer !in writers[..j]
        {
          if writers[j] == proposer {
            hasWriteAccess := true;
            break;
          }
        }
        if !hasWriteAccess {
          assert writers[..|writers|] == writers;
          return false;
        }
        var nodeOk := IsDiffNodeValid(file, newMeta, ipfs);
        if !nodeOk {
          return false;
        }
      }
      assert newMetas[..|newMetas|] == newMetas;
      return true;
    }

    // The body of the loop of `Update`, for one meta of the change set.
    method UpdateOne(decoded: FileMeta, ipfs: Ipfs, t: Tools)
      requires Linked() && Acyclic(ipfs.blocks)
      modifies `files, `view, files.Values, Pendings(), disk
      ensures Linked() && Kept()
      ensures State() == UpdateFile(t, ipfs.blocks, old(State()), decoded)
    {
      var fileMeta := new Meta(decoded);
      if decoded.fileName !in files {
        AddFile(fileMeta, ipfs, t);
      } else {
        UpdateKnown(fileMeta, ipfs, t);
      }
    }

    method AddFile(fileMeta: Meta, ipfs: Ipfs, t: Tools)
      requires Linked() && Acyclic(ipfs.blocks) && fileMeta.fileName !in files
      modifies `files, `view, disk
      ensures Linked() && Kept()
      ensures State() == UpdateFile(t, ipfs.blocks, old(State()), fileMeta.Value())
    {
      var name := fileMeta.fileName;
      var file := new File(fileMeta);
      files, view := files[name := file], view[name := file.State()];
      Relinked(name);
      file.Download(disk, ipfs, t);
    }

    method UpdateKnown(fileMeta: Meta, ipfs: Ipfs, t: Tools)
      requires Linked() && Acyclic(ipfs.blocks) && fileMeta.fileName in files && fileMeta !in Pendings()
      modifies `view, files.Values, Pendings(), disk
      ensures Linked()
      ensures State() == UpdateFile(t, ipfs.blocks, old(State()), fileMeta.Value())
    {
      var name := fileMeta.fileName;
      assert LinkedAt(name);
      files[name].Update(fileMeta, disk, ipfs, t);
      view := view[name := files[name].State()];
      Relinked(name);
    }

    // The loop of `Update`.
    method UpdateAll(metas: seq<FileMeta>, ipfs: Ipfs, t: Tools)
      requires Linked() && Acyclic(ipfs.blocks)
      modifies `files, `view, files.Values, Pendings(), disk
      ensures Linked() && Kept()
      ensures State() == UpdateFiles(t, ipfs.blocks, old(State()), metas)
    {
      for i := 0 to |metas|
        invariant Linked() && Kept()
        invariant State() == UpdateFiles(t, ipfs.blocks, old(State()), metas[..i])
      {
        UpdateOne(metas[i], ipfs, t);
        UpdateFilesNext(t, ipfs.blocks, old(State()), metas, i);
      }
      assert metas[..|metas|] == metas;
    }

    /** False means that the change set could not be fetched; nothing has changed then. */
    method Update(newIpfsHash: Cid, ipfs: Ipfs, t: Tools) returns (ok: bool)
      requires Linked() && Acyclic(ipfs.blocks)
      modifies `files, `view, `ipfsHash, files.Values, Pendings(), disk
      ensures Linked()
      ensures ok == R.Update(t, ipfs.blocks, old(State()), newIpfsHash).Some?
      ensures State() == if ok then R.Update(t, ipfs.blocks, old(State()), newIpfsHash).value else old(State())
    {
      if newIpfsHash == NO_CID || newIpfsHash == ipfsHash {
        return true;
      }
      var found := OpenMetas(ipfs.blocks, newIpfsHash, boxer);
      if found.None? {
        return false;
      }
      UpdateAll(found.value, ipfs, t);
      label updated:
      ipfsHash := newIpfsHash;
      forall n | n in files ensures LinkedAt(n) {
        assert old@updated(LinkedAt(n));
      }
      return true;
    }
  }
}
