/** The group repository: replicas, the shared block store, and commits, validation and updates as functions. */
module Repo {
  import opened Prelude

  type Address = nat
  type Key = nat

  /** An IPFS hash: the number of the block in the shared store, counted from one. */
  type Cid = nat
  const NO_CID: Cid := 0

  // ---- Diffs ------------------------------------------------------------------------------------

  datatype Edit = Equal(text: string) | Insert(text: string) | Delete(text: string)
  type Script = seq<Edit>

  /** Applies a script to the text it was made for; any other text is refused. */
  function Patch(script: Script, text: string): Option<string> {
    if script == [] then
      if text == "" then Some("") else None
    else if script[0].Insert? then
      match Patch(script[1..], text)
      case Some(rest) => Some(script[0].text + rest)
      case None => None
    else if script[0].text <= text then
      match Patch(script[1..], text[|script[0].text|..])
      case Some(rest) => Some((if script[0].Equal? then script[0].text else "") + rest)
      case None => None
    else None
  }

  function SourceOf(script: Script): string {
    if script == [] then "" else (if script[0].Insert? then "" else script[0].text) + SourceOf(script[1..])
  }

  function ResultOf(script: Script): string {
    if script == [] then "" else (if script[0].Delete? then "" else script[0].text) + ResultOf(script[1..])
  }

  /** A script applies to exactly one text, and turns it into exactly one other. */
  lemma {:induction false} PatchExact(script: Script, text: string)
    ensures Patch(script, text) == if text == SourceOf(script) then Some(ResultOf(script)) else None
  {
    if script != [] {
      var head, rest := script[0].text, script[1..];
      if script[0].Insert? {
        PatchExact(rest, text);
        assert "" + SourceOf(rest) == SourceOf(rest);
      } else if head <= text {
        PatchExact(rest, text[|head|..]);
        assert text == head + text[|head|..];
        assert (head + SourceOf(rest))[|head|..] == SourceOf(rest);
      } else {
        assert head <= head + SourceOf(rest);
      }
    }
  }

  /** The diff library: `diff` makes a script, `fuzzy` is whatever patching gives on a text the script was
      not made for. `dataKey` and `metaKey` are the random keys drawn for a file during a commit. */
  datatype Tools = Tools(
    diff: (string, string) -> Script,
    fuzzy: (Script, string) -> string,
    dataKey: string -> Key,
    metaKey: string -> Key)
  {
    /** A script made for two texts turns the first into the second. */
    ghost predicate Correct() {
      forall a, b :: Patch(diff(a, b), a) == Some(b)
    }

    function PatchApply(script: Script, text: string): string {
      match Patch(script, text)
      case Some(result) => result
      case None => fuzzy(script, text)
    }

    function PatchAll(scripts: seq<Script>, text: string): string {
      if scripts == [] then text
      else PatchApply(scripts[|scripts| - 1], PatchAll(scripts[..|scripts| - 1], text))
    }
  }

  /** Patching gives the result of the script on its own source text, and is up to the library on any other. */
  lemma PatchApplyExact(t: Tools, script: Script, text: string)
    ensures t.PatchApply(script, text) == if text == SourceOf(script) then ResultOf(script) else t.fuzzy(script, text)
  {
    PatchExact(script, text);
  }

  /** Deleting one text and inserting the other is a script for the two. */
  lemma Replacing(a: string, b: string)
    ensures Patch([Delete(a), Insert(b)], a) == Some(b)
  {
    assert [Delete(a), Insert(b)][1..] == [Insert(b)];
    assert Patch([Insert(b)], a[|a|..]) == Some(b + "");
    assert "" + (b + "") == b;
  }

  /** The law of the library can be met. */
  lemma SomeCorrectTools() returns (t: Tools)
    ensures t.Correct()
  {
    t := Tools((a: string, b: string) => [Delete(a), Insert(b)], (e: Script, text: string) => text,
               (name: string) => 0, (name: string) => 0);
    forall a, b ensures Patch(t.diff(a, b), a) == Some(b) {
      Replacing(a, b);
    }
  }

  // ---- Blocks -----------------------------------------------------------------------------------

  /** An ideal content hash; a file that does not exist has none. */
  datatype Hash = NoHash | HashOf(text: string)

  datatype DiffNode = DiffNode(hash: Hash, diff: Script, next: Cid, nextBoxer: Key)

  /** `writers` is absent where the source has a nil list. */
  datatype FileMeta = FileMeta(fileName: string, ipfsHash: Cid, dataKey: Key, writers: Option<seq<Address>>)

  /** Stored blocks are encrypted: each opens with its key only. */
  datatype Block = NodeBlock(key: Key, node: DiffNode) | MetasBlock(key: Key, metas: seq<FileMeta>)

  type Store = seq<Block>

  function OpenNode(store: Store, cid: Cid, key: Key): Option<DiffNode> {
    if 1 <= cid <= |store| && store[cid - 1].NodeBlock? && store[cid - 1].key == key then Some(store[cid - 1].node)
    else None
  }

  function OpenMetas(store: Store, cid: Cid, key: Key): Option<seq<FileMeta>> {
    if 1 <= cid <= |store| && store[cid - 1].MetasBlock? && store[cid - 1].key == key then Some(store[cid - 1].metas)
    else None
  }

  /** A block can only name blocks that were there before it, since a name is a hash of the content. */
  ghost predicate Acyclic(store: Store) {
    forall i | 0 <= i < |store| && store[i].NodeBlock? :: store[i].node.next <= i
  }

  // ---- Download ---------------------------------------------------------------------------------

  /** The scripts on the way from the wanted block back to the replica's own version (or to the first
      block), in the order in which they are applied. */
  function Walk(store: Store, cid: Cid, key: Key, own: Hash): Option<seq<Script>>
    requires Acyclic(store)
    decreases cid
  {
    match OpenNode(store, cid, key)
    case None => None
    case Some(node) =>
      if node.next == NO_CID || node.hash == own then Some([node.diff])
      else
        match Walk(store, node.next, node.nextBoxer, own)
        case None => None
        case Some(scripts) => Some(scripts + [node.diff])
  }

  function OwnHash(orig: Option<string>): Hash {
    match orig case Some(text) => HashOf(text) case None => NoHash
  }

  function OwnText(orig: Option<string>): string {
    match orig case Some(text) => text case None => ""
  }

  /** The text that `Download` writes, or nothing when a block on the way cannot be opened. */
  function Downloaded(t: Tools, store: Store, meta: FileMeta, orig: Option<string>): Option<string>
    requires Acyclic(store)
  {
    match Walk(store, meta.ipfsHash, meta.dataKey, OwnHash(orig))
    case None => None
    case Some(scripts) => Some(t.PatchAll(scripts, OwnText(orig)))
  }

  // ---- Replicas ---------------------------------------------------------------------------------

  datatype FileState = FileState(meta: FileMeta, pending: FileMeta)

  /** `data` and `orig` are the contents of the replica's data and orig directories. */
  datatype Replica = Replica(
    user: Address,
    ipfsHash: Cid,
    boxer: Key,
    files: map<string, FileState>,
    data: map<string, string>,
    orig: map<string, string>)

  function Lookup(m: map<string, string>, name: string): Option<string> {
    if name in m then Some(m[name]) else None
  }

  function Download(t: Tools, store: Store, r: Replica, meta: FileMeta): Replica
    requires Acyclic(store)
  {
    match Downloaded(t, store, meta, Lookup(r.orig, meta.fileName))
    case None => r
    case Some(text) => r.(orig := r.orig[meta.fileName := text], data := r.data[meta.fileName := text])
  }

  // ---- Commit -----------------------------------------------------------------------------------

  function NewLocalFile(t: Tools, user: Address, name: string): FileState {
    var meta := FileMeta(name, NO_CID, t.metaKey(name), Some([user]));
    FileState(meta, meta)
  }

  function KnownFile(t: Tools, r: Replica, name: string): FileState {
    if name in r.files then r.files[name] else NewLocalFile(t, r.user, name)
  }

  function NodeFor(t: Tools, r: Replica, name: string, text: string): DiffNode {
    DiffNode(OwnHash(Lookup(r.orig, name)),
             t.diff(OwnText(Lookup(r.orig, name)), text),
             KnownFile(t, r, name).meta.ipfsHash,
             t.dataKey(name))
  }

  /** What committing one file of the data directory leaves as its pending changes. */
  function PendingFor(t: Tools, r: Replica, store: Store, name: string): FileMeta {
    KnownFile(t, r, name).pending.(dataKey := t.dataKey(name), ipfsHash := |store| + 1)
  }

  datatype CommitState = CommitState(replica: Replica, store: Store, metas: seq<FileMeta>)

  function CommitFile(t: Tools, s: CommitState, name: string): CommitState
    requires name in s.replica.data
  {
    var pending := PendingFor(t, s.replica, s.store, name);
    var file := KnownFile(t, s.replica, name).(pending := pending);
    CommitState(s.replica.(files := s.replica.files[name := file]),
                s.store + [NodeBlock(t.dataKey(name), NodeFor(t, s.replica, name, s.replica.data[name]))],
                s.metas + [pending])
  }

  function CommitFiles(t: Tools, r: Replica, store: Store, names: seq<string>): (s: CommitState)
    requires forall n | n in names :: n in r.data
    ensures s.replica.data == r.data && s.replica.orig == r.orig
  {
    if names == [] then CommitState(r, store, [])
    else CommitFile(t, CommitFiles(t, r, store, names[..|names| - 1]), names[|names| - 1])
  }

  /** `names` lists the data directory; the hash of the commit is the number of the last block. */
  function Commit(t: Tools, r: Replica, store: Store, names: seq<string>, boxer: Key): CommitState
    requires forall n | n in names :: n in r.data
  {
    var s := CommitFiles(t, r, store, names);
    s.(store := s.store + [MetasBlock(boxer, s.metas)])
  }

  // ---- Validation -------------------------------------------------------------------------------

  predicate CanWrite(meta: FileMeta, who: Address) {
    meta.writers.Some? && who in meta.writers.value
  }

  predicate NodeValid(store: Store, head: Cid, orig: Option<string>, meta: FileMeta) {
    match OpenNode(store, meta.ipfsHash, meta.dataKey)
    case None => false
    case Some(node) => node.next == head && orig.Some? && node.hash == HashOf(orig.value)
  }

  predicate MetaValid(r: Replica, store: Store, meta: FileMeta, proposer: Address) {
    meta.writers.Some?
    && (meta.fileName in r.files ==>
          var head := r.files[meta.fileName].meta;
          head.ipfsHash == meta.ipfsHash
          || (CanWrite(head, proposer) && NodeValid(store, head.ipfsHash, Lookup(r.orig, meta.fileName), meta)))
  }

  predicate MetasValid(r: Replica, store: Store, metas: seq<FileMeta>, proposer: Address) {
    forall m | m in metas :: MetaValid(r, store, m, proposer)
  }

  predicate ChangeSetValid(r: Replica, store: Store, cid: Cid, boxer: Key, proposer: Address) {
    match OpenMetas(store, cid, boxer)
    case None => false
    case Some(metas) => MetasValid(r, store, metas, proposer)
  }

  // ---- Update -----------------------------------------------------------------------------------

  function UpdateFile(t: Tools, store: Store, r: Replica, meta: FileMeta): Replica
    requires Acyclic(store)
  {
    var name := meta.fileName;
    if name !in r.files then
      Download(t, store, r.(files := r.files[name := FileState(meta, meta)]), meta)
    else if r.files[name].meta.ipfsHash != meta.ipfsHash then
      Download(t, store, r.(files := r.files[name := FileState(meta, meta)]), meta)
    else r.(files := r.files[name := r.files[name].(meta := meta)])
  }

  function UpdateFiles(t: Tools, store: Store, r: Replica, metas: seq<FileMeta>): Replica
    requires Acyclic(store)
  {
    if metas == [] then r
    else UpdateFile(t, store, UpdateFiles(t, store, r, metas[..|metas| - 1]), metas[|metas| - 1])
  }

  lemma UpdateFilesNext(t: Tools, store: Store, r: Replica, metas: seq<FileMeta>, i: nat)
    requires Acyclic(store) && i < |metas|
    ensures UpdateFiles(t, store, r, metas[..i + 1])
            == UpdateFile(t, store, UpdateFiles(t, store, r, metas[..i]), metas[i])
  {
    assert metas[..i + 1][..i] == metas[..i];
  }

  /** `None` is an error: the change set could not be fetched, and the replica stays as it was. */
  function Update(t: Tools, store: Store, r: Replica, cid: Cid): Option<Replica>
    requires Acyclic(store)
  {
    if cid == NO_CID || cid == r.ipfsHash then Some(r)
    else
      match OpenMetas(store, cid, r.boxer)
      case None => None
      case Some(metas) => Some(UpdateFiles(t, store, r, metas).(ipfsHash := cid))
  }

  // ---- Write access -----------------------------------------------------------------------------

  function Without<T(==)>(s: seq<T>, x: T): seq<T> {
    var i := IndexOf(s, x);
    if i < |s| then s[..i] + s[i + 1..] else s
  }

  /** Grants are refused unless `user` may write and `target` may not yet. */
  function Grant(writers: Option<seq<Address>>, user: Address, target: Address): Option<seq<Address>> {
    if writers.None? || user !in writers.value || target in writers.value then None
    else Some(writers.value + [target])
  }

  function Revoke(writers: Option<seq<Address>>, user: Address, target: Address): Option<seq<Address>> {
    if writers.None? || user !in writers.value || target !in writers.value then None
    else Some(Without(writers.value, target))
  }
}
