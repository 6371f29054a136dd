/** What validating a change set guarantees about the history of a file, and who may write to it. */
module Validation {
  import opened Prelude
  import opened Repo
  import opened Replication

  // ---- Validation of honest commits -------------------------------------------------------------

  lemma HonestMetaValidIff(p: Replica, store: Store, g: Committed, bound: nat, m: FileMeta,
                           text: string, proposer: Address)
    requires InSync(p, g, bound) && Honest(store, g, m, text)
    ensures MetaValid(p, store, m, proposer)
            <==> if m.fileName in g.metas then CanWrite(g.metas[m.fileName], proposer) else m.fileName !in p.files
  {
    assert FileInSync(p, g, bound, m.fileName);
  }

  /** An in-sync peer accepts what an in-sync member commits exactly when the proposer is in the committed write
      list of every committed file in the data directory, and the peer has no local-only file named like a new one. */
  lemma ValidationExact(t: Tools, p: Replica, q: Replica, store: Store, names: seq<string>, boxer: Key,
                        g: Committed, proposer: Address)
    requires InSync(p, g, |store|) && InSync(q, g, |store|) && t.Correct() && Lists(names, q.data)
    ensures var s := Commit(t, q, store, names, boxer);
            ChangeSetValid(p, s.store, |s.store|, boxer, proposer)
            <==> && (forall f | f in q.data && f in g.metas :: CanWrite(g.metas[f], proposer))
                 && (forall f | f in q.data && f !in g.metas :: f !in p.files)
  {
    var s := Commit(t, q, store, names, boxer);
    CommitIsHonest(t, q, store, names, boxer, g);
    forall i | 0 <= i < |names|
      ensures names[i] in q.data
              && (MetaValid(p, s.store, s.metas[i], proposer)
                  <==> if names[i] in g.metas then CanWrite(g.metas[names[i]], proposer) else names[i] !in p.files)
    {
      assert s.metas[i] in s.metas && s.metas[i].fileName == names[i];
      HonestMetaValidIff(p, s.store, g, |store|, s.metas[i], q.data[names[i]], proposer);
    }
    if MetasValid(p, s.store, s.metas, proposer) {
      forall f | f in q.data
        ensures if f in g.metas then CanWrite(g.metas[f], proposer) else f !in p.files
      {
        assert f in names;
        var i :| 0 <= i < |names| && names[i] == f;
        assert s.metas[i] in s.metas;
      }
    }
  }

  // ---- One history per file ---------------------------------------------------------------------

  ghost function Head(r: Replica, name: string): Cid
    requires name in r.files
  {
    r.files[name].meta.ipfsHash
  }

  /** The block that `meta` names opens with its key and names `previous` as the block before it. */
  ghost predicate Follows(store: Store, meta: FileMeta, previous: Cid) {
    match OpenNode(store, meta.ipfsHash, meta.dataKey)
    case None => false
    case Some(node) => node.next == previous
  }

  /** After an update, a file's meta is its old one or one of the change set's. */
  lemma {:induction false} UpdatedMeta(t: Tools, store: Store, r: Replica, metas: seq<FileMeta>, name: string)
    requires Acyclic(store) && name in r.files
    ensures var r' := UpdateFiles(t, store, r, metas);
            && name in r'.files
            && (r'.files[name].meta == r.files[name].meta
                || (r'.files[name].meta in metas && r'.files[name].meta.fileName == name))
  {
    if metas != [] {
      UpdatedMeta(t, store, r, metas[..|metas| - 1], name);
    }
  }

  /** A validated change set keeps a file's head or moves it to a block that directly follows it. */
  lemma HeadStep(t: Tools, store: Store, r: Replica, metas: seq<FileMeta>, proposer: Address, name: string)
    requires Acyclic(store) && name in r.files && r.files[name].meta.fileName == name
    requires MetasValid(r, store, metas, proposer)
    ensures var r' := UpdateFiles(t, store, r, metas);
            && name in r'.files && r'.files[name].meta.fileName == name
            && (Head(r', name) == Head(r, name)
                || (Follows(store, r'.files[name].meta, Head(r, name)) && Head(r', name) > Head(r, name)))
  {
    UpdatedMeta(t, store, r, metas, name);
    var m := UpdateFiles(t, store, r, metas).files[name].meta;
    if m in metas && m.ipfsHash != Head(r, name) {
      assert MetaValid(r, store, m, proposer);
      assert store[m.ipfsHash - 1].NodeBlock?;
    }
  }

  /** A change set with its proposer, and the block store as it is when the change set comes in. */
  datatype Change = Change(store: Store, metas: seq<FileMeta>, proposer: Address)

  /** Blocks are only ever added: the store of every change set is a part of `final`. */
  ghost predicate Grown(changes: seq<Change>, final: Store) {
    Acyclic(final) && forall c | c in changes :: c.store <= final && Acyclic(c.store)
  }

  ghost predicate Valid(r: Replica, c: Change) {
    MetasValid(r, c.store, c.metas, c.proposer)
  }

  /** The replica after a run of change sets, each applied only if it validates at that point. */
  ghost function Accept(t: Tools, r: Replica, changes: seq<Change>): Replica
    requires forall c | c in changes :: Acyclic(c.store)
  {
    if changes == [] then r
    else
      var before, last := Accept(t, r, changes[..|changes| - 1]), changes[|changes| - 1];
      if Valid(before, last) then UpdateFiles(t, last.store, before, last.metas) else before
  }

  /** `head` is `base` or reached from it by following blocks backwards. */
  ghost predicate ReachesBack(store: Store, head: Cid, base: Cid)
    requires Acyclic(store)
    decreases head
  {
    head == base
    || (1 <= head <= |store| && store[head - 1].NodeBlock? && ReachesBack(store, store[head - 1].node.next, base))
  }

  /** One more change set: the file's head stays, or the final store leads from the new head back to the old one. */
  lemma AcceptStep(t: Tools, r: Replica, c: Change, final: Store, name: string, base: Cid)
    requires Acyclic(final) && Acyclic(c.store) && c.store <= final
    requires name in r.files && r.files[name].meta.fileName == name
    requires ReachesBack(final, Head(r, name), base)
    ensures var r' := if Valid(r, c) then UpdateFiles(t, c.store, r, c.metas) else r;
            && name in r'.files && r'.files[name].meta.fileName == name
            && Head(r, name) <= Head(r', name) && ReachesBack(final, Head(r', name), base)
  {
    if Valid(r, c) {
      HeadStep(t, c.store, r, c.metas, c.proposer, name);
      var head := Head(UpdateFiles(t, c.store, r, c.metas), name);
      if head != Head(r, name) {
        assert final[head - 1] == c.store[head - 1];
      }
    }
  }

  /** On every run of validated change sets, with the store growing in between, the head of a file only moves
      forward along one chain: from any later head, following the blocks backwards leads to every earlier head. */
  lemma {:induction false} LinearHistory(t: Tools, r: Replica, changes: seq<Change>, final: Store, k: nat, name: string)
    requires Grown(changes, final) && k <= |changes| && name in r.files && r.files[name].meta.fileName == name
    ensures var early, late := Accept(t, r, changes[..k]), Accept(t, r, changes);
            && name in early.files && name in late.files
            && late.files[name].meta.fileName == name
            && Head(early, name) <= Head(late, name)
            && ReachesBack(final, Head(late, name), Head(early, name))
  {
    if changes == [] {
      assert changes[..k] == changes;
    } else {
      var before, last := changes[..|changes| - 1], changes[|changes| - 1];
      var j := if k < |changes| then k else k - 1;
      assert before[..j] == changes[..j];
      LinearHistory(t, r, before, final, j, name);
      AcceptStep(t, Accept(t, r, before), last, final, name, Head(Accept(t, r, before[..j]), name));
      assert k == |changes| ==> changes[..k] == changes;
    }
  }

  lemma {:induction false} ReachesBackBelow(store: Store, head: Cid, base: Cid)
    requires Acyclic(store) && ReachesBack(store, head, base)
    ensures base <= head
    decreases head
  {
    if head != base {
      ReachesBackBelow(store, store[head - 1].node.next, base);
    }
  }

  /** No fork: two change sets that validate against the same state and move the same file to different blocks
      exclude each other for good. Once `first` has been applied, `second` never validates again, whatever else
      has been accepted in between, whatever blocks have been added, and whoever proposes it. */
  lemma NoFork(t: Tools, r: Replica, first: Change, rest: seq<Change>, second: Change,
               again: Change, final: Store, m: FileMeta)
    requires Grown([first] + rest, final) && Grown([second, again], final) && again.metas == second.metas
    requires m.fileName in r.files && r.files[m.fileName].meta.fileName == m.fileName
    requires Valid(r, first) && Valid(r, second) && m in second.metas && m.ipfsHash != Head(r, m.fileName)
    requires var r' := UpdateFiles(t, first.store, r, first.metas);
             m.fileName in r'.files && Head(r', m.fileName) != Head(r, m.fileName) && Head(r', m.fileName) != m.ipfsHash
    ensures !Valid(Accept(t, r, [first] + rest), again)
  {
    var name, changes := m.fileName, [first] + rest;
    var base, late := Head(r, name), Accept(t, r, changes);
    assert changes[..1] == [first] && [first][..0] == [];
    assert Accept(t, r, [first]) == UpdateFiles(t, first.store, r, first.metas);
    var taken := Head(UpdateFiles(t, first.store, r, first.metas), name);
    HeadStep(t, first.store, r, first.metas, first.proposer, name);
    LinearHistory(t, r, changes, final, 1, name);
    assert second in [second, again] && again in [second, again];
    Outrun(r, late, second, again, final, m, taken);
  }

  /** A change set that goes on from a head which the final store leads back behind does not validate any more. */
  lemma Outrun(r: Replica, late: Replica, second: Change, again: Change, final: Store, m: FileMeta, taken: Cid)
    requires Acyclic(final) && second.store <= final && again.store <= final && again.metas == second.metas
    requires m in second.metas && m.fileName in r.files && m.fileName in late.files && Valid(r, second)
    requires Head(r, m.fileName) < taken <= Head(late, m.fileName) && ReachesBack(final, Head(late, m.fileName), taken)
    requires m.ipfsHash != Head(r, m.fileName) && m.ipfsHash != taken
    ensures !Valid(late, again)
  {
    assert MetaValid(r, second.store, m, second.proposer);
    if Valid(late, again) {
      assert MetaValid(late, again.store, m, again.proposer);
      assert final[m.ipfsHash - 1] == second.store[m.ipfsHash - 1];
      ReachesBackBelow(final, Head(r, m.fileName), taken);
    }
  }

  // ---- The committed write list -----------------------------------------------------------------

  /** The entry of a change set that counts for a file: the last one with its name. */
  function LastFor(metas: seq<FileMeta>, name: string): Option<FileMeta> {
    if metas == [] then None
    else if metas[|metas| - 1].fileName == name then Some(metas[|metas| - 1])
    else LastFor(metas[..|metas| - 1], name)
  }

  /** An update installs the meta that counts, write list included, and leaves a file without one alone. */
  lemma {:induction false} UpdateInstalls(t: Tools, store: Store, r: Replica, metas: seq<FileMeta>, name: string)
    requires Acyclic(store) && name in r.files
    ensures name in UpdateFiles(t, store, r, metas).files
    ensures UpdateFiles(t, store, r, metas).files[name].meta
            == if LastFor(metas, name).Some? then LastFor(metas, name).value else r.files[name].meta
    ensures LastFor(metas, name).Some? ==> LastFor(metas, name).value in metas
  {
    if metas != [] {
      UpdateInstalls(t, store, r, metas[..|metas| - 1], name);
    }
  }

  /** With an empty committed write list, no one change set that validates moves the file's head. */
  lemma EmptyListFreezesHead(t: Tools, store: Store, r: Replica, metas: seq<FileMeta>, proposer: Address, name: string)
    requires Acyclic(store) && name in r.files && MetasValid(r, store, metas, proposer)
    requires r.files[name].meta.writers == Some([])
    ensures name in UpdateFiles(t, store, r, metas).files
    ensures Head(UpdateFiles(t, store, r, metas), name) == Head(r, name)
  {
    UpdatedMeta(t, store, r, metas, name);
    var m := UpdateFiles(t, store, r, metas).files[name].meta;
    if m in metas {
      assert MetaValid(r, store, m, proposer);
    }
  }

  /** A block that follows the head of the file as validation wants it, with a key to open it. */
  function Following(r: Replica, name: string): Block
    requires name in r.files && name in r.orig
  {
    NodeBlock(0, DiffNode(HashOf(r.orig[name]), [], r.files[name].meta.ipfsHash, 0))
  }

  /** Who is in the committed write list can move the head with one change set. */
  lemma WriterMovesHead(t: Tools, store: Store, r: Replica, name: string, writer: Address) returns (change: Change)
    requires Acyclic(store) && name in r.files && name in r.orig && Head(r, name) <= |store|
    requires CanWrite(r.files[name].meta, writer)
    ensures store <= change.store && Acyclic(change.store) && change.proposer == writer && Valid(r, change)
    ensures var r' := UpdateFiles(t, change.store, r, change.metas); name in r'.files && Head(r', name) != Head(r, name)
  {
    var next := FileMeta(name, |store| + 1, 0, Some([writer]));
    change := Change(store + [Following(r, name)], [next], writer);
    assert [next][..0] == [];
    UpdateInstalls(t, change.store, r, [next], name);
  }

  /** One change set can move the head exactly when its proposer is in the committed write list. */
  lemma HeadMovesIff(t: Tools, store: Store, r: Replica, name: string, proposer: Address)
    requires Acyclic(store) && name in r.files && name in r.orig && Head(r, name) <= |store|
    requires r.files[name].meta.fileName == name
    ensures CanWrite(r.files[name].meta, proposer)
            <==> exists c: Change :: MovesHead(t, store, r, name, proposer, c)
  {
    if CanWrite(r.files[name].meta, proposer) {
      var change := WriterMovesHead(t, store, r, name, proposer);
      assert MovesHead(t, store, r, name, proposer, change);
    }
    if c: Change :| MovesHead(t, store, r, name, proposer, c) {
      UpdatedMeta(t, c.store, r, c.metas, name);
      assert MetaValid(r, c.store, UpdateFiles(t, c.store, r, c.metas).files[name].meta, proposer);
    }
  }

  /** The change set comes in on top of `store`, validates, and moves the head. */
  ghost predicate MovesHead(t: Tools, store: Store, r: Replica, name: string, proposer: Address, c: Change)
    requires name in r.files
  {
    && store <= c.store && Acyclic(c.store) && c.proposer == proposer && Valid(r, c)
    && var r' := UpdateFiles(t, c.store, r, c.metas); name in r'.files && Head(r', name) != Head(r, name)
  }

  /** The list alone does not freeze a file over two change sets: an entry that keeps the head is not checked
      against the list, yet its own list is installed, and then the head can move. */
  lemma NewListMovesHead(t: Tools, store: Store, r: Replica, name: string, proposer: Address)
    returns (first: Change, second: Change)
    requires Acyclic(store) && name in r.files && name in r.orig && Head(r, name) <= |store|
    requires r.files[name].meta.fileName == name
    ensures first.store == store && Grown([first, second], second.store)
    ensures first.proposer == second.proposer == proposer
    ensures Valid(r, first) && Valid(Accept(t, r, [first]), second)
    ensures var r' := Accept(t, r, [first, second]); name in r'.files && Head(r', name) != Head(r, name)
  {
    var relisted := r.files[name].meta.(writers := Some([proposer]));
    first := Change(store, [relisted], proposer);
    assert [relisted][..0] == [] && [first][..0] == [];
    var mid := UpdateFiles(t, store, r, [relisted]);
    UpdateInstalls(t, store, r, [relisted], name);
    assert Valid(r, first) && Accept(t, r, [first]) == mid;
    second := WriterMovesHead(t, store, mid, name, proposer);
    assert [first, second][..1] == [first];
    assert Accept(t, r, [first, second]) == UpdateFiles(t, second.store, mid, second.metas);
  }

  /** Every change set that is accepted on the run leaves the file's list empty: the entry that counts says so. */
  ghost predicate ListKept(t: Tools, r: Replica, changes: seq<Change>, name: string)
    requires forall c | c in changes :: Acyclic(c.store)
  {
    changes != [] ==>
      var before, last := changes[..|changes| - 1], changes[|changes| - 1];
      && ListKept(t, r, before, name)
      && (Valid(Accept(t, r, before), last) && LastFor(last.metas, name).Some? ==>
            LastFor(last.metas, name).value.writers == Some([]))
  }

  /** The file is there with an empty list and the head `head`. */
  ghost predicate Frozen(r: Replica, name: string, head: Cid) {
    name in r.files && r.files[name].meta.writers == Some([]) && Head(r, name) == head
  }

  /** Over any run from an empty list, the file stays frozen exactly when the entry that counts in every accepted
      change set keeps the list empty. */
  lemma {:induction false} StaysFrozenIff(t: Tools, r: Replica, changes: seq<Change>, name: string)
    requires name in r.files && Frozen(r, name, Head(r, name)) && forall c | c in changes :: Acyclic(c.store)
    ensures ListKept(t, r, changes, name)
            <==> forall k {:trigger changes[..k]} | 0 <= k <= |changes| ::
                   Frozen(Accept(t, r, changes[..k]), name, Head(r, name))
  {
    if changes == [] {
      assert changes[..0] == [];
    } else {
      var before, last := changes[..|changes| - 1], changes[|changes| - 1];
      StaysFrozenIff(t, r, before, name);
      assert forall k | 0 <= k < |changes| :: before[..k] == changes[..k];
      assert changes[..|changes|] == changes;
      FrozenStepIff(t, Accept(t, r, before), last, name, Head(r, name));
    }
  }

  lemma FrozenStepIff(t: Tools, r: Replica, c: Change, name: string, head: Cid)
    requires Acyclic(c.store)
    ensures var r' := if Valid(r, c) then UpdateFiles(t, c.store, r, c.metas) else r;
            Frozen(r, name, head) ==>
              (Frozen(r', name, head)
               <==> (Valid(r, c) && LastFor(c.metas, name).Some? ==> LastFor(c.metas, name).value.writers == Some([])))
  {
    if Frozen(r, name, head) && Valid(r, c) {
      EmptyListFreezesHead(t, c.store, r, c.metas, c.proposer, name);
      UpdateInstalls(t, c.store, r, c.metas, name);
    }
  }

  // ---- Editing the write list -------------------------------------------------------------------

  datatype ListEdit = GrantTo(user: Address, target: Address) | RevokeFrom(user: Address, target: Address)

  /** A refused edit changes nothing. */
  function Edited(writers: seq<Address>, e: ListEdit): seq<Address> {
    var outcome := match e
      case GrantTo(u, x) => Grant(Some(writers), u, x)
      case RevokeFrom(u, x) => Revoke(Some(writers), u, x);
    if outcome.Some? then outcome.value else writers
  }

  function EditedAll(writers: seq<Address>, edits: seq<ListEdit>): seq<Address> {
    if edits == [] then writers else Edited(EditedAll(writers, edits[..|edits| - 1]), edits[|edits| - 1])
  }

  lemma WithoutMembers<T>(s: seq<T>, x: T)
    requires NoDup(s)
    ensures NoDup(Without(s, x))
    ensures forall y :: y in Without(s, x) <==> y in s && y != x
  {
    var i := IndexOf(s, x);
    if i < |s| {
      assert s == s[..i] + [s[i]] + s[i + 1..];
    }
  }

  /** A grant is refused unless the granter is in the list and the target is not; it puts the target at the end. */
  lemma GrantIff(writers: Option<seq<Address>>, user: Address, target: Address)
    ensures Grant(writers, user, target).Some?
            <==> writers.Some? && user in writers.value && target !in writers.value
    ensures Grant(writers, user, target).Some? ==> Grant(writers, user, target).value == writers.value + [target]
  {
  }

  /** A revoke is refused unless both are in the list; it takes out the first entry of the target and keeps the order
      of all others, wherever the target stands. */
  lemma RevokeIff(writers: Option<seq<Address>>, user: Address, target: Address)
    ensures Revoke(writers, user, target).Some?
            <==> writers.Some? && user in writers.value && target in writers.value
    ensures Revoke(writers, user, target).Some? ==>
              forall front: seq<Address>, back: seq<Address>
                | target !in front && writers.value == front + [target] + back ::
                Revoke(writers, user, target).value == front + back
  {
    forall front: seq<Address>, back: seq<Address>
      | writers.Some? && target !in front && writers.value == front + [target] + back
      ensures Without(writers.value, target) == front + back
    {
      var i := IndexOf(writers.value, target);
      assert writers.value[|front|] == target;
      assert forall j | 0 <= j < |front| :: writers.value[j] == front[j];
      assert i == |front|;
    }
  }

  /** Every run of grants and revokes keeps a pending list without duplicates, and who is in it is decided by
      the last successful edit about that person. */
  lemma {:induction false} EditsKeepNoDup(writers: seq<Address>, edits: seq<ListEdit>)
    requires NoDup(writers)
    ensures NoDup(EditedAll(writers, edits))
    ensures edits != [] ==>
              var before, e := EditedAll(writers, edits[..|edits| - 1]), edits[|edits| - 1];
              var after := EditedAll(writers, edits);
              && (forall y | y != e.target :: y in after <==> y in before)
              && (e.user in before ==> (e.target in after <==> e.GrantTo?))
              && (e.user !in before ==> after == before)
  {
    if edits != [] {
      EditsKeepNoDup(writers, edits[..|edits| - 1]);
      WithoutMembers(EditedAll(writers, edits[..|edits| - 1]), edits[|edits| - 1].target);
    }
  }

  /** A grant followed by a revoke of the same target by the same user restores the list, order included. */
  lemma GrantThenRevoke(writers: seq<Address>, user: Address, target: Address)
    requires Grant(Some(writers), user, target).Some?
    ensures Revoke(Grant(Some(writers), user, target), user, target) == Some(writers)
  {
    var granted := writers + [target];
    assert granted[|writers|] == target;
    assert forall j | 0 <= j < |writers| :: granted[j] == writers[j];
    assert IndexOf(granted, target) == |writers|;
    assert granted[..|writers|] + granted[|writers| + 1..] == writers;
  }

  /** Once the list is empty it stays empty. */
  lemma {:induction false} EmptyListIsFinal(edits: seq<ListEdit>)
    ensures EditedAll([], edits) == []
  {
    if edits != [] {
      EmptyListIsFinal(edits[..|edits| - 1]);
    }
  }
}
