/**
 * The crawler's registry as values: `results` is an insertion-ordered map
 * (the key order plus the records), `queue` the worklist.  The functions here
 * say what one merge, one file's worth of merges and the seeding do to them;
 * the lemmas say which invariants they keep.
 */
module Registry {
  import opened Wrappers
  import opened Env
  import opened Nub
  import opened Records
  import opened Children

  /** A registry key: a file path, or the synthetic key of a builtin ('native::' + id). */
  datatype Key = FileKey(path: Path) | NativeKey(id: string)

  /** `results` as key order plus records, and the queue of paths still to expand. */
  datatype Merged = Merged(order: seq<Key>, nodes: map<Key, Node>, queue: seq<Path>)

  /** A record that has a key: a builtin, or a file with a filename. */
  predicate Storable(c: Node) {
    c.isNative || c.filename.Some?
  }

  /** Every child record getChildren produces has a key. */
  lemma ShapedAreStorable(w: World, parent: Parent, cs: seq<Node>)
    requires forall c :: c in cs ==> ChildShape(w, parent, c)
    ensures forall c :: c in cs ==> Storable(c)
  {
  }

  function StoreKey(c: Node): Key
    requires Storable(c)
  {
    if c.isNative then NativeKey(c.id) else FileKey(c.filename.value)
  }

  /** Whether a newly stored child is queued: never a builtin, a package only when packages are traversed. */
  predicate Enqueued(c: Node, traverse: bool) {
    !c.isNative && (!c.isModule || traverse)
  }

  /**
   * Merging one child of the file `absolute`.  The lookup goes by the child's
   * filename: a child already registered under it only gains `absolute` as a
   * parent.  Any other child is stored under its key (a builtin overwriting its
   * earlier record, whose key keeps its place) and queued when `Enqueued`.
   */
  function MergeChild(m: Merged, absolute: Path, child: Node, traverse: bool): Merged
    requires Storable(child)
  {
    if child.filename.Some? && FileKey(child.filename.value) in m.nodes then
      var k := FileKey(child.filename.value);
      m.(nodes := m.nodes[k := m.nodes[k].(parents := m.nodes[k].parents + [absolute])])
    else
      var k := StoreKey(child);
      Merged(if k in m.nodes then m.order else m.order + [k],
             m.nodes[k := child],
             if Enqueued(child, traverse) then m.queue + [child.filename.value] else m.queue)
  }

  /** Merging the children of `absolute` one after the other. */
  function MergeAll(m: Merged, absolute: Path, cs: seq<Node>, traverse: bool): Merged
    requires forall c :: c in cs ==> Storable(c)
    decreases |cs|
  {
    if cs == [] then m
    else MergeChild(MergeAll(m, absolute, cs[..|cs| - 1], traverse), absolute, cs[|cs| - 1], traverse)
  }

  /** The registry and queue after the resolved entries `es` are seeded. */
  function Seed(w: World, es: seq<Path>): Merged
    decreases |es|
  {
    if es == [] then Merged([], map[], [])
    else
      var m := Seed(w, es[..|es| - 1]);
      var k := FileKey(es[|es| - 1]);
      Merged(if k in m.nodes then m.order else m.order + [k],
             m.nodes[k := EntryObject(w, es[|es| - 1])],
             m.queue + [es[|es| - 1]])
  }

  // ---------------------------------------------------------------------------
  // The registry invariant.

  /** Every key is listed once, and exactly the registered keys are listed. */
  ghost predicate OrderMatches(m: Merged) {
    Distinct(m.order) && forall k :: k in m.order <==> k in m.nodes
  }

  /** A file key holds the record of that file; a builtin key the builtin's record. */
  ghost predicate KeyFits(k: Key, n: Node) {
    match k
    case FileKey(p) => n.filename == Some(p) && !n.isNative
    case NativeKey(id) =>
      n.isNative && n.isModule && n.filename.None? && n.id == id && n.mgroup == Some(id)
      && n.error.None? && n.parents != []
  }

  ghost predicate KeysFit(m: Merged) {
    forall k :: k in m.nodes ==> KeyFits(k, m.nodes[k])
  }

  /** `p` names a registered file that the crawl may expand. */
  ghost predicate Expandable(m: Merged, p: Path, traverse: bool) {
    FileKey(p) in m.nodes && !m.nodes[FileKey(p)].isNative
    && (traverse || !m.nodes[FileKey(p)].isModule)
  }

  /** Every queued path other than the empty one (which is skipped) is expandable. */
  ghost predicate QueueExpandable(m: Merged, traverse: bool) {
    forall i :: 0 <= i < |m.queue| && m.queue[i] != "" ==> Expandable(m, m.queue[i], traverse)
  }

  ghost predicate IsEntryNode(w: World, m: Merged, e: Path) {
    FileKey(e) in m.nodes
    && var n := m.nodes[FileKey(e)];
    n.id == w.basename(e) && !n.isModule && n.mgroup.None?
  }

  ghost predicate EntriesSeeded(w: World, m: Merged, entries: seq<Path>) {
    forall e :: e in entries ==> IsEntryNode(w, m, e)
  }

  /** Every parent link names a file the crawl may expand. */
  ghost predicate ParentsExpandable(m: Merged, traverse: bool) {
    forall k, i :: k in m.nodes && 0 <= i < |m.nodes[k].parents| ==>
      Expandable(m, m.nodes[k].parents[i], traverse)
  }

  /**
   * A package is its own group; a file that is not an entry has a first
   * parent, the file that discovered it, and a plain file carries that
   * parent's group.
   */
  ghost predicate GroupFits(m: Merged, p: Path, entries: seq<Path>)
    requires FileKey(p) in m.nodes
  {
    var n := m.nodes[FileKey(p)];
    (n.isModule ==> n.mgroup == Some(n.id))
    && (p in entries
        || (n.parents != [] && FileKey(n.parents[0]) in m.nodes
            && (!n.isModule ==> n.mgroup == OrFalse(m.nodes[FileKey(n.parents[0])].mgroup))))
  }

  ghost predicate GroupsFit(m: Merged, entries: seq<Path>) {
    forall p :: FileKey(p) in m.nodes ==> GroupFits(m, p, entries)
  }

  ghost predicate Inv(w: World, m: Merged, entries: seq<Path>, traverse: bool) {
    && OrderMatches(m)
    && KeysFit(m)
    && QueueExpandable(m, traverse)
    && EntriesSeeded(w, m, entries)
    && ParentsExpandable(m, traverse)
    && GroupsFit(m, entries)
  }

  // ---------------------------------------------------------------------------
  // What a merge leaves alone.

  /** Everything of a file's record but its parents (which only grow) and its error. */
  ghost predicate SameFacts(n: Node, n': Node) {
    && n'.id == n.id && n'.filename == n.filename
    && n'.isModule == n.isModule && n'.isNative == n.isNative && n'.mgroup == n.mgroup
    && |n.parents| <= |n'.parents| && n'.parents[..|n.parents|] == n.parents
  }

  /** `m'` keeps every key of `m`, the facts of every file record, and the key order as a prefix. */
  ghost predicate Stable(m: Merged, m': Merged) {
    && (forall k :: k in m.nodes ==> k in m'.nodes)
    && (forall p :: FileKey(p) in m.nodes ==> SameFacts(m.nodes[FileKey(p)], m'.nodes[FileKey(p)]))
    && |m.order| <= |m'.order| && m'.order[..|m.order|] == m.order
  }

  lemma StableTrans(a: Merged, b: Merged, c: Merged)
    requires Stable(a, b) && Stable(b, c)
    ensures Stable(a, c)
  {
    forall p | FileKey(p) in a.nodes
      ensures SameFacts(a.nodes[FileKey(p)], c.nodes[FileKey(p)])
    {
      var na, nb, nc := a.nodes[FileKey(p)], b.nodes[FileKey(p)], c.nodes[FileKey(p)];
      assert nc.parents[..|na.parents|] == nc.parents[..|nb.parents|][..|na.parents|];
    }
    assert c.order[..|a.order|] == c.order[..|b.order|][..|a.order|];
  }

  /** The parts of the invariant about existing files survive every stable change. */
  lemma StableKeeps(w: World, m: Merged, r: Merged, entries: seq<Path>, traverse: bool)
    requires Stable(m, r)
    ensures forall p :: Expandable(m, p, traverse) ==> Expandable(r, p, traverse)
    ensures EntriesSeeded(w, m, entries) ==> EntriesSeeded(w, r, entries)
    ensures forall p :: FileKey(p) in m.nodes && GroupFits(m, p, entries) ==> GroupFits(r, p, entries)
  {
    forall p | FileKey(p) in m.nodes && GroupFits(m, p, entries)
      ensures GroupFits(r, p, entries)
    {
      var n, n' := m.nodes[FileKey(p)], r.nodes[FileKey(p)];
      if n.parents != [] {
        assert n'.parents[0] == n'.parents[..|n.parents|][0];
      }
    }
  }

  /** ParentOf depends only on the facts a stable change keeps. */
  lemma StableParent(m: Merged, r: Merged, p: Path)
    requires Stable(m, r) && FileKey(p) in m.nodes && m.nodes[FileKey(p)].filename.Some?
    ensures r.nodes[FileKey(p)].filename.Some?
    ensures ParentOf(r.nodes[FileKey(p)]) == ParentOf(m.nodes[FileKey(p)])
  {
  }

  // ---------------------------------------------------------------------------
  // Merging one child.

  /**
   * A child whose filename is already registered adds the current file to that
   * record's parents and changes nothing else: not the record's other fields,
   * not the other records, the key order or the queue.
   */
  lemma MergeRediscovered(m: Merged, absolute: Path, child: Node, traverse: bool)
    requires Storable(child) && child.filename.Some? && FileKey(child.filename.value) in m.nodes
    ensures var r := MergeChild(m, absolute, child, traverse);
            var k := FileKey(child.filename.value);
            && r.order == m.order && r.queue == m.queue && r.nodes.Keys == m.nodes.Keys
            && r.nodes[k] == m.nodes[k].(parents := m.nodes[k].parents + [absolute])
            && forall k' :: k' in m.nodes && k' != k ==> r.nodes[k'] == m.nodes[k']
  {
  }

  /**
   * Any other child is stored as it is under its key; the key joins the order
   * only when new; and the child's filename is queued exactly when it is not
   * a builtin and is a plain file or packages are traversed.
   */
  lemma MergeStored(m: Merged, absolute: Path, child: Node, traverse: bool)
    requires Storable(child) && !(child.filename.Some? && FileKey(child.filename.value) in m.nodes)
    ensures var r := MergeChild(m, absolute, child, traverse);
            && r.nodes == m.nodes[StoreKey(child) := child]
            && (StoreKey(child) in m.nodes ==> r.order == m.order)
            && (StoreKey(child) !in m.nodes ==> r.order == m.order + [StoreKey(child)])
            && (child.isNative ==> r.queue == m.queue)
            && (!child.isNative && child.isModule ==> r.queue == if traverse then m.queue + [child.filename.value] else m.queue)
            && (!child.isNative && !child.isModule ==> r.queue == m.queue + [child.filename.value])
  {
  }

  /** A builtin required again replaces its earlier record; its key keeps its place. */
  lemma NativeOverwritten(m: Merged, absolute: Path, child: Node, traverse: bool)
    requires KeysFit(m) && child.isNative && child.filename.None? && NativeKey(child.id) in m.nodes
    ensures var r := MergeChild(m, absolute, child, traverse);
            r.order == m.order && r.queue == m.queue && r.nodes[NativeKey(child.id)] == child
  {
  }

  /** One merge keeps the invariant and is a stable change. */
  lemma MergeChildInv(w: World, m: Merged, absolute: Path, child: Node, traverse: bool, entries: seq<Path>)
    requires Inv(w, m, entries, traverse)
    requires Expandable(m, absolute, traverse)
    requires ChildShape(w, ParentOf(m.nodes[FileKey(absolute)]), child)
    ensures Stable(m, MergeChild(m, absolute, child, traverse))
    ensures Inv(w, MergeChild(m, absolute, child, traverse), entries, traverse)
  {
    if child.filename.Some? && FileKey(child.filename.value) in m.nodes {
      RediscoveredInv(w, m, absolute, child, traverse, entries);
    } else {
      StoredStable(m, absolute, child, traverse);
      StoredInv(w, m, absolute, child, traverse, entries);
    }
  }

  lemma RediscoveredInv(w: World, m: Merged, absolute: Path, child: Node, traverse: bool, entries: seq<Path>)
    requires Inv(w, m, entries, traverse)
    requires Expandable(m, absolute, traverse)
    requires Storable(child) && child.filename.Some? && FileKey(child.filename.value) in m.nodes
    ensures Stable(m, MergeChild(m, absolute, child, traverse))
    ensures Inv(w, MergeChild(m, absolute, child, traverse), entries, traverse)
  {
    var r := MergeChild(m, absolute, child, traverse);
    var k := FileKey(child.filename.value);
    assert r.nodes[k].parents[..|m.nodes[k].parents|] == m.nodes[k].parents;
    assert Stable(m, r);
    StableKeeps(w, m, r, entries, traverse);
    RediscoveredParents(m, r, absolute, k, traverse);
    assert QueueExpandable(r, traverse);
    assert GroupsFit(r, entries);
  }

  /** Every parent of `r`, where `r` extends the parents of `k` by `absolute` and keeps the rest, is expandable. */
  lemma RediscoveredParents(m: Merged, r: Merged, absolute: Path, k: Key, traverse: bool)
    requires ParentsExpandable(m, traverse) && Expandable(m, absolute, traverse)
    requires k in m.nodes && r.nodes.Keys == m.nodes.Keys
    requires forall p :: Expandable(m, p, traverse) ==> Expandable(r, p, traverse)
    requires r.nodes[k].parents == m.nodes[k].parents + [absolute]
    requires forall k2 :: k2 in m.nodes && k2 != k ==> r.nodes[k2].parents == m.nodes[k2].parents
    ensures ParentsExpandable(r, traverse)
  {
    forall k2, i | k2 in r.nodes && 0 <= i < |r.nodes[k2].parents|
      ensures Expandable(r, r.nodes[k2].parents[i], traverse)
    {
      if k2 == k && i == |m.nodes[k].parents| {
        assert r.nodes[k2].parents[i] == absolute;
      } else {
        assert r.nodes[k2].parents[i] == m.nodes[k2].parents[i];
      }
    }
  }

  lemma StoredStable(m: Merged, absolute: Path, child: Node, traverse: bool)
    requires KeysFit(m)
    requires Storable(child) && !(child.filename.Some? && FileKey(child.filename.value) in m.nodes)
    ensures Stable(m, MergeChild(m, absolute, child, traverse))
  {
    var r := MergeChild(m, absolute, child, traverse);
    var k := StoreKey(child);
    assert k.FileKey? ==> k !in m.nodes;
    forall p | FileKey(p) in m.nodes
      ensures SameFacts(m.nodes[FileKey(p)], r.nodes[FileKey(p)])
    {
      assert FileKey(p) != k;
      assert m.nodes[FileKey(p)].parents[..|m.nodes[FileKey(p)].parents|] == m.nodes[FileKey(p)].parents;
    }
  }

  lemma StoredInv(w: World, m: Merged, absolute: Path, child: Node, traverse: bool, entries: seq<Path>)
    requires Inv(w, m, entries, traverse)
    requires Expandable(m, absolute, traverse)
    requires ChildShape(w, ParentOf(m.nodes[FileKey(absolute)]), child)
    requires !(child.filename.Some? && FileKey(child.filename.value) in m.nodes)
    requires Stable(m, MergeChild(m, absolute, child, traverse))
    ensures Inv(w, MergeChild(m, absolute, child, traverse), entries, traverse)
  {
    var r := MergeChild(m, absolute, child, traverse);
    StableKeeps(w, m, r, entries, traverse);
    StoredKeys(w, m, absolute, child, traverse, entries);
    StoredQueue(w, m, absolute, child, traverse, entries);
    StoredParents(w, m, absolute, child, traverse, entries);
    StoredGroups(w, m, absolute, child, traverse, entries);
  }

  lemma StoredKeys(w: World, m: Merged, absolute: Path, child: Node, traverse: bool, entries: seq<Path>)
    requires Inv(w, m, entries, traverse)
    requires Expandable(m, absolute, traverse)
    requires ChildShape(w, ParentOf(m.nodes[FileKey(absolute)]), child)
    requires !(child.filename.Some? && FileKey(child.filename.value) in m.nodes)
    requires Stable(m, MergeChild(m, absolute, child, traverse))
    ensures OrderMatches(MergeChild(m, absolute, child, traverse))
    ensures KeysFit(MergeChild(m, absolute, child, traverse))
  {
    StoredOrder(m, absolute, child, traverse);
    StoredFits(w, m, absolute, child, traverse, ParentOf(m.nodes[FileKey(absolute)]));
  }

  /** Storing a child keeps every key listed once, and exactly the registered keys listed. */
  lemma StoredOrder(m: Merged, absolute: Path, child: Node, traverse: bool)
    requires OrderMatches(m) && Storable(child)
    requires !(child.filename.Some? && FileKey(child.filename.value) in m.nodes)
    ensures OrderMatches(MergeChild(m, absolute, child, traverse))
  {
    var k := StoreKey(child);
    var r := MergeChild(m, absolute, child, traverse);
    assert r.nodes.Keys == m.nodes.Keys + {k};
    if k !in m.nodes {
      assert r.order == m.order + [k];
      forall i, j | 0 <= i < j < |r.order| ensures r.order[i] != r.order[j] {
        if j == |m.order| {
          assert r.order[i] in m.order;
        }
      }
    }
  }

  /** A stored child fits its key. */
  lemma StoredFits(w: World, m: Merged, absolute: Path, child: Node, traverse: bool, parent: Parent)
    requires KeysFit(m) && ChildShape(w, parent, child)
    requires !(child.filename.Some? && FileKey(child.filename.value) in m.nodes)
    ensures KeysFit(MergeChild(m, absolute, child, traverse))
  {
    assert KeyFits(StoreKey(child), child);
  }

  lemma StoredQueue(w: World, m: Merged, absolute: Path, child: Node, traverse: bool, entries: seq<Path>)
    requires Inv(w, m, entries, traverse)
    requires Expandable(m, absolute, traverse)
    requires ChildShape(w, ParentOf(m.nodes[FileKey(absolute)]), child)
    requires !(child.filename.Some? && FileKey(child.filename.value) in m.nodes)
    requires Stable(m, MergeChild(m, absolute, child, traverse))
    ensures QueueExpandable(MergeChild(m, absolute, child, traverse), traverse)
  {
    var r := MergeChild(m, absolute, child, traverse);
    StableKeeps(w, m, r, entries, traverse);
    forall i | 0 <= i < |r.queue| && r.queue[i] != ""
      ensures Expandable(r, r.queue[i], traverse)
    {
      if i < |m.queue| {
        assert r.queue[i] == m.queue[i];
      }
    }
  }

  lemma StoredParents(w: World, m: Merged, absolute: Path, child: Node, traverse: bool, entries: seq<Path>)
    requires Inv(w, m, entries, traverse)
    requires Expandable(m, absolute, traverse)
    requires ChildShape(w, ParentOf(m.nodes[FileKey(absolute)]), child)
    requires !(child.filename.Some? && FileKey(child.filename.value) in m.nodes)
    requires Stable(m, MergeChild(m, absolute, child, traverse))
    ensures ParentsExpandable(MergeChild(m, absolute, child, traverse), traverse)
  {
    var r := MergeChild(m, absolute, child, traverse);
    var k := StoreKey(child);
    StableKeeps(w, m, r, entries, traverse);
    forall k2, i | k2 in r.nodes && 0 <= i < |r.nodes[k2].parents|
      ensures Expandable(r, r.nodes[k2].parents[i], traverse)
    {
      if k2 == k {
        assert r.nodes[k2].parents[i] == absolute;
      } else {
        assert r.nodes[k2].parents[i] == m.nodes[k2].parents[i];
      }
    }
  }

  lemma StoredGroups(w: World, m: Merged, absolute: Path, child: Node, traverse: bool, entries: seq<Path>)
    requires Inv(w, m, entries, traverse)
    requires Expandable(m, absolute, traverse)
    requires ChildShape(w, ParentOf(m.nodes[FileKey(absolute)]), child)
    requires !(child.filename.Some? && FileKey(child.filename.value) in m.nodes)
    requires Stable(m, MergeChild(m, absolute, child, traverse))
    ensures GroupsFit(MergeChild(m, absolute, child, traverse), entries)
  {
    var r := MergeChild(m, absolute, child, traverse);
    var k := StoreKey(child);
    var pk := FileKey(absolute);
    StableKeeps(w, m, r, entries, traverse);
    forall p | FileKey(p) in r.nodes
      ensures GroupFits(r, p, entries)
    {
      if FileKey(p) == k {
        assert pk != k;
        assert r.nodes[pk].mgroup == m.nodes[pk].mgroup;
      } else {
        assert FileKey(p) in m.nodes;
      }
    }
  }

  /** Merging all children of an expandable file keeps the invariant and is a stable change. */
  lemma {:induction false} MergeAllInv(w: World, m: Merged, absolute: Path, cs: seq<Node>,
                                       traverse: bool, entries: seq<Path>, parent: Parent)
    requires Inv(w, m, entries, traverse)
    requires Expandable(m, absolute, traverse)
    requires parent == ParentOf(m.nodes[FileKey(absolute)])
    requires forall c :: c in cs ==> Storable(c)
    requires forall c :: c in cs ==> ChildShape(w, parent, c)
    ensures Stable(m, MergeAll(m, absolute, cs, traverse))
    ensures Inv(w, MergeAll(m, absolute, cs, traverse), entries, traverse)
    decreases |cs|
  {
    if cs != [] {
      var init := cs[..|cs| - 1];
      assert forall c :: c in init ==> c in cs;
      MergeAllInv(w, m, absolute, init, traverse, entries, parent);
      MergeLastInv(w, m, MergeAll(m, absolute, init, traverse), absolute, cs[|cs| - 1], traverse, entries, parent);
    }
  }

  /** One more child merged after a stable, invariant-keeping prefix of merges. */
  lemma MergeLastInv(w: World, m: Merged, mid: Merged, absolute: Path, c: Node,
                     traverse: bool, entries: seq<Path>, parent: Parent)
    requires Expandable(m, absolute, traverse) && m.nodes[FileKey(absolute)].filename.Some?
    requires parent == ParentOf(m.nodes[FileKey(absolute)])
    requires Stable(m, mid) && Inv(w, mid, entries, traverse)
    requires Storable(c) && ChildShape(w, parent, c)
    ensures Stable(m, MergeChild(mid, absolute, c, traverse))
    ensures Inv(w, MergeChild(mid, absolute, c, traverse), entries, traverse)
  {
    StableKeeps(w, m, mid, entries, traverse);
    StableParent(m, mid, absolute);
    MergeChildInv(w, mid, absolute, c, traverse, entries);
    StableTrans(m, mid, MergeChild(mid, absolute, c, traverse));
  }

  // ---------------------------------------------------------------------------
  // Discovery: which expansions the registry already records.

  /**
   * The child `c` of the file `p` is recorded: a builtin under its key, any
   * other child under its filename with `p` among that record's parents.
   */
  ghost predicate Linked(m: Merged, p: Path, c: Node) {
    if c.isNative then NativeKey(c.id) in m.nodes
    else c.filename.Some? && FileKey(c.filename.value) in m.nodes
         && p in m.nodes[FileKey(c.filename.value)].parents
  }

  /** The registered file `p` has every child its expansion yields recorded (a failing expansion yields none). */
  ghost predicate Covered(w: World, m: Merged, p: Path) {
    && FileKey(p) in m.nodes && m.nodes[FileKey(p)].filename.Some?
    && match GetChildren(w, ParentOf(m.nodes[FileKey(p)]))
       case Failure(_) => true
       case Success(cs) => forall c :: c in cs ==> Linked(m, p, c)
  }

  /**
   * The crawl's frontier: every expandable path still waits in the queue or
   * was expanded, and every expanded path has its children recorded.
   */
  ghost predicate Frontier(w: World, traverse: bool, m: Merged, expanded: set<Path>) {
    && (forall p :: p != "" && Expandable(m, p, traverse) ==> p in m.queue || p in expanded)
    && (forall p :: p in expanded ==> Covered(w, m, p))
  }

  /** Every expandable file has all of its children recorded. */
  ghost predicate Closed(w: World, traverse: bool, m: Merged) {
    forall p :: p != "" && Expandable(m, p, traverse) ==> Covered(w, m, p)
  }

  /** With nothing left in the queue the frontier is closed. */
  lemma FrontierClosed(w: World, traverse: bool, m: Merged, expanded: set<Path>)
    requires Frontier(w, traverse, m, expanded) && m.queue == []
    ensures Closed(w, traverse, m)
  {
  }

  /** A recorded child stays recorded through every stable change. */
  lemma LinkedStable(m: Merged, r: Merged, p: Path, c: Node)
    requires Stable(m, r) && Linked(m, p, c)
    ensures Linked(r, p, c)
  {
    if !c.isNative {
      var k := FileKey(c.filename.value);
      assert r.nodes[k].parents[..|m.nodes[k].parents|] == m.nodes[k].parents;
    }
  }

  /** A covered file stays covered through every stable change. */
  lemma CoveredStable(w: World, m: Merged, r: Merged, p: Path)
    requires Stable(m, r) && Covered(w, m, p)
    ensures Covered(w, r, p)
  {
    StableParent(m, r, p);
    match GetChildren(w, ParentOf(m.nodes[FileKey(p)]))
    case Failure(_) =>
    case Success(cs) =>
      forall c | c in cs ensures Linked(r, p, c) {
        LinkedStable(m, r, p, c);
      }
  }

  /** A merge keeps every recorded child recorded. */
  lemma MergeChildKeepsLinks(m: Merged, absolute: Path, c: Node, traverse: bool, q: Path, d: Node)
    requires Storable(c) && Linked(m, q, d)
    ensures Linked(MergeChild(m, absolute, c, traverse), q, d)
  {
    var r := MergeChild(m, absolute, c, traverse);
    if !d.isNative {
      var k := FileKey(d.filename.value);
      if c.filename.Some? && FileKey(c.filename.value) in m.nodes {
        assert r.nodes[k].parents[..|m.nodes[k].parents|] == m.nodes[k].parents;
      } else {
        assert StoreKey(c) != k;
      }
    }
  }

  /** What a child of `absolute` looks like as far as its recording goes. */
  ghost predicate ChildOf(absolute: Path, c: Node) {
    Storable(c) && (c.isNative ==> c.filename.None?) && c.parents == [absolute]
  }

  /** Merging a child records it. */
  lemma MergeChildLinks(m: Merged, absolute: Path, c: Node, traverse: bool)
    requires ChildOf(absolute, c)
    ensures Linked(MergeChild(m, absolute, c, traverse), absolute, c)
  {
  }

  /** Merging all children of `absolute` records every one of them. */
  lemma {:induction false} MergeAllLinks(m: Merged, absolute: Path, cs: seq<Node>, traverse: bool)
    requires forall c :: c in cs ==> Storable(c) && ChildOf(absolute, c)
    ensures forall c :: c in cs ==> Linked(MergeAll(m, absolute, cs, traverse), absolute, c)
    decreases |cs|
  {
    if cs != [] {
      var init, last := cs[..|cs| - 1], cs[|cs| - 1];
      assert forall c :: c in init ==> c in cs;
      assert last in cs;
      MergeAllLinks(m, absolute, init, traverse);
      var mid := MergeAll(m, absolute, init, traverse);
      forall c | c in cs ensures Linked(MergeChild(mid, absolute, last, traverse), absolute, c) {
        if c == last {
          MergeChildLinks(mid, absolute, last, traverse);
        } else {
          assert c in init by {
            assert cs == init + [last];
          }
          MergeChildKeepsLinks(mid, absolute, last, traverse, absolute, c);
        }
      }
    }
  }

  /** A path a merge makes expandable is queued by that merge. */
  lemma MergeChildReaches(m: Merged, absolute: Path, c: Node, traverse: bool)
    requires Storable(c)
    ensures var r := MergeChild(m, absolute, c, traverse);
            forall q :: Expandable(r, q, traverse) ==> Expandable(m, q, traverse) || q in r.queue
  {
    var r := MergeChild(m, absolute, c, traverse);
    forall q | Expandable(r, q, traverse) ensures Expandable(m, q, traverse) || q in r.queue {
      if !(c.filename.Some? && FileKey(c.filename.value) in m.nodes) && FileKey(q) == StoreKey(c) {
        assert r.queue == m.queue + [q];
      }
    }
  }

  /** A path that merging children makes expandable is queued by those merges. */
  lemma {:induction false} MergeAllReaches(m: Merged, absolute: Path, cs: seq<Node>, traverse: bool)
    requires forall c :: c in cs ==> Storable(c)
    ensures var r := MergeAll(m, absolute, cs, traverse);
            forall q :: Expandable(r, q, traverse) ==> Expandable(m, q, traverse) || q in r.queue
    decreases |cs|
  {
    if cs != [] {
      var init, last := cs[..|cs| - 1], cs[|cs| - 1];
      assert forall c :: c in init ==> c in cs;
      assert last in cs;
      MergeAllReaches(m, absolute, init, traverse);
      var mid := MergeAll(m, absolute, init, traverse);
      MergeChildReaches(mid, absolute, last, traverse);
      MergeChildGrowth(mid, absolute, last, traverse);
      var r := MergeChild(mid, absolute, last, traverse);
      assert forall q :: q in mid.queue ==> q in r.queue;
    }
  }

  // ---------------------------------------------------------------------------
  // Growth: keys and queue only grow, and the queue never grows faster than the keys.

  /** A merge queues at most one path, and only together with a new key. */
  lemma MergeChildGrowth(m: Merged, absolute: Path, c: Node, traverse: bool)
    requires Storable(c)
    ensures var r := MergeChild(m, absolute, c, traverse);
            && (r.queue == m.queue || (|r.queue| == |m.queue| + 1 && r.order == m.order + [FileKey(r.queue[|m.queue|])] && r.queue[..|m.queue|] == m.queue))
            && (r.order == m.order || r.order == m.order + [r.order[|m.order|]])
  {
    var r := MergeChild(m, absolute, c, traverse);
    if !(c.filename.Some? && FileKey(c.filename.value) in m.nodes) && Enqueued(c, traverse) {
      assert c.filename.Some?;
      assert StoreKey(c) == FileKey(c.filename.value);
      assert r.queue == m.queue + [c.filename.value];
    }
  }

  /** Merging children only appends to the key order and the queue, the queue by no more than the keys. */
  lemma {:induction false} MergeAllGrowth(m: Merged, absolute: Path, cs: seq<Node>, traverse: bool)
    requires forall c :: c in cs ==> Storable(c)
    ensures var r := MergeAll(m, absolute, cs, traverse);
            && |m.queue| <= |r.queue| && r.queue[..|m.queue|] == m.queue
            && |m.order| <= |r.order| && r.order[..|m.order|] == m.order
            && |r.queue| - |m.queue| <= |r.order| - |m.order|
    decreases |cs|
  {
    if cs != [] {
      var init := cs[..|cs| - 1];
      assert forall c :: c in init ==> c in cs;
      MergeAllGrowth(m, absolute, init, traverse);
      var mid := MergeAll(m, absolute, init, traverse);
      var r := MergeAll(m, absolute, cs, traverse);
      var c := cs[|cs| - 1];
      assert c in cs;
      MergeChildGrowth(mid, absolute, c, traverse);
      assert r.queue[..|mid.queue|] == mid.queue;
      assert r.order[..|mid.order|] == mid.order;
      assert r.queue[..|m.queue|] == r.queue[..|mid.queue|][..|m.queue|];
      assert r.order[..|m.order|] == r.order[..|mid.order|][..|m.order|];
    }
  }

  // ---------------------------------------------------------------------------
  // Seeding.

  /** Seeding queues the entries. */
  lemma {:induction false} SeedQueue(w: World, es: seq<Path>)
    ensures Seed(w, es).queue == es
    decreases |es|
  {
    if es != [] {
      var init := es[..|es| - 1];
      SeedQueue(w, init);
      assert Seed(w, es).queue == Seed(w, init).queue + [es[|es| - 1]];
      assert es == init + [es[|es| - 1]];
    }
  }

  /** Seeding registers exactly the entries' file keys. */
  lemma {:induction false} SeedKeys(w: World, es: seq<Path>)
    ensures forall k :: k in Seed(w, es).nodes <==> k.FileKey? && k.path in es
    decreases |es|
  {
    if es != [] {
      var init, last := es[..|es| - 1], es[|es| - 1];
      SeedKeys(w, init);
      assert Seed(w, es).nodes.Keys == Seed(w, init).nodes.Keys + {FileKey(last)};
      assert forall e :: e in es <==> e in init || e == last;
    }
  }

  /** Seeding stores every entry's entry record under its key. */
  lemma {:induction false} SeedEntries(w: World, es: seq<Path>)
    ensures forall e :: e in es ==> FileKey(e) in Seed(w, es).nodes && Seed(w, es).nodes[FileKey(e)] == EntryObject(w, e)
    decreases |es|
  {
    if es != [] {
      var init, last := es[..|es| - 1], es[|es| - 1];
      SeedEntries(w, init);
      assert Seed(w, es).nodes == Seed(w, init).nodes[FileKey(last) := EntryObject(w, last)];
      assert forall e :: e in es <==> e in init || e == last;
    }
  }

  /** The seeded registry: entry records under the entries' keys, and the entries queued. */
  lemma SeedRecords(w: World, es: seq<Path>)
    ensures Seed(w, es).queue == es
    ensures forall k :: k in Seed(w, es).nodes <==> k.FileKey? && k.path in es
    ensures forall e :: e in es ==> Seed(w, es).nodes[FileKey(e)] == EntryObject(w, e)
  {
    SeedQueue(w, es);
    SeedKeys(w, es);
    SeedEntries(w, es);
  }

  /** The seeded keys are listed once each, in first-occurrence order, the first entry's first. */
  lemma {:induction false} SeedOrder(w: World, es: seq<Path>)
    ensures OrderMatches(Seed(w, es))
    ensures |es| > 0 ==> |Seed(w, es).order| > 0 && Seed(w, es).order[0] == FileKey(es[0])
    decreases |es|
  {
    if es != [] {
      var init := es[..|es| - 1];
      SeedOrder(w, init);
      if |init| > 0 {
        assert init[0] == es[0];
      }
    }
  }

  /** The entries' file keys, position by position. */
  function FileKeys(es: seq<Path>): (ks: seq<Key>)
    ensures |ks| == |es| && forall i :: 0 <= i < |es| ==> ks[i] == FileKey(es[i])
  {
    seq(|es|, i requires 0 <= i < |es| => FileKey(es[i]))
  }

  lemma FileKeysSnoc(es: seq<Path>)
    requires es != []
    ensures FileKeys(es) == FileKeys(es[..|es| - 1]) + [FileKey(es[|es| - 1])]
  {
  }

  /** The seeded key order is the entries' keys with repeats dropped: each key where it first occurs. */
  lemma {:induction false} SeedOrderDedup(w: World, es: seq<Path>)
    ensures Seed(w, es).order == Dedup(FileKeys(es))
    decreases |es|
  {
    if es != [] {
      var init, last := es[..|es| - 1], es[|es| - 1];
      SeedOrderDedup(w, init);
      SeedKeys(w, init);
      FileKeysSnoc(es);
      DedupSnoc(FileKeys(init), FileKey(last));
      assert FileKey(last) in FileKeys(init) <==> last in init;
    }
  }

  /**
   * Seeding queues the resolved entries and registers exactly their keys,
   * once each, in the order of their first occurrence, each holding its
   * entry record.
   */
  lemma SeedShape(w: World, es: seq<Path>)
    ensures Seed(w, es).queue == es
    ensures OrderMatches(Seed(w, es))
    ensures forall k :: k in Seed(w, es).nodes <==> k.FileKey? && k.path in es
    ensures forall e :: e in es ==> Seed(w, es).nodes[FileKey(e)] == EntryObject(w, e)
    ensures |es| > 0 ==> |Seed(w, es).order| > 0 && Seed(w, es).order[0] == FileKey(es[0])
    ensures Seed(w, es).order == Dedup(FileKeys(es))
    ensures exists idx :: FirstOccurrences(FileKeys(es), Seed(w, es).order, idx)
  {
    SeedRecords(w, es);
    SeedOrder(w, es);
    SeedOrderDedup(w, es);
    DedupFirst(FileKeys(es));
  }

  /** The seeded registry satisfies the invariant. */
  lemma SeedInv(w: World, es: seq<Path>, traverse: bool)
    ensures Inv(w, Seed(w, es), es, traverse)
  {
    SeedOrder(w, es);
    SeedQueued(w, es, traverse);
    SeedFits(w, es);
    SeedEntriesFit(w, es, traverse);
  }

  /** The seeded records are the entries' records: no parents, and each entry its own starting point. */
  lemma SeedEntriesFit(w: World, es: seq<Path>, traverse: bool)
    ensures EntriesSeeded(w, Seed(w, es), es)
    ensures ParentsExpandable(Seed(w, es), traverse)
    ensures GroupsFit(Seed(w, es), es)
  {
    SeedRecords(w, es);
    var m := Seed(w, es);
    forall p | FileKey(p) in m.nodes ensures GroupFits(m, p, es) {
    }
  }

  /** Every seeded path in the queue is an expandable entry. */
  lemma SeedQueued(w: World, es: seq<Path>, traverse: bool)
    ensures QueueExpandable(Seed(w, es), traverse)
  {
    SeedRecords(w, es);
    var m := Seed(w, es);
    forall i | 0 <= i < |m.queue| && m.queue[i] != ""
      ensures Expandable(m, m.queue[i], traverse)
    {
      assert m.queue[i] in es;
    }
  }

  /** Every seeded record fits its key. */
  lemma SeedFits(w: World, es: seq<Path>)
    ensures KeysFit(Seed(w, es))
  {
    SeedRecords(w, es);
    var m := Seed(w, es);
    forall k | k in m.nodes ensures KeyFits(k, m.nodes[k]) {
      assert k.path in es;
    }
  }

  // ---------------------------------------------------------------------------
  // Recording a child's error.

  /** The registry after `error` is recorded on the file `p`. */
  function SetError(m: Merged, p: Path, e: ParseError): Merged
    requires FileKey(p) in m.nodes
  {
    m.(nodes := m.nodes[FileKey(p) := m.nodes[FileKey(p)].(error := Some(e))])
  }

  /** Recording an error changes nothing but that record's error, and keeps the invariant. */
  lemma SetErrorInv(w: World, m: Merged, p: Path, e: ParseError, traverse: bool, entries: seq<Path>)
    requires Inv(w, m, entries, traverse) && FileKey(p) in m.nodes
    ensures Stable(m, SetError(m, p, e))
    ensures Inv(w, SetError(m, p, e), entries, traverse)
  {
    var r := SetError(m, p, e);
    forall q | FileKey(q) in m.nodes
      ensures SameFacts(m.nodes[FileKey(q)], r.nodes[FileKey(q)])
    {
      assert r.nodes[FileKey(q)].parents == m.nodes[FileKey(q)].parents;
    }
    StableKeeps(w, m, r, entries, traverse);
    forall k, i | k in r.nodes && 0 <= i < |r.nodes[k].parents|
      ensures Expandable(r, r.nodes[k].parents[i], traverse)
    {
      assert r.nodes[k].parents == m.nodes[k].parents;
    }
    assert QueueExpandable(r, traverse);
    assert GroupsFit(r, entries);
  }

  // ---------------------------------------------------------------------------
  // Soundness: every record and every parent link comes from an expansion.

  /** Some child among `cs` is stored under `k`. */
  ghost predicate KeyOfChild(cs: seq<Node>, k: Key) {
    exists c :: c in cs && Storable(c) && StoreKey(c) == k
  }

  /** Expanding the registered file `p` yields a child stored under `k`. */
  ghost predicate Yields(w: World, m: Merged, p: Path, k: Key) {
    FileKey(p) in m.nodes && m.nodes[FileKey(p)].filename.Some?
    && match GetChildren(w, ParentOf(m.nodes[FileKey(p)]))
       case Failure(_) => false
       case Success(cs) => KeyOfChild(cs, k)
  }

  /** Some file in `expanded` yields `k` when expanded. */
  ghost predicate Justified(w: World, m: Merged, expanded: set<Path>, k: Key) {
    exists p :: p in expanded && Yields(w, m, p, k)
  }

  /**
   * Nothing is registered that the crawl did not reach: the expanded files
   * are expandable; every key is an entry's or yielded by an expanded file;
   * and every parent link names an expanded file whose expansion yields
   * that record.
   */
  ghost predicate Sound(w: World, traverse: bool, m: Merged, entries: seq<Path>, expanded: set<Path>) {
    && (forall p :: p in expanded ==> p != "" && Expandable(m, p, traverse))
    && (forall k :: k in m.nodes ==> (k.FileKey? && k.path in entries) || Justified(w, m, expanded, k))
    && (forall k, q :: k in m.nodes && q in m.nodes[k].parents ==> q in expanded && Yields(w, m, q, k))
  }

  /** From `a` to `b` only the keys of the children `cs` are added, and only `p` is added as a parent, of those. */
  ghost predicate Grown(a: map<Key, Node>, b: map<Key, Node>, p: Path, cs: seq<Node>) {
    && (forall k :: k in b ==> k in a || KeyOfChild(cs, k))
    && (forall k, q :: k in b && q in b[k].parents ==>
          (k in a && q in a[k].parents) || (q == p && KeyOfChild(cs, k)))
  }

  /** Merging a child of `p` adds at most its key, with `p` as its parent. */
  lemma MergeChildGrown(m: Merged, p: Path, c: Node, traverse: bool)
    requires Storable(c) && ChildOf(p, c)
    ensures Grown(m.nodes, MergeChild(m, p, c, traverse).nodes, p, [c])
  {
    assert c in [c];
    assert KeyOfChild([c], StoreKey(c));
  }

  lemma GrownTrans(a: map<Key, Node>, b: map<Key, Node>, c: map<Key, Node>, p: Path, xs: seq<Node>, ys: seq<Node>)
    requires Grown(a, b, p, xs) && Grown(b, c, p, ys)
    ensures Grown(a, c, p, xs + ys)
  {
    forall k | KeyOfChild(xs, k) || KeyOfChild(ys, k) ensures KeyOfChild(xs + ys, k) {
      var x :| (x in xs || x in ys) && Storable(x) && StoreKey(x) == k;
      assert x in xs + ys;
    }
  }

  /** Merging all children of `p` adds only their keys, and `p` only as a parent of those. */
  lemma {:induction false} MergeAllGrown(m: Merged, p: Path, cs: seq<Node>, traverse: bool)
    requires forall c :: c in cs ==> Storable(c) && ChildOf(p, c)
    ensures Grown(m.nodes, MergeAll(m, p, cs, traverse).nodes, p, cs)
    decreases |cs|
  {
    if cs != [] {
      var init, last := cs[..|cs| - 1], cs[|cs| - 1];
      assert forall c :: c in init ==> c in cs;
      MergeAllGrown(m, p, init, traverse);
      var mid := MergeAll(m, p, init, traverse);
      MergeChildGrown(mid, p, last, traverse);
      GrownTrans(m.nodes, mid.nodes, MergeChild(mid, p, last, traverse).nodes, p, init, [last]);
      assert init + [last] == cs;
    }
  }

  /** Recording an error adds no key and no parent. */
  lemma SetErrorGrown(m: Merged, p: Path, e: ParseError)
    requires FileKey(p) in m.nodes
    ensures Grown(m.nodes, SetError(m, p, e).nodes, p, [])
  {
  }

  /** What an expansion yields survives every stable change. */
  /** In a sound registry a parent of a record is an expanded, expandable file that yields the record. */
  lemma SoundParent(w: World, traverse: bool, m: Merged, entries: seq<Path>, expanded: set<Path>, k: Key, q: Path)
    requires Sound(w, traverse, m, entries, expanded) && k in m.nodes && q in m.nodes[k].parents
    ensures q in expanded && q != "" && Expandable(m, q, traverse) && Yields(w, m, q, k)
  {
  }

  lemma YieldsStable(w: World, m: Merged, r: Merged, p: Path, k: Key)
    requires Stable(m, r) && Yields(w, m, p, k)
    ensures Yields(w, r, p, k)
  {
    StableParent(m, r, p);
  }

  /**
   * One expansion step: `r` grows from `m` by merging the children `cs`
   * of the expandable file `p` (none, after an error).
   */
  ghost predicate GrowStep(w: World, traverse: bool, m: Merged, r: Merged, p: Path, cs: seq<Node>) {
    && Stable(m, r)
    && p != "" && Expandable(m, p, traverse) && m.nodes[FileKey(p)].filename.Some?
    && Grown(m.nodes, r.nodes, p, cs)
    && (cs == [] || GetChildren(w, ParentOf(m.nodes[FileKey(p)])) == Success(cs))
  }

  /**
   * Expanding `p` into its children `cs` (or into nothing, after an error)
   * keeps the registry sound, with `p` counted as expanded.
   */
  lemma SoundGrow(w: World, traverse: bool, entries: seq<Path>, m: Merged, r: Merged, expanded: set<Path>,
                  p: Path, cs: seq<Node>)
    requires Sound(w, traverse, m, entries, expanded) && Stable(m, r)
    requires p != "" && Expandable(m, p, traverse) && m.nodes[FileKey(p)].filename.Some?
    requires Grown(m.nodes, r.nodes, p, cs)
    requires cs == [] || GetChildren(w, ParentOf(m.nodes[FileKey(p)])) == Success(cs)
    ensures Sound(w, traverse, r, entries, expanded + {p})
  {
    assert GrowStep(w, traverse, m, r, p, cs);
    GrowExpanded(w, traverse, entries, m, r, expanded, p, cs);
    GrowKeys(w, traverse, entries, m, r, expanded, p, cs);
    GrowParents(w, traverse, entries, m, r, expanded, p, cs);
  }

  /** After expanding `p`, every expanded file, `p` included, is still expandable. */
  lemma GrowExpanded(w: World, traverse: bool, entries: seq<Path>, m: Merged, r: Merged, expanded: set<Path>,
                     p: Path, cs: seq<Node>)
    requires Sound(w, traverse, m, entries, expanded) && GrowStep(w, traverse, m, r, p, cs)
    ensures forall q :: q in expanded + {p} ==> q != "" && Expandable(r, q, traverse)
  {
    forall q | q in expanded + {p} ensures q != "" && Expandable(r, q, traverse) {
      assert SameFacts(m.nodes[FileKey(q)], r.nodes[FileKey(q)]);
    }
  }

  /** After expanding `p`, every key of one of its children is yielded by `p`. */
  lemma GrowYields(w: World, traverse: bool, m: Merged, r: Merged, p: Path, cs: seq<Node>)
    requires GrowStep(w, traverse, m, r, p, cs)
    ensures forall k :: KeyOfChild(cs, k) ==> Yields(w, r, p, k)
  {
    StableParent(m, r, p);
    forall k | KeyOfChild(cs, k) ensures Yields(w, r, p, k) {
      var c :| c in cs && Storable(c) && StoreKey(c) == k;
    }
  }

  /** After expanding `p`, every key is an entry's or yielded by an expanded file. */
  lemma GrowKeys(w: World, traverse: bool, entries: seq<Path>, m: Merged, r: Merged, expanded: set<Path>,
                 p: Path, cs: seq<Node>)
    requires Sound(w, traverse, m, entries, expanded) && GrowStep(w, traverse, m, r, p, cs)
    ensures forall k :: k in r.nodes ==> (k.FileKey? && k.path in entries) || Justified(w, r, expanded + {p}, k)
  {
    GrowYields(w, traverse, m, r, p, cs);
    var done := expanded + {p};
    forall k | k in r.nodes ensures (k.FileKey? && k.path in entries) || Justified(w, r, done, k) {
      if k in m.nodes {
        if !(k.FileKey? && k.path in entries) {
          var q :| q in expanded && Yields(w, m, q, k);
          YieldsStable(w, m, r, q, k);
          assert q in done;
        }
      } else {
        assert Yields(w, r, p, k) && p in done;
      }
    }
  }

  /** After expanding `p`, every parent link names an expanded file that yields the record. */
  lemma GrowParents(w: World, traverse: bool, entries: seq<Path>, m: Merged, r: Merged, expanded: set<Path>,
                    p: Path, cs: seq<Node>)
    requires Sound(w, traverse, m, entries, expanded) && GrowStep(w, traverse, m, r, p, cs)
    ensures forall k, q :: k in r.nodes && q in r.nodes[k].parents ==> q in expanded + {p} && Yields(w, r, q, k)
  {
    GrowYields(w, traverse, m, r, p, cs);
    forall k, q | k in r.nodes && q in r.nodes[k].parents ensures q in expanded + {p} && Yields(w, r, q, k) {
      if k in m.nodes && q in m.nodes[k].parents {
        SoundParent(w, traverse, m, entries, expanded, k, q);
        YieldsStable(w, m, r, q, k);
      }
    }
  }
}
