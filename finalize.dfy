/**
 * The finishing pass: every record's parents lose their duplicates and, with
 * relative output, every parent and every present filename is rewritten
 * relative to the directory of the first entry.  Records come out in the
 * order their keys were first inserted.
 */
module Finalize {
  import opened Wrappers
  import opened Env
  import opened Nub
  import opened Records
  import opened Children
  import opened Registry

  /** The directory output is made relative to; with no entries there are no records to rewrite. */
  function Dir(w: World, entries: seq<Path>): Path
  {
    if |entries| > 0 then w.dirname(entries[0]) else ""
  }

  function Rel(w: World, dir: Path, absolute: bool, p: Path): Path
  {
    if absolute then p else w.relative(dir, p)
  }

  /** A filename as reported: made relative to `dir` unless the output is absolute or the name is empty. */
  function Shown(w: World, dir: Path, absolute: bool, f: Path): Path
  {
    if absolute || f == "" then f else w.relative(dir, f)
  }

  function RelAll(w: World, dir: Path, absolute: bool, ps: seq<Path>): (r: seq<Path>)
    ensures |r| == |ps| && forall i :: 0 <= i < |ps| ==> r[i] == Rel(w, dir, absolute, ps[i])
  {
    seq(|ps|, i requires 0 <= i < |ps| => Rel(w, dir, absolute, ps[i]))
  }

  /** One record as the crawl reports it. */
  function Present(w: World, dir: Path, absolute: bool, n: Node): Node
  {
    var withParents := n.(parents := RelAll(w, dir, absolute, Dedup(n.parents)));
    if n.filename.Some? && n.filename.value != "" && !absolute then
      withParents.(filename := Some(w.relative(dir, n.filename.value)))
    else withParents
  }

  /** The reported records, in key order. */
  function Finalized(w: World, dir: Path, absolute: bool, order: seq<Key>, nodes: map<Key, Node>): (r: seq<Node>)
    requires forall k :: k in order ==> k in nodes
    ensures |r| == |order|
    ensures forall i :: 0 <= i < |order| ==> r[i] == Present(w, dir, absolute, nodes[order[i]])
    decreases |order|
  {
    if order == [] then []
    else
      var init := order[..|order| - 1];
      assert forall k :: k in init ==> k in order;
      Finalized(w, dir, absolute, init, nodes) + [Present(w, dir, absolute, nodes[order[|order| - 1]])]
  }

  /** One more record of the key order reported. */
  lemma FinalizedStep(w: World, dir: Path, absolute: bool, order: seq<Key>, nodes: map<Key, Node>, i: nat)
    requires forall k :: k in order ==> k in nodes
    requires i < |order|
    ensures Finalized(w, dir, absolute, order[..i + 1], nodes)
         == Finalized(w, dir, absolute, order[..i], nodes) + [Present(w, dir, absolute, nodes[order[i]])]
  {
    assert order[..i + 1][..i] == order[..i];
  }

  /** The records with those whose keys are in `done` already rewritten. */
  function PresentedUpTo(w: World, dir: Path, absolute: bool, original: map<Key, Node>, done: seq<Key>): (r: map<Key, Node>)
    ensures r.Keys == original.Keys
  {
    map k | k in original :: if k in done then Present(w, dir, absolute, original[k]) else original[k]
  }

  /** Rewriting one more key of the order changes that key's record and no other. */
  lemma PresentedStep(w: World, dir: Path, absolute: bool, original: map<Key, Node>, keys: seq<Key>, i: nat)
    requires i < |keys| && keys[i] in original
    ensures PresentedUpTo(w, dir, absolute, original, keys[..i + 1])
         == PresentedUpTo(w, dir, absolute, original, keys[..i])[keys[i] := Present(w, dir, absolute, original[keys[i]])]
  {
    var l := PresentedUpTo(w, dir, absolute, original, keys[..i + 1]);
    var r := PresentedUpTo(w, dir, absolute, original, keys[..i])[keys[i] := Present(w, dir, absolute, original[keys[i]])];
    assert keys[..i + 1] == keys[..i] + [keys[i]];
    forall k | k in original ensures l[k] == r[k] {
      assert k in keys[..i + 1] <==> k in keys[..i] || k == keys[i];
    }
  }

  /**
   * One step of the finishing pass: the next key's record is still the
   * original one, and presenting it extends both the rewritten records and
   * the report.
   */
  lemma PresentedNext(w: World, dir: Path, absolute: bool, original: map<Key, Node>, keys: seq<Key>, i: nat)
    requires Distinct(keys) && (forall k :: k in keys ==> k in original) && i < |keys|
    ensures var done := PresentedUpTo(w, dir, absolute, original, keys[..i]);
            var n := Present(w, dir, absolute, done[keys[i]]);
            && PresentedUpTo(w, dir, absolute, original, keys[..i + 1]) == done[keys[i] := n]
            && Finalized(w, dir, absolute, keys[..i + 1], original) == Finalized(w, dir, absolute, keys[..i], original) + [n]
  {
    assert keys[i] in keys;
    assert keys[i] !in keys[..i];
    PresentedStep(w, dir, absolute, original, keys, i);
    FinalizedStep(w, dir, absolute, keys, original, i);
  }

  /** Making paths relative to `dir` never maps two paths to one. */
  ghost predicate RelInjective(w: World, dir: Path) {
    forall a, b :: w.relative(dir, a) == w.relative(dir, b) ==> a == b
  }

  /** Presenting a record rewrites its parents position by position from the deduplicated list. */
  lemma PresentParents(w: World, dir: Path, absolute: bool, n: Node)
    ensures Present(w, dir, absolute, n).parents == RelAll(w, dir, absolute, Dedup(n.parents))
  {
  }

  /** Every original parent is represented, rewritten, among the presented parents. */
  lemma PresentCovers(w: World, dir: Path, absolute: bool, n: Node)
    ensures forall p :: p in n.parents ==> Rel(w, dir, absolute, p) in Present(w, dir, absolute, n).parents
  {
    var d := Dedup(n.parents);
    var ps := Present(w, dir, absolute, n).parents;
    PresentParents(w, dir, absolute, n);
    DedupSpec(n.parents);
    forall p | p in n.parents ensures Rel(w, dir, absolute, p) in ps {
      var i :| 0 <= i < |d| && d[i] == p;
      assert ps[i] == Rel(w, dir, absolute, p);
    }
  }

  /** Every presented parent is the rewritten form of an original parent. */
  lemma PresentFrom(w: World, dir: Path, absolute: bool, n: Node)
    ensures var ps := Present(w, dir, absolute, n).parents;
            forall i :: 0 <= i < |ps| ==> exists p :: p in n.parents && ps[i] == Rel(w, dir, absolute, p)
  {
    var d := Dedup(n.parents);
    var ps := Present(w, dir, absolute, n).parents;
    PresentParents(w, dir, absolute, n);
    DedupSpec(n.parents);
    forall i | 0 <= i < |ps| ensures exists p :: p in n.parents && ps[i] == Rel(w, dir, absolute, p) {
      assert d[i] in d;
    }
  }

  /** Presented parents are duplicate-free when the rewriting keeps paths apart. */
  lemma PresentDistinct(w: World, dir: Path, absolute: bool, n: Node)
    requires absolute || RelInjective(w, dir)
    ensures Distinct(Present(w, dir, absolute, n).parents)
  {
    var d := Dedup(n.parents);
    var ps := Present(w, dir, absolute, n).parents;
    PresentParents(w, dir, absolute, n);
    DedupSpec(n.parents);
    forall i, j | 0 <= i < j < |ps| ensures ps[i] != ps[j] {
      assert d[i] != d[j];
    }
  }

  /**
   * Presenting a record keeps its identity, kind, group and error; its
   * parents are the first occurrences of the original parents, in order,
   * each rewritten; so they come out duplicate-free when the rewriting keeps
   * paths apart, with every original parent represented.  With relative
   * output a present, non-empty filename is made relative; otherwise the
   * filename is unchanged.
   */
  lemma PresentSpec(w: World, dir: Path, absolute: bool, n: Node)
    ensures var r := Present(w, dir, absolute, n);
            && r.id == n.id && r.isModule == n.isModule && r.isNative == n.isNative
            && r.mgroup == n.mgroup && r.error == n.error
            && r.filename.Some? == n.filename.Some?
            && (!absolute && n.filename.Some? && n.filename.value != "" ==>
                  r.filename == Some(w.relative(dir, n.filename.value)))
            && ((absolute || n.filename.None? || n.filename == Some("")) ==> r.filename == n.filename)
            && r.parents == RelAll(w, dir, absolute, Dedup(n.parents))
            && (exists idx :: FirstOccurrences(n.parents, Dedup(n.parents), idx))
            && (forall p :: p in n.parents ==> Rel(w, dir, absolute, p) in r.parents)
            && (forall i :: 0 <= i < |r.parents| ==> exists p :: p in n.parents && r.parents[i] == Rel(w, dir, absolute, p))
            && ((absolute || RelInjective(w, dir)) ==> Distinct(r.parents))
            && (n.parents != [] ==> r.parents != [])
  {
    PresentParents(w, dir, absolute, n);
    DedupFirst(n.parents);
    PresentCovers(w, dir, absolute, n);
    PresentFrom(w, dir, absolute, n);
    if absolute || RelInjective(w, dir) {
      PresentDistinct(w, dir, absolute, n);
    }
    if n.parents != [] {
      assert n.parents[0] in n.parents;
    }
  }

  // ---------------------------------------------------------------------------
  // What the report says about a finished registry.

  /** The first reported record is the first entry's, presented. */
  lemma ReportedEntry(w: World, m: Merged, entries: seq<Path>, traverse: bool, absolute: bool)
    requires Inv(w, m, entries, traverse)
    requires |entries| > 0 && |m.order| > 0 && m.order[0] == FileKey(entries[0])
    ensures var r := Finalized(w, Dir(w, entries), absolute, m.order, m.nodes);
            && r[0].id == w.basename(entries[0]) && !r[0].isModule && !r[0].isNative
            && r[0].mgroup.None? && r[0].filename.Some?
            && (absolute ==> r[0].filename == Some(entries[0]))
            && (!absolute && entries[0] != "" ==> r[0].filename == Some(w.relative(Dir(w, entries), entries[0])))
  {
    var n := m.nodes[FileKey(entries[0])];
    assert IsEntryNode(w, m, entries[0]);
    assert KeyFits(FileKey(entries[0]), n);
    PresentSpec(w, Dir(w, entries), absolute, n);
  }

  /**
   * Every reported builtin has no filename, counts as a package and is its
   * own group; every reported package is its own group.
   */
  lemma ReportedKinds(w: World, m: Merged, entries: seq<Path>, traverse: bool, absolute: bool, i: int)
    requires Inv(w, m, entries, traverse) && 0 <= i < |m.order|
    ensures var r := Finalized(w, Dir(w, entries), absolute, m.order, m.nodes);
            && (r[i].isNative ==> r[i].filename.None? && r[i].isModule && r[i].mgroup == Some(r[i].id))
            && (r[i].isModule ==> r[i].mgroup == Some(r[i].id))
  {
    var k := m.order[i];
    var n := m.nodes[k];
    assert KeyFits(k, n);
    PresentSpec(w, Dir(w, entries), absolute, n);
    if k.FileKey? {
      assert GroupFits(m, k.path, entries);
    }
  }

  /** Reported parent lists hold no path twice, when the rewriting keeps paths apart. */
  lemma ReportedParentsDistinct(w: World, m: Merged, entries: seq<Path>, traverse: bool, absolute: bool, i: int)
    requires Inv(w, m, entries, traverse) && 0 <= i < |m.order|
    requires absolute || RelInjective(w, Dir(w, entries))
    ensures Distinct(Finalized(w, Dir(w, entries), absolute, m.order, m.nodes)[i].parents)
  {
    PresentSpec(w, Dir(w, entries), absolute, m.nodes[m.order[i]]);
  }

  /** With absolute output no two reported records name the same file. */
  lemma ReportedFilesDistinct(w: World, m: Merged, entries: seq<Path>, traverse: bool, i: int, j: int)
    requires Inv(w, m, entries, traverse) && 0 <= i < j < |m.order|
    ensures var r := Finalized(w, Dir(w, entries), true, m.order, m.nodes);
            r[i].filename.Some? ==> r[i].filename != r[j].filename
  {
    var dir := Dir(w, entries);
    var ki, kj := m.order[i], m.order[j];
    assert KeyFits(ki, m.nodes[ki]) && KeyFits(kj, m.nodes[kj]);
    PresentSpec(w, dir, true, m.nodes[ki]);
    PresentSpec(w, dir, true, m.nodes[kj]);
    assert ki != kj;
  }

  /**
   * The reported record `r[j]` is a file the crawl expands, and its
   * expansion yields a child reported as `n`.
   */
  ghost predicate Expands(w: World, traverse: bool, r: seq<Node>, j: int, n: Node)
    requires 0 <= j < |r|
  {
    && !r[j].isNative && r[j].filename.Some? && r[j].filename.value != "" && (traverse || !r[j].isModule)
    && match GetChildren(w, ParentOf(r[j]))
       case Failure(_) => false
       case Success(cs) => exists c :: c in cs && ReportsChild(n, c)
  }

  /** `n` reports the child `c`: the builtin of that id, or the record of that file. */
  predicate ReportsChild(n: Node, c: Node) {
    if c.isNative then n.isNative && n.id == c.id else !n.isNative && n.filename == c.filename
  }

  /** A reported record of the file `q` is expanded into a child reported as `n`. */
  ghost predicate ExpandedInto(w: World, traverse: bool, r: seq<Node>, q: Path, n: Node) {
    exists j :: 0 <= j < |r| && r[j].filename == Some(q) && Expands(w, traverse, r, j, n)
  }

  /** `n` is an entry's record, or a child that the expansion of a reported file yields. */
  ghost predicate Accounted(w: World, traverse: bool, entries: seq<Path>, r: seq<Node>, n: Node) {
    EntryRecord(entries, n) || exists j :: 0 <= j < |r| && Expands(w, traverse, r, j, n)
  }

  /** `n` is the record of one of the entry files. */
  predicate EntryRecord(entries: seq<Path>, n: Node) {
    !n.isNative && n.filename.Some? && n.filename.value in entries
  }

  /** A record keeps its id and kind, and its filename is shown as `Shown` says. */
  lemma PresentFilename(w: World, dir: Path, absolute: bool, n: Node)
    ensures var r := Present(w, dir, absolute, n);
            && r.id == n.id && r.isNative == n.isNative && r.isModule == n.isModule
            && r.filename == if n.filename.Some? then Some(Shown(w, dir, absolute, n.filename.value)) else None
  {
  }

  /** With absolute output a record keeps everything but its parents. */
  lemma PresentAbsolute(w: World, dir: Path, n: Node)
    ensures var r := Present(w, dir, true, n);
            r.id == n.id && r.filename == n.filename && r.isNative == n.isNative
            && r.isModule == n.isModule && r.mgroup == n.mgroup
  {
  }

  /** With absolute output, a key yielded by the expandable file `q` is reported as a child of `q`'s record. */
  lemma ReportedYield(w: World, m: Merged, dir: Path, traverse: bool, q: Path, k: Key)
    requires OrderMatches(m) && KeysFit(m)
    requires q != "" && Expandable(m, q, traverse) && Yields(w, m, q, k) && k in m.nodes
    ensures ExpandedInto(w, traverse, Finalized(w, dir, true, m.order, m.nodes), q, Present(w, dir, true, m.nodes[k]))
  {
    var r := Finalized(w, dir, true, m.order, m.nodes);
    var n := Present(w, dir, true, m.nodes[k]);
    assert FileKey(q) in m.order;
    var j :| 0 <= j < |m.order| && m.order[j] == FileKey(q);
    assert KeyFits(FileKey(q), m.nodes[FileKey(q)]) && KeyFits(k, m.nodes[k]);
    PresentAbsolute(w, dir, m.nodes[FileKey(q)]);
    PresentAbsolute(w, dir, m.nodes[k]);
    assert ParentOf(r[j]) == ParentOf(m.nodes[FileKey(q)]);
    var cs := GetChildren(w, ParentOf(m.nodes[FileKey(q)])).value;
    var c :| c in cs && Storable(c) && StoreKey(c) == k;
    assert GetChildren(w, ParentOf(r[j])) == Success(cs);
    assert c in cs && ReportsChild(n, c);
    assert r[j].filename == Some(q) && Expands(w, traverse, r, j, n);
  }

  /**
   * With absolute output every parent of a reported record is itself
   * reported, as a file (not a builtin) that the crawl expands, a package
   * only when packages are traversed, and whose expansion yields that record.
   */
  lemma ReportedParentsListed(w: World, m: Merged, entries: seq<Path>, traverse: bool, expanded: set<Path>,
                              i: int, p: Path)
    requires Inv(w, m, entries, traverse) && Sound(w, traverse, m, entries, expanded) && 0 <= i < |m.order|
    requires p in Finalized(w, Dir(w, entries), true, m.order, m.nodes)[i].parents
    ensures var r := Finalized(w, Dir(w, entries), true, m.order, m.nodes);
            ExpandedInto(w, traverse, r, p, r[i])
  {
    var k := m.order[i];
    assert k in m.nodes;
    forall q | q in m.nodes[k].parents ensures q != "" && Expandable(m, q, traverse) && Yields(w, m, q, k) {
      SoundParent(w, traverse, m, entries, expanded, k, q);
    }
    ReportedParentAt(w, m, Dir(w, entries), traverse, i, p);
  }

  /** A parent `p` of the record at `i`, expandable and yielding it, is reported as expanding into it. */
  lemma ReportedParentAt(w: World, m: Merged, dir: Path, traverse: bool, i: int, p: Path)
    requires OrderMatches(m) && KeysFit(m) && 0 <= i < |m.order| && m.order[i] in m.nodes
    requires forall q :: q in m.nodes[m.order[i]].parents ==>
               q != "" && Expandable(m, q, traverse) && Yields(w, m, q, m.order[i])
    requires p in Finalized(w, dir, true, m.order, m.nodes)[i].parents
    ensures var r := Finalized(w, dir, true, m.order, m.nodes);
            ExpandedInto(w, traverse, r, p, r[i])
  {
    var k := m.order[i];
    var n := m.nodes[k];
    assert Finalized(w, dir, true, m.order, m.nodes)[i] == Present(w, dir, true, n);
    PresentParents(w, dir, true, n);
    DedupSpec(n.parents);
    assert p in n.parents;
    ReportedYield(w, m, dir, traverse, p, k);
  }

  /**
   * With absolute output every reported record is an entry's, or a child
   * that the expansion of a reported file yields.
   */
  lemma ReportedSound(w: World, m: Merged, entries: seq<Path>, traverse: bool, expanded: set<Path>, i: int)
    requires Inv(w, m, entries, traverse) && Sound(w, traverse, m, entries, expanded) && 0 <= i < |m.order|
    ensures var r := Finalized(w, Dir(w, entries), true, m.order, m.nodes);
            Accounted(w, traverse, entries, r, r[i])
  {
    var k := m.order[i];
    assert k in m.nodes;
    ReportedAccounted(w, m, Dir(w, entries), entries, traverse, expanded, i);
  }

  /** The record at `i` of the key order, justified by an entry or by an expanded file, is accounted for. */
  lemma ReportedAccounted(w: World, m: Merged, dir: Path, entries: seq<Path>, traverse: bool, expanded: set<Path>,
                          i: int)
    requires OrderMatches(m) && KeysFit(m) && 0 <= i < |m.order|
    requires forall p :: p in expanded ==> p != "" && Expandable(m, p, traverse)
    requires (m.order[i].FileKey? && m.order[i].path in entries) || Justified(w, m, expanded, m.order[i])
    ensures var r := Finalized(w, dir, true, m.order, m.nodes);
            Accounted(w, traverse, entries, r, r[i])
  {
    var r := Finalized(w, dir, true, m.order, m.nodes);
    var k := m.order[i];
    assert r[i] == Present(w, dir, true, m.nodes[k]);
    assert KeyFits(k, m.nodes[k]);
    PresentAbsolute(w, dir, m.nodes[k]);
    if !(k.FileKey? && k.path in entries) {
      var q :| q in expanded && Yields(w, m, q, k);
      ReportedYield(w, m, dir, traverse, q, k);
      var j :| 0 <= j < |r| && r[j].filename == Some(q) && Expands(w, traverse, r, j, r[i]);
    }
  }

  /** The entry `e` is reported as its entry record, with its filename as shown. */
  ghost predicate EntryReported(w: World, r: seq<Node>, dir: Path, absolute: bool, e: Path) {
    exists i :: 0 <= i < |r| && r[i].filename == Some(Shown(w, dir, absolute, e))
                && r[i].id == w.basename(e) && !r[i].isNative && !r[i].isModule
  }

  /** Every entry is reported, as its entry record with its filename as shown. */
  lemma ReportedEntries(w: World, m: Merged, dir: Path, absolute: bool, e: Path)
    requires OrderMatches(m) && KeysFit(m) && IsEntryNode(w, m, e)
    ensures EntryReported(w, Finalized(w, dir, absolute, m.order, m.nodes), dir, absolute, e)
  {
    assert FileKey(e) in m.order;
    var i :| 0 <= i < |m.order| && m.order[i] == FileKey(e);
    var r := Finalized(w, dir, absolute, m.order, m.nodes);
    assert KeyFits(FileKey(e), m.nodes[FileKey(e)]);
    PresentFilename(w, dir, absolute, m.nodes[FileKey(e)]);
    assert r[i] == Present(w, dir, absolute, m.nodes[FileKey(e)]);
    assert r[i].filename == Some(Shown(w, dir, absolute, e));
    assert r[i].id == w.basename(e) && !r[i].isNative && !r[i].isModule;
  }


  /**
   * A child of the file `p` appears in the report: a builtin as a builtin
   * record of that id, any other child as the record of its file, with `p`
   * among that record's parents.
   */
  ghost predicate ChildReported(r: seq<Node>, p: Path, c: Node) {
    if c.isNative then exists i :: 0 <= i < |r| && r[i].isNative && r[i].id == c.id
    else exists i :: 0 <= i < |r| && r[i].filename == c.filename && p in r[i].parents
  }

  /**
   * The reported record `r[j]`, when it is a file the crawl expands, has
   * every child its expansion yields in the report.
   */
  ghost predicate ExpansionReported(w: World, traverse: bool, r: seq<Node>, j: int)
    requires 0 <= j < |r|
  {
    var n := r[j];
    n.filename.Some? && n.filename.value != "" && !n.isNative && (traverse || !n.isModule) ==>
      match GetChildren(w, ParentOf(n))
      case Failure(_) => true
      case Success(cs) => forall c :: c in cs ==> ChildReported(r, n.filename.value, c)
  }

  /** With absolute output a recorded child of `f` appears in the report. */
  lemma ReportedChild(w: World, m: Merged, entries: seq<Path>, traverse: bool, f: Path, c: Node)
    requires Inv(w, m, entries, traverse) && Linked(m, f, c)
    ensures ChildReported(Finalized(w, Dir(w, entries), true, m.order, m.nodes), f, c)
  {
    var dir := Dir(w, entries);
    var r := Finalized(w, dir, true, m.order, m.nodes);
    var k := if c.isNative then NativeKey(c.id) else FileKey(c.filename.value);
    assert k in m.order;
    var i :| 0 <= i < |m.order| && m.order[i] == k;
    assert KeyFits(k, m.nodes[k]);
    PresentSpec(w, dir, true, m.nodes[k]);
    if c.isNative {
      assert r[i].isNative && r[i].id == c.id;
    } else {
      assert r[i].filename == c.filename && f in r[i].parents;
    }
  }

  /** In a closed registry, with absolute output, every reported expandable file has its children reported. */
  lemma ReportedExpansion(w: World, m: Merged, entries: seq<Path>, traverse: bool, j: int)
    requires Inv(w, m, entries, traverse) && Closed(w, traverse, m) && 0 <= j < |m.order|
    ensures ExpansionReported(w, traverse, Finalized(w, Dir(w, entries), true, m.order, m.nodes), j)
  {
    var dir := Dir(w, entries);
    var r := Finalized(w, dir, true, m.order, m.nodes);
    var k := m.order[j];
    var n := m.nodes[k];
    PresentSpec(w, dir, true, n);
    assert KeyFits(k, n);
    if r[j].filename.Some? && r[j].filename.value != "" && !r[j].isNative && (traverse || !r[j].isModule) {
      var f := r[j].filename.value;
      assert k == FileKey(f) && ParentOf(r[j]) == ParentOf(n);
      assert Covered(w, m, f);
      match GetChildren(w, ParentOf(n))
      case Failure(_) =>
      case Success(cs) =>
        forall c | c in cs ensures ChildReported(r, f, c) {
          ReportedChild(w, m, entries, traverse, f, c);
        }
    }
  }

  /**
   * What a finished crawl reports: a record for an entry exactly when there
   * are entries, the first entry's record first, and every entry's record;
   * builtins without filename; packages as their own group; duplicate-free
   * parent lists when the rewriting keeps paths apart; and with absolute
   * output one record per file, every expanded file's children reported with
   * that file among their parents, and nothing else: every record is an
   * entry's or a child an expansion yields, and every parent is a reported
   * file whose expansion yields that record.
   */
  ghost predicate Reported(w: World, entries: seq<Path>, traverse: bool, absolute: bool, r: seq<Node>) {
    && (r == [] <==> entries == [])
    && (entries != [] ==>
          && r[0].id == w.basename(entries[0]) && !r[0].isModule && !r[0].isNative
          && r[0].mgroup.None? && r[0].filename.Some?
          && (absolute ==> r[0].filename == Some(entries[0]))
          && (!absolute && entries[0] != "" ==> r[0].filename == Some(w.relative(Dir(w, entries), entries[0]))))
    && (forall i :: 0 <= i < |r| ==>
          && (r[i].isNative ==> r[i].filename.None? && r[i].isModule)
          && (r[i].isModule ==> r[i].mgroup == Some(r[i].id)))
    && ((absolute || RelInjective(w, Dir(w, entries))) ==>
          forall i :: 0 <= i < |r| ==> Distinct(r[i].parents))
    && (absolute ==>
          forall i, j :: 0 <= i < j < |r| && r[i].filename.Some? ==> r[i].filename != r[j].filename)
    && (forall e :: e in entries ==> EntryReported(w, r, Dir(w, entries), absolute, e))
    && (absolute ==> forall i, p :: 0 <= i < |r| && p in r[i].parents ==> ExpandedInto(w, traverse, r, p, r[i]))
    && (absolute ==> forall i :: 0 <= i < |r| ==> Accounted(w, traverse, entries, r, r[i]))
    && (absolute ==> forall j :: 0 <= j < |r| ==> ExpansionReported(w, traverse, r, j))
  }

  /** A closed, sound registry that keeps the invariant, with the first entry's key first, reports as promised. */
  lemma FinishedReport(w: World, m: Merged, entries: seq<Path>, traverse: bool, absolute: bool, expanded: set<Path>)
    requires Inv(w, m, entries, traverse) && Closed(w, traverse, m) && Sound(w, traverse, m, entries, expanded)
    requires m.order == [] <==> entries == []
    requires entries != [] ==> m.order[0] == FileKey(entries[0])
    ensures Reported(w, entries, traverse, absolute, Finalized(w, Dir(w, entries), absolute, m.order, m.nodes))
  {
    var r := Finalized(w, Dir(w, entries), absolute, m.order, m.nodes);
    if entries != [] {
      ReportedEntry(w, m, entries, traverse, absolute);
    }
    forall e | e in entries ensures EntryReported(w, r, Dir(w, entries), absolute, e) {
      assert IsEntryNode(w, m, e);
      ReportedEntries(w, m, Dir(w, entries), absolute, e);
    }
    forall i | 0 <= i < |r|
      ensures r[i].isNative ==> r[i].filename.None? && r[i].isModule
      ensures r[i].isModule ==> r[i].mgroup == Some(r[i].id)
    {
      ReportedKinds(w, m, entries, traverse, absolute, i);
    }
    if absolute || RelInjective(w, Dir(w, entries)) {
      forall i | 0 <= i < |r| ensures Distinct(r[i].parents) {
        ReportedParentsDistinct(w, m, entries, traverse, absolute, i);
      }
    }
    if absolute {
      ReportedAbsolute(w, m, entries, traverse);
      ReportedJustified(w, m, entries, traverse, expanded);
    }
  }

  /**
   * With absolute output a closed registry reports one record per file and
   * every expanded file's children.
   */
  lemma ReportedAbsolute(w: World, m: Merged, entries: seq<Path>, traverse: bool)
    requires Inv(w, m, entries, traverse) && Closed(w, traverse, m)
    ensures var r := Finalized(w, Dir(w, entries), true, m.order, m.nodes);
            && (forall i, j :: 0 <= i < j < |r| && r[i].filename.Some? ==> r[i].filename != r[j].filename)
            && (forall j :: 0 <= j < |r| ==> ExpansionReported(w, traverse, r, j))
  {
    var r := Finalized(w, Dir(w, entries), true, m.order, m.nodes);
    forall i, j | 0 <= i < j < |r| && r[i].filename.Some? ensures r[i].filename != r[j].filename {
      ReportedFilesDistinct(w, m, entries, traverse, i, j);
    }
    forall j | 0 <= j < |r| ensures ExpansionReported(w, traverse, r, j) {
      ReportedExpansion(w, m, entries, traverse, j);
    }
  }

  /**
   * With absolute output a sound registry reports nothing the crawl did not
   * reach: every parent is a reported file whose expansion yields the record,
   * and every record is an entry's or yielded by a reported file's expansion.
   */
  lemma ReportedJustified(w: World, m: Merged, entries: seq<Path>, traverse: bool, expanded: set<Path>)
    requires Inv(w, m, entries, traverse) && Sound(w, traverse, m, entries, expanded)
    ensures var r := Finalized(w, Dir(w, entries), true, m.order, m.nodes);
            && (forall i, p :: 0 <= i < |r| && p in r[i].parents ==> ExpandedInto(w, traverse, r, p, r[i]))
            && (forall i :: 0 <= i < |r| ==> Accounted(w, traverse, entries, r, r[i]))
  {
    var r := Finalized(w, Dir(w, entries), true, m.order, m.nodes);
    forall i, p | 0 <= i < |r| && p in r[i].parents ensures ExpandedInto(w, traverse, r, p, r[i]) {
      ReportedParentsListed(w, m, entries, traverse, expanded, i, p);
    }
    forall i | 0 <= i < |r| ensures Accounted(w, traverse, entries, r, r[i]) {
      ReportedSound(w, m, entries, traverse, expanded, i);
    }
  }
}
