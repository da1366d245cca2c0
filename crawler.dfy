/**
 * getChildrenRecursive: the crawl as an object whose registry, queue and
 * `first` flag its methods update in place, and the top-level operation
 * that seeds it, runs it to the end and reports its records.
 */
module Crawler {
  import opened Wrappers
  import opened Env
  import opened Nub
  import opened Records
  import opened Children
  import opened Registry
  import opened Worklist
  import opened Finalize

  /** The entries resolved one by one, in order. */
  function ResolveAll(w: World, entry: seq<Path>): (r: seq<Path>)
    ensures |r| == |entry| && forall i :: 0 <= i < |entry| ==> r[i] == w.resolve(entry[i])
    decreases |entry|
  {
    if entry == [] then [] else ResolveAll(w, entry[..|entry| - 1]) + [w.resolve(entry[|entry| - 1])]
  }

  /**
   * The crawl's invariant as a predicate on values: the registry invariant;
   * the count of dequeued items so far plus what is still queued is bounded
   * by the entries plus the keys; the first entry keeps the first key; while
   * `first` holds the first path the loop will expand is that of the entries,
   * and once it is cleared that entry's expansion has succeeded; every
   * expandable file is still queued or among the `expanded` files, whose
   * children are all recorded; and every record and parent link comes from
   * an entry or an expansion of those files.
   */
  ghost predicate ValidState(w: World, traverse: bool, entries: seq<Path>, m: Merged, first: bool, dequeued: nat,
                             expanded: set<Path>) {
    && Inv(w, m, entries, traverse)
    && Frontier(w, traverse, m, expanded)
    && Sound(w, traverse, m, entries, expanded)
    && dequeued + |m.queue| <= |entries| + |m.order|
    && (|entries| > 0 ==> |m.order| > 0 && m.order[0] == FileKey(entries[0]))
    && (entries == [] ==> m.order == [] && m.queue == [])
    && (first ==> FirstNonEmpty(m.queue) == FirstNonEmpty(entries))
    && (!first ==> FirstNonEmpty(entries).Some?
                   && GetChildren(w, EntryParent(w, FirstNonEmpty(entries).value)).Success?)
  }

  /** An entry's registered record gives the same parent context as its entry record. */
  lemma EntryParentOf(w: World, m: Merged, entries: seq<Path>, traverse: bool, e: Path)
    requires Inv(w, m, entries, traverse) && e in entries
    ensures FileKey(e) in m.nodes && ParentOf(m.nodes[FileKey(e)]) == EntryParent(w, e)
  {
    assert IsEntryNode(w, m, e);
    assert KeyFits(FileKey(e), m.nodes[FileKey(e)]);
  }

  /**
   * A step keeps the crawl's invariant unless it aborts, and it aborts only
   * on the first expanded entry, with the extractor's error for it.
   */
  lemma StepValid(w: World, traverse: bool, entries: seq<Path>, m: Merged, first: bool, dequeued: nat,
                  expanded: set<Path>)
    requires ValidState(w, traverse, entries, m, first, dequeued, expanded) && m.queue != []
    ensures CanStep(m)
    ensures var o := StepSpec(w, traverse, m, first);
            && (o.fatal.None? ==> ValidState(w, traverse, entries, o.state, o.first, dequeued + 1, Expanded(m, expanded)))
            && (o.fatal.Some? ==>
                  && FirstFails(w, entries)
                  && o.fatal.value == GetChildren(w, EntryParent(w, FirstNonEmpty(entries).value)).error)
  {
    StepInv(w, traverse, m, first, entries);
    StepCounts(w, traverse, entries, m, first, dequeued, expanded);
    StepFirst(w, traverse, entries, m, first);
    StepFrontier(w, traverse, m, first, expanded, entries);
    StepSound(w, traverse, m, first, expanded, entries);
  }

  /** A step keeps the bound on what was dequeued and the first entry's key in front. */
  lemma StepCounts(w: World, traverse: bool, entries: seq<Path>, m: Merged, first: bool, dequeued: nat,
                   expanded: set<Path>)
    requires ValidState(w, traverse, entries, m, first, dequeued, expanded) && m.queue != []
    ensures CanStep(m)
    ensures var r := StepSpec(w, traverse, m, first).state;
            && dequeued + 1 + |r.queue| <= |entries| + |r.order|
            && (|entries| > 0 ==> |r.order| > 0 && r.order[0] == FileKey(entries[0]))
            && entries != []
  {
    StepInv(w, traverse, m, first, entries);
    StepGrowth(w, traverse, m, first);
    var r := StepSpec(w, traverse, m, first).state;
    assert r.order[0] == r.order[..|m.order|][0];
  }

  /**
   * How a step moves the `first` flag: it stays set only past an empty path;
   * it is cleared only by a successful expansion of the first entry; and an
   * abort carries that entry's extractor error.
   */
  lemma StepFirst(w: World, traverse: bool, entries: seq<Path>, m: Merged, first: bool)
    requires Inv(w, m, entries, traverse) && CanStep(m)
    requires first ==> FirstNonEmpty(m.queue) == FirstNonEmpty(entries)
    requires !first ==> FirstNonEmpty(entries).Some? && GetChildren(w, EntryParent(w, FirstNonEmpty(entries).value)).Success?
    ensures var o := StepSpec(w, traverse, m, first);
            && (o.fatal.None? && o.first ==> FirstNonEmpty(o.state.queue) == FirstNonEmpty(entries))
            && (o.fatal.None? && !o.first ==>
                  FirstNonEmpty(entries).Some? && GetChildren(w, EntryParent(w, FirstNonEmpty(entries).value)).Success?)
            && (o.fatal.Some? ==>
                  && FirstFails(w, entries)
                  && o.fatal.value == GetChildren(w, EntryParent(w, FirstNonEmpty(entries).value)).error)
  {
    if first {
      if m.queue[0] == "" {
        StepPastEmpty(w, traverse, m);
      } else {
        FirstExpansion(w, traverse, entries, m);
      }
    }
  }

  /** While `first` holds, an empty head is skipped and the first path to expand stays the same. */
  lemma StepPastEmpty(w: World, traverse: bool, m: Merged)
    requires CanStep(m) && m.queue[0] == ""
    ensures var o := StepSpec(w, traverse, m, true);
            o.fatal.None? && o.first && FirstNonEmpty(o.state.queue) == FirstNonEmpty(m.queue)
  {
    assert m.queue == [""] + m.queue[1..];
  }

  /**
   * The first expansion is of the first entry, with its own entry record as
   * the parent: the step aborts exactly when that expansion fails, and clears
   * `first` otherwise.
   */
  lemma FirstExpansion(w: World, traverse: bool, entries: seq<Path>, m: Merged)
    requires Inv(w, m, entries, traverse) && CanStep(m) && m.queue[0] != ""
    requires FirstNonEmpty(m.queue) == FirstNonEmpty(entries)
    ensures FirstNonEmpty(entries) == Some(m.queue[0])
    ensures var o := StepSpec(w, traverse, m, true);
            var kids := GetChildren(w, EntryParent(w, m.queue[0]));
            && (o.fatal.Some? <==> kids.Failure?)
            && (o.fatal.Some? ==> o.fatal.value == kids.error)
            && (o.fatal.None? ==> !o.first)
  {
    FirstHead(w, entries, m, traverse);
    FirstOutcome(w, traverse, m);
  }

  /** A non-empty head that is the first non-empty entry is expanded with its entry record as parent. */
  lemma FirstHead(w: World, entries: seq<Path>, m: Merged, traverse: bool)
    requires Inv(w, m, entries, traverse) && CanStep(m) && m.queue[0] != ""
    requires FirstNonEmpty(m.queue) == FirstNonEmpty(entries)
    ensures FirstNonEmpty(entries) == Some(m.queue[0])
    ensures ParentOf(m.nodes[FileKey(m.queue[0])]) == EntryParent(w, m.queue[0])
  {
    var p := m.queue[0];
    assert m.queue == [p] + m.queue[1..];
    assert p in entries;
    EntryParentOf(w, m, entries, traverse, p);
  }

  /** With `first` set, expanding a non-empty head aborts exactly when its extractor fails, and clears `first` otherwise. */
  lemma FirstOutcome(w: World, traverse: bool, m: Merged)
    requires CanStep(m) && m.queue[0] != ""
    ensures var o := StepSpec(w, traverse, m, true);
            var kids := GetChildren(w, ParentOf(m.nodes[FileKey(m.queue[0])]));
            && (o.fatal.Some? <==> kids.Failure?)
            && (o.fatal.Some? ==> o.fatal.value == kids.error)
            && (o.fatal.None? ==> !o.first)
  {
  }

  /**
   * The `entry.map` loop: resolve each entry and register its entry record,
   * building the seeded key order and records alongside.
   */
  method ResolveEntries(w: World, entry: seq<Path>) returns (resolved: seq<Path>, keys: seq<Key>, seeded: map<Key, Node>)
    ensures resolved == ResolveAll(w, entry)
    ensures Merged(keys, seeded, resolved) == Seed(w, resolved)
  {
    resolved, keys, seeded := [], [], map[];
    var i := 0;
    while i < |entry|
      invariant 0 <= i <= |entry|
      invariant resolved == ResolveAll(w, entry[..i])
      invariant Merged(keys, seeded, resolved) == Seed(w, resolved)
    {
      var filename := w.resolve(entry[i]);
      var k := FileKey(filename);
      if k !in seeded {
        keys := keys + [k];
      }
      seeded := seeded[k := EntryObject(w, filename)];
      assert entry[..i + 1][..i] == entry[..i];
      assert (resolved + [filename])[..|resolved|] == resolved;
      resolved := resolved + [filename];
      i := i + 1;
    }
    assert entry[..i] == entry;
  }

  /** The seeded crawl, before any step, satisfies the crawl invariant. */
  lemma SeedValid(w: World, es: seq<Path>, traverse: bool)
    ensures ValidState(w, traverse, es, Seed(w, es), true, 0, {})
  {
    SeedInv(w, es, traverse);
    SeedShape(w, es);
    SeedFrontier(w, es, traverse);
    SeedSound(w, es, traverse);
  }

  /** Before any step the registry holds the entries' records alone, with no parents. */
  lemma SeedSound(w: World, es: seq<Path>, traverse: bool)
    ensures Sound(w, traverse, Seed(w, es), es, {})
  {
    SeedRecords(w, es);
  }

  /** Before any step every expandable file is an entry, and so queued. */
  lemma SeedFrontier(w: World, es: seq<Path>, traverse: bool)
    ensures Frontier(w, traverse, Seed(w, es), {})
  {
    SeedRecords(w, es);
  }

  /**
   * The finishing loop over the key order: rewrite each record in place and
   * collect the rewritten records in that order.
   */
  method PresentAll(w: World, dir: Path, absolute: bool, keys: seq<Key>, original: map<Key, Node>)
    returns (done: map<Key, Node>, response: seq<Node>)
    requires Distinct(keys) && forall k :: k in keys ==> k in original
    ensures done == PresentedUpTo(w, dir, absolute, original, keys)
    ensures response == Finalized(w, dir, absolute, keys, original)
  {
    done := original;
    response := [];
    for i := 0 to |keys|
      invariant response == Finalized(w, dir, absolute, keys[..i], original)
      invariant done == PresentedUpTo(w, dir, absolute, original, keys[..i])
    {
      var key := keys[i];
      PresentedNext(w, dir, absolute, original, keys, i);
      var n := Present(w, dir, absolute, done[key]);
      done := done[key := n];
      response := response + [n];
    }
    assert keys[..|keys|] == keys;
  }

  class Crawl {
    const world: World
    const traverse: bool
    const entries: seq<Path>
    var order: seq<Key>
    var nodes: map<Key, Node>
    var queue: seq<Path>
    var first: bool
    ghost var dequeued: nat
    ghost var expanded: set<Path>

    /** The registry and queue as one value. */
    function State(): Merged
      reads this
    {
      Merged(order, nodes, queue)
    }

    ghost predicate Valid()
      reads this
    {
      ValidState(world, traverse, entries, State(), first, dequeued, expanded)
    }

    /** Resolve the entries, register each one's entry record and queue them all. */
    constructor (w: World, entry: seq<Path>, traverseModules: bool)
      ensures world == w && traverse == traverseModules
      ensures entries == ResolveAll(w, entry)
      ensures State() == Seed(w, entries) && first && dequeued == 0 && expanded == {}
      ensures Valid()
    {
      var resolved, keys, seeded := ResolveEntries(w, entry);
      SeedValid(w, resolved, traverseModules);
      world := w;
      traverse := traverseModules;
      entries := resolved;
      order := keys;
      nodes := seeded;
      queue := resolved;
      first := true;
      dequeued := 0;
      expanded := {};
    }

    /** The `children.forEach` loop: merge the children of `absolute` one after the other. */
    method MergeChildren(absolute: Path, children: seq<Node>)
      requires forall c :: c in children ==> Storable(c)
      modifies this`order, this`nodes, this`queue
      ensures State() == MergeAll(old(State()), absolute, children, traverse)
    {
      for i := 0 to |children|
        invariant State() == MergeAll(old(State()), absolute, children[..i], traverse)
      {
        assert children[i] in children;
        assert forall c :: c in children[..i + 1] ==> c in children;
        MergeInto(absolute, children[i]);
        assert children[..i + 1][..i] == children[..i];
      }
      assert children[..|children|] == children;
    }

    /** One iteration of the loop: dequeue a path and expand it. */
    method Step() returns (fatal: Option<ParseError>)
      requires CanStep(State())
      modifies this
      ensures Outcome(State(), first, fatal) == StepSpec(world, traverse, old(State()), old(first))
      ensures dequeued == old(dequeued) + 1 && expanded == Expanded(old(State()), old(expanded))
    {
      expanded := Expanded(State(), expanded);
      var nextFile := queue[0];
      queue := queue[1..];
      dequeued := dequeued + 1;
      if nextFile == "" {
        return None;
      }
      var absolute := nextFile;
      var key := FileKey(absolute);
      var kids := GetChildren(world, ParentOf(nodes[key]));
      if kids.Failure? {
        if first {
          return Some(kids.error);
        }
        nodes := nodes[key := nodes[key].(error := Some(kids.error))];
        return None;
      }
      first := false;
      var children := kids.value;
      ShapedAreStorable(world, ParentOf(old(nodes)[key]), children);
      MergeChildren(absolute, children);
      fatal := None;
    }

    /** Merge one child of the file `absolute` into the registry (the body of the `forEach`). */
    method MergeInto(absolute: Path, child: Node)
      requires Storable(child)
      modifies this`order, this`nodes, this`queue
      ensures State() == MergeChild(old(State()), absolute, child, traverse)
    {
      if child.filename.Some? && FileKey(child.filename.value) in nodes {
        var found := FileKey(child.filename.value);
        nodes := nodes[found := nodes[found].(parents := nodes[found].parents + [absolute])];
      } else {
        var k := if child.isNative then NativeKey(child.id) else FileKey(child.filename.value);
        if k !in nodes {
          order := order + [k];
        }
        nodes := nodes[k := child];
        if !child.isNative && (!child.isModule || traverse) {
          queue := queue + [child.filename.value];
        }
      }
    }

    /**
     * The loop: step until the queue is empty or an expansion aborts.  It ends
     * on every world, and it ends in exactly the state and outcome `Crawled`
     * computes from the state it started in; it aborts exactly when the
     * extractor rejects the first entry the loop expands; when it does not,
     * every expandable file registered has had all its children recorded, and
     * every registry key and parent link comes from an entry or from the
     * expansion of a file.
     */
    method Run() returns (fatal: Option<ParseError>)
      requires Valid()
      modifies this
      ensures fatal.None? ==> Valid() && queue == []
      ensures fatal.Some? <==> FirstFails(world, entries)
      ensures fatal.Some? ==> fatal.value == GetChildren(world, EntryParent(world, FirstNonEmpty(entries).value)).error
      ensures fatal.None? ==> dequeued <= |entries| + |order|
      ensures fatal.None? ==> Closed(world, traverse, State())
      ensures fatal.None? ==> Sound(world, traverse, State(), entries, expanded)
      ensures EndsIn(world, traverse, entries, old(State()), old(first), Outcome(State(), first, fatal))
    {
      ghost var goal := Crawled(world, traverse, entries, State(), first);
      fatal := None;
      while queue != []
        invariant Valid()
        invariant EndsIn(world, traverse, entries, State(), first, goal)
        decreases Potential(State(), world.files), |queue|
      {
        var e := Advance(goal);
        if e.Some? {
          fatal := e;
          return;
        }
      }
      FrontierClosed(world, traverse, State(), expanded);
      assert Outcome(State(), first, fatal) == goal;
    }

    /**
     * One pass of the loop: a step that keeps the crawl valid and on course
     * for `goal`, where crawling on ends, and lowers the loop's measure; or
     * the abort, which is `goal` itself.
     */
    method Advance(ghost goal: Outcome) returns (fatal: Option<ParseError>)
      requires Valid() && queue != [] && EndsIn(world, traverse, entries, State(), first, goal)
      modifies this
      ensures fatal.None? ==> Valid() && EndsIn(world, traverse, entries, State(), first, goal)
      ensures fatal.None? ==>
                || Potential(State(), world.files) < Potential(old(State()), world.files)
                || (Potential(State(), world.files) == Potential(old(State()), world.files) && |queue| < |old(queue)|)
      ensures fatal.Some? ==> Outcome(State(), first, fatal) == goal && FirstFails(world, entries)
      ensures fatal.Some? ==> fatal.value == GetChildren(world, EntryParent(world, FirstNonEmpty(entries).value)).error
    {
      StepValid(world, traverse, entries, State(), first, dequeued, expanded);
      StepPotential(world, traverse, State(), first);
      CrawledStep(world, traverse, entries, State(), first);
      fatal := Step();
    }

    /** The finishing pass: rewrite every record in key order and report them in that order. */
    method Finish(absolute: bool) returns (response: seq<Node>)
      requires OrderMatches(State())
      modifies this`nodes
      ensures order == old(order) && queue == old(queue) && nodes.Keys == old(nodes).Keys
      ensures forall k :: k in old(nodes) ==> nodes[k] == Present(world, Dir(world, entries), absolute, old(nodes)[k])
      ensures response == Finalized(world, Dir(world, entries), absolute, order, old(nodes))
    {
      var dir := Dir(world, entries);
      assert forall k :: k in order ==> k in nodes;
      var done;
      done, response := PresentAll(world, dir, absolute, order, nodes);
      nodes := done;
    }
  }

  /**
   * A registry the crawl ends with: it keeps the invariant, nothing is left
   * queued, every expandable file has all its children recorded, nothing is
   * recorded that an entry or an expansion of a file in `expanded` does not
   * account for, and the first entry's key comes first.
   */
  ghost predicate Finished(w: World, traverse: bool, entries: seq<Path>, m: Merged, expanded: set<Path>) {
    && Inv(w, m, entries, traverse)
    && m.queue == []
    && Closed(w, traverse, m)
    && Sound(w, traverse, m, entries, expanded)
    && (m.order == [] <==> entries == [])
    && (entries != [] ==> m.order[0] == FileKey(entries[0]))
  }

  /** Some set of expanded files makes `m` a finished registry. */
  ghost predicate Finishes(w: World, traverse: bool, entries: seq<Path>, m: Merged) {
    exists expanded: set<Path> :: Finished(w, traverse, entries, m, expanded)
  }

  /**
   * Crawling on from a valid state aborts exactly when the first file expanded
   * is rejected, with that error, and otherwise ends in a finished registry.
   */
  lemma {:induction false} CrawledValid(w: World, traverse: bool, entries: seq<Path>, m: Merged, first: bool,
                                        dequeued: nat, expanded: set<Path>)
    requires ValidState(w, traverse, entries, m, first, dequeued, expanded)
    ensures var o := Crawled(w, traverse, entries, m, first);
            && (o.fatal.Some? <==> FirstFails(w, entries))
            && (o.fatal.Some? ==> o.fatal.value == GetChildren(w, EntryParent(w, FirstNonEmpty(entries).value)).error)
            && (o.fatal.None? ==> Finishes(w, traverse, entries, o.state))
    decreases Potential(m, w.files), |m.queue|
  {
    if m.queue == [] {
      FrontierClosed(w, traverse, m, expanded);
      assert Finished(w, traverse, entries, m, expanded);
    } else {
      StepValid(w, traverse, entries, m, first, dequeued, expanded);
      StepPotential(w, traverse, m, first);
      var s := StepSpec(w, traverse, m, first);
      if s.fatal.None? {
        CrawledValid(w, traverse, entries, s.state, s.first, dequeued + 1, Expanded(m, expanded));
      }
    }
  }

  /**
   * The whole crawl from the resolved entries: seed, then loop.  It aborts
   * exactly when the first file expanded is rejected, with that error, and
   * otherwise ends in a finished registry.  Its key order starts with the
   * entries' keys, each once, in entry order, and every later key is
   * appended after them as the crawl finds it.
   */
  ghost function CrawlFrom(w: World, traverse: bool, entries: seq<Path>): (o: Outcome)
    ensures o.fatal.Some? <==> FirstFails(w, entries)
    ensures o.fatal.Some? ==> o.fatal.value == GetChildren(w, EntryParent(w, FirstNonEmpty(entries).value)).error
    ensures o.fatal.None? ==> Finishes(w, traverse, entries, o.state)
    ensures forall k :: k in o.state.order ==> k in o.state.nodes
    ensures |Dedup(FileKeys(entries))| <= |o.state.order|
            && o.state.order[..|Dedup(FileKeys(entries))|] == Dedup(FileKeys(entries))
  {
    SeedValid(w, entries, traverse);
    SeedShape(w, entries);
    CrawledValid(w, traverse, entries, Seed(w, entries), true, 0, {});
    Crawled(w, traverse, entries, Seed(w, entries), true)
  }

  /**
   * What getChildrenRecursive answers for the resolved entries: the crawl's
   * abort, or the presentation of the registry it ends with.  It fails
   * exactly when the first file expanded is rejected, with that error, and a
   * report is as `Reported` says.
   */
  ghost function CrawlResult(w: World, entries: seq<Path>, traverse: bool, absolute: bool): (r: Result<seq<Node>, ParseError>)
    ensures r.Failure? <==> FirstFails(w, entries)
    ensures r.Failure? ==> r.error == GetChildren(w, EntryParent(w, FirstNonEmpty(entries).value)).error
    ensures r.Success? ==> Reported(w, entries, traverse, absolute, r.value)
  {
    var o := CrawlFrom(w, traverse, entries);
    if o.fatal.Some? then Failure(o.fatal.value)
    else
      var expanded :| Finished(w, traverse, entries, o.state, expanded);
      FinishedReport(w, o.state, entries, traverse, absolute, expanded);
      Success(Finalized(w, Dir(w, entries), absolute, o.state.order, o.state.nodes))
  }

  /** The whole crawl is the loop run from the seeded registry with `first` set. */
  lemma CrawlFromSeed(w: World, traverse: bool, entries: seq<Path>)
    ensures EndsIn(w, traverse, entries, Seed(w, entries), true, CrawlFrom(w, traverse, entries))
  {
    SeedInv(w, entries, traverse);
  }

  /** getChildrenRecursive's answer is the abort, or the presentation of the final registry. */
  lemma CrawlResultOf(w: World, entries: seq<Path>, traverse: bool, absolute: bool)
    ensures var o := CrawlFrom(w, traverse, entries);
            CrawlResult(w, entries, traverse, absolute)
            == if o.fatal.Some? then Failure(o.fatal.value)
               else Success(Finalized(w, Dir(w, entries), absolute, o.state.order, o.state.nodes))
  {
  }

  /**
   * getChildrenRecursive: crawl the import graph from the entries and report
   * one record per file or builtin reached, the first entry's first.  The
   * crawl aborts exactly when the extractor rejects the first entry it
   * expands, with that error; otherwise the report is as `Reported` says,
   * and it is the presentation of a finished registry: closed, sound and
   * keeping the invariant, whatever the output form.  Exactly: the result is
   * the abort or the presentation of the registry `CrawlFrom` computes.
   */
  method GetChildrenRecursive(w: World, entry: seq<Path>, options: Options) returns (r: Result<seq<Node>, ParseError>)
    ensures var entries := ResolveAll(w, entry);
            && (r.Failure? <==> FirstFails(w, entries))
            && (r.Failure? ==> r.error == GetChildren(w, EntryParent(w, FirstNonEmpty(entries).value)).error)
            && (r.Success? ==> Reported(w, entries, Truthy(options.traverseModules), Truthy(options.absolute), r.value))
            && (r.Success? ==>
                  exists m: Merged, expanded: set<Path> ::
                    && Finished(w, Truthy(options.traverseModules), entries, m, expanded)
                    && r.value == Finalized(w, Dir(w, entries), Truthy(options.absolute), m.order, m.nodes))
    ensures r == CrawlResult(w, ResolveAll(w, entry), Truthy(options.traverseModules), Truthy(options.absolute))
  {
    var traverse := Truthy(options.traverseModules);
    var absolute := Truthy(options.absolute);
    var crawl := new Crawl(w, entry, traverse);
    ghost var o := CrawlFrom(w, traverse, crawl.entries);
    CrawlFromSeed(w, traverse, crawl.entries);
    CrawlResultOf(w, crawl.entries, traverse, absolute);
    var fatal := crawl.Run();
    if fatal.Some? {
      return Failure(fatal.value);
    }
    ghost var m := crawl.State();
    ghost var entries := crawl.entries;
    ghost var expanded := crawl.expanded;
    var response := crawl.Finish(absolute);
    assert Finished(w, traverse, entries, m, expanded);
    r := Success(response);
  }
}
