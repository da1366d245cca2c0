/**
 * One iteration of the crawl's loop as a function on the registry value, the
 * measure that shows the loop ends, and the facts about which failures abort
 * the whole crawl.
 */
module Worklist {
  import opened Wrappers
  import opened Env
  import opened Nub
  import opened Records
  import opened Children
  import opened Registry

  /** The state after an iteration, with the `first` flag and an error that aborts the crawl. */
  datatype Outcome = Outcome(state: Merged, first: bool, fatal: Option<ParseError>)

  /** The head of the queue, when not empty, names a registered file whose record carries that filename. */
  ghost predicate CanStep(m: Merged) {
    m.queue != []
    && (m.queue[0] != "" ==> FileKey(m.queue[0]) in m.nodes && m.nodes[FileKey(m.queue[0])].filename == Some(m.queue[0]))
  }

  /**
   * One iteration: take the head of the queue; skip an empty path; expand the
   * file with its registered record as the parent.  An extractor error aborts
   * while no expansion has succeeded yet and is recorded on the file after
   * that; otherwise the children are merged and `first` is cleared.
   */
  function StepSpec(w: World, traverse: bool, m: Merged, first: bool): Outcome
    requires CanStep(m)
  {
    var p := m.queue[0];
    var rest := m.(queue := m.queue[1..]);
    if p == "" then Outcome(rest, first, None)
    else
      match GetChildren(w, ParentOf(m.nodes[FileKey(p)]))
      case Failure(e) =>
        if first then Outcome(rest, first, Some(e)) else Outcome(SetError(rest, p, e), first, None)
      case Success(cs) =>
        assert forall c :: c in cs ==> ChildShape(w, ParentOf(m.nodes[FileKey(p)]), c);
        Outcome(MergeAll(rest, p, cs, traverse), false, None)
  }

  /** Taking the head off the queue keeps the invariant and is a stable change. */
  lemma DequeueInv(w: World, traverse: bool, m: Merged, entries: seq<Path>)
    requires Inv(w, m, entries, traverse) && m.queue != []
    ensures Stable(m, m.(queue := m.queue[1..]))
    ensures Inv(w, m.(queue := m.queue[1..]), entries, traverse)
  {
    var rest := m.(queue := m.queue[1..]);
    forall i | 0 <= i < |rest.queue| && rest.queue[i] != ""
      ensures Expandable(rest, rest.queue[i], traverse)
    {
      assert rest.queue[i] == m.queue[i + 1];
    }
    assert rest.order[..|m.order|] == m.order;
  }

  /** Inside the invariant a step can always be taken on a non-empty queue, and it keeps the invariant. */
  lemma StepInv(w: World, traverse: bool, m: Merged, first: bool, entries: seq<Path>)
    requires Inv(w, m, entries, traverse) && m.queue != []
    ensures CanStep(m)
    ensures Stable(m, StepSpec(w, traverse, m, first).state)
    ensures Inv(w, StepSpec(w, traverse, m, first).state, entries, traverse)
  {
    var p := m.queue[0];
    var rest := m.(queue := m.queue[1..]);
    DequeueInv(w, traverse, m, entries);
    if p != "" {
      assert Expandable(m, p, traverse);
      var parent := ParentOf(m.nodes[FileKey(p)]);
      match GetChildren(w, parent)
      case Failure(e) =>
        if !first {
          SetErrorInv(w, rest, p, e, traverse, entries);
          StableTrans(m, rest, SetError(rest, p, e));
        }
      case Success(cs) =>
        MergeAllInv(w, rest, p, cs, traverse, entries, parent);
        StableTrans(m, rest, MergeAll(rest, p, cs, traverse));
    }
  }

  /** How the queue and the keys change in a step: one path leaves, paths join only with new keys. */
  lemma StepGrowth(w: World, traverse: bool, m: Merged, first: bool)
    requires CanStep(m)
    ensures var r := StepSpec(w, traverse, m, first).state;
            |r.queue| + 1 - |m.queue| <= |r.order| - |m.order|
            && |m.order| <= |r.order| && r.order[..|m.order|] == m.order
  {
    var p := m.queue[0];
    var rest := m.(queue := m.queue[1..]);
    if p != "" {
      match GetChildren(w, ParentOf(m.nodes[FileKey(p)]))
      case Failure(e) =>
      case Success(cs) =>
        MergeAllGrowth(rest, p, cs, traverse);
    }
  }

  // ---------------------------------------------------------------------------
  // Discovery: each step records the children of the file it expands.

  /** The paths expanded so far, after one more step: its head, unless that is skipped. */
  function Expanded(m: Merged, expanded: set<Path>): set<Path>
    requires m.queue != []
  {
    if m.queue[0] == "" then expanded else expanded + {m.queue[0]}
  }

  /** Every child record of the file `p` looks, for its recording, like a child of `p`. */
  lemma ShapedChildOf(w: World, m: Merged, p: Path, cs: seq<Node>)
    requires FileKey(p) in m.nodes && KeyFits(FileKey(p), m.nodes[FileKey(p)])
    requires forall c :: c in cs ==> ChildShape(w, ParentOf(m.nodes[FileKey(p)]), c)
    ensures forall c :: c in cs ==> Storable(c) && ChildOf(p, c)
  {
  }

  /** A step that does not abort leaves the file it expanded covered. */
  lemma NewlyCovered(w: World, traverse: bool, m: Merged, first: bool, entries: seq<Path>)
    requires Inv(w, m, entries, traverse) && m.queue != [] && m.queue[0] != ""
    ensures CanStep(m)
    ensures var o := StepSpec(w, traverse, m, first);
            o.fatal.None? ==> Covered(w, o.state, m.queue[0])
  {
    StepInv(w, traverse, m, first, entries);
    var p := m.queue[0];
    var rest := m.(queue := m.queue[1..]);
    var r := StepSpec(w, traverse, m, first).state;
    assert KeyFits(FileKey(p), m.nodes[FileKey(p)]);
    StableParent(m, r, p);
    match GetChildren(w, ParentOf(m.nodes[FileKey(p)]))
    case Failure(e) =>
    case Success(cs) =>
      ShapedChildOf(w, m, p, cs);
      MergeAllLinks(rest, p, cs, traverse);
  }

  /** A step that does not abort keeps every expanded file covered, the one it expands too. */
  lemma StepCovers(w: World, traverse: bool, m: Merged, first: bool, expanded: set<Path>, entries: seq<Path>)
    requires Inv(w, m, entries, traverse) && m.queue != []
    requires forall p :: p in expanded ==> Covered(w, m, p)
    ensures CanStep(m)
    ensures var o := StepSpec(w, traverse, m, first);
            o.fatal.None? ==> forall p :: p in Expanded(m, expanded) ==> Covered(w, o.state, p)
  {
    StepInv(w, traverse, m, first, entries);
    var r := StepSpec(w, traverse, m, first).state;
    forall q | q in expanded ensures Covered(w, r, q) {
      CoveredStable(w, m, r, q);
    }
    if m.queue[0] != "" {
      NewlyCovered(w, traverse, m, first, entries);
    }
  }

  /** After a step every expandable path is still queued, or was expanded. */
  lemma StepReaches(w: World, traverse: bool, m: Merged, first: bool, expanded: set<Path>)
    requires CanStep(m)
    requires forall p :: p != "" && Expandable(m, p, traverse) ==> p in m.queue || p in expanded
    ensures var r := StepSpec(w, traverse, m, first).state;
            forall q :: q != "" && Expandable(r, q, traverse) ==> q in r.queue || q in Expanded(m, expanded)
  {
    var p := m.queue[0];
    var rest := m.(queue := m.queue[1..]);
    var done := Expanded(m, expanded);
    DequeueReaches(m, traverse, expanded);
    if p != "" {
      match GetChildren(w, ParentOf(m.nodes[FileKey(p)]))
      case Failure(e) =>
        assert forall q :: Expandable(SetError(rest, p, e), q, traverse) ==> Expandable(rest, q, traverse);
      case Success(cs) =>
        ShapedAreStorable(w, ParentOf(m.nodes[FileKey(p)]), cs);
        MergeReaches(rest, p, cs, traverse, done);
    }
  }

  /** Taking the head off the queue moves it among the expanded paths, unless it is the empty one. */
  lemma DequeueReaches(m: Merged, traverse: bool, expanded: set<Path>)
    requires m.queue != []
    requires forall p :: p != "" && Expandable(m, p, traverse) ==> p in m.queue || p in expanded
    ensures var rest := m.(queue := m.queue[1..]);
            forall q :: q != "" && Expandable(rest, q, traverse) ==> q in rest.queue || q in Expanded(m, expanded)
  {
    assert m.queue == [m.queue[0]] + m.queue[1..];
  }

  /** Merging children keeps every expandable path queued or among `done`. */
  lemma MergeReaches(m: Merged, p: Path, cs: seq<Node>, traverse: bool, done: set<Path>)
    requires forall c :: c in cs ==> Storable(c)
    requires forall q :: q != "" && Expandable(m, q, traverse) ==> q in m.queue || q in done
    ensures var r := MergeAll(m, p, cs, traverse);
            forall q :: q != "" && Expandable(r, q, traverse) ==> q in r.queue || q in done
  {
    MergeAllReaches(m, p, cs, traverse);
    MergeAllGrowth(m, p, cs, traverse);
    var r := MergeAll(m, p, cs, traverse);
    assert forall q :: q in m.queue ==> q in r.queue by {
      forall q | q in m.queue ensures q in r.queue {
        var i :| 0 <= i < |m.queue| && m.queue[i] == q;
        assert r.queue[..|m.queue|][i] == q;
      }
    }
  }

  /** A step that does not abort moves the frontier on by the path it expands. */
  lemma StepFrontier(w: World, traverse: bool, m: Merged, first: bool, expanded: set<Path>, entries: seq<Path>)
    requires Inv(w, m, entries, traverse) && m.queue != [] && Frontier(w, traverse, m, expanded)
    ensures CanStep(m)
    ensures var o := StepSpec(w, traverse, m, first);
            o.fatal.None? ==> Frontier(w, traverse, o.state, Expanded(m, expanded))
  {
    StepCovers(w, traverse, m, first, expanded, entries);
    StepReaches(w, traverse, m, first, expanded);
  }

  /** A step that does not abort keeps the registry sound, counting the path it took as expanded. */
  lemma StepSound(w: World, traverse: bool, m: Merged, first: bool, expanded: set<Path>, entries: seq<Path>)
    requires Inv(w, m, entries, traverse) && m.queue != [] && Sound(w, traverse, m, entries, expanded)
    ensures CanStep(m)
    ensures var o := StepSpec(w, traverse, m, first);
            o.fatal.None? ==> Sound(w, traverse, o.state, entries, Expanded(m, expanded))
  {
    StepInv(w, traverse, m, first, entries);
    var p := m.queue[0];
    var rest := m.(queue := m.queue[1..]);
    if p != "" {
      assert Expandable(m, p, traverse) && KeyFits(FileKey(p), m.nodes[FileKey(p)]);
      match GetChildren(w, ParentOf(m.nodes[FileKey(p)]))
      case Failure(e) =>
        if !first {
          SetErrorGrown(rest, p, e);
          SoundGrow(w, traverse, entries, m, SetError(rest, p, e), expanded, p, []);
        }
      case Success(cs) =>
        ShapedChildOf(w, m, p, cs);
        MergeAllGrown(rest, p, cs, traverse);
        SoundGrow(w, traverse, entries, m, MergeAll(rest, p, cs, traverse), expanded, p, cs);
    } else {
      SoundSameNodes(w, traverse, m, rest, entries, expanded);
    }
  }

  /** Soundness depends only on the records, not on the queue. */
  lemma SoundSameNodes(w: World, traverse: bool, m: Merged, r: Merged, entries: seq<Path>, expanded: set<Path>)
    requires Sound(w, traverse, m, entries, expanded) && r.nodes == m.nodes
    ensures Sound(w, traverse, r, entries, expanded)
  {
    forall p | p in expanded ensures p != "" && Expandable(r, p, traverse) {
    }
    forall k | k in r.nodes && !(k.FileKey? && k.path in entries) ensures Justified(w, r, expanded, k) {
      var q :| q in expanded && Yields(w, m, q, k);
      assert Yields(w, r, q, k);
    }
    forall k, q | k in r.nodes && q in r.nodes[k].parents ensures q in expanded && Yields(w, r, q, k) {
      assert Yields(w, m, q, k);
    }
  }

  // ---------------------------------------------------------------------------
  // Termination.

  /** How many queued paths are readable files. */
  function CountIn(q: seq<Path>, files: map<Path, string>): nat
  {
    if q == [] then 0 else (if q[0] in files then 1 else 0) + CountIn(q[1..], files)
  }

  lemma {:induction false} CountAppend(q: seq<Path>, x: Path, files: map<Path, string>)
    ensures CountIn(q + [x], files) == CountIn(q, files) + (if x in files then 1 else 0)
    decreases |q|
  {
    if q != [] {
      assert (q + [x])[1..] == q[1..] + [x];
      CountAppend(q[1..], x, files);
    }
  }

  /**
   * The loop's measure: readable files not yet registered, plus readable
   * files waiting in the queue.  A file can enter the queue only when it is
   * registered, so each expansion of a readable file uses up one unit.
   */
  ghost function Potential(m: Merged, files: map<Path, string>): nat
  {
    |set p | p in files && FileKey(p) !in m.nodes| + CountIn(m.queue, files)
  }

  lemma MergeChildPotential(m: Merged, absolute: Path, c: Node, traverse: bool, files: map<Path, string>)
    requires Storable(c)
    ensures Potential(MergeChild(m, absolute, c, traverse), files) <= Potential(m, files)
  {
    var r := MergeChild(m, absolute, c, traverse);
    var s := set p | p in files && FileKey(p) !in m.nodes;
    var s' := set p | p in files && FileKey(p) !in r.nodes;
    if c.filename.Some? && FileKey(c.filename.value) in m.nodes {
      assert r.nodes.Keys == m.nodes.Keys;
      assert s' == s;
    } else {
      var k := StoreKey(c);
      if k.FileKey? {
        assert s' == s - {k.path};
      } else {
        assert s' == s;
      }
      if Enqueued(c, traverse) {
        CountAppend(m.queue, c.filename.value, files);
        assert k == FileKey(c.filename.value) && k !in m.nodes;
        if c.filename.value in files {
          assert c.filename.value in s;
        }
      }
    }
  }

  lemma {:induction false} MergeAllPotential(m: Merged, absolute: Path, cs: seq<Node>, traverse: bool,
                                             files: map<Path, string>)
    requires forall c :: c in cs ==> Storable(c)
    ensures Potential(MergeAll(m, absolute, cs, traverse), files) <= Potential(m, files)
    decreases |cs|
  {
    if cs != [] {
      var init := cs[..|cs| - 1];
      assert forall c :: c in init ==> c in cs;
      MergeAllPotential(m, absolute, init, traverse, files);
      assert cs[|cs| - 1] in cs;
      MergeChildPotential(MergeAll(m, absolute, init, traverse), absolute, cs[|cs| - 1], traverse, files);
    }
  }

  /** Taking the head off the queue lowers the measure by one exactly when the head is readable. */
  lemma DequeuePotential(m: Merged, files: map<Path, string>)
    requires m.queue != []
    ensures Potential(m.(queue := m.queue[1..]), files) + (if m.queue[0] in files then 1 else 0)
            == Potential(m, files)
  {
    var rest := m.(queue := m.queue[1..]);
    assert (set p | p in files && FileKey(p) !in rest.nodes) == (set p | p in files && FileKey(p) !in m.nodes);
  }

  /** The measure depends only on the keys and the queue. */
  lemma SameKeysPotential(m: Merged, r: Merged, files: map<Path, string>)
    requires r.nodes.Keys == m.nodes.Keys && r.queue == m.queue
    ensures Potential(r, files) == Potential(m, files)
  {
    assert (set p | p in files && FileKey(p) !in r.nodes) == (set p | p in files && FileKey(p) !in m.nodes);
  }

  /** Every step lowers the measure, or keeps it and shortens the queue. */
  lemma StepPotential(w: World, traverse: bool, m: Merged, first: bool)
    requires CanStep(m)
    ensures var r := StepSpec(w, traverse, m, first).state;
            Potential(r, w.files) < Potential(m, w.files)
            || (Potential(r, w.files) == Potential(m, w.files) && |r.queue| < |m.queue|)
  {
    var p := m.queue[0];
    var rest := m.(queue := m.queue[1..]);
    DequeuePotential(m, w.files);
    if p != "" {
      match GetChildren(w, ParentOf(m.nodes[FileKey(p)]))
      case Failure(e) =>
        if !first {
          SameKeysPotential(rest, SetError(rest, p, e), w.files);
        }
      case Success(cs) =>
        MergeAllPotential(rest, p, cs, traverse, w.files);
        if p !in w.files {
          assert cs == [];
        }
    }
  }

  // ---------------------------------------------------------------------------
  // Which failure aborts the crawl.

  /** The first path of `s` that is not empty: the first one the loop expands. */
  function FirstNonEmpty(s: seq<Path>): (r: Option<Path>)
    ensures r.Some? ==> r.value in s && r.value != ""
    ensures r.None? <==> forall i :: 0 <= i < |s| ==> s[i] == ""
  {
    if s == [] then None else if s[0] != "" then Some(s[0]) else FirstNonEmpty(s[1..])
  }

  /** The path `FirstNonEmpty` picks has only empty paths before it. */
  lemma {:induction false} FirstNonEmptyIsFirst(s: seq<Path>)
    ensures FirstNonEmpty(s).Some? ==>
              exists i :: 0 <= i < |s| && s[i] == FirstNonEmpty(s).value && forall j :: 0 <= j < i ==> s[j] == ""
  {
    if s != [] && s[0] == "" {
      FirstNonEmptyIsFirst(s[1..]);
      if FirstNonEmpty(s).Some? {
        var i :| 0 <= i < |s[1..]| && s[1..][i] == FirstNonEmpty(s).value && forall j :: 0 <= j < i ==> s[1..][j] == "";
        assert s[i + 1] == FirstNonEmpty(s).value;
        assert forall j :: 0 <= j < i + 1 ==> s[j] == "" by {
          forall j | 0 <= j < i + 1 ensures s[j] == "" {
            if j > 0 { assert s[j] == s[1..][j - 1]; }
          }
        }
      }
    } else if s != [] {
      assert s[0] == FirstNonEmpty(s).value;
    }
  }

  /** The parent context of an entry file. */
  function EntryParent(w: World, e: Path): Parent
  {
    ParentOf(EntryObject(w, e))
  }

  /**
   * The `whilst` loop as a function: step from `m` until the queue is empty
   * or a step aborts.  It ends because every step lowers `Potential`, or
   * keeps it and shortens the queue; what it reaches keeps the invariant and
   * only grows stably from `m`, and unless it aborted nothing is left queued.
   */
  ghost function Crawled(w: World, traverse: bool, entries: seq<Path>, m: Merged, first: bool): (o: Outcome)
    requires Inv(w, m, entries, traverse)
    ensures o.fatal.None? ==> o.state.queue == []
    ensures Inv(w, o.state, entries, traverse) && Stable(m, o.state)
    decreases Potential(m, w.files), |m.queue|
  {
    if m.queue == [] then
      assert m.order[..|m.order|] == m.order;
      Outcome(m, first, None)
    else
      StepInv(w, traverse, m, first, entries);
      StepPotential(w, traverse, m, first);
      var s := StepSpec(w, traverse, m, first);
      if s.fatal.Some? then s
      else
        var o := Crawled(w, traverse, entries, s.state, s.first);
        StableTrans(m, s.state, o.state);
        o
  }

  /** Crawling on from `m`, with the invariant holding there, ends in `o`. */
  ghost predicate EndsIn(w: World, traverse: bool, entries: seq<Path>, m: Merged, first: bool, o: Outcome) {
    Inv(w, m, entries, traverse) && Crawled(w, traverse, entries, m, first) == o
  }

  /** One unrolling of `Crawled`: an abort ends it with the step's outcome, and otherwise it goes on from the step. */
  lemma CrawledStep(w: World, traverse: bool, entries: seq<Path>, m: Merged, first: bool)
    requires Inv(w, m, entries, traverse) && m.queue != []
    ensures CanStep(m) && Inv(w, StepSpec(w, traverse, m, first).state, entries, traverse)
    ensures var s := StepSpec(w, traverse, m, first);
            Crawled(w, traverse, entries, m, first)
            == if s.fatal.Some? then s else Crawled(w, traverse, entries, s.state, s.first)
  {
    StepInv(w, traverse, m, first, entries);
  }

  /** The first file the crawl expands is readable and its text is rejected by the extractor. */
  ghost predicate FirstFails(w: World, entries: seq<Path>) {
    FirstNonEmpty(entries).Some? && GetChildren(w, EntryParent(w, FirstNonEmpty(entries).value)).Failure?
  }

  /**
   * The error handling of one step: only a step taken while `first` holds can
   * abort, and it aborts exactly when the extractor rejects the file; a later
   * rejection only records the error on that file's record; an unreadable
   * file adds nothing and records nothing but still clears `first`.
   */
  lemma StepErrors(w: World, traverse: bool, m: Merged, first: bool)
    requires CanStep(m) && m.queue[0] != ""
    ensures var o := StepSpec(w, traverse, m, first);
            var p := m.queue[0];
            var kids := GetChildren(w, ParentOf(m.nodes[FileKey(p)]));
            && (o.fatal.Some? <==> first && kids.Failure?)
            && (o.fatal.Some? ==> o.fatal.value == kids.error && o.state.nodes == m.nodes)
            && (!first && kids.Failure? ==>
                  o.state.nodes == m.nodes[FileKey(p) := m.nodes[FileKey(p)].(error := Some(kids.error))]
                  && o.state.order == m.order && o.state.queue == m.queue[1..] && !o.first)
            && (p !in w.files ==> o.state == m.(queue := m.queue[1..]) && !o.first && o.fatal.None?)
  {
    var p := m.queue[0];
    if p !in w.files {
      assert GetChildren(w, ParentOf(m.nodes[FileKey(p)])) == Success([]);
      assert MergeAll(m.(queue := m.queue[1..]), p, [], traverse) == m.(queue := m.queue[1..]);
    }
  }
}
