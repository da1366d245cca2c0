/**
 * The record the crawler keeps for every file or package it discovers, and
 * the three ways such a record is built: for an entry file, for a relative
 * require, and for a package require answered by the module locator.
 */
module Records {
  import opened Wrappers
  import opened Env

  /**
   * One discovered file.  `filename` is absent for builtins; `mgroup` None is
   * the source's `false` ("outside every package"); `error` is set when the
   * file's text could not be analysed.
   */
  datatype Node = Node(
    id: string,
    filename: Option<Path>,
    parents: seq<Path>,
    isModule: bool,
    isNative: bool,
    mgroup: Option<string>,
    error: Option<ParseError>)

  /** The requiring file as the resolvers see it: its id, its filename and its group. */
  datatype Parent = Parent(id: Option<string>, filename: Path, mgroup: Option<string>)

  /** The requiring context taken from a registered record. */
  function ParentOf(n: Node): (p: Parent)
    requires n.filename.Some?
    ensures p.filename == n.filename.value && p.mgroup == n.mgroup && p.id == Some(n.id)
  {
    Parent(Some(n.id), n.filename.value, n.mgroup)
  }

  /** `group || false`: an empty group name counts as no group. */
  function OrFalse(group: Option<string>): (r: Option<string>)
    ensures r.Some? ==> r == group && r.value != ""
    ensures group.Some? && group.value != "" ==> r == group
  {
    if group == Some("") then None else group
  }

  /** `parent.id || request`. */
  function IdOr(id: Option<string>, request: string): (r: string)
    ensures id.Some? && id.value != "" ==> r == id.value
    ensures id.None? || id.value == "" ==> r == request
  {
    if id.Some? && id.value != "" then id.value else request
  }

  /** The record of an entry file (entryObject). */
  function EntryObject(w: World, filename: Path): (r: Node)
    ensures r.parents == [] && !r.isModule && !r.isNative && r.mgroup.None?
    ensures r.filename == Some(filename) && r.id == w.basename(filename) && r.error.None?
  {
    Node(w.basename(filename), Some(filename), [], false, false, None, None)
  }

  /**
   * The five forms a relative require is probed in, in probing order: the
   * bare target first, then the target with ever longer suffixes, so no two
   * candidates coincide.
   */
  function Candidates(target: Path): (c: seq<Path>)
    ensures |c| == 5 && c[0] == target
    ensures forall i :: 0 <= i < |c| ==> target <= c[i]
    ensures forall i, j :: 0 <= i < j < |c| ==> |c[i]| < |c[j]|
  {
    [target, target + ".js", target + ".json", target + ".coffee", target + "/index.js"]
  }

  /**
   * The last candidate that exists, or `fallback` when none does.  This is the
   * one the probing loop leaves in `target`, since each hit overwrites it.
   */
  function LastExisting(present: Path -> bool, cands: seq<Path>, fallback: Path): Path
    decreases |cands|
  {
    if cands == [] then fallback
    else if present(cands[|cands| - 1]) then cands[|cands| - 1]
    else LastExisting(present, cands[..|cands| - 1], fallback)
  }

  /** With no existing candidate the result is the fallback. */
  lemma {:induction false} LastExistingNone(present: Path -> bool, cands: seq<Path>, fallback: Path)
    requires forall i :: 0 <= i < |cands| ==> !present(cands[i])
    ensures LastExisting(present, cands, fallback) == fallback
    decreases |cands|
  {
    if cands != [] {
      var init := cands[..|cands| - 1];
      assert !present(cands[|cands| - 1]);
      assert forall i :: 0 <= i < |init| ==> init[i] == cands[i];
      LastExistingNone(present, init, fallback);
    }
  }

  /** When some candidate exists the result is an existing candidate after which none exists. */
  lemma {:induction false} LastExistingHit(present: Path -> bool, cands: seq<Path>, fallback: Path, i: nat)
    requires i < |cands| && present(cands[i])
    ensures exists k :: 0 <= k < |cands| && LastExisting(present, cands, fallback) == cands[k] && present(cands[k]) &&
              forall j :: k < j < |cands| ==> !present(cands[j])
    decreases |cands|
  {
    var last := |cands| - 1;
    if present(cands[last]) {
      assert LastExisting(present, cands, fallback) == cands[last];
    } else {
      var init := cands[..last];
      assert i < last && init[i] == cands[i];
      LastExistingHit(present, init, fallback, i);
      var k :| 0 <= k < |init| && LastExisting(present, init, fallback) == init[k] && present(init[k]) &&
               forall j :: k < j < |init| ==> !present(init[j]);
      assert LastExisting(present, cands, fallback) == cands[k];
      assert forall j :: k < j < |cands| ==> !present(cands[j]) by {
        assert forall j :: k < j < last ==> cands[j] == init[j];
      }
    }
  }

  /**
   * With no existing candidate the result is the fallback; otherwise it is an
   * existing candidate after which no candidate exists.
   */
  lemma LastExistingSpec(present: Path -> bool, cands: seq<Path>, fallback: Path)
    ensures var r := LastExisting(present, cands, fallback);
            && ((forall i :: 0 <= i < |cands| ==> !present(cands[i])) ==> r == fallback)
            && ((exists i :: 0 <= i < |cands| && present(cands[i])) ==>
                  exists k :: 0 <= k < |cands| && r == cands[k] && present(cands[k]) &&
                    forall j :: k < j < |cands| ==> !present(cands[j]))
  {
    if exists i :: 0 <= i < |cands| && present(cands[i]) {
      var i :| 0 <= i < |cands| && present(cands[i]);
      LastExistingHit(present, cands, fallback, i);
    } else {
      LastExistingNone(present, cands, fallback);
    }
  }

  /** The record findRelative returns, with its target chosen by `LastExisting`. */
  function RelativeRecord(w: World, request: string, directory: Path, parent: Parent): (r: Node)
    ensures r.parents == [parent.filename] && !r.isModule && !r.isNative && r.error.None?
    ensures r.mgroup == OrFalse(parent.mgroup)
    ensures r.filename.Some? && r.id == w.basename(r.filename.value)
    ensures r.filename.value in Candidates(w.resolveIn(directory, request))
    ensures !w.fileExists(r.filename.value) ==> r.filename == Some(w.resolveIn(directory, request))
  {
    var target := w.resolveIn(directory, request);
    var f := LastExisting(w.fileExists, Candidates(target), target);
    LastExistingSpec(w.fileExists, Candidates(target), target);
    Node(w.basename(f), Some(f), [parent.filename], false, false, OrFalse(parent.mgroup), None)
  }

  /**
   * findRelative: probe the candidates in order, each existing one replacing
   * the target found so far.
   */
  method FindRelative(w: World, request: string, directory: Path, parent: Parent) returns (r: Node)
    ensures r == RelativeRecord(w, request, directory, parent)
  {
    var target := w.resolveIn(directory, request);
    var attempts := Candidates(target);
    ghost var resolved := target;
    var i := 0;
    while i < |attempts|
      invariant 0 <= i <= |attempts|
      invariant target == LastExisting(w.fileExists, attempts[..i], resolved)
    {
      var ok := w.fileExists(attempts[i]);
      if ok {
        target := attempts[i];
      }
      assert attempts[..i + 1][..i] == attempts[..i];
      i := i + 1;
    }
    assert attempts[..i] == attempts;
    r := Node(w.basename(target), Some(target), [parent.filename], false, false,
              OrFalse(parent.mgroup), None);
  }

  /** The record findModule builds from the locator's verdict; NotFound gives none. */
  function ModuleRecord(request: string, parent: Parent, v: Verdict): (r: Option<Node>)
    ensures r.None? <==> v.NotFound?
    ensures v.Native? ==> r == Some(Node(request, None, [parent.filename], true, true, Some(request), None))
    ensures v.Found? ==> r == Some(Node(v.id, Some(v.filename), [parent.filename], true, false, Some(v.id), None))
  {
    match v
    case Native => Some(Node(request, None, [parent.filename], true, true, Some(request), None))
    case Found(id, filename) => Some(Node(id, Some(filename), [parent.filename], true, false, Some(id), None))
    case NotFound => None
  }

  /**
   * findModule: ask the locator about `request` from the requiring file's
   * directory, under the requiring file's id (or the request when it has none).
   */
  function FindModule(w: World, request: string, parent: Parent): (r: Option<Node>)
    ensures var v := w.locate(request, IdOr(parent.id, request), w.dirname(w.resolve(parent.filename)));
            && (r.None? <==> v.NotFound?)
            && (r.Some? ==> && r.value.isModule && r.value.parents == [parent.filename]
                            && r.value.mgroup == Some(r.value.id) && r.value.error.None?
                            && (r.value.isNative <==> v.Native?)
                            && (v.Native? ==> r.value.id == request && r.value.filename.None?)
                            && (v.Found? ==> r.value.id == v.id && r.value.filename == Some(v.filename)))
  {
    var directory := w.dirname(w.resolve(parent.filename));
    ModuleRecord(request, parent, w.locate(request, IdOr(parent.id, request), directory))
  }
}
