/**
 * One file's direct requires (getChildren), and the exported single-level
 * operation that puts the file's own entry record in front of them (children).
 */
module Children {
  import opened Wrappers
  import opened Env
  import opened Nub
  import opened Records

  // ---------------------------------------------------------------------------
  // Hashbang removal: the text is split into lines, a first line starting
  // with "#!/" is dropped, and the lines are joined again.

  /** Index of the first newline of `s`, or |s| when there is none. */
  function NewlineIndex(s: string): (i: nat)
    ensures i <= |s|
    ensures i < |s| ==> s[i] == '\n'
    ensures forall j :: 0 <= j < i ==> s[j] != '\n'
  {
    if s == [] then 0 else if s[0] == '\n' then 0 else 1 + NewlineIndex(s[1..])
  }

  /** `s.split('\n')`: the pieces between newlines, at least one. */
  function Split(s: string): (lines: seq<string>)
    ensures |lines| > 0
    decreases |s|
  {
    var i := NewlineIndex(s);
    if i == |s| then [s] else [s[..i]] + Split(s[i + 1..])
  }

  /** `lines.join('\n')`. */
  function Join(lines: seq<string>): string
  {
    if lines == [] then ""
    else if |lines| == 1 then lines[0]
    else lines[0] + "\n" + Join(lines[1..])
  }

  /** Joining a first line onto at least one more line puts a newline between them. */
  lemma JoinCons(head: string, tail: seq<string>)
    requires tail != []
    ensures Join([head] + tail) == head + "\n" + Join(tail)
  {
    assert ([head] + tail)[1..] == tail;
  }

  /** Splitting at newlines and joining with newlines gives the text back. */
  lemma {:induction false} JoinSplit(s: string)
    ensures Join(Split(s)) == s
    decreases |s|
  {
    var i := NewlineIndex(s);
    if i == |s| {
      assert Split(s) == [s];
    } else {
      var rest := s[i + 1..];
      JoinSplit(rest);
      assert Split(s) == [s[..i]] + Split(rest);
      JoinCons(s[..i], Split(rest));
      AroundNewline(s, i);
    }
  }

  /** A text is the part before a newline, the newline and the part after it. */
  lemma AroundNewline(s: string, i: nat)
    requires i < |s| && s[i] == '\n'
    ensures s == s[..i] + "\n" + s[i + 1..]
  {
  }

  predicate IsHashbang(line: string) {
    |line| >= 3 && line[..3] == "#!/"
  }

  function StripHashbang(body: string): string
  {
    var lines := Split(body);
    if IsHashbang(lines[0]) then Join(lines[1..]) else Join(lines)
  }

  /** The first line of `body` and the lines after it. */
  lemma SplitHead(body: string)
    ensures Split(body)[0] == body[..NewlineIndex(body)]
    ensures NewlineIndex(body) < |body| ==> Split(body)[1..] == Split(body[NewlineIndex(body) + 1..])
    ensures NewlineIndex(body) == |body| ==> Split(body) == [body]
  {
  }

  /** The first line starts with "#!/" exactly when the whole text does. */
  lemma HashbangOnFirstLine(body: string)
    ensures IsHashbang(body[..NewlineIndex(body)]) <==> IsHashbang(body)
  {
    var i := NewlineIndex(body);
    if IsHashbang(body) {
      assert body[0] != '\n' && body[1] != '\n' && body[2] != '\n';
      assert body[..i][..3] == body[..3];
    } else if i >= 3 {
      assert body[..i][..3] == body[..3];
    }
  }

  /**
   * Text that does not start with "#!/" is left as it is; text that does loses
   * its first line together with the newline after it.
   */
  lemma StripHashbangSpec(body: string)
    ensures !IsHashbang(body) ==> StripHashbang(body) == body
    ensures IsHashbang(body) ==>
              StripHashbang(body) == if NewlineIndex(body) < |body| then body[NewlineIndex(body) + 1..] else ""
  {
    SplitHead(body);
    HashbangOnFirstLine(body);
    if IsHashbang(body) {
      AfterFirstLine(body);
    } else {
      JoinSplit(body);
    }
  }

  /** The lines after the first, joined again, are the text after the first newline. */
  lemma AfterFirstLine(body: string)
    ensures Join(Split(body)[1..]) == if NewlineIndex(body) < |body| then body[NewlineIndex(body) + 1..] else ""
  {
    var i := NewlineIndex(body);
    SplitHead(body);
    if i < |body| {
      JoinSplit(body[i + 1..]);
    }
  }

  // ---------------------------------------------------------------------------
  // Classification and resolution of one specifier.

  /** A specifier starting with '.' or '/' names a file; anything else a package. */
  predicate IsRelative(spec: string) {
    |spec| > 0 && (spec[0] == '.' || spec[0] == '/')
  }

  /** What every child record of `parent` looks like, by kind. */
  ghost predicate ChildShape(w: World, parent: Parent, c: Node) {
    && c.parents == [parent.filename]
    && c.error.None?
    && c.id != ""
    && (|| (!c.isModule && !c.isNative && c.filename.Some? && c.id == w.basename(c.filename.value)
            && c.mgroup == OrFalse(parent.mgroup))
        || (c.isModule && c.isNative && c.filename.None? && c.mgroup == Some(c.id))
        || (c.isModule && !c.isNative && c.filename.Some? && c.mgroup == Some(c.id)))
  }

  /** The verdict findModule obtains for `spec` required from `parent`. */
  function VerdictFor(w: World, parent: Parent, spec: string): Verdict
  {
    w.locate(spec, IdOr(parent.id, spec), w.dirname(w.resolve(parent.filename)))
  }

  /**
   * One specifier through the map and filter steps of getChildren: relative
   * specifiers go to findRelative, the others to findModule, and a missing
   * result or one with an empty id is dropped.
   */
  function ResolveSpecifier(w: World, parent: Parent, spec: string): (r: Option<Node>)
    ensures r.Some? ==> ChildShape(w, parent, r.value)
    ensures IsRelative(spec) ==>
              (r.None? <==>
                 w.basename(LastExisting(w.fileExists, Candidates(w.resolveIn(w.resolve(w.dirname(parent.filename)), spec)),
                                         w.resolveIn(w.resolve(w.dirname(parent.filename)), spec))) == "")
    ensures IsRelative(spec) && r.Some? ==>
              !r.value.isModule && r.value.filename ==
                Some(LastExisting(w.fileExists, Candidates(w.resolveIn(w.resolve(w.dirname(parent.filename)), spec)),
                                  w.resolveIn(w.resolve(w.dirname(parent.filename)), spec)))
    ensures !IsRelative(spec) ==>
              (r.None? <==> (VerdictFor(w, parent, spec).NotFound?
                             || (VerdictFor(w, parent, spec).Native? && spec == "")
                             || (VerdictFor(w, parent, spec).Found? && VerdictFor(w, parent, spec).id == "")))
    ensures !IsRelative(spec) && r.Some? ==> r.value.isModule
    ensures !IsRelative(spec) && r.Some? && r.value.isNative ==>
              VerdictFor(w, parent, spec).Native? && r.value.id == spec && r.value.mgroup == Some(spec)
    ensures !IsRelative(spec) && r.Some? && !r.value.isNative ==>
              VerdictFor(w, parent, spec) == Found(r.value.id, r.value.filename.value)
  {
    var found :=
      if IsRelative(spec) then Some(RelativeRecord(w, spec, w.resolve(w.dirname(parent.filename)), parent))
      else FindModule(w, spec, parent);
    if found.Some? && found.value.id != "" then found else None
  }

  /** The specifiers' records after the map and filter steps, in order. */
  function Resolved(w: World, parent: Parent, specs: seq<string>): (r: seq<Node>)
    ensures forall c :: c in r <==> exists s :: s in specs && ResolveSpecifier(w, parent, s) == Some(c)
    ensures forall c :: c in r ==> ChildShape(w, parent, c)
  {
    if specs == [] then []
    else
      var rest := Resolved(w, parent, specs[1..]);
      assert forall s :: s in specs <==> s == specs[0] || s in specs[1..];
      match ResolveSpecifier(w, parent, specs[0])
      case Some(n) => [n] + rest
      case None => rest
  }

  /** Resolution keeps the specifiers' order: the records of `a + b` are those of `a`, then those of `b`. */
  lemma {:induction false} ResolvedAppend(w: World, parent: Parent, a: seq<string>, b: seq<string>)
    ensures Resolved(w, parent, a + b) == Resolved(w, parent, a) + Resolved(w, parent, b)
    decreases |a|
  {
    if a == [] {
      assert a + b == b;
    } else {
      assert (a + b)[0] == a[0] && (a + b)[1..] == a[1..] + b;
      ResolvedAppend(w, parent, a[1..], b);
    }
  }

  /** One more specifier adds its record, when it resolves to one, at the end. */
  lemma ResolvedSnoc(w: World, parent: Parent, specs: seq<string>, s: string)
    ensures Resolved(w, parent, specs + [s])
            == Resolved(w, parent, specs) + (match ResolveSpecifier(w, parent, s) case Some(n) => [n] case None => [])
  {
    ResolvedAppend(w, parent, specs, [s]);
    assert [s][1..] == [];
  }

  /**
   * The rule duplicates are collapsed by: two package records are the same
   * when their ids agree, any other pair when their filenames agree.
   */
  predicate SameRef(one: Node, two: Node) {
    if one.isModule && two.isModule then one.id == two.id else one.filename == two.filename
  }

  /**
   * getChildren.  An unreadable file has no children and no error; a file the
   * extractor rejects gives that error; otherwise the resolved records with
   * duplicates removed.
   */
  function GetChildren(w: World, parent: Parent): (r: Result<seq<Node>, ParseError>)
    ensures Read(w, parent.filename).None? ==> r == Success([])
    ensures r.Failure? <==>
              parent.filename in w.files && w.detect(StripHashbang(w.files[parent.filename])).Failure?
    ensures r.Failure? ==> r.error == w.detect(StripHashbang(w.files[parent.filename])).error
    ensures r.Success? ==> forall c :: c in r.value ==> ChildShape(w, parent, c)
    ensures r.Success? ==> forall i, j :: 0 <= i < j < |r.value| ==> !SameRef(r.value[j], r.value[i])
  {
    match Read(w, parent.filename)
    case None => Success([])
    case Some(body) =>
      match w.detect(StripHashbang(body))
      case Failure(e) => Failure(e)
      case Success(specs) =>
        var kids := NubBy(Resolved(w, parent, specs), SameRef);
        NubByCovers(Resolved(w, parent, specs), SameRef);
        SubseqMembers(kids, Resolved(w, parent, specs));
        Success(kids)
  }

  /**
   * What the children of a readable, parsable file are: each comes from one
   * of its specifiers, they keep the specifiers' order, every specifier that
   * resolves is represented by a child that is the same reference, and of
   * several records that are the same reference the first one is kept.
   */
  lemma GetChildrenCovers(w: World, parent: Parent, specs: seq<string>)
    requires parent.filename in w.files
    requires w.detect(StripHashbang(w.files[parent.filename])) == Success(specs)
    ensures GetChildren(w, parent).Success?
    ensures exists idx :: KeptAt(Resolved(w, parent, specs), SameRef, GetChildren(w, parent).value, idx)
    ensures IsSubseq(GetChildren(w, parent).value, Resolved(w, parent, specs))
    ensures forall c :: c in GetChildren(w, parent).value ==>
              exists s :: s in specs && ResolveSpecifier(w, parent, s) == Some(c)
    ensures forall s, c :: s in specs && ResolveSpecifier(w, parent, s) == Some(c) ==>
              exists k :: k in GetChildren(w, parent).value && SameRef(c, k)
  {
    var all := Resolved(w, parent, specs);
    var kids := GetChildren(w, parent).value;
    assert kids == NubBy(all, SameRef);
    NubBySpec(all, SameRef);
    SubseqMembers(kids, all);
    forall s, c | s in specs && ResolveSpecifier(w, parent, s) == Some(c)
      ensures exists k :: k in kids && SameRef(c, k)
    {
      assert c in all;
      if c in kids {
        assert SameRef(c, c);
      }
    }
  }

  /**
   * children: the resolved file's entry record followed by the file's direct
   * children, or the extractor's error.  The file is passed on as given, so
   * the children name it, unresolved, as their parent.
   */
  function Children(w: World, filename: Path): (r: Result<seq<Node>, ParseError>)
    ensures r.Failure? <==> GetChildren(w, Parent(None, filename, None)).Failure?
    ensures r.Failure? ==> r.error == GetChildren(w, Parent(None, filename, None)).error
    ensures r.Success? ==>
              && |r.value| >= 1
              && r.value[0] == EntryObject(w, w.resolve(filename))
              && r.value[1..] == GetChildren(w, Parent(None, filename, None)).value
    ensures r.Success? ==> forall i :: 1 <= i < |r.value| ==>
              r.value[i].parents == [filename] && r.value[i].mgroup != Some("")
  {
    var absolute := w.resolve(filename);
    match GetChildren(w, Parent(None, filename, None))
    case Failure(e) => Failure(e)
    case Success(kids) =>
      assert forall i :: 1 <= i < |[EntryObject(w, absolute)] + kids| ==>
        ([EntryObject(w, absolute)] + kids)[i] in kids;
      Success([EntryObject(w, absolute)] + kids)
  }
}
