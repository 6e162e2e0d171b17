/** With room for the filename, the working directory and every link, no length limit is
    met, and `realpath` answers exactly as the reference resolver does. */
module RealPathExact {
  import opened Errnos
  import opened PathText
  import opened PathWalk
  import opened FileTree
  import opened RealPathRefines

  /** No link of the kernel is longer than `longest`. */
  ghost predicate LinksUpTo(env: Env, longest: nat) {
    forall n: nat, path :: env.readlink(n, path).Link? ==> |env.readlink(n, path).target| <= longest
  }

  /** The bytes of the output and of the pending text, with the slash between them. */
  function Volume(st: State): nat {
    |st.at.Render()| + (if st.text != "" then |st.at.Lead()| else 0) + |st.text|
  }

  /** What the remaining links may still add. */
  function ToCome(links: nat, longest: nat): nat {
    if links == 0 then 0 else ToCome(links - 1, longest) + longest + 1
  }

  /** All that can still come stays below `limit`. */
  ghost predicate Roomy(env: Env, longest: nat, limit: nat, st: State) {
    && LinksUpTo(env, longest) && st.links <= env.symloopMax && limit <= env.pathMax
    && Volume(st) + ToCome(env.symloopMax - st.links, longest) + 1 < limit
  }

  lemma LeadWidth(at: Resolved)
    ensures |at.Lead()| <= 1
  {
  }

  lemma RoomyNotCrowded(env: Env, longest: nat, limit: nat, st: State, name: string, rest: string)
    requires Roomy(env, longest, limit, st) && st.links < env.symloopMax && |st.text| == |name| + |rest|
    ensures !CrowdedAt(env, st, name, rest)
  {
    hide Resolved.Render, Resolved.Lead;
    LeadWidth(st.at);
  }

  /** Moving a name from the pending text to the output moves its bytes and at most the slash behind it. */
  lemma AppendVolume(st: State, next: State, name: string, rest: string)
    requires |st.text| == |name| + |rest| && name != "" && (rest == "" || rest[0] == '/')
    requires next.text == SkipSlashes(rest)
    requires |next.at.Render()| <= |st.at.Render()| + |st.at.Lead()| + |name|
    ensures Volume(next) <= Volume(st)
  {
    hide Resolved.Render, Resolved.Lead;
    LeadWidth(next.at);
    SkipShortens(rest);
  }

  lemma SkipShortens(rest: string)
    ensures rest != "" && rest[0] == '/' ==> |SkipSlashes(rest)| < |rest|
    ensures rest == "" ==> SkipSlashes(rest) == ""
  {
  }

  lemma RootVolume(st: State)
    requires st.text != "" && st.text[0] == '/'
    ensures Volume(st.(text := SkipSlashes(st.text[1..]), at := Resolved(Root(RootSlashes(st.text)), []))) <= Volume(st)
  {
    var next := st.(text := SkipSlashes(st.text[1..]), at := Resolved(Root(RootSlashes(st.text)), []));
    RootWidths(next.at);
    SkipShortens(st.text[1..]);
    LeadWidth(st.at);
  }

  lemma RootWidths(at: Resolved)
    requires at.base.Root? && at.comps == [] && (at.base.slashes == 1 || at.base.slashes == 2)
    ensures |at.Render()| == at.base.slashes && at.Lead() == ""
  {
  }

  lemma NoLinkVolume(st: State, name: string, rest: string)
    requires st.at.WellFormed() && |st.text| == |name| + |rest| && (rest == "" || rest[0] == '/')
    requires name != "." && '/' !in name && '\0' !in name && (name == "" ==> rest == "")
    ensures Volume(StepNoLink(st, name, rest).state) <= Volume(st)
  {
    var next := StepNoLink(st, name, rest).state;
    if name == "" {
      EmptyVolume(st, next);
    } else if name == ".." {
      if st.at.comps != [] { RenderPop(st.at); }
      AppendVolume(st, next, name, rest);
    } else {
      RenderPush(st.at, name);
      AppendVolume(st, next, name, rest);
    }
  }

  lemma EmptyVolume(st: State, next: State)
    requires st.text == "" && next.text == SkipSlashes("") && next.at == st.at
    ensures Volume(next) <= Volume(st)
  {
    SkipShortens("");
  }

  lemma LinkVolume(st: State, name: string, rest: string, target: string)
    requires |st.text| == |name| + |rest|
    ensures Volume(st.(text := target + Remaining(target, rest))) <= Volume(st) + |target| + 1
  {
    hide Resolved.Render, Resolved.Lead;
    LeadWidth(st.at);
  }

  /** A step that is not a link keeps the volume; a link adds at most its contents and a slash. */
  lemma NameRoomy(env: Env, longest: nat, limit: nat, st: State, name: string, rest: string)
    requires Good(env, st) && Roomy(env, longest, limit, st) && Pieces(st, name, rest)
    requires (rest == "" || rest[0] == '/') && (name == "" ==> rest == "")
    requires StepName(env, st, name, rest).Next?
    ensures Roomy(env, longest, limit, StepName(env, st, name, rest).state)
  {
    hide Good, Volume, Pieces;
    var next := StepName(env, st, name, rest).state;
    NameVolume(env, st, name, rest);
    if next.links > st.links {
      assert ToCome(env.symloopMax - st.links, longest) == ToCome(env.symloopMax - next.links, longest) + longest + 1;
    }
  }

  lemma NameVolume(env: Env, st: State, name: string, rest: string)
    requires Good(env, st) && Pieces(st, name, rest)
    requires (rest == "" || rest[0] == '/') && (name == "" ==> rest == "")
    requires StepName(env, st, name, rest).Next?
    ensures var next := StepName(env, st, name, rest).state;
            || (next.links == st.links && Volume(next) <= Volume(st))
            || (var answer := env.readlink(st.calls, Query(st.at, name));
                next.links == st.links + 1 <= env.symloopMax && answer.Link? && Volume(next) <= Volume(st) + |answer.target| + 1)
  {
    hide Volume, Resolved.Render, Resolved.Lead, SkipSlashes;
    var next := StepName(env, st, name, rest).state;
    if name == "." {
      SameOutput(st);
      AppendVolume(st, next, name, rest);
    } else if name == ".." && st.at.base.Relative? && st.at.comps == [] {
      RenderUp(st.at.base.ups);
      AppendVolume(st, next, name, rest);
    } else if name == ".." && !st.check {
      NoLinkVolume(st, name, rest);
    } else {
      AnswerVolume(env, st, name, rest);
    }
  }

  lemma SameOutput(st: State)
    ensures |st.at.Render()| <= |st.at.Render()| + |st.at.Lead()| + 1
  {
  }

  lemma AnswerVolume(env: Env, st: State, name: string, rest: string)
    requires Good(env, st) && Pieces(st, name, rest) && name != "."
    requires (rest == "" || rest[0] == '/') && (name == "" ==> rest == "")
    ensures var answer := env.readlink(st.calls, Query(st.at, name));
            var m := StepAnswer(env, st.(calls := st.calls + 1), name, rest, answer);
            m.Next? ==>
              || (m.state.links == st.links && Volume(m.state) <= Volume(st))
              || (m.state.links == st.links + 1 <= env.symloopMax && answer.Link?
                  && Volume(m.state) <= Volume(st) + |answer.target| + 1)
  {
    hide Volume, Resolved.Render, Resolved.Lead, SkipSlashes, Remaining;
    var st1 := st.(calls := st.calls + 1);
    SameVolume(st);
    NoLinkVolume(st1, name, rest);
    var answer := env.readlink(st.calls, Query(st.at, name));
    if answer.Link? {
      LinkVolume(st1, name, rest, answer.target);
      SameVolumeLinks(st1.(text := answer.target + Remaining(answer.target, rest)));
    }
  }

  lemma SameVolume(st: State)
    ensures Volume(st.(calls := st.calls + 1)) == Volume(st)
  {
  }

  lemma SameVolumeLinks(st: State)
    ensures Volume(st.(links := st.links + 1)) == Volume(st)
  {
  }

  lemma StepRoomy(env: Env, longest: nat, limit: nat, st: State)
    requires Good(env, st) && Roomy(env, longest, limit, st)
    ensures !Crowded(env, st)
    ensures Step(env, st).Next? ==> Roomy(env, longest, limit, Step(env, st).state)
  {
    hide Volume, Roomy, StepName, CrowdedAt;
    var name, rest := st.text[..NameLen(st.text)], st.text[NameLen(st.text)..];
    GoodLinks(env, st);
    RoomyNotCrowded(env, longest, limit, st, name, rest);
    if st.text != "" && st.text[0] == '/' {
      RootRoomy(env, longest, limit, st);
    } else {
      PiecesOf(env, st);
      if Step(env, st).Next? { NameRoomy(env, longest, limit, st, name, rest); }
    }
  }

  lemma GoodLinks(env: Env, st: State)
    requires Good(env, st)
    ensures st.links < env.symloopMax
  {
  }

  lemma PiecesOf(env: Env, st: State)
    requires Good(env, st) && (st.text == "" || st.text[0] != '/')
    ensures Pieces(st, st.text[..NameLen(st.text)], st.text[NameLen(st.text)..])
  {
    assert forall c :: c in st.text[..NameLen(st.text)] || c in st.text[NameLen(st.text)..] ==> c in st.text;
  }

  lemma RootRoomy(env: Env, longest: nat, limit: nat, st: State)
    requires Roomy(env, longest, limit, st) && st.text != "" && st.text[0] == '/'
    ensures Roomy(env, longest, limit, Step(env, st).state)
  {
    hide Volume, Resolved.Render, Resolved.Lead, SkipSlashes, RootSlashes;
    RootVolume(st);
    SameVolumeCheck(st.(text := SkipSlashes(st.text[1..]), at := Resolved(Root(RootSlashes(st.text)), [])));
  }

  lemma SameVolumeCheck(st: State)
    ensures Volume(st.(check := false)) == Volume(st)
  {
  }

  lemma RoomyWidth(env: Env, longest: nat, limit: nat, st: State)
    requires Good(env, st) && Roomy(env, longest, limit, st)
    ensures st.at.WellFormed() && |st.at.Render()| + 1 < limit
  {
  }

  /** With room, no length is in the way of the loop. */
  lemma {:induction false} RoomyNeverCrowds(env: Env, longest: nat, limit: nat, st: State)
    requires Good(env, st) && Roomy(env, longest, limit, st)
    ensures !Crowds(env, st)
    ensures Run(env, st).Arrived? ==> Run(env, st).at.WellFormed() && |Run(env, st).at.Render()| + 1 < limit
    decreases env.symloopMax - st.links, |st.text|, st.check
  {
    hide Step, Roomy, Crowded;
    StepRoomy(env, longest, limit, st);
    RoomyWidth(env, longest, limit, st);
    if Step(env, st).Next? {
      StepKeepsGood(env, st);
      RoomyNeverCrowds(env, longest, limit, Step(env, st).state);
    }
  }

  // ----------------------------------------------------------- the splice

  lemma SplicedWidth(cwd: string, at: Resolved)
    requires at.WellFormed() && at.base.Relative?
    ensures |Spliced(cwd, at)| <= |cwd| + 1 + |at.Render()|
  {
    hide Resolved.Render;
    PendingUpTest(at);
    AncestorWidth(cwd, at.Ups());
    assert |Separator(AncestorText(cwd, at.Ups()))| <= 1;
  }

  lemma AncestorWidth(cwd: string, n: nat)
    ensures |AncestorText(cwd, n)| <= |cwd|
  {
  }

  /** With room for everything, no length limit decides the outcome. */
  lemma RoomForAll(env: Env, longest: nat, filename: Text)
    requires env.symloopMax > 0 && LinksUpTo(env, longest) && env.cwd.Cwd?
    requires |filename| + ToCome(env.symloopMax, longest) + |env.cwd.text| + 3 < env.pathMax
    ensures !NameTooLong(env, filename) && !CwdTooLong(env, filename)
  {
    hide Crowds, Run, Spliced, LinksUpTo;
    if filename != "" {
      var st := Start(filename);
      StartGood(env, filename);
      StartVolume(filename);
      RoomyNeverCrowds(env, longest, env.pathMax - |env.cwd.text| - 1, st);
      if Run(env, st).Arrived? && Run(env, st).at.base.Relative? {
        SplicedWidth(env.cwd.text, Run(env, st).at);
      }
    }
  }

  lemma StartVolume(filename: string)
    ensures Volume(Start(filename)) <= |filename| + 1
  {
    LeadWidth(Start(filename).at);
    assert Start(filename).at.Render() == "";
  }

  /** With room for the filename, the working directory and all the links, `realpath` is the reference resolver: the
      same success, with the place it finds, and the same error; but it also succeeds where only `.` was still to be
      looked up in a closed directory. */
  lemma RealPathExactly(env: Env, root: Node, cwd: seq<string>, longest: nat, filename: Text)
    requires env.symloopMax > 0 && Agrees(env, root, cwd) && root.Directory? && LinksUpTo(env, longest)
    requires |filename| + ToCome(env.symloopMax, longest) + |env.cwd.text| + 3 < env.pathMax
    ensures RealPathOf(env, filename) ==
            match ResolvePath(root, env.symloopMax, cwd, filename)
            case Found(place) => Success(Written(place))
            case Barred(place) => Success(Written(place))
            case Lost(e) => Failure(e)
  {
    hide NameTooLong, CwdTooLong, LinksUpTo, RealPathOf, ResolvePath, Written;
    AgreesCwd(env, root, cwd);
    RoomForAll(env, longest, filename);
    RealPathCorrect(env, root, cwd, filename);
  }

  /** With that room, `realpath` does what pathname resolution asks for if and only if resolution does not end with
      `.` in a closed directory. */
  lemma ConformsExactly(env: Env, root: Node, cwd: seq<string>, longest: nat, filename: Text)
    requires env.symloopMax > 0 && Agrees(env, root, cwd) && root.Directory? && LinksUpTo(env, longest)
    requires |filename| + ToCome(env.symloopMax, longest) + |env.cwd.text| + 3 < env.pathMax
    ensures var reference := ResolvePath(root, env.symloopMax, cwd, filename);
            RealPathOf(env, filename) == Posix(reference) <==> !reference.Barred?
  {
    hide LinksUpTo, RealPathOf, ResolvePath, Written, Agrees;
    RealPathExactly(env, root, cwd, longest, filename);
  }

  predicate EndsInDot(names: seq<string>) {
    names != [] && names[|names| - 1] == "."
  }

  /** No link in the tree has contents whose last name is `.`. */
  ghost predicate NoDotLinks(root: Node) {
    forall at :: LinkAt(root, at) ==> !EndsInDot(Names(Lookup(root, at).node.target))
  }

  ghost predicate LinkAt(root: Node, at: seq<string>) {
    Lookup(root, at).Some? && Lookup(root, at).node.Symlink?
  }

  lemma EndsBehind(front: seq<string>, names: seq<string>)
    requires !EndsInDot(names) && (names == [] ==> !EndsInDot(front))
    ensures !EndsInDot(front + names)
  {
    if names == [] { assert front + names == front; }
  }

  lemma NotAllDots(names: seq<string>)
    requires names != [] && !EndsInDot(names)
    ensures !OnlyDots(names)
  {
    assert names[|names| - 1] != ".";
  }

  /** Resolution meets that end only if the pathname or the contents of some link end in `.`. */
  lemma {:induction false} BarredNeedsDot(root: Node, budget: nat, at: Place, names: seq<string>, slash: bool)
    requires NoDotLinks(root) && !EndsInDot(names)
    ensures !Resolve(root, budget, at, names, slash).Barred?
    decreases budget, |names|
  {
    hide NoDotLinks, Names;
    if names != [] {
      NotAllDots(names);
      assert !EndsInDot(names[1..]);
      if IsDirectory(root, at.path) {
        var x := names[0];
        var es := Lookup(root, at.path).node.entries;
        if x == "." {
          BarredNeedsDot(root, budget, at, names[1..], slash);
        } else if x == ".." {
          BarredNeedsDot(root, budget, at.(path := Parent(at.path)), names[1..], slash);
        } else if x in es && !es[x].Symlink? {
          BarredNeedsDot(root, budget, at.(path := at.path + [x]), names[1..], slash);
        } else if x in es && es[x].target != "" && budget > 1 {
          var t := es[x].target;
          NoDotLink(root, at.path, x);
          EndsBehind(Names(t), names[1..]);
          BarredNeedsDot(root, budget - 1, if t[0] == '/' then Place(RootSlashes(t), []) else at, Names(t) + names[1..],
                         slash || (names[1..] == [] && EndsInSlash(t)));
        }
      }
    }
  }

  lemma NoDotLink(root: Node, at: seq<string>, x: string)
    requires NoDotLinks(root) && IsDirectory(root, at) && x in Lookup(root, at).node.entries
    requires Lookup(root, at).node.entries[x].Symlink?
    ensures !EndsInDot(Names(Lookup(root, at).node.entries[x].target))
  {
    LookupChild(root, at, x);
    assert LinkAt(root, at + [x]);
  }

  /** So it conforms for every pathname that does not end in `.`, on every tree without such links. */
  lemma ConformsWithoutDot(env: Env, root: Node, cwd: seq<string>, longest: nat, filename: Text)
    requires env.symloopMax > 0 && Agrees(env, root, cwd) && root.Directory? && LinksUpTo(env, longest)
    requires |filename| + ToCome(env.symloopMax, longest) + |env.cwd.text| + 3 < env.pathMax
    requires NoDotLinks(root) && !EndsInDot(Names(filename))
    ensures RealPathOf(env, filename) == Posix(ResolvePath(root, env.symloopMax, cwd, filename))
  {
    hide LinksUpTo, RealPathOf, Posix, Agrees, NoDotLinks;
    ConformsExactly(env, root, cwd, longest, filename);
    if filename != "" {
      var start := if filename[0] == '/' then Place(RootSlashes(filename), []) else Place(1, cwd);
      BarredNeedsDot(root, env.symloopMax, start, Names(filename), EndsInSlash(filename));
    }
  }

  /** The tree with nothing but a closed directory `d` in its root. */
  const ONE_CLOSED := Directory(map["d" := Closed])

  /** Where it does not conform: `/d/.` is `/d` for `realpath`, although `.` may not be looked up in `d`. */
  lemma DotInClosed(env: Env, longest: nat)
    requires env.symloopMax > 0 && Agrees(env, ONE_CLOSED, []) && LinksUpTo(env, longest)
    requires ToCome(env.symloopMax, longest) + 8 < env.pathMax
    ensures RealPathOf(env, "/d/.") == Success("/d")
    ensures Posix(ResolvePath(ONE_CLOSED, env.symloopMax, [], "/d/.")) == Failure(EACCES)
  {
    hide LinksUpTo, RealPathOf, Agrees, Resolve, Names, RootSlashes, Written;
    RootWritten(env);
    ClosedNames();
    ClosedResolves(env.symloopMax);
    RealPathExactly(env, ONE_CLOSED, [], longest, "/d/.");
    ClosedWritten();
  }

  lemma RootWritten(env: Env)
    requires Agrees(env, ONE_CLOSED, [])
    ensures env.cwd.text == "/"
  {
  }

  lemma ClosedWritten()
    ensures Written(Place(1, ["d"])) == "/d"
  {
    assert ["d"][1..] == [];
  }

  lemma ClosedNames()
    ensures Names("/d/.") == ["d", "."] && RootSlashes("/d/.") == 1
  {
    assert "/d/."[1..] == "d/.";
    assert NameLen("/.") == 0;
    assert "d/."[1..] == "/.";
    assert NameLen("d/.") == 1 + NameLen("/.");
    assert "d/."[..1] == "d";
    assert Names("/.") == Names(".") by { assert "/."[1..] == "."; }
    assert NameLen(".") == 1 by { assert "."[1..] == ""; }
    assert "."[..1] == "." && "."[1..] == "";
    assert Names(".") == ["."] + Names("");
  }

  lemma ClosedResolves(budget: nat)
    ensures Resolve(ONE_CLOSED, budget, Place(1, []), ["d", "."], false) == Barred(Place(1, ["d"]))
  {
    assert ["d", "."][1..] == ["."] && [] + ["d"] == ["d"];
    assert Lookup(ONE_CLOSED, ["d"]) == Some(Closed) by { assert ["d"][1..] == []; }
  }

  lemma AgreesCwd(env: Env, root: Node, cwd: seq<string>)
    requires Agrees(env, root, cwd)
    ensures env.cwd.Cwd?
  {
  }
}
