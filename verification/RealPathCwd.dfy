/** What the working directory is to `realpath`: nothing for absolute names, and for relative ones, where it may not be
    searched, a source of answers that the kernel would not give. */
module RealPathCwd {
  import opened Errnos
  import opened PathText
  import opened PathWalk
  import opened FileTree
  import opened RealPathRefines
  import opened RealPathExact

  // ------------------------------------------------------- absolute names

  /** Two environments that differ at most in the working directory and in what they answer to relative paths. */
  ghost predicate SameAbsolute(a: Env, b: Env) {
    && a.pathMax == b.pathMax && a.symloopMax == b.symloopMax
    && forall n: nat, path :: path != "" && path[0] == '/' ==> a.readlink(n, path) == b.readlink(n, path)
  }

  /** The output is at a root, or about to be reset to one. */
  predicate Anchored(st: State) {
    st.at.base.Root? || (st.text != "" && st.text[0] == '/')
  }

  lemma AnchoredStep(a: Env, b: Env, st: State)
    requires SameAbsolute(a, b) && Good(a, st) && Anchored(st)
    ensures Step(a, st) == Step(b, st) && (Step(a, st).Next? ==> Anchored(Step(a, st).state))
    ensures Step(a, st).Halt? ==> st.at.base.Root?
  {
    hide Resolved.Render, Resolved.Lead;
    if st.text == "" || st.text[0] != '/' {
      AnchoredName(a, b, st, st.text[..NameLen(st.text)], st.text[NameLen(st.text)..]);
    }
  }

  lemma AnchoredName(a: Env, b: Env, st: State, name: string, rest: string)
    requires SameAbsolute(a, b) && st.at.WellFormed() && st.at.base.Root?
    ensures StepName(a, st, name, rest) == StepName(b, st, name, rest)
    ensures StepName(a, st, name, rest).Next? ==> Anchored(StepName(a, st, name, rest).state)
  {
    hide Resolved.Render, Resolved.Lead;
    RenderShape(st.at);
    var path := st.at.Render() + st.at.Lead() + name;
    assert path != "" && path[0] == '/';
    AnchoredAnswer(a, b, st.(calls := st.calls + 1), name, rest, a.readlink(st.calls, path));
  }

  lemma AnchoredAnswer(a: Env, b: Env, st: State, name: string, rest: string, answer: Answer)
    requires SameAbsolute(a, b) && st.at.base.Root?
    ensures StepAnswer(a, st, name, rest, answer) == StepAnswer(b, st, name, rest, answer)
    ensures StepAnswer(a, st, name, rest, answer).Next? ==> Anchored(StepAnswer(a, st, name, rest, answer).state)
    ensures StepNoLink(st, name, rest).Next? && Anchored(StepNoLink(st, name, rest).state)
  {
  }

  lemma {:induction false} AnchoredRun(a: Env, b: Env, st: State)
    requires SameAbsolute(a, b) && Good(a, st) && Good(b, st) && Anchored(st)
    ensures Run(a, st) == Run(b, st) && (Run(a, st).Arrived? ==> Run(a, st).at.base.Root?)
    decreases a.symloopMax - st.links, |st.text|, st.check
  {
    hide Step, Anchored, SameAbsolute;
    SameLimits(a, b);
    AnchoredStep(a, b, st);
    if Step(a, st).Next? {
      StepKeepsGood(a, st);
      StepKeepsGood(b, st);
      AnchoredRun(a, b, Step(a, st).state);
    }
  }

  lemma SameLimits(a: Env, b: Env)
    requires SameAbsolute(a, b)
    ensures a.pathMax == b.pathMax && a.symloopMax == b.symloopMax
  {
  }

  /** For an absolute name neither the working directory nor anything looked up from it matters. */
  lemma AbsoluteIgnoresCwd(a: Env, b: Env, filename: Text)
    requires SameAbsolute(a, b) && a.symloopMax > 0 && filename != "" && filename[0] == '/'
    ensures RealPathOf(a, filename) == RealPathOf(b, filename)
  {
    hide SameAbsolute;
    SameLimits(a, b);
    if |filename| < a.pathMax {
      StartGood(a, filename);
      StartGood(b, filename);
      AnchoredRun(a, b, Start(filename));
    }
  }

  // ------------------------------------- a working directory without search permission

  /** The kernel over this tree, when the working directory is closed. */
  ghost predicate AgreesClosed(env: Env, root: Node, cwd: seq<string>) {
    && Lookup(root, cwd) == Some(Closed)
    && (forall c :: c in cwd ==> IsProper(c))
    && (forall n: nat, path :: KernelReadlink(root, cwd, path).Determined? ==>
          env.readlink(n, path) == KernelReadlink(root, cwd, path).answer)
    && env.cwd.Cwd? && env.cwd.text == Written(Place(1, cwd))
  }

  lemma KernelAgreesClosed(root: Node, cwd: seq<string>, pathMax: nat, symloopMax: nat)
    requires Lookup(root, cwd) == Some(Closed) && forall c :: c in cwd ==> IsProper(c)
    ensures AgreesClosed(KernelEnv(root, cwd, pathMax, symloopMax), root, cwd)
  {
  }

  lemma RelativeRefused(env: Env, root: Node, cwd: seq<string>, n: nat, path: string)
    requires AgreesClosed(env, root, cwd) && path != "" && path[0] != '/'
    ensures env.readlink(n, path) == Refused(EACCES)
  {
    assert Names(path) != [];
    assert KernelReadlink(root, cwd, path) == Determined(Refused(EACCES));
  }

  predicate IsDots(name: string) {
    name == "." || name == ".."
  }

  /** How often the names go up, if they do nothing else. */
  function Climbs(names: seq<string>): nat {
    if names == [] then 0 else Climbs(names[1..]) + (if names[0] == ".." then 1 else 0)
  }

  predicate AllDots(names: seq<string>) {
    forall i :: 0 <= i < |names| ==> IsDots(names[i])
  }

  /** On the way through leading `.` and `..` of a relative name. */
  ghost predicate Climbing(env: Env, st: State) {
    && Good(env, st) && !st.check && (st.text == "" || st.text[0] != '/')
    && st.at.base.Relative? && st.at.comps == [] && Volume(st) < env.pathMax
  }

  lemma ClimbStep(env: Env, root: Node, cwd: seq<string>, st: State)
    requires AgreesClosed(env, root, cwd) && Climbing(env, st) && st.text != ""
    ensures var name, rest := st.text[..NameLen(st.text)], st.text[NameLen(st.text)..];
            && Splits(st.text, name, rest)
            && (!IsDots(name) ==> Step(env, st) == Fail(EACCES))
            && (IsDots(name) ==>
                  Step(env, st) == Next(st.(text := SkipSlashes(rest),
                                            at := if name == "." then st.at else Resolved(Relative(st.at.base.ups + 1), []))))
  {
    HeadSplits(st.text);
    var name := st.text[..NameLen(st.text)];
    var path := st.at.Render() + st.at.Lead() + name;
    RenderShape(st.at);
    if !IsDots(name) {
      assert path != "" && path[0] != '/';
      RelativeRefused(env, root, cwd, st.calls, path);
    }
  }

  lemma ClimbKeeps(env: Env, st: State, name: string, rest: string)
    requires Climbing(env, st) && Splits(st.text, name, rest) && IsDots(name)
    ensures var next := st.(text := SkipSlashes(rest),
                            at := if name == "." then st.at else Resolved(Relative(st.at.base.ups + 1), []));
            Volume(next) < env.pathMax && (next.text == "" || next.text[0] != '/')
  {
    hide Resolved.Render, Resolved.Lead, Names;
    RenderUp(st.at.base.ups);
    AppendVolume(st, st.(text := SkipSlashes(rest), at := if name == "." then st.at else Resolved(Relative(st.at.base.ups + 1), [])),
                 name, rest);
  }

  lemma AllDotsCons(name: string, names: seq<string>)
    ensures AllDots([name] + names) == (IsDots(name) && AllDots(names))
    ensures Climbs([name] + names) == Climbs(names) + (if name == ".." then 1 else 0)
  {
    assert ([name] + names)[1..] == names && ([name] + names)[0] == name;
    assert AllDots([name] + names) ==> forall i :: 0 <= i < |names| ==> names[i] == ([name] + names)[i + 1];
  }

  /** The loop on a relative name: it counts the `..`, and fails at the first name that the kernel is asked about. */
  lemma {:induction false} ClimbRun(env: Env, root: Node, cwd: seq<string>, st: State)
    requires AgreesClosed(env, root, cwd) && Climbing(env, st)
    ensures Run(env, st) == if AllDots(Names(st.text)) then Arrived(Resolved(Relative(st.at.base.ups + Climbs(Names(st.text))), []))
                            else Stuck(EACCES)
    decreases |st.text|
  {
    hide AgreesClosed, Volume, AllDots, Climbs, Names, Step, Good, EndsInSlash;
    if st.text == "" {
      NoNames();
      ClimbEnds(env, st);
    } else {
      var name, rest := st.text[..NameLen(st.text)], st.text[NameLen(st.text)..];
      ClimbStep(env, root, cwd, st);
      AllDotsCons(name, Names(rest));
      if IsDots(name) {
        StepKeepsGood(env, st);
        ClimbKeeps(env, st, name, rest);
        SkippedText(rest);
        ClimbRun(env, root, cwd, Step(env, st).state);
      }
    }
  }

  lemma ClimbEnds(env: Env, st: State)
    requires st.text == "" && !st.check
    ensures Step(env, st) == Halt
  {
  }

  lemma NoNames()
    ensures Names("") == [] && AllDots([]) && Climbs([]) == 0
  {
  }

  /** Below a closed working directory, `realpath` of a relative name made of `.` and `..` alone is that ancestor, and of any other
      it fails with EACCES, which is what resolution answers to all of them. */
  lemma RelativeInClosed(env: Env, root: Node, cwd: seq<string>, filename: Text)
    requires env.symloopMax > 0 && AgreesClosed(env, root, cwd) && |env.cwd.text| + 1 < env.pathMax
    requires filename != "" && filename[0] != '/' && |filename| < env.pathMax
    ensures RealPathOf(env, filename) ==
            if AllDots(Names(filename)) then Success(Written(Place(1, Ancestor(cwd, Climbs(Names(filename)))))) else Failure(EACCES)
    ensures Posix(ResolvePath(root, env.symloopMax, cwd, filename)) == Failure(EACCES)
  {
    hide Volume, AllDots, Climbs, Ancestor, AncestorText, Written;
    StartGood(env, filename);
    StartClimbs(env, filename);
    ClimbRun(env, root, cwd, Start(filename));
    var at := Resolved(Relative(Climbs(Names(filename))), []);
    FinishRenders(env, cwd, at);
    assert Unlead(Flat([])) == "";
    assert Ancestor(cwd, Climbs(Names(filename))) + [] == Ancestor(cwd, Climbs(Names(filename)));
    assert Names(filename) != [];
  }

  lemma StartClimbs(env: Env, filename: Text)
    requires filename != "" && filename[0] != '/' && |filename| < env.pathMax && env.symloopMax > 0
    ensures Climbing(env, Start(filename))
  {
    RenderShape(Start(filename).at);
  }

  /** So there it conforms exactly for the relative names with a component other than `.` and `..`. */
  lemma ClosedConformsExactly(env: Env, root: Node, cwd: seq<string>, filename: Text)
    requires env.symloopMax > 0 && AgreesClosed(env, root, cwd) && |env.cwd.text| + 1 < env.pathMax
    requires filename != "" && filename[0] != '/' && |filename| < env.pathMax
    ensures RealPathOf(env, filename) == Posix(ResolvePath(root, env.symloopMax, cwd, filename)) <==> !AllDots(Names(filename))
  {
    hide RealPathOf, AllDots, ResolvePath, AgreesClosed;
    RelativeInClosed(env, root, cwd, filename);
  }
}
