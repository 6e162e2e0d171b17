/** Every error of `realpath`: the lengths that `PATH_MAX` limits, the working directory, and the steps of the loop. */
module RealPathLimits {
  import opened Errnos
  import opened PathText
  import opened PathWalk
  import opened FileTree
  import opened RealPathRefines

  /** An empty name is ENOENT, and a name of `PATH_MAX` bytes or more is ENAMETOOLONG, under every oracle. */
  lemma NameLimits(env: Env, filename: Text)
    requires env.symloopMax > 0
    ensures filename == "" ==> RealPathOf(env, filename) == Failure(ENOENT)
    ensures filename != "" && |filename| >= env.pathMax ==> RealPathOf(env, filename) == Failure(ENAMETOOLONG)
  {
  }

  lemma {:induction false} CrowdsSticks(env: Env, st: State)
    requires Good(env, st) && Crowds(env, st)
    ensures Run(env, st) == Stuck(ENAMETOOLONG)
    decreases env.symloopMax - st.links, |st.text|, st.check
  {
    hide Crowded;
    if Step(env, st).Next? {
      StepKeepsGood(env, st);
      CrowdsSticks(env, Step(env, st).state);
    }
  }

  /** A length that is in the way does lead to its error. */
  lemma LengthsDecide(env: Env, filename: Text)
    requires env.symloopMax > 0
    ensures NameTooLong(env, filename) ==> RealPathOf(env, filename) == Failure(ENAMETOOLONG)
    ensures CwdTooLong(env, filename) ==> RealPathOf(env, filename) == Failure(ERANGE)
  {
    hide Crowds, Run, Spliced;
    if filename != "" && |filename| < env.pathMax {
      StartGood(env, filename);
      if Crowds(env, Start(filename)) { CrowdsSticks(env, Start(filename)); }
    }
  }

  /** Resolution over a tree has no other errors than these. */
  lemma {:induction false} ResolveErrors(root: Node, budget: nat, at: Place, names: seq<string>, slash: bool)
    ensures var r := Resolve(root, budget, at, names, slash); r.Lost? ==> r.error in {ENOENT, ENOTDIR, EACCES, ELOOP}
    decreases budget, |names|
  {
    hide Names;
    if IsDirectory(root, at.path) && names != [] {
      var x := names[0];
      var es := Lookup(root, at.path).node.entries;
      if x == "." {
        ResolveErrors(root, budget, at, names[1..], slash);
      } else if x == ".." {
        ResolveErrors(root, budget, at.(path := Parent(at.path)), names[1..], slash);
      } else if x in es && !es[x].Symlink? {
        ResolveErrors(root, budget, at.(path := at.path + [x]), names[1..], slash);
      } else if x in es && es[x].target != "" && budget > 1 {
        var t := es[x].target;
        ResolveErrors(root, budget - 1, if t[0] == '/' then Place(RootSlashes(t), []) else at, Names(t) + names[1..],
                      slash || (names[1..] == [] && EndsInSlash(t)));
      }
    }
  }

  /** Over a fixed tree, ENAMETOOLONG and ERANGE mean exactly that. */
  lemma LengthErrorsExactly(env: Env, root: Node, cwd: seq<string>, filename: Text)
    requires env.symloopMax > 0 && Agrees(env, root, cwd) && root.Directory?
    ensures RealPathOf(env, filename) == Failure(ENAMETOOLONG) <==> NameTooLong(env, filename)
    ensures RealPathOf(env, filename) == Failure(ERANGE) <==> CwdTooLong(env, filename)
  {
    hide NameTooLong, CwdTooLong, RealPathOf, Resolve, Agrees;
    RealPathCorrect(env, root, cwd, filename);
    LengthsDecide(env, filename);
    if filename != "" {
      var start := if filename[0] == '/' then Place(RootSlashes(filename), []) else Place(1, cwd);
      ResolveErrors(root, env.symloopMax, start, Names(filename), EndsInSlash(filename));
    }
  }

  /** The working directory's own errors, when it is needed. */
  lemma CwdErrors(env: Env, filename: Text)
    requires env.symloopMax > 0 && filename != "" && |filename| < env.pathMax && NeedsCwd(env, filename)
    ensures env.cwd.NoCwd? ==> RealPathOf(env, filename) == Failure(env.cwd.error)
    ensures env.cwd.Cwd? && |env.cwd.text| > env.pathMax ==> RealPathOf(env, filename) == Failure(ERANGE)
    ensures env.cwd.Cwd? && |env.cwd.text| <= env.pathMax && !(env.cwd.text != "" && env.cwd.text[0] == '/') ==>
              RealPathOf(env, filename) == Failure(ENOENT)
    ensures env.cwd.Cwd? && |env.cwd.text| <= env.pathMax && env.cwd.text != "" && env.cwd.text[0] == '/' ==>
              (RealPathOf(env, filename).Success? <==> !NameTooLong(env, filename))
  {
    hide Run, Spliced, Crowds;
    StartGood(env, filename);
    if Crowds(env, Start(filename)) { CrowdsSticks(env, Start(filename)); }
  }

  // -------------------------------------------------- the steps of the loop

  /** The component is copied to the output: there is one that is not `.`, or a directory is to be checked. */
  predicate Copies(st: State, name: string) {
    name != "." && (name != "" || st.check)
  }

  /** `..` that is counted, or cancels a component known to be a directory, without asking the kernel. */
  predicate Quiet(st: State, name: string) {
    name == ".." && (!st.check || (st.at.base.Relative? && st.at.comps == []))
  }

  /** When a step fails, and with which error, in terms of what would be in the two buffers. */
  lemma StepErrors(env: Env, st: State, name: string, rest: string)
    requires Good(env, st) && (st.text == "" || st.text[0] != '/')
    requires name == st.text[..NameLen(st.text)] && rest == st.text[NameLen(st.text)..]
    ensures !Copies(st, name) ==> !Step(env, st).Fail?
    ensures Copies(st, name) && |Query(st.at, name)| >= env.pathMax ==> Step(env, st) == Fail(ENAMETOOLONG)
    ensures Copies(st, name) && |Query(st.at, name)| < env.pathMax && Quiet(st, name) ==> Step(env, st).Next?
    ensures Copies(st, name) && |Query(st.at, name)| < env.pathMax && !Quiet(st, name) ==>
              AnswerDecides(env, st, rest, env.readlink(st.calls, Query(st.at, name)), Step(env, st))
  {
    hide StepNoLink, NameLen, Resolved.Render, Resolved.Lead;
    NoLinkNeverFails(st.(calls := st.calls + 1), name, rest);
    NoLinkNeverFails(st, name, rest);
  }

  lemma NoLinkNeverFails(st: State, name: string, rest: string)
    ensures StepNoLink(st, name, rest).Next?
  {
  }

  /** What the kernel's answer leads to: its error unless the component is no link; for a link, ENAMETOOLONG where the contents and
      the pending text do not fit the stack, ENOENT where they are empty, ELOOP where the budget is used up, in this order. */
  ghost predicate AnswerDecides(env: Env, st: State, rest: string, answer: Answer, m: Move) {
    match answer
    case Refused(e) => if e == EINVAL then m.Next? else m == Fail(e)
    case Link(target) =>
      if |target + rest| >= env.pathMax then m == Fail(ENAMETOOLONG)
      else if target == "" then m == Fail(ENOENT)
      else if st.links + 1 == env.symloopMax then m == Fail(ELOOP)
      else m.Next? && m.state.links == st.links + 1
  }
}
