/** `realpath` as a machine over text: one `Step` is one pass through the body of
    its main loop, with the pending text where the C code has `stack[p..]` and a
    component list where it has `output[..q]`. */
module PathWalk {
  import opened Errnos
  import opened PathText

  /** What `readlink` answers; the link contents are cut to the buffer by the caller. */
  datatype Answer = Link(target: Text) | Refused(error: Errno)

  /** What the `getcwd` system call answers. */
  datatype CwdAnswer = Cwd(text: Text) | NoCwd(error: Errno)

  /** The limits, and the kernel as an oracle. The number of earlier `readlink` calls
      is an argument, so the oracle may contradict itself from one call to the next. */
  datatype Env = Env(pathMax: nat, symloopMax: nat, readlink: (nat, string) -> Answer, cwd: CwdAnswer)

  datatype State = State(text: string, at: Resolved, check: bool, links: nat, calls: nat)

  datatype Move = Next(state: State) | Halt | Fail(error: Errno)

  datatype Walk = Arrived(at: Resolved) | Stuck(error: Errno)

  datatype Outcome = Success(path: string) | Failure(error: Errno)

  /** What every pass through the loop keeps. */
  ghost predicate Good(env: Env, st: State) {
    && '\0' !in st.text && |st.text| < env.pathMax
    && st.at.WellFormed() && |st.at.Render()| < env.pathMax
    && st.links < env.symloopMax
    && (st.check ==> st.at.comps != [])
  }

  function Step(env: Env, st: State): Move {
    if st.text != "" && st.text[0] == '/' then
      Next(st.(text := SkipSlashes(st.text[1..]), at := Resolved(Root(RootSlashes(st.text)), []), check := false))
    else
      StepName(env, st, st.text[..NameLen(st.text)], st.text[NameLen(st.text)..])
  }

  function StepName(env: Env, st: State, name: string, rest: string): Move {
    if name == "" && !st.check then Halt
    else if name == "." then Next(st.(text := SkipSlashes(rest)))
    else if |st.at.Render()| + |st.at.Lead()| + |name| >= env.pathMax then Fail(ENAMETOOLONG)
    else if name == ".." && st.at.base.Relative? && st.at.comps == [] then
      Next(st.(text := SkipSlashes(rest), at := Resolved(Relative(st.at.base.ups + 1), [])))
    else if name == ".." && !st.check then StepNoLink(st, name, rest)
    else StepAnswer(env, st.(calls := st.calls + 1), name, rest, env.readlink(st.calls, st.at.Render() + st.at.Lead() + name))
  }

  /** The label `skip_readlink`: the component is not a symbolic link. */
  function StepNoLink(st: State, name: string, rest: string): Move {
    if name == ".." then Next(st.(text := SkipSlashes(rest), at := st.at.Pop(), check := false))
    else Next(st.(text := SkipSlashes(rest), at := if name == "" then st.at else st.at.Push(name), check := rest != ""))
  }

  function StepAnswer(env: Env, st: State, name: string, rest: string, answer: Answer): Move {
    if answer.Refused? then
      if answer.error == EINVAL then StepNoLink(st, name, rest) else Fail(answer.error)
    else if |answer.target| >= env.pathMax - |rest| then Fail(ENAMETOOLONG)
    else if answer.target == "" then Fail(ENOENT)
    else if st.links + 1 == env.symloopMax then Fail(ELOOP)
    else Next(st.(text := answer.target + Remaining(answer.target, rest), links := st.links + 1))
  }

  /** The pending text behind link contents: no second slash after contents that end in one. */
  function Remaining(target: string, rest: string): string {
    if EndsInSlash(target) then SkipSlashes(rest) else rest
  }

  /** The measure of the main loop: remaining links, then pending bytes, then the directory check. */
  ghost predicate Descends(env: Env, a: State, b: State) {
    || a.links < b.links <= env.symloopMax
    || (a.links == b.links && |b.text| < |a.text|)
    || (a.links == b.links && |b.text| == |a.text| && a.check && !b.check)
  }

  lemma StepKeepsGood(env: Env, st: State)
    requires Good(env, st) && Step(env, st).Next?
    ensures Good(env, Step(env, st).state)
    ensures Descends(env, st, Step(env, st).state)
  {
    if st.text != "" && st.text[0] == '/' {
      assert Resolved(Root(1), []).Render() == "/";
      assert Resolved(Root(2), []).Render() == "//";
    } else {
      var name, rest := st.text[..NameLen(st.text)], st.text[NameLen(st.text)..];
      assert forall c :: c in name || c in rest ==> c in st.text;
      StepNameKeepsGood(env, st, name, rest);
    }
  }

  /** A leading component and the text behind it, as far as sizes and bytes go. */
  ghost predicate Pieces(st: State, name: string, rest: string) {
    && |st.text| == |name| + |rest| && '\0' !in name && '\0' !in rest
    && '/' !in name && (rest == "" || name != "")
  }

  lemma StepNameKeepsGood(env: Env, st: State, name: string, rest: string)
    requires Good(env, st) && Pieces(st, name, rest)
    requires StepName(env, st, name, rest).Next?
    ensures Good(env, StepName(env, st, name, rest).state)
    ensures Descends(env, st, StepName(env, st, name, rest).state)
  {
    hide Good, Descends, StepAnswer, StepNoLink;
    if name == "." {
      DotKeepsGood(env, st, rest);
    } else if name == ".." && st.at.base.Relative? && st.at.comps == [] {
      UpKeepsGood(env, st, rest);
    } else if name == ".." && !st.check {
      NoLinkKeepsGood(env, st, name, rest);
    } else {
      AnswerKeepsGood(env, st, name, rest, env.readlink(st.calls, st.at.Render() + st.at.Lead() + name));
    }
  }

  lemma DotKeepsGood(env: Env, st: State, rest: string)
    requires Good(env, st) && |rest| < |st.text| && '\0' !in rest
    ensures Good(env, st.(text := SkipSlashes(rest)))
    ensures Descends(env, st, st.(text := SkipSlashes(rest)))
  {
  }

  lemma UpKeepsGood(env: Env, st: State, rest: string)
    requires Good(env, st) && |rest| < |st.text| && '\0' !in rest
    requires st.at.base.Relative? && st.at.comps == []
    requires |st.at.Render()| + |st.at.Lead()| + 2 < env.pathMax
    ensures var next := st.(text := SkipSlashes(rest), at := Resolved(Relative(st.at.base.ups + 1), []));
            Good(env, next) && Descends(env, st, next)
  {
    RenderUp(st.at.base.ups);
  }

  lemma AnswerKeepsGood(env: Env, st: State, name: string, rest: string, answer: Answer)
    requires Good(env, st) && Pieces(st, name, rest) && name != "."
    requires name == "" ==> st.check
    requires |st.at.Render()| + |st.at.Lead()| + |name| < env.pathMax
    requires StepAnswer(env, st.(calls := st.calls + 1), name, rest, answer).Next?
    ensures Good(env, StepAnswer(env, st.(calls := st.calls + 1), name, rest, answer).state)
    ensures Descends(env, st, StepAnswer(env, st.(calls := st.calls + 1), name, rest, answer).state)
  {
    if answer.Refused? {
      NoLinkKeepsGood(env, st.(calls := st.calls + 1), name, rest);
    }
  }

  lemma NoLinkKeepsGood(env: Env, st: State, name: string, rest: string)
    requires Good(env, st) && Pieces(st, name, rest) && name != "."
    requires name == "" ==> st.check
    requires |st.at.Render()| + |st.at.Lead()| + |name| < env.pathMax
    ensures StepNoLink(st, name, rest).Next?
    ensures Good(env, StepNoLink(st, name, rest).state)
    ensures Descends(env, st, StepNoLink(st, name, rest).state)
  {
    if name == ".." {
      if st.at.comps != [] { RenderPop(st.at); }
    } else if name != "" {
      RenderPush(st.at, name);
    }
  }

  /** The main loop, from any of its states, under any oracle. */
  ghost function Run(env: Env, st: State): Walk
    requires Good(env, st)
    decreases env.symloopMax - st.links, |st.text|, st.check
  {
    match Step(env, st)
    case Next(next) => StepKeepsGood(env, st); Run(env, next)
    case Halt => Arrived(st.at)
    case Fail(e) => Stuck(e)
  }

  /** A length is in the way: the component does not fit the output, or the link contents do not fit
      in front of the pending text. */
  predicate CrowdedAt(env: Env, st: State, name: string, rest: string) {
    || |st.at.Render()| + |st.at.Lead()| + |name| >= env.pathMax
    || (var answer := env.readlink(st.calls, st.at.Render() + st.at.Lead() + name);
        answer.Link? && |answer.target| >= env.pathMax - |rest|)
  }

  predicate Crowded(env: Env, st: State) {
    CrowdedAt(env, st, st.text[..NameLen(st.text)], st.text[NameLen(st.text)..])
  }

  /** Somewhere along the run a length is in the way. */
  ghost predicate Crowds(env: Env, st: State)
    requires Good(env, st)
    decreases env.symloopMax - st.links, |st.text|, st.check
  {
    match Step(env, st)
    case Next(next) => StepKeepsGood(env, st); Crowds(env, next)
    case Halt => false
    case Fail(e) => e == ENAMETOOLONG && Crowded(env, st)
  }

  function Start(filename: string): State {
    State(filename, Resolved(Relative(0), []), false, 0, 0)
  }

  // ------------------------------------------------ the working directory

  /** Scan back to the last slash, as the inner loop of the splice does. */
  function CutName(c: string): (r: string)
    ensures |r| <= |c| && r == c[..|r|] && (c != "" ==> r != "")
    ensures |r| <= 1 || EndsInSlash(r)
  {
    if |c| > 1 && c[|c| - 1] != '/' then CutName(c[..|c| - 1]) else c
  }

  /** Drop the last component of an absolute path; the root stays. */
  function ParentText(c: string): (r: string)
    ensures |r| <= |c| && r == c[..|r|] && (c != "" ==> r != "")
  {
    var d := CutName(c);
    if |d| > 1 then d[..|d| - 1] else d
  }

  function AncestorText(c: string, n: nat): (r: string)
    ensures |r| <= |c| && r == c[..|r|] && (c != "" ==> r != "")
  {
    if n == 0 then c else AncestorText(ParentText(c), n - 1)
  }

  lemma AncestorStep(c: string, n: nat)
    ensures AncestorText(c, n) == if n == 0 then c else AncestorText(ParentText(c), n - 1)
  {
  }

  /** The code after the main loop: a relative output is spliced onto the working directory. */
  function Finish(env: Env, at: Resolved): Outcome {
    if at.base.Root? then Success(at.Render())
    else if env.cwd.NoCwd? then Failure(env.cwd.error)
    else if |env.cwd.text| > env.pathMax then Failure(ERANGE)
    else if env.cwd.text == "" || env.cwd.text[0] != '/' then Failure(ENOENT)
    else if |Spliced(env.cwd.text, at)| + 1 >= env.pathMax then Failure(ENAMETOOLONG)
    else Success(Spliced(env.cwd.text, at))
  }

  /** The directory the counted `..` lead to, and the components behind it. */
  function Spliced(cwd: string, at: Resolved): string {
    var dir := AncestorText(cwd, at.Ups());
    var tail := Unlead(Flat(at.comps));
    dir + (if tail != "" then Separator(dir) else "") + tail
  }

  /** The outcome a finished walk leads to. */
  function Conclude(env: Env, walk: Walk): Outcome {
    match walk
    case Arrived(at) => Finish(env, at)
    case Stuck(e) => Failure(e)
  }

  lemma StartGood(env: Env, filename: Text)
    requires filename != "" && |filename| < env.pathMax && env.symloopMax > 0
    ensures Good(env, Start(filename))
  {
  }

  /** `realpath` on a non-null filename, for any limits and any oracle. */
  ghost function RealPathOf(env: Env, filename: Text): Outcome
    requires env.symloopMax > 0
  {
    if filename == "" then Failure(ENOENT)
    else if |filename| >= env.pathMax then Failure(ENAMETOOLONG)
    else
      StartGood(env, filename);
      Conclude(env, Run(env, Start(filename)))
  }

  /** What the loop arrives at is relative, so the working directory is asked for. */
  ghost predicate NeedsCwd(env: Env, filename: Text)
    requires env.symloopMax > 0 && filename != "" && |filename| < env.pathMax
  {
    StartGood(env, filename);
    Run(env, Start(filename)).Arrived? && Run(env, Start(filename)).at.base.Relative?
  }

  /** `PATH_MAX` is too small for the filename, for a step of the loop, or for the splice with the working directory. */
  ghost predicate NameTooLong(env: Env, filename: Text)
    requires env.symloopMax > 0
  {
    filename != "" &&
    (|filename| >= env.pathMax ||
     (StartGood(env, filename);
      Crowds(env, Start(filename)) || (NeedsCwd(env, filename) && JoinTooLong(env, Run(env, Start(filename)).at))))
  }

  predicate JoinTooLong(env: Env, at: Resolved) {
    && env.cwd.Cwd? && env.cwd.text != "" && env.cwd.text[0] == '/' && |env.cwd.text| <= env.pathMax
    && |Spliced(env.cwd.text, at)| + 1 >= env.pathMax
  }

  /** The working directory is asked for, and its pathname does not fit the buffer. */
  ghost predicate CwdTooLong(env: Env, filename: Text)
    requires env.symloopMax > 0
  {
    filename != "" && |filename| < env.pathMax && NeedsCwd(env, filename) && env.cwd.Cwd? && |env.cwd.text| > env.pathMax
  }
}
