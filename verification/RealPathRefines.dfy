/** `realpath` refines pathname resolution: over a fixed tree, every step of the
    text machine keeps what the component-list resolver would answer. */
module RealPathRefines {
  import opened Errnos
  import opened PathText
  import opened PathWalk
  import opened FileTree

  function Ancestor(names: seq<string>, n: nat): (r: seq<string>)
    ensures |r| <= |names| && r == names[..|r|]
  {
    if n == 0 then names else Ancestor(Parent(names), n - 1)
  }

  /** The place an encoded component list denotes. */
  function PlaceOf(cwd: seq<string>, at: Resolved): Place {
    match at.base
    case Root(s) => Place(s, at.comps)
    case Relative(u) => Place(1, Ancestor(cwd, u) + at.comps)
  }

  /** Text with a leading slash is about to reset the output to a root. */
  function PlaceNow(cwd: seq<string>, st: State): Place {
    if st.text != "" && st.text[0] == '/' then Place(RootSlashes(st.text), []) else PlaceOf(cwd, st.at)
  }

  function MustBeDirectory(st: State): bool {
    if st.text == "" then st.check else EndsInSlash(st.text)
  }

  /** `realpath` skips `.` without asking, so it does not notice that the last directory is closed. */
  function Unbarred(r: Resolution): Resolution {
    if r.Barred? then Found(r.place) else r
  }

  /** What the reference resolver answers from here, but for `.` at the end in a closed directory. */
  function Value(env: Env, root: Node, cwd: seq<string>, st: State): Resolution
    requires st.links <= env.symloopMax
  {
    Unbarred(Resolve(root, env.symloopMax - st.links, PlaceNow(cwd, st), Names(st.text), MustBeDirectory(st)))
  }

  /** The output names something real, and it is known to be a directory unless `check_dir` is set. */
  ghost predicate Placed(root: Node, cwd: seq<string>, st: State) {
    && Stands(root, PlaceOf(cwd, st.at).path)
    && (!st.check && st.text != "" ==> IsDirectory(root, PlaceOf(cwd, st.at).path))
  }

  ghost predicate Sound(env: Env, root: Node, cwd: seq<string>, st: State) {
    Good(env, st) && Placed(root, cwd, st)
  }

  // ----------------------------------------------------- small text facts

  lemma SkippedText(t: string)
    ensures Names(SkipSlashes(t)) == Names(t)
    ensures SkipSlashes(t) == "" <==> Names(t) == []
    ensures SkipSlashes(t) != "" ==> EndsInSlash(SkipSlashes(t)) == EndsInSlash(t)
    ensures SkipSlashes(t) == "" && t != "" ==> EndsInSlash(t)
  {
    NamesSkip(t);
  }

  /** The leading component `name` of a pending text and what follows it. */
  ghost predicate Splits(text: string, name: string, rest: string) {
    && text == name + rest && name != "" && '/' !in name
    && (rest == "" || rest[0] == '/')
    && Names(text) == [name] + Names(rest)
    && EndsInSlash(text) == EndsInSlash(rest)
  }

  lemma EndsInTail(name: string, rest: string)
    requires '/' !in name
    ensures EndsInSlash(name + rest) == EndsInSlash(rest)
  {
  }

  lemma HeadSplits(text: string)
    requires text != "" && text[0] != '/'
    ensures Splits(text, text[..NameLen(text)], text[NameLen(text)..])
  {
    var name, rest := text[..NameLen(text)], text[NameLen(text)..];
    assert text == name + rest;
    EndsInTail(name, rest);
  }

  // -------------------------------------------------- the kernel's queries

  lemma {:induction false} FollowDots(root: Node, cwd: seq<string>, u: nat, tail: seq<string>)
    requires IsDirectory(root, cwd)
    ensures IsDirectory(root, Ancestor(cwd, u))
    ensures Follow(root, cwd, Dots(u) + tail) == Follow(root, Ancestor(cwd, u), tail)
  {
    if u == 0 {
      assert Dots(0) + tail == tail;
    } else {
      if cwd != [] { PrefixIsDirectory(root, cwd, |cwd| - 1); }
      FollowDots(root, Parent(cwd), u - 1, tail);
      assert (Dots(u) + tail)[0] == "..";
      assert (Dots(u) + tail)[1..] == Dots(u - 1) + tail;
    }
  }

  lemma {:induction false} FollowNames(root: Node, at: seq<string>, comps: seq<string>, tail: seq<string>)
    requires Lookup(root, at + comps).Some?
    requires forall c :: c in comps ==> IsProper(c)
    ensures Follow(root, at, comps + tail) == Follow(root, at + comps, tail)
    decreases |comps|
  {
    if comps == [] {
      assert at + comps == at && comps + tail == tail;
    } else {
      var x := comps[0];
      assert x in comps && forall c :: c in comps[1..] ==> c in comps;
      assert at + comps == (at + [x]) + comps[1..];
      LookupAppend(root, at + [x], comps[1..]);
      LookupChild(root, at, x);
      assert (comps + tail)[0] == x && (comps + tail)[1..] == comps[1..] + tail;
      FollowNames(root, at + [x], comps[1..], tail);
    }
  }

  /** The way the kernel takes through the output and one more name. */
  lemma FollowQuery(root: Node, cwd: seq<string>, at: Resolved, tail: seq<string>)
    requires at.WellFormed() && IsDirectory(root, cwd)
    requires Lookup(root, PlaceOf(cwd, at).path).Some?
    ensures Follow(root, if at.base.Root? then [] else cwd, Dots(at.Ups()) + at.comps + tail)
            == Follow(root, PlaceOf(cwd, at).path, tail)
  {
    if at.base.Root? {
      assert [] + at.comps == at.comps;
      assert Dots(at.Ups()) + at.comps + tail == at.comps + tail;
      FollowNames(root, [], at.comps, tail);
    } else {
      var up := Ancestor(cwd, at.base.ups);
      assert Dots(at.Ups()) + at.comps + tail == Dots(at.base.ups) + (at.comps + tail);
      FollowDots(root, cwd, at.base.ups, at.comps + tail);
      FollowNames(root, up, at.comps, tail);
    }
  }

  function Query(at: Resolved, x: string): string {
    at.Render() + at.Lead() + x
  }

  lemma QueryShape(at: Resolved, x: string)
    requires at.WellFormed() && (x == "" ==> at.comps != []) && (x != "" ==> IsName(x))
    ensures Query(at, x) != ""
    ensures Query(at, x)[0] == '/' <==> at.base.Root?
    ensures EndsInSlash(Query(at, x)) <==> x == ""
  {
    RenderShape(at);
    if x != "" {
      assert x[0] in x && x[|x| - 1] in x;
    }
  }

  /** The kernel's reply to the query for one more name, in terms of the place reached so far. */
  lemma QueryReply(root: Node, cwd: seq<string>, at: Resolved, x: string)
    requires at.WellFormed() && (x == "" ==> at.comps != []) && (x != "" ==> IsName(x))
    requires IsDirectory(root, cwd) && Lookup(root, PlaceOf(cwd, at).path).Some?
    ensures KernelReadlink(root, cwd, Query(at, x)) ==
            match Follow(root, PlaceOf(cwd, at).path, if x == "" then [] else [x])
            case Reached(there) => KernelAt(root, there, x == "")
            case CrossesLink => Undetermined
            case Blocked(e) => Determined(Refused(e))
  {
    QueryShape(at, x);
    NamesQuery(at, x);
    FollowQuery(root, cwd, at, if x == "" then [] else [x]);
  }

  // ---------------------------------------------------- one step of the loop

  /** What one step promises about the reference resolver. */
  ghost predicate Simulates(env: Env, root: Node, cwd: seq<string>, st: State, m: Move, crowded: bool)
    requires st.links <= env.symloopMax
  {
    match m
    case Next(next) =>
      next.links <= env.symloopMax && Placed(root, cwd, next)
      && Value(env, root, cwd, next) == Value(env, root, cwd, st)
    case Halt => Value(env, root, cwd, st) == Found(PlaceOf(cwd, st.at))
    case Fail(e) => (e == ENAMETOOLONG && crowded) || Value(env, root, cwd, st) == Lost(e)
  }

  /** At a directory, a trailing slash changes nothing. */
  lemma SlashAside(root: Node, budget: nat, at: Place, names: seq<string>, a: bool, b: bool)
    requires a == b || (names == [] && Lookup(root, at.path) != Some(File))
    ensures Resolve(root, budget, at, names, a) == Resolve(root, budget, at, names, b)
  {
  }

  /** The resolver's answer once the slashes before `rest` have been skipped. */
  lemma ValueAfter(env: Env, root: Node, cwd: seq<string>, next: State, rest: string)
    requires next.links <= env.symloopMax && next.text == SkipSlashes(rest)
    requires IsDirectory(root, PlaceOf(cwd, next.at).path) || next.check == (rest != "")
    ensures Value(env, root, cwd, next)
            == Unbarred(Resolve(root, env.symloopMax - next.links, PlaceOf(cwd, next.at), Names(rest), EndsInSlash(rest)))
  {
    hide Names, Resolve;
    SkippedText(rest);
    assert PlaceNow(cwd, next) == PlaceOf(cwd, next.at);
    SlashAside(root, env.symloopMax - next.links, PlaceOf(cwd, next.at), Names(rest), MustBeDirectory(next), EndsInSlash(rest));
  }

  lemma RootValue(env: Env, root: Node, cwd: seq<string>, st: State, next: State, rest: string)
    requires st.links == next.links <= env.symloopMax && root.Directory?
    requires st.text == "/" + rest && next.text == SkipSlashes(rest)
    requires next.at == Resolved(Root(RootSlashes(st.text)), [])
    ensures Value(env, root, cwd, next) == Value(env, root, cwd, st)
  {
    hide Resolve, Names, RootSlashes, SkipSlashes;
    var place := Place(RootSlashes(st.text), []);
    NamesSlash(rest);
    ValueAfter(env, root, cwd, next, rest);
    assert Names(rest) == [] || EndsInSlash(st.text) == EndsInSlash(rest) by {
      if rest == "" { SkippedText(rest); }
    }
    SlashAside(root, env.symloopMax - st.links, place, Names(rest), EndsInSlash(st.text), EndsInSlash(rest));
  }

  lemma SimRoot(env: Env, root: Node, cwd: seq<string>, st: State)
    requires Sound(env, root, cwd, st) && root.Directory? && st.text != "" && st.text[0] == '/'
    ensures Simulates(env, root, cwd, st, Step(env, st), Crowded(env, st))
  {
    hide Value, Names;
    var next := Step(env, st).state;
    assert st.text == "/" + st.text[1..];
    RootValue(env, root, cwd, st, next, st.text[1..]);
  }

  lemma SimDot(env: Env, root: Node, cwd: seq<string>, st: State, rest: string)
    requires Sound(env, root, cwd, st) && Splits(st.text, ".", rest)
    ensures Value(env, root, cwd, st.(text := SkipSlashes(rest))) == Value(env, root, cwd, st)
  {
    hide Resolve, Names;
    var next := st.(text := SkipSlashes(rest));
    var place := PlaceOf(cwd, st.at);
    var budget := env.symloopMax - st.links;
    assert Names(st.text) == ["."] + Names(rest);
    if IsDirectory(root, place.path) {
      ValueAfter(env, root, cwd, next, rest);
      ResolveDot(root, budget, place, Names(rest), EndsInSlash(rest));
    } else {
      SkippedText(rest);
      ResolveRefused(root, budget, place, ["."] + Names(rest), MustBeDirectory(st));
      ResolveRefused(root, budget, place, Names(rest), MustBeDirectory(next));
      DotAside(Names(rest));
    }
  }

  lemma AncestorUp(cwd: seq<string>, u: nat)
    ensures Ancestor(cwd, u + 1) == Parent(Ancestor(cwd, u))
  {
    if u > 0 { AncestorUp(Parent(cwd), u - 1); }
  }

  lemma PlaceUp(root: Node, cwd: seq<string>, u: nat)
    requires IsDirectory(root, cwd)
    ensures var a, b := PlaceOf(cwd, Resolved(Relative(u), [])), PlaceOf(cwd, Resolved(Relative(u + 1), []));
            b == a.(path := Parent(a.path)) && IsDirectory(root, a.path) && IsDirectory(root, b.path)
  {
    FollowDots(root, cwd, u, []);
    FollowDots(root, cwd, u + 1, []);
    AncestorUp(cwd, u);
    assert Ancestor(cwd, u) + [] == Ancestor(cwd, u) && Ancestor(cwd, u + 1) + [] == Ancestor(cwd, u + 1);
  }

  /** Counting one more `..` is moving to the parent. */
  lemma SimUp(env: Env, root: Node, cwd: seq<string>, st: State, u: nat, rest: string)
    requires Sound(env, root, cwd, st) && Splits(st.text, "..", rest)
    requires st.at == Resolved(Relative(u), []) && IsDirectory(root, cwd)
    ensures var next := st.(text := SkipSlashes(rest), at := Resolved(Relative(u + 1), []));
            IsDirectory(root, PlaceOf(cwd, next.at).path) && Value(env, root, cwd, next) == Value(env, root, cwd, st)
  {
    hide Resolve, Names, Ancestor;
    var next := st.(text := SkipSlashes(rest), at := Resolved(Relative(u + 1), []));
    PlaceUp(root, cwd, u);
    ValueAfter(env, root, cwd, next, rest);
    ResolveUp(root, env.symloopMax - st.links, PlaceOf(cwd, st.at), Names(rest), EndsInSlash(rest));
  }

  lemma PlacePop(cwd: seq<string>, at: Resolved)
    requires at.base.Root? || at.comps != []
    ensures PlaceOf(cwd, at.Pop()) == PlaceOf(cwd, at).(path := Parent(PlaceOf(cwd, at).path))
  {
    if at.comps != [] && at.base.Relative? {
      var up := Ancestor(cwd, at.base.ups);
      assert (up + at.comps)[..|up + at.comps| - 1] == up + at.comps[..|at.comps| - 1];
    }
  }

  /** Cancelling the last component is moving to the parent. */
  lemma SimPop(env: Env, root: Node, cwd: seq<string>, st: State, rest: string)
    requires Sound(env, root, cwd, st) && Splits(st.text, "..", rest)
    requires (st.at.base.Root? || st.at.comps != []) && IsDirectory(root, PlaceOf(cwd, st.at).path)
    ensures var next := st.(text := SkipSlashes(rest), at := st.at.Pop(), check := false);
            IsDirectory(root, PlaceOf(cwd, next.at).path) && Value(env, root, cwd, next) == Value(env, root, cwd, st)
  {
    var next := st.(text := SkipSlashes(rest), at := st.at.Pop(), check := false);
    var place := PlaceOf(cwd, st.at);
    hide Resolve, Names;
    PlacePop(cwd, st.at);
    if place.path != [] { PrefixIsDirectory(root, place.path, |place.path| - 1); }
    ValueAfter(env, root, cwd, next, rest);
    ResolveUp(root, env.symloopMax - st.links, place, Names(rest), EndsInSlash(rest));
  }

  lemma PlacePush(cwd: seq<string>, at: Resolved, x: string)
    ensures PlaceOf(cwd, at.Push(x)) == PlaceOf(cwd, at).(path := PlaceOf(cwd, at).path + [x])
  {
    if at.base.Relative? {
      var up := Ancestor(cwd, at.base.ups);
      assert up + (at.comps + [x]) == (up + at.comps) + [x];
    }
  }

  /** Appending a component that is not a link is moving into it. */
  lemma SimPush(env: Env, root: Node, cwd: seq<string>, st: State, name: string, rest: string)
    requires Sound(env, root, cwd, st) && Splits(st.text, name, rest) && IsProper(name)
    requires Stands(root, PlaceOf(cwd, st.at).path + [name])
    ensures var next := st.(text := SkipSlashes(rest), at := st.at.Push(name), check := rest != "");
            Stands(root, PlaceOf(cwd, next.at).path) && Value(env, root, cwd, next) == Value(env, root, cwd, st)
  {
    var next := st.(text := SkipSlashes(rest), at := st.at.Push(name), check := rest != "");
    var place := PlaceOf(cwd, st.at);
    hide Resolve, Names;
    PlacePush(cwd, st.at, name);
    ValueAfter(env, root, cwd, next, rest);
    LookupChild(root, place.path, name);
    ResolveInto(root, env.symloopMax - st.links, place, name, Names(rest), EndsInSlash(rest));
  }

  lemma ResolveUp(root: Node, budget: nat, at: Place, names: seq<string>, slash: bool)
    requires IsDirectory(root, at.path)
    ensures Resolve(root, budget, at, [".."] + names, slash)
            == Resolve(root, budget, at.(path := Parent(at.path)), names, slash)
  {
    assert ([".."] + names)[1..] == names;
  }

  lemma ResolveInto(root: Node, budget: nat, at: Place, x: string, names: seq<string>, slash: bool)
    requires IsProper(x) && IsDirectory(root, at.path) && x in Lookup(root, at.path).node.entries
    requires !Lookup(root, at.path).node.entries[x].Symlink?
    ensures Resolve(root, budget, at, [x] + names, slash)
            == Resolve(root, budget, at.(path := at.path + [x]), names, slash)
  {
    assert ([x] + names)[1..] == names;
  }

  lemma ResolveLink(root: Node, budget: nat, at: Place, x: string, names: seq<string>, slash: bool)
    requires IsProper(x) && IsDirectory(root, at.path) && x in Lookup(root, at.path).node.entries
    requires Lookup(root, at.path).node.entries[x].Symlink?
    ensures var t := Lookup(root, at.path).node.entries[x].target;
            Resolve(root, budget, at, [x] + names, slash)
            == if t == "" then Lost(ENOENT) else if budget <= 1 then Lost(ELOOP)
               else Resolve(root, budget - 1, if t[0] == '/' then Place(RootSlashes(t), []) else at,
                            Names(t) + names, slash || (names == [] && EndsInSlash(t)))
  {
    assert ([x] + names)[1..] == names;
  }

  /** Link contents in front of the pending text: the same names, the same root, the same last slash. */
  lemma LinkText(t: string, rest: string)
    requires t != "" && (rest == "" || rest[0] == '/')
    ensures var text := t + Remaining(t, rest);
            && Names(text) == Names(t) + Names(rest)
            && text[0] == t[0] && (t[0] == '/' ==> RootSlashes(text) == RootSlashes(t))
            && EndsInSlash(text) == (EndsInSlash(rest) || (Names(rest) == [] && EndsInSlash(t)))
  {
    hide Names;
    var r := Remaining(t, rest);
    SkippedText(rest);
    NamesAppend(t, r);
    LinkRoot(t, r);
  }

  lemma LinkRoot(t: string, r: string)
    requires t != "" && (r == "" || r[0] != '/' || !EndsInSlash(t))
    ensures (t + r)[0] == t[0] && (t[0] == '/' ==> RootSlashes(t + r) == RootSlashes(t))
    ensures EndsInSlash(t + r) == if r == "" then EndsInSlash(t) else EndsInSlash(r)
  {
    if r == "" {
      assert t + r == t;
    }
  }

  /** Following a link: its contents replace the name in the pending text. */
  lemma SimLink(env: Env, root: Node, cwd: seq<string>, st: State, name: string, rest: string, t: string)
    requires Sound(env, root, cwd, st) && Splits(st.text, name, rest) && IsProper(name)
    requires Lookup(root, PlaceOf(cwd, st.at).path + [name]).Some?
    requires Lookup(root, PlaceOf(cwd, st.at).path + [name]).node.Symlink?
    requires t == Lookup(root, PlaceOf(cwd, st.at).path + [name]).node.target
    ensures IsDirectory(root, PlaceOf(cwd, st.at).path)
    ensures t == "" ==> Value(env, root, cwd, st) == Lost(ENOENT)
    ensures t != "" && st.links + 1 == env.symloopMax ==> Value(env, root, cwd, st) == Lost(ELOOP)
    ensures t != "" && st.links + 1 < env.symloopMax ==>
              Value(env, root, cwd, st.(text := t + Remaining(t, rest), links := st.links + 1)) == Value(env, root, cwd, st)
  {
    hide Resolve, Names, RootSlashes, EndsInSlash, Remaining, Ancestor;
    var place := PlaceOf(cwd, st.at);
    LookupChild(root, place.path, name);
    ResolveLink(root, env.symloopMax - st.links, place, name, Names(rest), EndsInSlash(rest));
    assert Value(env, root, cwd, st)
           == Unbarred(Resolve(root, env.symloopMax - st.links, place, [name] + Names(rest), EndsInSlash(rest)));
    if t != "" { LinkText(t, rest); }
  }

  lemma ResolveDot(root: Node, budget: nat, at: Place, names: seq<string>, slash: bool)
    requires IsDirectory(root, at.path)
    ensures Resolve(root, budget, at, ["."] + names, slash) == Resolve(root, budget, at, names, slash)
  {
    assert (["."] + names)[1..] == names;
  }

  /** The error of passing through something else than an open directory. */
  function Refusal(node: Node): Errno {
    if node.Closed? then EACCES else ENOTDIR
  }

  /** Resolution that must pass through a file or a closed directory fails, but for `.` in the latter. */
  lemma ResolveRefused(root: Node, budget: nat, at: Place, names: seq<string>, slash: bool)
    requires Stands(root, at.path) && !IsDirectory(root, at.path) && (names != [] || slash)
    ensures Unbarred(Resolve(root, budget, at, names, slash)) ==
            if Lookup(root, at.path).node.Closed? && OnlyDots(names) then Found(at) else Lost(Refusal(Lookup(root, at.path).node))
  {
  }

  lemma DotAside(names: seq<string>)
    ensures OnlyDots(["."] + names) == OnlyDots(names)
  {
    assert OnlyDots(["."] + names) ==> forall i :: 0 <= i < |names| ==> names[i] == (["."] + names)[i + 1];
  }

  lemma NotDots(x: string, names: seq<string>)
    requires x != "."
    ensures !OnlyDots([x] + names)
  {
    assert ([x] + names)[0] == x;
  }

  // ------------------------------------------------------- all the branches

  lemma CheckReply(root: Node, cwd: seq<string>, at: Resolved)
    requires at.WellFormed() && at.comps != [] && IsDirectory(root, cwd) && Stands(root, PlaceOf(cwd, at).path)
    ensures KernelReadlink(root, cwd, Query(at, "")) == Determined(Refused(
              match Lookup(root, PlaceOf(cwd, at).path).node
              case File => ENOTDIR
              case _ => EINVAL))
  {
    hide KernelReadlink;
    QueryReply(root, cwd, at, "");
  }

  lemma AgreesAt(env: Env, root: Node, cwd: seq<string>, n: nat, path: string)
    requires Agrees(env, root, cwd)
    ensures IsDirectory(root, cwd)
    ensures KernelReadlink(root, cwd, path).Determined? ==> env.readlink(n, path) == KernelReadlink(root, cwd, path).answer
  {
  }

  lemma CheckStep(env: Env, st: State)
    requires st.check && st.text == ""
    ensures StepName(env, st, "", "") ==
            if |st.at.Render()| + |st.at.Lead()| >= env.pathMax then Fail(ENAMETOOLONG)
            else StepAnswer(env, st.(calls := st.calls + 1), "", "", env.readlink(st.calls, Query(st.at, "")))
    ensures StepAnswer(env, st.(calls := st.calls + 1), "", "", Refused(EINVAL))
            == Next(st.(calls := st.calls + 1, check := false))
  {
  }

  /** The trailing-slash check: nothing is pending but `check_dir` is set. */
  lemma SimCheck(env: Env, root: Node, cwd: seq<string>, st: State)
    requires Sound(env, root, cwd, st) && Agrees(env, root, cwd) && root.Directory? && st.text == "" && st.check
    ensures Simulates(env, root, cwd, st, StepName(env, st, "", ""), CrowdedAt(env, st, "", ""))
  {
    hide KernelReadlink, StepName, Resolve, PlaceOf, Value, Lookup, Agrees, Resolved.Render, Resolved.Lead;
    CheckStep(env, st);
    AgreesAt(env, root, cwd, st.calls, Query(st.at, ""));
    CheckReply(root, cwd, st.at);
    CheckValue(env, root, cwd, st);
  }

  /** What the directory check is worth: it drops out at a directory, open or closed, and decides at a file. */
  lemma CheckValue(env: Env, root: Node, cwd: seq<string>, st: State)
    requires st.links <= env.symloopMax && st.text == "" && st.check && Stands(root, PlaceOf(cwd, st.at).path)
    ensures if Lookup(root, PlaceOf(cwd, st.at).path) == Some(File) then Value(env, root, cwd, st) == Lost(ENOTDIR)
            else Value(env, root, cwd, st.(calls := st.calls + 1, check := false)) == Value(env, root, cwd, st)
  {
    hide Resolve, PlaceOf, Value, Lookup;
    EndValue(env, root, cwd, st);
    EndValue(env, root, cwd, st.(calls := st.calls + 1, check := false));
    if Lookup(root, PlaceOf(cwd, st.at).path) != Some(File) {
      SlashAside(root, env.symloopMax - st.links, PlaceOf(cwd, st.at), [], true, false);
    } else {
      ResolveRefused(root, env.symloopMax - st.links, PlaceOf(cwd, st.at), [], true);
    }
  }

  lemma EndValue(env: Env, root: Node, cwd: seq<string>, st: State)
    requires st.links <= env.symloopMax && st.text == ""
    ensures Value(env, root, cwd, st) == Unbarred(Resolve(root, env.symloopMax - st.links, PlaceOf(cwd, st.at), [], st.check))
  {
    hide Resolve;
  }

  lemma UpReply(root: Node, cwd: seq<string>, at: Resolved)
    requires at.WellFormed() && IsDirectory(root, cwd) && root.Directory? && Stands(root, PlaceOf(cwd, at).path)
    ensures KernelReadlink(root, cwd, Query(at, "..")) == Determined(Refused(
              match Lookup(root, PlaceOf(cwd, at).path).node
              case Directory(_) => EINVAL
              case node => Refusal(node)))
  {
    hide KernelReadlink;
    QueryReply(root, cwd, at, "..");
    var here := PlaceOf(cwd, at).path;
    if IsDirectory(root, here) {
      if here != [] { PrefixIsDirectory(root, here, |here| - 1); }
      assert [".."][1..] == [];
    }
  }

  lemma CheckedUpStep(env: Env, st: State, rest: string)
    requires st.check && st.at.comps != []
    ensures StepName(env, st, "..", rest) ==
            if |st.at.Render()| + |st.at.Lead()| + 2 >= env.pathMax then Fail(ENAMETOOLONG)
            else StepAnswer(env, st.(calls := st.calls + 1), "..", rest, env.readlink(st.calls, Query(st.at, "..")))
  {
  }

  /** `..` behind a component that still has to be shown to be a directory. */
  lemma SimCheckedUp(env: Env, root: Node, cwd: seq<string>, st: State, rest: string)
    requires Sound(env, root, cwd, st) && Agrees(env, root, cwd) && root.Directory?
    requires Splits(st.text, "..", rest) && st.check
    ensures Simulates(env, root, cwd, st, StepName(env, st, "..", rest), CrowdedAt(env, st, "..", rest))
  {
    hide Resolve, Names, KernelReadlink;
    var place := PlaceOf(cwd, st.at);
    CheckedUpStep(env, st, rest);
    UpReply(root, cwd, st.at);
    if StepName(env, st, "..", rest).Next? {
      CheckedUpNext(env, root, cwd, st, rest);
    } else if !IsDirectory(root, place.path) {
      NotDots("..", Names(rest));
      ResolveRefused(root, env.symloopMax - st.links, place, [".."] + Names(rest), EndsInSlash(st.text));
    }
  }

  lemma CheckedUpNext(env: Env, root: Node, cwd: seq<string>, st: State, rest: string)
    requires Sound(env, root, cwd, st) && Agrees(env, root, cwd) && root.Directory?
    requires Splits(st.text, "..", rest) && st.check
    requires StepName(env, st, "..", rest).Next?
    ensures Simulates(env, root, cwd, st, StepName(env, st, "..", rest), CrowdedAt(env, st, "..", rest))
  {
    UpReply(root, cwd, st.at);
    CheckedUpStep(env, st, rest);
    hide Resolve, Names, KernelReadlink, Value, StepName;
    SimPop(env, root, cwd, st.(calls := st.calls + 1), rest);
    SameValue(env, root, cwd, st);
  }

  lemma SameValue(env: Env, root: Node, cwd: seq<string>, st: State)
    requires st.links <= env.symloopMax
    ensures Value(env, root, cwd, st.(calls := st.calls + 1)) == Value(env, root, cwd, st)
  {
  }

  lemma SameSound(env: Env, root: Node, cwd: seq<string>, st: State)
    requires Sound(env, root, cwd, st)
    ensures Sound(env, root, cwd, st.(calls := st.calls + 1)) && st.links < env.symloopMax
  {
  }

  /** What the kernel says about one ordinary name below the place reached so far. */
  lemma NameReply(root: Node, cwd: seq<string>, at: Resolved, x: string)
    requires at.WellFormed() && IsProper(x) && IsDirectory(root, cwd) && Stands(root, PlaceOf(cwd, at).path)
    ensures KernelReadlink(root, cwd, Query(at, x)) == Determined(
              match Lookup(root, PlaceOf(cwd, at).path).node
              case Directory(es) =>
                if x !in es then Refused(ENOENT)
                else if es[x].Symlink? then Link(es[x].target) else Refused(EINVAL)
              case node => Refused(Refusal(node)))
  {
    hide KernelReadlink;
    QueryReply(root, cwd, at, x);
    var here := PlaceOf(cwd, at).path;
    if IsDirectory(root, here) {
      LookupChild(root, here, x);
      assert [x][1..] == [];
    }
  }

  lemma ResolveMissing(root: Node, budget: nat, at: Place, x: string, names: seq<string>, slash: bool)
    requires IsProper(x) && IsDirectory(root, at.path) && x !in Lookup(root, at.path).node.entries
    ensures Resolve(root, budget, at, [x] + names, slash) == Lost(ENOENT)
  {
  }

  lemma NameStep(env: Env, st: State, name: string, rest: string)
    requires name != "" && name != "." && name != ".."
    ensures StepName(env, st, name, rest) ==
            if |st.at.Render()| + |st.at.Lead()| + |name| >= env.pathMax then Fail(ENAMETOOLONG)
            else StepAnswer(env, st.(calls := st.calls + 1), name, rest, env.readlink(st.calls, Query(st.at, name)))
  {
  }

  /** An ordinary name: missing, refused, a link, or one more component. */
  lemma SimName(env: Env, root: Node, cwd: seq<string>, st: State, name: string, rest: string)
    requires Sound(env, root, cwd, st) && Agrees(env, root, cwd)
    requires Splits(st.text, name, rest) && IsProper(name)
    ensures Simulates(env, root, cwd, st, StepName(env, st, name, rest), CrowdedAt(env, st, name, rest))
  {
    hide Resolve, Names, KernelReadlink, PlaceOf, Value, StepAnswer, StepName;
    var here := PlaceOf(cwd, st.at).path;
    NameStep(env, st, name, rest);
    if |st.at.Render()| + |st.at.Lead()| + |name| < env.pathMax {
      NameReply(root, cwd, st.at, name);
      var answer := env.readlink(st.calls, Query(st.at, name));
      if answer.Link? {
        SimNameLink(env, root, cwd, st, name, rest, answer);
      } else if answer.error == EINVAL {
        SimNamePush(env, root, cwd, st, name, rest, answer);
      } else {
        SimNoEntry(env, root, cwd, st, name, rest);
        assert StepName(env, st, name, rest) == Fail(answer.error) by { NameRefused(env, st, name, rest, answer); }
      }
    }
  }

  lemma NameRefused(env: Env, st: State, name: string, rest: string, answer: Answer)
    requires answer.Refused? && answer.error != EINVAL
    ensures StepAnswer(env, st.(calls := st.calls + 1), name, rest, answer) == Fail(answer.error)
  {
  }

  lemma SimNameLink(env: Env, root: Node, cwd: seq<string>, st: State, name: string, rest: string, answer: Answer)
    requires Sound(env, root, cwd, st) && Splits(st.text, name, rest) && IsProper(name)
    requires StepName(env, st, name, rest) == StepAnswer(env, st.(calls := st.calls + 1), name, rest, answer)
    requires answer == env.readlink(st.calls, Query(st.at, name)) && answer.Link? && IsDirectory(root, PlaceOf(cwd, st.at).path)
    requires name in Lookup(root, PlaceOf(cwd, st.at).path).node.entries
    requires Lookup(root, PlaceOf(cwd, st.at).path).node.entries[name] == Symlink(answer.target)
    ensures Simulates(env, root, cwd, st, StepName(env, st, name, rest), CrowdedAt(env, st, name, rest))
  {
    hide Resolve, Names, StepName, PlaceOf, Value, Remaining, Lookup;
    var st1 := st.(calls := st.calls + 1);
    SameSound(env, root, cwd, st);
    SameValue(env, root, cwd, st);
    LookupChild(root, PlaceOf(cwd, st.at).path, name);
    SimLink(env, root, cwd, st1, name, rest, answer.target);
    LinkPlaced(root, cwd, st1, answer.target + Remaining(answer.target, rest));
  }

  lemma LinkPlaced(root: Node, cwd: seq<string>, st: State, text: string)
    ensures var next := st.(text := text, links := st.links + 1);
            IsDirectory(root, PlaceOf(cwd, st.at).path) ==> Placed(root, cwd, next)
  {
  }

  lemma SimNamePush(env: Env, root: Node, cwd: seq<string>, st: State, name: string, rest: string, answer: Answer)
    requires Sound(env, root, cwd, st) && Splits(st.text, name, rest) && IsProper(name)
    requires StepName(env, st, name, rest) == StepAnswer(env, st.(calls := st.calls + 1), name, rest, answer)
    requires answer == Refused(EINVAL) && IsDirectory(root, PlaceOf(cwd, st.at).path)
    requires name in Lookup(root, PlaceOf(cwd, st.at).path).node.entries
    requires !Lookup(root, PlaceOf(cwd, st.at).path).node.entries[name].Symlink?
    ensures Simulates(env, root, cwd, st, StepName(env, st, name, rest), CrowdedAt(env, st, name, rest))
  {
    hide Resolve, Names, StepName, PlaceOf, Value, Sound, SkipSlashes, Lookup;
    SameSound(env, root, cwd, st);
    SameValue(env, root, cwd, st);
    LookupChild(root, PlaceOf(cwd, st.at).path, name);
    SimPush(env, root, cwd, st.(calls := st.calls + 1), name, rest);
    PushPlaced(root, cwd, st, name, rest);
  }

  lemma PushPlaced(root: Node, cwd: seq<string>, st: State, name: string, rest: string)
    ensures var next := st.(text := SkipSlashes(rest), at := st.at.Push(name), check := rest != "");
            Stands(root, PlaceOf(cwd, next.at).path) ==> Placed(root, cwd, next)
  {
  }

  lemma SimNoEntry(env: Env, root: Node, cwd: seq<string>, st: State, name: string, rest: string)
    requires Sound(env, root, cwd, st) && Splits(st.text, name, rest) && IsProper(name)
    ensures var here := Lookup(root, PlaceOf(cwd, st.at).path).node;
            (!here.Directory? ==> Value(env, root, cwd, st) == Lost(Refusal(here))) &&
            (here.Directory? && name !in here.entries ==> Value(env, root, cwd, st) == Lost(ENOENT))
  {
    hide Resolve, Names;
    var place := PlaceOf(cwd, st.at);
    if IsDirectory(root, place.path) {
      if name !in Lookup(root, place.path).node.entries {
        ResolveMissing(root, env.symloopMax - st.links, place, name, Names(rest), EndsInSlash(rest));
      }
    } else {
      NotDots(name, Names(rest));
      ResolveRefused(root, env.symloopMax - st.links, place, [name] + Names(rest), EndsInSlash(rest));
    }
  }

  /** Every step of the loop keeps the reference resolver's answer. */
  lemma StepSimulates(env: Env, root: Node, cwd: seq<string>, st: State)
    requires Sound(env, root, cwd, st) && Agrees(env, root, cwd) && root.Directory?
    ensures Simulates(env, root, cwd, st, Step(env, st), Crowded(env, st))
  {
    hide Resolve, Names, KernelReadlink, Good;
    if st.text == "" {
      assert Step(env, st) == StepName(env, st, "", "");
      if st.check { SimCheck(env, root, cwd, st); } else { SimHalt(env, root, cwd, st); }
    } else if st.text[0] == '/' {
      SimRoot(env, root, cwd, st);
    } else {
      HeadSplits(st.text);
      SimComponent(env, root, cwd, st, st.text[..NameLen(st.text)], st.text[NameLen(st.text)..]);
    }
  }

  lemma SimHalt(env: Env, root: Node, cwd: seq<string>, st: State)
    requires Sound(env, root, cwd, st) && st.text == "" && !st.check
    ensures Simulates(env, root, cwd, st, StepName(env, st, "", ""), CrowdedAt(env, st, "", ""))
  {
  }

  /** `..` that is counted or cancelled without asking the kernel. */
  lemma SimPlainUp(env: Env, root: Node, cwd: seq<string>, st: State, rest: string)
    requires Sound(env, root, cwd, st) && IsDirectory(root, cwd) && Splits(st.text, "..", rest) && !st.check
    ensures Simulates(env, root, cwd, st, StepName(env, st, "..", rest), CrowdedAt(env, st, "..", rest))
  {
    hide Resolve, Names, Value, SkipSlashes;
    if st.at.base.Relative? && st.at.comps == [] {
      SimUp(env, root, cwd, st, st.at.base.ups, rest);
    } else {
      SimPop(env, root, cwd, st, rest);
    }
  }

  lemma SimPlainDot(env: Env, root: Node, cwd: seq<string>, st: State, rest: string)
    requires Sound(env, root, cwd, st) && Splits(st.text, ".", rest)
    ensures Simulates(env, root, cwd, st, StepName(env, st, ".", rest), CrowdedAt(env, st, ".", rest))
  {
    hide Resolve, Names, Value;
    SimDot(env, root, cwd, st, rest);
  }

  lemma SimComponent(env: Env, root: Node, cwd: seq<string>, st: State, name: string, rest: string)
    requires Sound(env, root, cwd, st) && Agrees(env, root, cwd) && root.Directory?
    requires Splits(st.text, name, rest)
    ensures Simulates(env, root, cwd, st, StepName(env, st, name, rest), CrowdedAt(env, st, name, rest))
  {
    assert forall c :: c in name ==> c in st.text;
    assert '\0' !in name;
    hide Resolve, Names, KernelReadlink, Good, Value, Lookup, StepName;
    if name == "." {
      SimPlainDot(env, root, cwd, st, rest);
    } else if name == ".." && !st.check {
      SimPlainUp(env, root, cwd, st, rest);
    } else if name == ".." {
      SimCheckedUp(env, root, cwd, st, rest);
    } else {
      SimName(env, root, cwd, st, name, rest);
    }
  }

  /** The whole loop: it arrives where the resolver arrives, and fails only as the
      resolver fails or for a length. */
  lemma {:induction false} RunRefines(env: Env, root: Node, cwd: seq<string>, st: State)
    requires Sound(env, root, cwd, st) && Agrees(env, root, cwd) && root.Directory?
    ensures match Run(env, st)
            case Arrived(at) => at.WellFormed() && Value(env, root, cwd, st) == Found(PlaceOf(cwd, at))
            case Stuck(e) => (e == ENAMETOOLONG && Crowds(env, st)) || Value(env, root, cwd, st) == Lost(e)
    decreases env.symloopMax - st.links, |st.text|, st.check
  {
    hide Resolve, Names, KernelReadlink;
    StepSimulates(env, root, cwd, st);
    if Step(env, st).Next? {
      StepKeepsGood(env, st);
      RunRefines(env, root, cwd, Step(env, st).state);
    }
  }

  // ------------------------------------------------ the working directory

  lemma {:induction false} CutNameAppend(c: string, x: string)
    requires '/' !in x && c != "" && EndsInSlash(c)
    ensures CutName(c + x) == c
    decreases |x|
  {
    if x == "" {
      assert c + x == c;
    } else {
      var n := |x| - 1;
      assert x[n] in x;
      assert (c + x)[..|c + x| - 1] == c + x[..n];
      assert forall d :: d in x[..n] ==> d in x;
      CutNameAppend(c, x[..n]);
    }
  }

  /** Dropping the last component of the text drops the last name. */
  lemma ParentTextRender(names: seq<string>)
    requires forall c :: c in names ==> IsProper(c)
    ensures ParentText(Written(Place(1, names))) == Written(Place(1, Parent(names)))
  {
    if names != [] {
      var at := Resolved(Root(1), names);
      RenderPop(at);
      var front := at.Pop().Render() + at.Pop().Lead();
      RenderShape(at.Pop());
      assert EndsInSlash(front);
      CutNameAppend(front, names[|names| - 1]);
      if at.Pop().comps == [] {
        assert front == "/";
      } else {
        assert front[..|front| - 1] == at.Pop().Render();
      }
    }
  }

  lemma WrittenFromRoot(names: seq<string>)
    ensures Written(Place(1, names)) == if names == [] then "/" else Flat(names)
  {
  }

  lemma AncestorNames(names: seq<string>, n: nat)
    ensures Ancestor(names, n) == if n == 0 then names else Ancestor(Parent(names), n - 1)
  {
  }

  lemma ParentProper(names: seq<string>)
    requires forall c :: c in names ==> IsProper(c)
    ensures forall c :: c in Parent(names) ==> IsProper(c)
  {
  }

  lemma {:induction false} AncestorTextRender(names: seq<string>, n: nat)
    requires forall c :: c in names ==> IsProper(c)
    ensures AncestorText(Written(Place(1, names)), n) == Written(Place(1, Ancestor(names, n)))
    decreases n
  {
    hide *;
    ParentTextRender(names);
    ParentProper(names);
    AncestorStep(Written(Place(1, names)), n);
    AncestorNames(names, n);
    if n > 0 {
      AncestorTextRender(Parent(names), n - 1);
    }
  }

  lemma RootSeparator(dir: seq<string>)
    requires forall c :: c in dir ==> IsProper(c)
    ensures Separator(Written(Place(1, dir))) == (if dir == [] then "" else "/")
  {
    RenderShape(Resolved(Root(1), dir));
  }

  lemma SplicePieces(dir: seq<string>, comps: seq<string>)
    requires forall c :: c in dir ==> IsProper(c)
    requires forall c :: c in comps ==> IsProper(c)
    ensures var d, tail := Written(Place(1, dir)), Unlead(Flat(comps));
            && Separator(d) == (if dir == [] then "" else "/")
            && (comps == [] <==> tail == "") && (comps != [] ==> Flat(comps) == "/" + tail)
            && Written(Place(1, dir + comps)) == (if dir + comps == [] then "/" else Flat(dir) + Flat(comps))
  {
    hide Written, Separator;
    UnleadClean(comps);
    RootSeparator(dir);
    WrittenFromRoot(dir + comps);
    FlatAppend(dir, comps);
  }

  lemma SpliceRender(dir: seq<string>, comps: seq<string>)
    requires forall c :: c in dir ==> IsProper(c)
    requires forall c :: c in comps ==> IsProper(c)
    ensures var d, tail := Written(Place(1, dir)), Unlead(Flat(comps));
            d + (if tail != "" then Separator(d) else "") + tail == Written(Place(1, dir + comps))
  {
    hide Written, Separator, Unlead;
    var d, tail := Written(Place(1, dir)), Unlead(Flat(comps));
    SplicePieces(dir, comps);
    WrittenFromRoot(dir);
    if comps == [] {
      assert dir + comps == dir;
    } else if dir == [] {
      assert d + "" + tail == "/" + tail;
    } else {
      Regroup(d, "/", tail);
    }
  }

  lemma WrittenStart(names: seq<string>)
    requires forall c :: c in names ==> IsProper(c)
    ensures Written(Place(1, names)) != "" && Written(Place(1, names))[0] == '/'
  {
    RenderShape(Resolved(Root(1), names));
  }

  lemma WrittenRoot(at: Resolved)
    requires at.base.Root?
    ensures at.Render() == Written(Place(at.base.slashes, at.comps))
  {
  }

  /** What follows the loop writes the place out, unless the working directory does not fit its buffer, or what is written and
      its NUL, with one byte to spare, do not fit the output. */
  lemma FinishRenders(env: Env, cwd: seq<string>, at: Resolved)
    requires at.WellFormed() && (forall c :: c in cwd ==> IsProper(c))
    requires env.cwd.Cwd? && env.cwd.text == Written(Place(1, cwd))
    ensures var place := PlaceOf(cwd, at);
            Finish(env, at) ==
            if at.base.Relative? && |env.cwd.text| > env.pathMax then Failure(ERANGE)
            else if at.base.Relative? && |Written(place)| + 1 >= env.pathMax then Failure(ENAMETOOLONG)
            else Success(Written(place))
    ensures at.base.Relative? && |env.cwd.text| <= env.pathMax ==>
              (JoinTooLong(env, at) <==> |Written(PlaceOf(cwd, at))| + 1 >= env.pathMax)
  {
    hide Written, Separator, Flat, Unlead, Ancestor, AncestorText;
    if at.base.Relative? {
      AncestorTextRender(cwd, at.base.ups);
      SpliceRender(Ancestor(cwd, at.base.ups), at.comps);
      WrittenStart(cwd);
    } else {
      WrittenRoot(at);
    }
  }

  lemma StartValue(env: Env, root: Node, cwd: seq<string>, filename: Text)
    requires filename != "" && |filename| < env.pathMax && env.symloopMax > 0
    requires IsDirectory(root, cwd)
    ensures Sound(env, root, cwd, Start(filename))
    ensures Value(env, root, cwd, Start(filename)) == Unbarred(ResolvePath(root, env.symloopMax, cwd, filename))
  {
    hide Resolve, Names;
    StartGood(env, filename);
    assert Ancestor(cwd, 0) + [] == cwd;
  }

  /** `realpath` over a fixed tree: a success is the rendering of the place the reference resolver finds, or of the
      closed directory in which it may not look up `.`; a failure is the resolver's, or ENAMETOOLONG or ERANGE for exactly
      the length that was in the way. */
  lemma RealPathCorrect(env: Env, root: Node, cwd: seq<string>, filename: Text)
    requires env.symloopMax > 0 && Agrees(env, root, cwd) && root.Directory?
    ensures var reference := ResolvePath(root, env.symloopMax, cwd, filename);
            match RealPathOf(env, filename)
            case Success(path) => (reference.Found? || reference.Barred?) && path == Written(reference.place)
            case Failure(e) =>
              || reference == Lost(e)
              || (e == ENAMETOOLONG && NameTooLong(env, filename))
              || (e == ERANGE && CwdTooLong(env, filename))
  {
    hide Resolve, Names, Value, Finish, Run, PlaceOf, JoinTooLong;
    if filename != "" && |filename| < env.pathMax {
      var st := Start(filename);
      StartValue(env, root, cwd, filename);
      RunRefines(env, root, cwd, st);
      var w := Run(env, st);
      if w.Arrived? { FinishRenders(env, cwd, w.at); }
    }
  }
}
