/** Results of `realpath` are canonical, and canonical paths are its fixed points. */
module RealPathCanonical {
  import opened Errnos
  import opened PathText
  import opened PathWalk
  import opened FileTree
  import opened RealPathRefines

  /** An absolute place of ordinary names, none of which is a symbolic link. */
  ghost predicate Canonical(root: Node, place: Place) {
    && (place.slashes == 1 || place.slashes == 2)
    && (forall c :: c in place.path ==> IsProper(c))
    && Stands(root, place.path)
  }

  lemma {:induction false} NamesAreNames(t: string)
    requires '\0' !in t
    ensures forall x :: x in Names(t) ==> IsName(x)
    decreases |t|
  {
    if t != "" {
      if t[0] == '/' {
        NamesAreNames(t[1..]);
      } else {
        NamesAreNames(t[NameLen(t)..]);
      }
    }
  }

  /** Wherever resolution ends, it ends at a canonical place. */
  lemma {:induction false} ResolveCanonical(root: Node, budget: nat, at: Place, names: seq<string>, slash: bool)
    requires root.Directory? && Canonical(root, at) && forall x :: x in names ==> IsName(x)
    ensures var r := Resolve(root, budget, at, names, slash); !r.Lost? ==> Canonical(root, r.place)
    decreases budget, |names|
  {
    if IsDirectory(root, at.path) && names != [] {
      var x := names[0];
      var es := Lookup(root, at.path).node.entries;
      assert x in names && forall y :: y in names[1..] ==> y in names;
      if x == "." {
        ResolveCanonical(root, budget, at, names[1..], slash);
      } else if x == ".." {
        if at.path != [] { PrefixIsDirectory(root, at.path, |at.path| - 1); }
        assert forall c :: c in Parent(at.path) ==> c in at.path;
        ResolveCanonical(root, budget, at.(path := Parent(at.path)), names[1..], slash);
      } else if x in es && !es[x].Symlink? {
        LookupChild(root, at.path, x);
        ResolveCanonical(root, budget, at.(path := at.path + [x]), names[1..], slash);
      } else if x in es && es[x].target != "" && budget > 1 {
        var t := es[x].target;
        NamesAreNames(t);
        var next := if t[0] == '/' then Place(RootSlashes(t), []) else at;
        ResolveCanonical(root, budget - 1, next, Names(t) + names[1..], slash || (names[1..] == [] && EndsInSlash(t)));
      }
    }
  }

  // ------------------------------------------------ results fit the limit

  lemma {:induction false} RunFits(env: Env, st: State)
    requires Good(env, st)
    ensures Run(env, st).Arrived? ==> |Run(env, st).at.Render()| < env.pathMax
    decreases env.symloopMax - st.links, |st.text|, st.check
  {
    if Step(env, st).Next? {
      StepKeepsGood(env, st);
      RunFits(env, Step(env, st).state);
    }
  }

  lemma SuccessFits(env: Env, filename: Text)
    requires env.symloopMax > 0
    ensures RealPathOf(env, filename).Success? ==> |RealPathOf(env, filename).path| < env.pathMax
  {
    if filename != "" && |filename| < env.pathMax {
      StartGood(env, filename);
      RunFits(env, Start(filename));
    }
  }

  // --------------------------------------------- walking a canonical path

  /** The loop's state after `i` components of a canonical path. */
  function Midway(place: Place, i: nat, calls: nat): State
    requires i <= |place.path|
  {
    State(Unlead(Flat(place.path[i..])), Resolved(Root(place.slashes), place.path[..i]), 0 < i < |place.path|, 0, calls)
  }

  lemma UnleadIsSkip(cs: seq<string>)
    requires forall c :: c in cs ==> IsProper(c)
    ensures SkipSlashes(Flat(cs)) == Unlead(Flat(cs))
    ensures cs == [] <==> Flat(cs) == ""
  {
    FlatClean(cs);
    if cs != [] {
      var f := Flat(cs);
      assert SlashRun(f) == 1 + SlashRun(f[1..]);
      assert f[1..][0] == f[1];
    }
  }

  lemma NameLenHead(x: string, rest: string)
    requires IsName(x) && (rest == "" || rest[0] == '/')
    ensures NameLen(x + rest) == |x|
  {
    NameLenName(x);
    NameLenAppend(x, rest);
  }

  lemma UnleadSlash(t: string)
    ensures Unlead("/" + t) == t
  {
  }

  lemma UnleadCons(cs: seq<string>)
    requires cs != []
    ensures Unlead(Flat(cs)) == cs[0] + Flat(cs[1..])
  {
    Regroup("/", cs[0], Flat(cs[1..]));
    UnleadSlash(cs[0] + Flat(cs[1..]));
  }

  /** The text of the remaining components begins with the next one. */
  lemma MidwaySplits(cs: seq<string>)
    requires cs != [] && forall c :: c in cs ==> IsProper(c)
    ensures Unlead(Flat(cs)) == cs[0] + Flat(cs[1..])
    ensures NameLen(Unlead(Flat(cs))) == |cs[0]|
  {
    hide Unlead, NameLen;
    assert cs[0] in cs && forall c :: c in cs[1..] ==> c in cs;
    UnleadCons(cs);
    FlatClean(cs[1..]);
    NameLenHead(cs[0], Flat(cs[1..]));
  }

  lemma PrefixFits(slashes: nat, path: seq<string>, k: nat)
    requires k <= |path|
    ensures |Resolved(Root(slashes), path[..k]).Render()| <= |Resolved(Root(slashes), path).Render()|
  {
    assert path[..k] + path[k..] == path;
    FlatAppend(path[..k], path[k..]);
    if path != [] {
      assert |Flat(path)| >= 1;
    }
  }

  lemma PrefixStands(root: Node, path: seq<string>, k: nat)
    requires Stands(root, path) && k <= |path|
    ensures Stands(root, path[..k])
  {
    if k < |path| { PrefixIsDirectory(root, path, k); } else { assert path[..k] == path; }
  }

  /** One pass over a canonical path appends one component. */
  lemma MidwayStep(env: Env, root: Node, cwd: seq<string>, place: Place, i: nat, calls: nat)
    requires Agrees(env, root, cwd) && Canonical(root, place) && |Written(place)| < env.pathMax
    requires i < |place.path|
    ensures Step(env, Midway(place, i, calls)) == Next(Midway(place, i + 1, calls + 1))
  {
    hide StepName, Flat, Unlead, Agrees, NameLen, SkipSlashes;
    var st := Midway(place, i, calls);
    var tail := place.path[i..];
    var name, rest := place.path[i], Flat(place.path[i + 1..]);
    assert name in place.path && tail[0] == name && tail[1..] == place.path[i + 1..];
    assert forall c :: c in tail || c in place.path[i + 1..] || c in place.path[..i] ==> c in place.path;
    MidwaySplits(tail);
    assert st.text[..|name|] == name && st.text[|name|..] == rest;
    assert Step(env, st) == StepName(env, st, name, rest) by { assert name[0] in name; }
    MidwayName(env, root, cwd, place, i, st);
    UnleadIsSkip(place.path[i + 1..]);
  }

  lemma MidwayName(env: Env, root: Node, cwd: seq<string>, place: Place, i: nat, st: State)
    requires Agrees(env, root, cwd) && Canonical(root, place) && |Written(place)| < env.pathMax
    requires i < |place.path| && st.at == Resolved(Root(place.slashes), place.path[..i])
    ensures var name, rest := place.path[i], Flat(place.path[i + 1..]);
            StepName(env, st, name, rest) == Next(st.(
              text := SkipSlashes(rest), at := Resolved(Root(place.slashes), place.path[..i + 1]),
              check := rest != "", calls := st.calls + 1))
  {
    hide Agrees, StepName, Flat, Stands, SkipSlashes, Written;
    var name := place.path[i];
    assert name in place.path;
    assert st.at.Push(name) == Resolved(Root(place.slashes), place.path[..i + 1]);
    AgreesAt(env, root, cwd, st.calls, Query(st.at, name));
    MidwayReply(root, cwd, place, i, st.at);
    MidwayFits(env, place, i, st.at);
    NameAdvances(env, st, name, Flat(place.path[i + 1..]));
  }

  lemma MidwayFits(env: Env, place: Place, i: nat, at: Resolved)
    requires |Written(place)| < env.pathMax && (place.slashes == 1 || place.slashes == 2)
    requires forall c :: c in place.path ==> IsProper(c)
    requires i < |place.path| && at == Resolved(Root(place.slashes), place.path[..i])
    ensures |at.Render() + at.Lead() + place.path[i]| < env.pathMax
  {
    hide Flat;
    assert place.path[i] in place.path && forall c :: c in place.path[..i] ==> c in place.path;
    assert at.Push(place.path[i]) == Resolved(Root(place.slashes), place.path[..i + 1]);
    PrefixFits(place.slashes, place.path, i + 1);
    RenderPush(at, place.path[i]);
  }

  lemma NameAdvances(env: Env, st: State, name: string, rest: string)
    requires IsProper(name) && |st.at.Render() + st.at.Lead() + name| < env.pathMax
    requires env.readlink(st.calls, Query(st.at, name)) == Refused(EINVAL)
    ensures StepName(env, st, name, rest) == Next(st.(
              text := SkipSlashes(rest), at := st.at.Push(name), check := rest != "", calls := st.calls + 1))
  {
  }

  lemma MidwayReply(root: Node, cwd: seq<string>, place: Place, i: nat, at: Resolved)
    requires IsDirectory(root, cwd) && Canonical(root, place)
    requires i < |place.path| && at == Resolved(Root(place.slashes), place.path[..i])
    ensures KernelReadlink(root, cwd, Query(at, place.path[i])) == Determined(Refused(EINVAL))
  {
    hide KernelReadlink;
    var name := place.path[i];
    assert name in place.path && forall c :: c in place.path[..i] ==> c in place.path;
    assert place.path[..i] + [name] == place.path[..i + 1];
    PrefixStands(root, place.path, i);
    PrefixStands(root, place.path, i + 1);
    LookupChild(root, place.path[..i], name);
    NameReply(root, cwd, at, name);
  }

  lemma SuffixFits(place: Place, i: nat)
    requires i <= |place.path|
    ensures |Unlead(Flat(place.path[i..]))| <= |Written(place)|
  {
    assert place.path[..i] + place.path[i..] == place.path;
    FlatAppend(place.path[..i], place.path[i..]);
  }

  lemma MidwayGood(env: Env, place: Place, i: nat, calls: nat)
    requires env.symloopMax > 0 && i <= |place.path| && |Written(place)| < env.pathMax
    requires (place.slashes == 1 || place.slashes == 2) && forall c :: c in place.path ==> IsProper(c)
    ensures Good(env, Midway(place, i, calls))
  {
    hide Flat;
    assert forall c :: c in place.path[i..] ==> c in place.path;
    assert forall c :: c in place.path[..i] ==> c in place.path;
    FlatClean(place.path[i..]);
    PrefixFits(place.slashes, place.path, i);
    SuffixFits(place, i);
  }

  lemma {:induction false} MidwayRun(env: Env, root: Node, cwd: seq<string>, place: Place, i: nat, calls: nat)
    requires env.symloopMax > 0 && i <= |place.path| && |Written(place)| < env.pathMax
    requires Agrees(env, root, cwd) && Canonical(root, place)
    ensures Good(env, Midway(place, i, calls))
    ensures Run(env, Midway(place, i, calls)) == Arrived(Resolved(Root(place.slashes), place.path))
    decreases |place.path| - i
  {
    MidwayGood(env, place, i, calls);
    if i < |place.path| {
      MidwayStep(env, root, cwd, place, i, calls);
      MidwayRun(env, root, cwd, place, i + 1, calls + 1);
    } else {
      assert place.path[i..] == [] && place.path[..i] == place.path;
    }
  }

  /** The first pass strips the root. */
  lemma RootStep(env: Env, place: Place)
    requires (place.slashes == 1 || place.slashes == 2) && forall c :: c in place.path ==> IsProper(c)
    ensures Step(env, Start(Written(place))) == Next(Midway(place, 0, 0))
  {
    var text := Written(place);
    var body := if place.path == [] then "/" else Flat(place.path);
    FlatClean(place.path);
    UnleadIsSkip(place.path);
    assert place.path[0..] == place.path && place.path[..0] == [];
    assert RootSlashes(text) == place.slashes;
    if place.slashes == 2 {
      assert text[1..] == body;
    } else {
      assert text[1..] == body[1..];
    }
  }

  lemma ReferenceCanonical(root: Node, budget: nat, cwd: seq<string>, filename: Text)
    requires root.Directory? && IsDirectory(root, cwd) && forall c :: c in cwd ==> IsProper(c)
    ensures var r := ResolvePath(root, budget, cwd, filename); !r.Lost? ==> Canonical(root, r.place)
  {
    if filename != "" {
      NamesAreNames(filename);
      var start := if filename[0] == '/' then Place(RootSlashes(filename), []) else Place(1, cwd);
      ResolveCanonical(root, budget, start, Names(filename), EndsInSlash(filename));
    }
  }

  /** A canonical path that fits is a fixed point of `realpath`. */
  lemma CanonicalFixed(env: Env, root: Node, cwd: seq<string>, place: Place)
    requires env.symloopMax > 0 && Agrees(env, root, cwd)
    requires Canonical(root, place) && |Written(place)| < env.pathMax
    ensures '\0' !in Written(place) && RealPathOf(env, Written(place)) == Success(Written(place))
  {
    hide Agrees, Step, Run;
    var at := Resolved(Root(place.slashes), place.path);
    RenderNulFree(at);
    RenderShape(at);
    var st := Start(Written(place));
    StartGood(env, Written(place));
    MidwayRun(env, root, cwd, place, 0, 0);
    RootStep(env, place);
    RunUnfolds(env, st, Midway(place, 0, 0));
  }

  lemma RunUnfolds(env: Env, st: State, next: State)
    requires Good(env, st) && Good(env, next) && Step(env, st) == Next(next)
    ensures Run(env, st) == Run(env, next)
  {
  }

  /** What `realpath` returns is canonical, and `realpath` returns it unchanged; no length limit is met. */
  lemma RealPathIdempotent(env: Env, root: Node, cwd: seq<string>, filename: Text)
    requires env.symloopMax > 0 && Agrees(env, root, cwd) && root.Directory?
    requires RealPathOf(env, filename).Success?
    ensures var path := RealPathOf(env, filename).path;
            && '\0' !in path && RealPathOf(env, path) == Success(path)
            && exists place :: Canonical(root, place) && path == Written(place)
  {
    RealPathCorrect(env, root, cwd, filename);
    SuccessFits(env, filename);
    ReferenceCanonical(root, env.symloopMax, cwd, filename);
    CanonicalFixed(env, root, cwd, ResolvePath(root, env.symloopMax, cwd, filename).place);
  }
}
