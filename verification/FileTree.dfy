/** A fixed filesystem tree, the kernel's `readlink` over it, and pathname
    resolution as section 4.13 of POSIX.1-2017 Base Definitions describes it:
    a list of pending names, a current place, and a budget of symbolic links. */
module FileTree {
  import opened Errnos
  import opened PathText
  import opened PathWalk

  /** A file is anything that is neither a directory nor a link. A closed directory lacks search
      permission: nothing can be looked up in it, not even `.` and `..`. */
  datatype Node =
    | File
    | Closed
    | Directory(entries: map<string, Node>)
    | Symlink(target: Text)

  /** The node a list of real names leads to. */
  function Lookup(node: Node, names: seq<string>): Option {
    if names == [] then Some(node)
    else if node.Directory? && names[0] in node.entries then Lookup(node.entries[names[0]], names[1..])
    else None
  }

  datatype Option = None | Some(node: Node)

  function Parent(names: seq<string>): seq<string> {
    if names == [] then [] else names[..|names| - 1]
  }

  /** A place that resolution may stand on: it exists and is not a link. */
  ghost predicate Stands(root: Node, at: seq<string>) {
    Lookup(root, at).Some? && !Lookup(root, at).node.Symlink?
  }

  /** A directory that names can be looked up in. */
  ghost predicate IsDirectory(root: Node, at: seq<string>) {
    Lookup(root, at).Some? && Lookup(root, at).node.Directory?
  }

  lemma {:induction false} LookupAppend(node: Node, a: seq<string>, b: seq<string>)
    ensures Lookup(node, a + b) ==
            if Lookup(node, a).Some? then Lookup(Lookup(node, a).node, b) else None
  {
    if a == [] {
      assert a + b == b;
    } else if node.Directory? && a[0] in node.entries {
      assert (a + b)[1..] == a[1..] + b;
      LookupAppend(node.entries[a[0]], a[1..], b);
    }
  }

  lemma LookupChild(root: Node, at: seq<string>, x: string)
    ensures Lookup(root, at + [x]) ==
            if IsDirectory(root, at) && x in Lookup(root, at).node.entries
            then Some(Lookup(root, at).node.entries[x]) else None
  {
    LookupAppend(root, at, [x]);
    if Lookup(root, at).Some? {
      assert [x][1..] == [];
    }
  }

  /** Everything above an existing place is a directory. */
  lemma PrefixIsDirectory(root: Node, at: seq<string>, k: nat)
    requires Lookup(root, at).Some? && k < |at|
    ensures IsDirectory(root, at[..k])
  {
    LookupAppend(root, at[..k], at[k..]);
    assert at[..k] + at[k..] == at;
  }

  // ------------------------------------------------------- the kernel side

  datatype Trail = Reached(at: seq<string>) | CrossesLink | Blocked(error: Errno)

  /** Follow names from a place, without following links. */
  function Follow(root: Node, at: seq<string>, names: seq<string>): Trail
    decreases |names|
  {
    if names == [] then Reached(at)
    else match Lookup(root, at)
      case Some(Directory(es)) =>
        if names[0] == "." then Follow(root, at, names[1..])
        else if names[0] == ".." then Follow(root, Parent(at), names[1..])
        else if names[0] in es then Follow(root, at + [names[0]], names[1..])
        else Blocked(ENOENT)
      case Some(File) => Blocked(ENOTDIR)
      case Some(Closed) => Blocked(EACCES)
      case Some(Symlink(_)) => CrossesLink
      case None => Blocked(ENOENT)
  }

  datatype Reply = Determined(answer: Answer) | Undetermined

  /** The kernel's answer to `readlink`, for every path whose way does not itself
      cross a link; for the others nothing is said. */
  function KernelReadlink(root: Node, cwd: seq<string>, path: string): Reply {
    if path == "" then Determined(Refused(ENOENT))
    else match Follow(root, if path[0] == '/' then [] else cwd, Names(path))
      case Reached(at) => KernelAt(root, at, EndsInSlash(path))
      case CrossesLink => Undetermined
      case Blocked(e) => Determined(Refused(e))
  }

  function KernelAt(root: Node, at: seq<string>, slash: bool): Reply {
    match Lookup(root, at)
    case Some(Directory(_)) => Determined(Refused(EINVAL))
    case Some(Closed) => Determined(Refused(EINVAL))
    case Some(File) => Determined(Refused(if slash then ENOTDIR else EINVAL))
    case Some(Symlink(t)) => if slash then Undetermined else Determined(Link(t))
    case None => Undetermined
  }

  /** The oracle is a kernel over this tree, with this working directory. */
  ghost predicate Agrees(env: Env, root: Node, cwd: seq<string>) {
    && IsDirectory(root, cwd)
    && (forall c :: c in cwd ==> IsProper(c))
    && (forall n: nat, path :: KernelReadlink(root, cwd, path).Determined? ==>
          env.readlink(n, path) == KernelReadlink(root, cwd, path).answer)
    && env.cwd.Cwd? && env.cwd.text == Written(Place(1, cwd))
  }

  // ---------------------------------------------------- the reference side

  /** A place written with one or two leading slashes. */
  datatype Place = Place(slashes: nat, path: seq<string>)

  /** The canonical pathname of a place. */
  function Written(place: Place): string {
    Resolved(Root(place.slashes), place.path).Render()
  }

  /** `Barred(place)` is a failure with EACCES as well: the place is a closed directory, and nothing but `.` was
      still to be looked up in it. */
  datatype Resolution = Found(place: Place) | Lost(error: Errno) | Barred(place: Place)

  predicate OnlyDots(names: seq<string>) {
    forall i :: 0 <= i < |names| ==> names[i] == "."
  }

  /** What pathname resolution answers: looking up `.` takes search permission like any other name. */
  function Posix(r: Resolution): Outcome {
    match r
    case Found(place) => Success(Written(place))
    case Lost(e) => Failure(e)
    case Barred(_) => Failure(EACCES)
  }

  /** Pathname resolution over component lists. `slash` says that the pathname ends
      in a slash, so that what it names must be a directory. */
  function Resolve(root: Node, budget: nat, at: Place, names: seq<string>, slash: bool): Resolution
    decreases budget, |names|
  {
    match Lookup(root, at.path)
    case Some(Directory(es)) =>
      if names == [] then Found(at)
      else if names[0] == "." then Resolve(root, budget, at, names[1..], slash)
      else if names[0] == ".." then Resolve(root, budget, at.(path := Parent(at.path)), names[1..], slash)
      else if names[0] !in es then Lost(ENOENT)
      else if es[names[0]].Symlink? then
        var t := es[names[0]].target;
        if t == "" then Lost(ENOENT)
        else if budget <= 1 then Lost(ELOOP)
        else Resolve(root, budget - 1, if t[0] == '/' then Place(RootSlashes(t), []) else at,
                     Names(t) + names[1..], slash || (names[1..] == [] && EndsInSlash(t)))
      else Resolve(root, budget, at.(path := at.path + [names[0]]), names[1..], slash)
    case Some(File) => if names == [] && !slash then Found(at) else Lost(ENOTDIR)
    case Some(Closed) => if names == [] then Found(at) else if OnlyDots(names) then Barred(at) else Lost(EACCES)
    case _ => Lost(ENOENT)
  }

  /** Resolution of a whole pathname, from the root or from the working directory. */
  function ResolvePath(root: Node, budget: nat, cwd: seq<string>, filename: string): Resolution {
    if filename == "" then Lost(ENOENT)
    else if filename[0] == '/' then
      Resolve(root, budget, Place(RootSlashes(filename), []), Names(filename), EndsInSlash(filename))
    else Resolve(root, budget, Place(1, cwd), Names(filename), EndsInSlash(filename))
  }

  /** A kernel over the tree, as an environment. */
  ghost function KernelEnv(root: Node, cwd: seq<string>, pathMax: nat, symloopMax: nat): Env
    requires forall c :: c in cwd ==> IsProper(c)
  {
    RenderNulFree(Resolved(Root(1), cwd));
    Env(pathMax, symloopMax,
        (n, path) => var r := KernelReadlink(root, cwd, path); if r.Determined? then r.answer else Refused(EINVAL),
        Cwd(Written(Place(1, cwd))))
  }

  /** Every tree and working directory has a kernel that agrees with them. */
  lemma KernelAgrees(root: Node, cwd: seq<string>, pathMax: nat, symloopMax: nat)
    requires IsDirectory(root, cwd) && forall c :: c in cwd ==> IsProper(c)
    ensures Agrees(KernelEnv(root, cwd, pathMax, symloopMax), root, cwd)
  {
  }
}
