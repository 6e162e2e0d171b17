/** `realpath` over its two fixed buffers: pending text right-aligned in `stack`, resolved
    text growing in `output`, link contents read into the dead prefix of `stack`. */
module RealPath {
  import opened Errnos
  import opened PathText
  import opened PathWalk

  // --------------------------------------------------------- byte helpers

  /** `memcpy` and `memmove`. */
  method Move(src: array<char>, from: nat, dst: array<char>, to: nat, len: nat)
    requires from + len <= src.Length && to + len <= dst.Length
    modifies dst
    ensures dst[..to] == old(dst[..to])
    ensures dst[to..] == old(src[from..from + len]) + old(dst[to + len..])
  {
    forall i | 0 <= i < len { dst[to + i] := src[from + i]; }
  }

  /** `ao_slash_len(stack + p)`: the terminating NUL at `n` stops the scan. */
  method SlashLen(stack: array<char>, p: nat, n: nat) returns (k: nat)
    requires p <= n < stack.Length && stack[n] == '\0'
    ensures p + k <= n && stack[p + k..n] == SkipSlashes(stack[p..n])
  {
    k := 0;
    while stack[p + k] == '/'
      invariant p + k <= n
      invariant forall i :: 0 <= i < k ==> stack[p..n][i] == '/'
      decreases n - p - k
    {
      assert stack[p..n][k] == '/';
      k := k + 1;
    }
    assert p + k < n ==> stack[p..n][k] != '/';
    SlashRunIs(stack[p..n], k);
  }

  lemma SlashRunIs(t: string, k: nat)
    requires k <= |t| && (k < |t| ==> t[k] != '/') && forall i :: 0 <= i < k ==> t[i] == '/'
    ensures SlashRun(t) == k
  {
  }

  /** `ao_strchrnul(stack + p, '/')`. */
  method ComponentLen(stack: array<char>, p: nat, n: nat) returns (k: nat)
    requires p <= n < stack.Length && stack[n] == '\0' && '\0' !in stack[p..n]
    ensures p + k <= n && k == NameLen(stack[p..n])
  {
    k := 0;
    while stack[p + k] != '\0' && stack[p + k] != '/'
      invariant p + k <= n
      invariant forall i :: 0 <= i < k ==> stack[p..n][i] != '/'
      decreases n - p - k
    {
      assert stack[p..n][k] != '/';
      k := k + 1;
    }
    if p + k < n {
      assert stack[p..n][k] in stack[p..n];
    }
    NameLenIs(stack[p..n], k);
  }

  lemma NameLenIs(t: string, k: nat)
    requires k <= |t| && (k < |t| ==> t[k] == '/') && forall i :: 0 <= i < k ==> t[i] != '/'
    ensures NameLen(t) == k
  {
  }

  // ---------------------------------------------------- what the buffers hold

  /** `stack[p..]` holds the pending text up to its NUL at the fixed end. */
  ghost predicate StackHolds(stack: array<char>, n: nat, p: nat, text: string)
    reads stack
  {
    stack.Length == n + 1 && p <= n && stack[n] == '\0' && stack[p..n] == text
  }

  /** `output[..q]` holds the bytes of a resolved component list. */
  ghost predicate OutputHolds(output: array<char>, n: nat, q: nat, at: Resolved)
    reads output
  {
    output.Length == n && q < n && output[..q] == at.Render()
  }

  /** An absolute text: the output restarts at the root. */
  method EnterRoot(stack: array<char>, output: array<char>, n: nat, p: nat, ghost text: string)
    returns (p': nat, q: nat)
    requires stack != output && StackHolds(stack, n, p, text) && output.Length == n
    requires text != "" && text[0] == '/' && |text| < n
    modifies output
    ensures StackHolds(stack, n, p', SkipSlashes(text[1..]))
    ensures OutputHolds(output, n, q, Resolved(Root(RootSlashes(text)), []))
  {
    SecondSlash(stack, n, p, text);
    q := 0;
    output[q] := '/';
    q := q + 1;
    p' := p + 1;
    if stack[p'] == '/' && stack[p' + 1] != '/' {
      output[q] := '/';
      q := q + 1;
    }
    RootRender(output[..q], RootSlashes(text));
    var k := SlashLen(stack, p', n);
    p' := p' + k;
  }

  lemma SecondSlash(stack: array<char>, n: nat, p: nat, text: string)
    requires StackHolds(stack, n, p, text) && text != "" && text[0] == '/' && |text| < n
    ensures stack[p + 1..n] == text[1..] && p + 1 <= n && n >= 2 && (stack[p + 1] == '/' ==> p + 1 < n && n >= 3)
    ensures stack[p + 1] == '/' && stack[p + 2] != '/' <==> RootSlashes(text) == 2
  {
    assert |text| == n - p;
    assert |text| > 1 ==> stack[p + 1] == text[1];
    assert |text| > 2 ==> stack[p + 2] == text[2];
  }

  lemma RootRender(bytes: string, slashes: nat)
    requires slashes == |bytes| && 1 <= slashes <= 2 && forall i :: 0 <= i < |bytes| ==> bytes[i] == '/'
    ensures bytes == Resolved(Root(slashes), []).Render()
  {
  }

  /** Put the separating slash in front of the pending text, in the byte before it; `p` is
      never zero here, so the test for `p == 0` cannot fire. */
  method LeadSlash(stack: array<char>, output: array<char>, n: nat, p: nat, q: nat, ghost text: string, ghost at: Resolved)
    returns (p': nat)
    requires stack != output && StackHolds(stack, n, p, text) && OutputHolds(output, n, q, at) && |text| < n
    modifies stack
    ensures StackHolds(stack, n, p', at.Lead() + text) && p' + |at.Lead()| == p
  {
    p' := p;
    assert at.Lead() == Separator(output[..q]);
    assert at.Lead() == if q > 0 && output[q - 1] != '/' then "/" else "";
    if q > 0 && output[q - 1] != '/' {
      assert p > 0;
      p' := p' - 1;
      stack[p'] := '/';
      assert stack[p'..n] == [stack[p']] + stack[p..n];
    }
  }

  /** Copy the leading component behind the output, with a slash where one is needed. */
  method AppendComponent(stack: array<char>, output: array<char>, n: nat, p: nat, q: nat, k: nat,
                         ghost name: string, ghost rest: string, ghost at: Resolved)
    returns (fits: bool, p': nat, len: nat)
    requires stack != output && StackHolds(stack, n, p, name + rest) && OutputHolds(output, n, q, at)
    requires |name| == k && |name + rest| < n
    modifies stack, output
    ensures fits == (|at.Render()| + |at.Lead()| + |name| < n)
    ensures fits ==> StackHolds(stack, n, p', rest) && 1 <= p' && k <= p' && stack[p' - k..p'] == name
    ensures fits ==> OutputHolds(output, n, q, at) && len == |at.Lead()| + k && q + len < n
    ensures fits ==> output[..q + len] == at.Render() + at.Lead() + name
  {
    hide Resolved.Render, Resolved.Lead;
    p' := LeadSlash(stack, output, n, p, q, name + rest, at);
    len := k + (p - p');
    fits := q + len < n;
    if fits {
      Regroup(at.Lead(), name, rest);
      ghost var lead := at.Lead();
      CopyOut(stack, output, n, p', q, len, lead + name, rest);
      PieceAt(stack, n, p', lead, name, rest);
      assert output[..q] == output[..q + len][..q];
      Regroup(at.Render(), lead, name);
      p' := p' + len;
    }
  }

  lemma SplitThree(a: string, b: string, c: string)
    ensures var t := a + (b + c); t[|a|..|a| + |b|] == b && t[|a| + |b|..] == c
  {
    var t := a + (b + c);
    forall i | 0 <= i < |b| ensures t[|a|..|a| + |b|][i] == b[i] {
      assert t[|a| + i] == (b + c)[i];
    }
    forall i | 0 <= i < |c| ensures t[|a| + |b|..][i] == c[i] {
      assert t[|a| + |b| + i] == (b + c)[|b| + i];
    }
  }

  lemma PieceAt(stack: array<char>, n: nat, p: nat, a: string, b: string, c: string)
    requires StackHolds(stack, n, p, a + (b + c))
    ensures StackHolds(stack, n, p + |a| + |b|, c)
    ensures stack[p + |a|..p + |a| + |b|] == b
  {
    var t := stack[p..n];
    SplitThree(a, b, c);
    assert stack[p + |a|..p + |a| + |b|] == t[|a|..|a| + |b|];
    assert stack[p + |a| + |b|..n] == t[|a| + |b|..];
  }

  method CopyOut(stack: array<char>, output: array<char>, n: nat, p: nat, q: nat, len: nat, ghost head: string, ghost rest: string)
    requires stack != output && StackHolds(stack, n, p, head + rest) && |head| == len
    requires output.Length == n && q + len < n
    modifies output
    ensures output[..q + len] == old(output[..q]) + head && output[q + len] == '\0'
  {
    assert stack[p..p + len] == stack[p..n][..len];
    Move(stack, p, output, q, len);
    assert output[..q + len] == output[..q] + output[q..][..len];
    output[q + len] := '\0';
  }

  // ------------------------------------------------------------ cancelling

  /** Before the last component stands a slash, or nothing. */
  lemma PopFront(at: Resolved)
    requires at.WellFormed() && at.comps != []
    ensures var front := at.Pop().Render() + at.Pop().Lead();
            && at.Render() == front + at.comps[|at.comps| - 1] && '/' !in at.comps[|at.comps| - 1]
            && (front == "" || EndsInSlash(front))
            && (|front| > 1 && (|front| > 2 || front[0] != '/') <==> at.Pop().Lead() == "/")
  {
    RenderPop(at);
    RenderShape(at.Pop());
    if EndsInSlash(at.Pop().Render()) { RootWidth(at.Pop()); }
  }

  lemma RootWidth(at: Resolved)
    requires at.WellFormed() && EndsInSlash(at.Render())
    ensures at.Render() == "/" || at.Render() == "//"
  {
    RenderShape(at);
  }

  /** Scan back over the last component, then over its slash unless that is the root's. */
  method PopOutput(output: array<char>, n: nat, q: nat, ghost at: Resolved) returns (q': nat)
    requires OutputHolds(output, n, q, at) && at.WellFormed()
    requires at.base.Root? || at.comps != []
    ensures OutputHolds(output, n, q', at.Pop())
  {
    ghost var front := if at.comps == [] then at.Render() else at.Pop().Render() + at.Pop().Lead();
    FrontOf(at, front);
    q' := ScanBack(output, q, at.Render(), front);
    assert q' > 0 ==> output[0] == front[0];
    if q' > 1 && (q' > 2 || output[0] != '/') {
      q' := q' - 1;
      assert output[..q'] == front[..|front| - 1];
    }
  }

  lemma FrontOf(at: Resolved, front: string)
    requires at.WellFormed() && (at.base.Root? || at.comps != [])
    requires front == if at.comps == [] then at.Render() else at.Pop().Render() + at.Pop().Lead()
    ensures |front| <= |at.Render()| && at.Render()[..|front|] == front
    ensures forall i :: |front| <= i < |at.Render()| ==> at.Render()[i] != '/'
    ensures front == "" || EndsInSlash(front)
    ensures at.Pop().Render() == if |front| > 1 && (|front| > 2 || front[0] != '/') then front[..|front| - 1] else front
  {
    if at.comps == [] {
      RenderShape(at);
      RootWidth(at);
    } else {
      PopFront(at);
    }
  }

  method ScanBack(output: array<char>, q: nat, ghost text: string, ghost front: string) returns (q': nat)
    requires q <= output.Length && output[..q] == text && |front| <= q && text[..|front|] == front
    requires forall i :: |front| <= i < |text| ==> text[i] != '/'
    requires front == "" || EndsInSlash(front)
    ensures q' == |front| && output[..q'] == front
  {
    q' := q;
    assert front != "" ==> output[|front| - 1] == text[..|front|][|front| - 1];
    assert forall i :: |front| <= i < q ==> output[i] == text[i];
    while q' > 0 && output[q' - 1] != '/'
      invariant |front| <= q' <= q
    {
      q' := q' - 1;
    }
    assert output[..q'] == text[..|front|];
  }

  // ------------------------------------------------------------ link contents

  /** `readlink(query, stack, p)`: the contents go to the start of `stack`, cut to `p` bytes. */
  method ReadLink(env: Env, calls: nat, query: string, stack: array<char>, p: nat) returns (len: int, error: Errno)
    requires p <= stack.Length
    modifies stack
    ensures stack[p..] == old(stack[p..])
    ensures var answer := env.readlink(calls, query);
            match answer
            case Refused(e) => len == -1 && error == e
            case Link(t) => 0 <= len <= p && len <= |t| && (len == p || len == |t|) && stack[..len] == t[..len]
  {
    error := EINVAL;
    match env.readlink(calls, query)
    case Refused(e) =>
      len := -1;
      error := e;
    case Link(t) =>
      len := if |t| < p then |t| else p;
      forall i | 0 <= i < len { stack[i] := t[i]; }
  }

  /** Move the link contents in front of the pending text. */
  method SpliceLink(stack: array<char>, n: nat, p: nat, len: nat, ghost target: string, ghost rest: string) returns (p': nat)
    requires StackHolds(stack, n, p, rest) && 0 < len < p && len == |target| && stack[..len] == target
    modifies stack
    ensures StackHolds(stack, n, p', target + Remaining(target, rest))
  {
    p' := AfterSlash(stack, n, p, len, target, rest);
    assert stack[p'..] == stack[p'..n] + [stack[n]];
    p' := p' - len;
    Move(stack, 0, stack, p', len);
    JoinAt(stack, n, p', target, Remaining(target, rest));
  }

  method AfterSlash(stack: array<char>, n: nat, p: nat, len: nat, ghost target: string, ghost rest: string) returns (p': nat)
    requires StackHolds(stack, n, p, rest) && 0 < len < p && len == |target| && stack[..len] == target
    ensures p <= p' && StackHolds(stack, n, p', Remaining(target, rest))
  {
    p' := p;
    assert stack[len - 1] == stack[..len][len - 1];
    if stack[len - 1] == '/' {
      var k := SlashLen(stack, p', n);
      p' := p' + k;
    }
  }

  lemma JoinAt(stack: array<char>, n: nat, p: nat, a: string, b: string)
    requires stack.Length == n + 1 && p + |a| + |b| == n
    requires stack[p..] == a + (b + ['\0'])
    ensures StackHolds(stack, n, p, a + b)
  {
    assert stack[n] == stack[p..][n - p];
    assert a + (b + ['\0']) == (a + b) + ['\0'];
    assert stack[p..n] == stack[p..][..n - p];
  }

  // ----------------------------------------------- the working directory

  /** One round of the splice's inner loop: drop the last component of the directory. */
  method DropComponent(stack: array<char>, len: nat) returns (len': nat)
    requires 0 < len <= stack.Length
    ensures 0 < len' <= len && stack[..len'] == ParentText(stack[..len])
  {
    len' := len;
    while len' > 1 && stack[len' - 1] != '/'
      invariant 0 < len' <= len && CutName(stack[..len']) == CutName(stack[..len])
    {
      assert stack[..len'][..len' - 1] == stack[..len' - 1];
      len' := len' - 1;
    }
    ghost var cut := stack[..len'];
    assert CutName(cut) == cut;
    if len' > 1 {
      len' := len' - 1;
      assert stack[..len'] == cut[..len'];
    }
  }

  /** `skip` after `done` of the counted `..`. */
  function SkipAfter(at: Resolved, done: nat): nat {
    if at.comps == [] && done == at.Ups() && done > 0 then 3 * done - 1 else 3 * done
  }

  /** Walk up the working directory and over the leading `..` of the output together. */
  method WalkUp(stack: array<char>, len: nat, q: nat, pendingUp: nat, ghost at: Resolved) returns (len': nat, skip: nat)
    requires 0 < len <= stack.Length
    requires at.WellFormed() && at.base.Relative? && pendingUp == at.base.ups && q == |at.Render()|
    ensures 0 < len' <= len && stack[..len'] == AncestorText(stack[..len], pendingUp)
    ensures skip == SkipAfter(at, pendingUp) && skip <= q
  {
    hide Resolved.Render, Flat, Unlead, AncestorText, ParentText, Resolved.WellFormed;
    QWidth(at);
    len' := len;
    skip := 0;
    AncestorStep(stack[..len], 0);
    var left := pendingUp;
    while left > 0
      invariant 0 < len' <= len && 0 <= left <= pendingUp
      invariant AncestorText(stack[..len'], left) == AncestorText(stack[..len], pendingUp)
      invariant skip == SkipAfter(at, pendingUp - left)
    {
      AncestorStep(stack[..len'], left);
      left := left - 1;
      len' := DropComponent(stack, len');
      skip := skip + 2;
      if skip < q {
        skip := skip + 1;
      }
    }
    AncestorStep(stack[..len'], 0);
  }

  /** `q` against the bytes of the counted `..`. */
  lemma QWidth(at: Resolved)
    requires at.WellFormed() && at.base.Relative?
    ensures at.comps == [] ==> |at.Render()| == if at.Ups() == 0 then 0 else 3 * at.Ups() - 1
    ensures at.comps != [] ==> |at.Render()| > 3 * at.Ups()
  {
    PendingUpTest(at);
    UnleadWidth(at);
  }

  lemma UnleadWidth(at: Resolved)
    requires at.WellFormed()
    ensures at.comps != [] <==> Unlead(Flat(at.comps)) != ""
  {
    FlatClean(at.comps);
  }

  lemma TailAfterSkip(at: Resolved)
    requires at.WellFormed() && at.base.Relative?
    ensures SkipAfter(at, at.base.ups) <= |at.Render()|
    ensures at.Render()[SkipAfter(at, at.base.ups)..] == Unlead(Flat(at.comps))
  {
    PendingUpTest(at);
    UnleadWidth(at);
  }

  /** `getcwd(buffer, sizeof buffer)`: only an absolute answer counts. */
  method GetCwd(env: Env, buffer: array<char>) returns (len: nat, error: Errno)
    requires buffer.Length > 0
    modifies buffer
    ensures match env.cwd
            case NoCwd(e) => len == 0 && error == e
            case Cwd(t) =>
              if |t| >= buffer.Length then len == 0 && error == ERANGE
              else if t == "" || t[0] != '/' then len == 0 && error == ENOENT
              else len == |t| && buffer[..len] == t
  {
    len, error := 0, ENOENT;
    match env.cwd
    case NoCwd(e) =>
      error := e;
    case Cwd(t) =>
      if |t| >= buffer.Length {
        error := ERANGE;
      } else {
        forall i | 0 <= i < |t| { buffer[i] := t[i]; }
        buffer[|t|] := '\0';
        if buffer[0] == '/' {
          len := |t|;
        }
      }
  }

  /** Put the directory in front of what follows the counted `..` in the output. */
  method JoinDirectory(stack: array<char>, output: array<char>, n: nat, len: nat, q: nat, skip: nat,
                       ghost dir: string, ghost tail: string)
    returns (r: Outcome)
    requires stack != output && stack.Length == n + 1 && output.Length == n
    requires 0 < len <= n && stack[..len] == dir
    requires skip <= q < n && output[skip..q] == tail
    modifies stack, output
    ensures var whole := dir + (if tail != "" then Separator(dir) else "") + tail;
            r == if |whole| + 1 >= n then Failure(ENAMETOOLONG) else Success(whole)
  {
    var len' := len;
    assert stack[len' - 1] == dir[len' - 1];
    if q - skip > 0 && stack[len' - 1] != '/' {
      stack[len'] := '/';
      len' := len' + 1;
    }
    ghost var front := dir + (if tail != "" then Separator(dir) else "");
    assert stack[..len'] == front;
    if len' + (q - skip) + 1 >= n {
      return Failure(ENAMETOOLONG);
    }
    r := CopyJoined(stack, output, len', q, skip, front, tail);
  }

  method CopyJoined(stack: array<char>, output: array<char>, len: nat, q: nat, skip: nat, ghost front: string, ghost tail: string)
    returns (r: Outcome)
    requires stack != output && len <= stack.Length && stack[..len] == front
    requires skip <= q < output.Length && output[skip..q] == tail && len + (q - skip) + 1 < output.Length
    modifies output
    ensures r == Success(front + tail)
  {
    assert output[skip..q + 1][..q - skip] == tail;
    Move(output, skip, output, len, q - skip + 1);
    assert output[len..][..q - skip] == tail;
    Move(stack, 0, output, 0, len);
    r := Success(output[..len + (q - skip)]);
    assert output[..][..len] == front && output[..][len..][..q - skip] == tail;
    assert output[..len + (q - skip)] == output[..][..len] + output[..][len..][..q - skip];
  }

  /** Everything after the main loop. */
  method FinishOutput(env: Env, stack: array<char>, output: array<char>, q: nat, pendingUp: nat, ghost at: Resolved)
    returns (r: Outcome)
    requires stack != output && stack.Length == env.pathMax + 1 && OutputHolds(output, env.pathMax, q, at)
    requires at.WellFormed() && pendingUp == at.Ups()
    modifies stack, output
    ensures r == Finish(env, at)
  {
    RenderShape(at);
    assert output[..q] == at.Render();
    output[q] := '\0';
    assert output[..q] == at.Render();
    assert q > 0 ==> output[0] == at.Render()[0];
    if output[0] != '/' {
      var len, error := GetCwd(env, stack);
      if len == 0 {
        return Failure(error);
      }
      TailAfterSkip(at);
      var len', skip := WalkUp(stack, len, q, pendingUp, at);
      assert output[skip..q] == at.Render()[skip..];
      r := JoinDirectory(stack, output, env.pathMax, len', q, skip, AncestorText(env.cwd.text, at.base.ups), Unlead(Flat(at.comps)));
    } else {
      r := Success(output[..q]);
    }
  }

  // ----------------------------------------------------------- the main loop

  /** The local variables of `realpath` and its buffers, against the machine's state. */
  ghost predicate Holds(stack: array<char>, output: array<char>, n: nat, p: nat, q: nat, pendingUp: nat,
                        check: bool, links: nat, calls: nat, st: State)
    reads stack, output
  {
    && stack != output && StackHolds(stack, n, p, st.text) && OutputHolds(output, n, q, st.at)
    && pendingUp == st.at.Ups() && check == st.check && links == st.links && calls == st.calls
  }

  lemma NextByte(stack: array<char>, n: nat, p: nat, rest: string)
    requires StackHolds(stack, n, p, rest) && (rest == "" || rest[0] == '/')
    ensures stack[p] != '\0' <==> rest != ""
  {
    assert rest != "" ==> stack[p] == rest[0];
  }

  /** The code under `skip_readlink`. */
  method NoLink(stack: array<char>, output: array<char>, n: nat, p: nat, q: nat, k: nat, len: nat, up: bool,
                ghost st: State, ghost name: string, ghost rest: string)
    returns (p': nat, q': nat, check: bool)
    requires stack != output && StackHolds(stack, n, p, rest) && OutputHolds(output, n, q, st.at) && st.at.WellFormed()
    requires q + len < n && output[..q + len] == st.at.Render() + st.at.Lead() + name
    requires k == |name| && up == (name == "..") && name != "." && '/' !in name && '\0' !in name
    requires rest == "" || rest[0] == '/'
    requires up ==> st.at.base.Root? || st.at.comps != []
    ensures var next := StepNoLink(st, name, rest).state;
            StackHolds(stack, n, p', next.text) && OutputHolds(output, n, q', next.at) && check == next.check
  {
    hide Resolved.Render, Resolved.Lead, SlashRun;
    q' := q;
    if up {
      check := false;
      q' := PopOutput(output, n, q, st.at);
    } else {
      if k != 0 {
        RenderPush(st.at, name);
        q' := q' + len;
      }
      NextByte(stack, n, p, rest);
      check := stack[p] != '\0';
    }
    var s := SlashLen(stack, p, n);
    p' := p + s;
  }

  /** The outcome of one pass: go on with the loop, or return an error. */
  datatype Pass = GoOn | GiveUp(error: Errno)

  /** Ask the kernel about the output and one more name, and act on the answer. */
  method Ask(env: Env, stack: array<char>, output: array<char>, p: nat, q: nat, k: nat, len: nat, up: bool,
             check: bool, links: nat, calls: nat, ghost st: State, ghost name: string, ghost rest: string)
    returns (pass: Pass, p': nat, q': nat, check': bool, links': nat)
    requires stack != output && StackHolds(stack, env.pathMax, p, rest) && 1 <= p
    requires OutputHolds(output, env.pathMax, q, st.at) && st.at.WellFormed()
    requires links == st.links && calls == st.calls && check == st.check
    requires q + len < env.pathMax && output[..q + len] == st.at.Render() + st.at.Lead() + name
    requires k == |name| && up == (name == "..") && name != "." && '/' !in name && '\0' !in name
    requires rest == "" || rest[0] == '/'
    requires up ==> st.at.base.Root? || st.at.comps != []
    modifies stack
    ensures Reflects(stack, output, env.pathMax, pass, p', q', check', links',
                     StepAnswer(env, st.(calls := st.calls + 1), name, rest,
                                env.readlink(st.calls, st.at.Render() + st.at.Lead() + name)))
  {
    hide SlashRun, SkipSlashes, EndsInSlash, Resolved.Render, Resolved.Lead, Remaining;
    p', q', check', links' := p, q, check, links;
    assert stack[p..] == stack[p..env.pathMax] + ['\0'];
    var linkLen, error := ReadLink(env, calls, output[..q + len], stack, p);
    KeepsHolding(stack, env.pathMax, p, rest);
    if linkLen == p {
      return GiveUp(ENAMETOOLONG), p', q', check', links';
    }
    if linkLen == 0 {
      return GiveUp(ENOENT), p', q', check', links';
    }
    if linkLen < 0 {
      if error != EINVAL {
        return GiveUp(error), p', q', check', links';
      }
      p', q', check' := NoLink(stack, output, env.pathMax, p, q, k, len, up, st.(calls := st.calls + 1), name, rest);
    } else {
      links' := links' + 1;
      if links' == env.symloopMax {
        return GiveUp(ELOOP), p', q', check', links';
      }
      ghost var target := env.readlink(calls, output[..q + len]).target;
      p' := SpliceLink(stack, env.pathMax, p, linkLen, target, rest);
    }
    pass := GoOn;
  }

  /** The variables after a pass reflect the machine's move. */
  ghost predicate Reflects(stack: array<char>, output: array<char>, n: nat, pass: Pass, p: nat, q: nat, check: bool, links: nat, m: Move)
    reads stack, output
  {
    match m
    case Next(next) =>
      && pass == GoOn && StackHolds(stack, n, p, next.text) && OutputHolds(output, n, q, next.at)
      && check == next.check && links == next.links
    case Fail(e) => pass == GiveUp(e)
    case Halt => false
  }

  lemma KeepsHolding(stack: array<char>, n: nat, p: nat, rest: string)
    requires stack.Length == n + 1 && p <= n && stack[p..] == rest + ['\0']
    ensures StackHolds(stack, n, p, rest)
  {
    assert stack[p..n] == stack[p..][..n - p];
    assert stack[n] == stack[p..][n - p];
  }

  /** The variables after a pass hold the machine's next state. */
  ghost predicate Moved(stack: array<char>, output: array<char>, n: nat, pass: Pass, p: nat, q: nat, pendingUp: nat,
                        check: bool, links: nat, calls: nat, m: Move)
    reads stack, output
  {
    match m
    case Next(next) => pass == GoOn && Holds(stack, output, n, p, q, pendingUp, check, links, calls, next)
    case Fail(e) => pass == GiveUp(e)
    case Halt => false
  }

  /** Neither cancelling nor asking changes the counted `..`. */
  lemma AnswerKeepsCounts(env: Env, st: State, name: string, rest: string, answer: Answer)
    ensures var m := StepAnswer(env, st.(calls := st.calls + 1), name, rest, answer);
            m.Next? ==> m.state.calls == st.calls + 1 && m.state.at.Ups() == st.at.Ups()
    ensures !StepAnswer(env, st.(calls := st.calls + 1), name, rest, answer).Halt?
    ensures var m := StepNoLink(st, name, rest);
            m.Next? && m.state.calls == st.calls && m.state.links == st.links && m.state.at.Ups() == st.at.Ups()
  {
  }

  lemma DotMove(env: Env, st: State, rest: string)
    ensures StepName(env, st, ".", rest) == Next(st.(text := SkipSlashes(rest)))
  {
  }

  lemma LongMove(env: Env, st: State, name: string, rest: string)
    requires name != "." && (name != "" || st.check) && |st.at.Render()| + |st.at.Lead()| + |name| >= env.pathMax
    ensures StepName(env, st, name, rest) == Fail(ENAMETOOLONG)
  {
  }

  /** A component that fits is counted, cancelled with, or asked about. */
  lemma FittingMove(env: Env, st: State, name: string, rest: string)
    requires name != "." && (name != "" || st.check) && |st.at.Render()| + |st.at.Lead()| + |name| < env.pathMax
    ensures StepName(env, st, name, rest) ==
            if name == ".." && st.at.base.Relative? && st.at.comps == [] then
              Next(st.(text := SkipSlashes(rest), at := Resolved(Relative(st.at.base.ups + 1), [])))
            else if name == ".." && !st.check then StepNoLink(st, name, rest)
            else StepAnswer(env, st.(calls := st.calls + 1), name, rest,
                            env.readlink(st.calls, st.at.Render() + st.at.Lead() + name))
  {
  }

  /** One pass over a component that is pending, or over the trailing-slash check. */
  method Component(env: Env, stack: array<char>, output: array<char>, p: nat, q: nat, pendingUp: nat, check: bool,
                   links: nat, calls: nat, k: nat, ghost st: State, ghost name: string, ghost rest: string)
    returns (pass: Pass, p': nat, q': nat, pendingUp': nat, check': bool, links': nat, calls': nat)
    requires st.at.WellFormed() && |st.text| < env.pathMax
    requires Holds(stack, output, env.pathMax, p, q, pendingUp, check, links, calls, st)
    requires st.text == name + rest && k == |name| && '/' !in name && '\0' !in name
    requires (rest == "" || rest[0] == '/') && (name != "" || check)
    modifies stack, output
    ensures Moved(stack, output, env.pathMax, pass, p', q', pendingUp', check', links', calls', StepName(env, st, name, rest))
  {
    hide StepName, SkipSlashes, Resolved.Render, Resolved.Lead, Resolved.WellFormed;
    p', q', pendingUp', check', links', calls' := p, q, pendingUp, check, links, calls;
    SingleDot(stack, p, env.pathMax, k, name, rest);
    if k == 1 && stack[p] == '.' {
      DotMove(env, st, rest);
      var s := SlashLen(stack, p + 1, env.pathMax);
      p' := p + 1 + s;
      return GoOn, p', q', pendingUp', check', links', calls';
    }
    var fits, p1, len := AppendComponent(stack, output, env.pathMax, p, q, k, name, rest, st.at);
    if !fits {
      LongMove(env, st, name, rest);
      return GiveUp(ENAMETOOLONG), p', q', pendingUp', check', links', calls';
    }
    pass, p', q', pendingUp', check', links', calls' :=
      Appended(env, stack, output, p1, q, pendingUp, check, links, calls, k, len, st, name, rest);
  }

  lemma SingleDot(stack: array<char>, p: nat, n: nat, k: nat, name: string, rest: string)
    requires p <= n < stack.Length && stack[p..n] == name + rest && k == |name|
    ensures k == 1 && stack[p] == '.' <==> name == "."
    ensures p + k <= n && stack[p + k..n] == rest
  {
    assert stack[p + k..n] == stack[p..n][k..];
    if k == 1 { assert stack[p] == (name + rest)[0]; }
  }

  /** The component has been copied: count it, cancel with it, or ask about it. */
  method Appended(env: Env, stack: array<char>, output: array<char>, p: nat, q: nat, pendingUp: nat, check: bool,
                  links: nat, calls: nat, k: nat, len: nat, ghost st: State, ghost name: string, ghost rest: string)
    returns (pass: Pass, p': nat, q': nat, pendingUp': nat, check': bool, links': nat, calls': nat)
    requires st.at.WellFormed() && stack != output && StackHolds(stack, env.pathMax, p, rest) && 1 <= p
    requires OutputHolds(output, env.pathMax, q, st.at)
    requires pendingUp == st.at.Ups() && check == st.check && links == st.links && calls == st.calls
    requires k <= p && stack[p - k..p] == name && k == |name| && name != "." && '/' !in name && '\0' !in name
    requires (rest == "" || rest[0] == '/') && (name != "" || check)
    requires q + len < env.pathMax && len == |st.at.Lead()| + k && output[..q + len] == st.at.Render() + st.at.Lead() + name
    modifies stack
    ensures Moved(stack, output, env.pathMax, pass, p', q', pendingUp', check', links', calls', StepName(env, st, name, rest))
  {
    hide StepName, SkipSlashes, StepAnswer, StepNoLink, Resolved.Render, Resolved.Lead;
    FittingMove(env, st, name, rest);
    AnswerKeepsCounts(env, st, name, rest, env.readlink(st.calls, st.at.Render() + st.at.Lead() + name));
    pass, p', q', pendingUp', check', links', calls' := GoOn, p, q, pendingUp, check, links, calls;
    PendingUpTest(st.at);
    DoubleDot(stack, p, k, name);
    var up := k == 2 && stack[p - 2] == '.' && stack[p - 1] == '.';
    if up && q <= 3 * pendingUp {
      RenderUp(pendingUp);
      var s := SlashLen(stack, p, env.pathMax);
      return GoOn, p + s, q + len, pendingUp + 1, check, links, calls;
    }
    if up && !check {
      p', q', check' := NoLink(stack, output, env.pathMax, p, q, k, len, up, st, name, rest);
    } else {
      pass, p', q', check', links' := Ask(env, stack, output, p, q, k, len, up, check, links, calls, st, name, rest);
      calls' := calls + 1;
    }
  }

  lemma DoubleDot(stack: array<char>, p: nat, k: nat, name: string)
    requires k <= p <= stack.Length && stack[p - k..p] == name && k == |name|
    ensures k == 2 && stack[p - 2] == '.' && stack[p - 1] == '.' <==> name == ".."
  {
    if k == 2 { assert stack[p - 2] == name[0] && stack[p - 1] == name[1]; }
  }

  /** Right-align the filename in the stack buffer. */
  method LoadFilename(filename: Text, n: nat) returns (stack: array<char>, p: nat)
    requires |filename| < n
    ensures fresh(stack) && StackHolds(stack, n, p, filename)
  {
    stack := new char[n + 1];
    p := n + 1 - |filename| - 1;
    forall i | 0 <= i < |filename| { stack[p + i] := filename[i]; }
    stack[n] := '\0';
    assert stack[p..n] == filename;
  }

  datatype Filename = Null | CString(text: Text)

  /** `realpath`: it terminates under every oracle, stays inside its buffers, and answers as the text machine does. */
  method RealPath(env: Env, filename: Filename) returns (r: Outcome)
    requires env.symloopMax > 0
    ensures r == if filename.Null? then Failure(EINVAL) else RealPathOf(env, filename.text)
  {
    if filename.Null? {
      return Failure(EINVAL);
    }
    var text := filename.text;
    if |text| == 0 {
      return Failure(ENOENT);
    }
    if |text| >= env.pathMax {
      return Failure(ENAMETOOLONG);
    }
    StartGood(env, text);
    r := MainLoop(env, text);
  }

  method MainLoop(env: Env, text: Text) returns (r: Outcome)
    requires env.symloopMax > 0 && text != "" && |text| < env.pathMax && Good(env, Start(text))
    ensures r == Conclude(env, Run(env, Start(text)))
  {
    hide Step, Descends;
    var n := env.pathMax;
    var stack, p := LoadFilename(text, n);
    var output := new char[n];
    var q, pendingUp, check, links, calls := 0, 0, false, 0, 0;
    ghost var st := Start(text);
    assert OutputHolds(output, n, q, st.at);
    while true
      invariant Good(env, st) && Holds(stack, output, n, p, q, pendingUp, check, links, calls, st)
      invariant Run(env, st) == Run(env, Start(text))
      invariant fresh(stack) && fresh(output)
      decreases env.symloopMax - links, n - p, check
    {
      var done, pass;
      done, pass, p, q, pendingUp, check, links, calls := LoopBody(env, stack, output, p, q, pendingUp, check, links, calls, st);
      RunStep(env, st);
      if done {
        r := FinishOutput(env, stack, output, q, pendingUp, st.at);
        return;
      }
      if pass.GiveUp? {
        return Failure(pass.error);
      }
      st := Step(env, st).state;
    }
  }

  lemma RunStep(env: Env, st: State)
    requires Good(env, st)
    ensures Step(env, st).Next? ==> Good(env, Step(env, st).state) && Descends(env, st, Step(env, st).state)
    ensures Step(env, st).Next? ==> Run(env, st) == Run(env, Step(env, st).state)
    ensures Step(env, st).Halt? ==> Run(env, st) == Arrived(st.at)
    ensures Step(env, st).Fail? ==> Run(env, st) == Stuck(Step(env, st).error)
  {
    if Step(env, st).Next? { StepKeepsGood(env, st); }
  }

  method LoopBody(env: Env, stack: array<char>, output: array<char>, p: nat, q: nat, pendingUp: nat, check: bool,
                  links: nat, calls: nat, ghost st: State)
    returns (done: bool, pass: Pass, p': nat, q': nat, pendingUp': nat, check': bool, links': nat, calls': nat)
    requires Good(env, st) && Holds(stack, output, env.pathMax, p, q, pendingUp, check, links, calls, st)
    modifies stack, output
    ensures done == Step(env, st).Halt?
    ensures done ==> Holds(stack, output, env.pathMax, p', q', pendingUp', check', links', calls', st)
    ensures !done ==> Moved(stack, output, env.pathMax, pass, p', q', pendingUp', check', links', calls', Step(env, st))
  {
    hide StepName, Resolved.Render, Resolved.Lead, SkipSlashes;
    done, pass, p', q', pendingUp', check', links', calls' := false, GoOn, p, q, pendingUp, check, links, calls;
    FirstByte(stack, env.pathMax, p, st.text);
    if stack[p] == '/' {
      p', q' := EnterRoot(stack, output, env.pathMax, p, st.text);
      return false, GoOn, p', q', 0, false, links, calls;
    }
    var k := ComponentLen(stack, p, env.pathMax);
    HeadPieces(env, st);
    if k == 0 && !check {
      return true, GoOn, p, q, pendingUp, check, links, calls;
    }
    pass, p', q', pendingUp', check', links', calls' :=
      Component(env, stack, output, p, q, pendingUp, check, links, calls, k, st, st.text[..k], st.text[k..]);
  }

  lemma FirstByte(stack: array<char>, n: nat, p: nat, text: string)
    requires StackHolds(stack, n, p, text) && '\0' !in text
    ensures stack[p] == '/' <==> text != "" && text[0] == '/'
    ensures text == "" <==> stack[p] == '\0'
  {
    if text != "" { assert stack[p] == text[0] && text[0] in text; }
  }

  /** The machine's step where no slash leads. */
  lemma HeadPieces(env: Env, st: State)
    requires '\0' !in st.text && (st.text == "" || st.text[0] != '/')
    ensures var k := NameLen(st.text);
            && Step(env, st) == StepName(env, st, st.text[..k], st.text[k..])
            && (Step(env, st).Halt? <==> k == 0 && !st.check)
            && st.text == st.text[..k] + st.text[k..] && '/' !in st.text[..k] && '\0' !in st.text[..k]
            && (st.text[k..] == "" || st.text[k..][0] == '/') && (k == 0 ==> st.text == "")
  {
    hide NameLen, StepName;
    HeadBytes(st.text, NameLen(st.text));
    HaltsAtEnd(env, st, st.text[..NameLen(st.text)], st.text[NameLen(st.text)..]);
  }

  lemma HaltsAtEnd(env: Env, st: State, name: string, rest: string)
    ensures StepName(env, st, name, rest).Halt? <==> name == "" && !st.check
  {
  }

  lemma HeadBytes(text: string, k: nat)
    requires k <= |text| && '\0' !in text && '/' !in text[..k]
    ensures '\0' !in text[..k] && text == text[..k] + text[k..]
  {
  }
}
