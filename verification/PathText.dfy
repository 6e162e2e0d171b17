/** Path bytes as `realpath` sees them: slash runs, component names, and the
    rendering of a resolved component list into the `output` buffer. */
module PathText {

  /** The bytes of a C string: everything before the terminating NUL. */
  type Text = s: string | '\0' !in s

  /** `ao_slash_len`: the length of the leading run of slashes. */
  function SlashRun(t: string): (n: nat)
    ensures n <= |t| && (n < |t| ==> t[n] != '/')
    ensures forall i :: 0 <= i < n ==> t[i] == '/'
  {
    if t == "" || t[0] != '/' then 0 else 1 + SlashRun(t[1..])
  }

  function SkipSlashes(t: string): (r: string)
    ensures |r| <= |t|
    ensures r != "" ==> r[0] != '/'
    ensures '\0' !in t ==> '\0' !in r
  {
    t[SlashRun(t)..]
  }

  /** `ao_strchrnul(t, '/') - t`: the length of the leading component. */
  function NameLen(t: string): (n: nat)
    ensures n <= |t| && (n < |t| ==> t[n] == '/')
    ensures forall i :: 0 <= i < n ==> t[i] != '/'
  {
    if t == "" || t[0] == '/' then 0 else 1 + NameLen(t[1..])
  }

  predicate EndsInSlash(t: string) {
    t != "" && t[|t| - 1] == '/'
  }

  /** The slash that goes between rendered text and the next component. */
  function Separator(r: string): string {
    if r != "" && !EndsInSlash(r) then "/" else ""
  }

  /** The component names of a pathname: its maximal slash-free pieces. */
  function Names(t: string): seq<string>
    decreases |t|
  {
    if t == "" then []
    else if t[0] == '/' then Names(t[1..])
    else [t[..NameLen(t)]] + Names(t[NameLen(t)..])
  }

  /** Exactly two leading slashes name the implementation-defined root, any other number the plain one. */
  function RootSlashes(t: string): (n: nat)
    ensures n == 1 || n == 2
  {
    if |t| >= 2 && t[0] == '/' && t[1] == '/' && (|t| == 2 || t[2] != '/') then 2 else 1
  }

  /** A component name as the kernel knows it. */
  predicate IsName(x: string) {
    x != "" && '/' !in x && '\0' !in x
  }

  /** A name that is neither `.` nor `..`. */
  predicate IsProper(x: string) {
    IsName(x) && x != "." && x != ".."
  }

  /** Every component with a slash in front of it. */
  function Flat(cs: seq<string>): string {
    if cs == [] then "" else "/" + cs[0] + Flat(cs[1..])
  }

  function Dots(n: nat): (ds: seq<string>)
    ensures |ds| == n && forall d :: d in ds ==> d == ".."
  {
    seq(n, _ => "..")
  }

  /** Where the text in `output` starts: `ups` uncancelled `..` below the working
      directory, or a root written with one or two slashes. */
  datatype Base = Relative(ups: nat) | Root(slashes: nat)

  /** The component list that `output[..q]` encodes. */
  datatype Resolved = Resolved(base: Base, comps: seq<string>) {

    ghost predicate WellFormed() {
      && (base.Root? ==> base.slashes == 1 || base.slashes == 2)
      && forall c :: c in comps ==> IsProper(c)
    }

    function Ups(): nat {
      if base.Relative? then base.ups else 0
    }

    function Push(x: string): Resolved {
      this.(comps := comps + [x])
    }

    /** `..` after an ordinary component cancels it; at a root it does nothing. */
    function Pop(): Resolved {
      if comps == [] then this else this.(comps := comps[..|comps| - 1])
    }

    function Render(): string {
      if base.Root? then
        (if base.slashes == 2 then "/" else "") + (if comps == [] then "/" else Flat(comps))
      else if base.ups == 0 && comps == [] then ""
      else Unlead(Flat(Dots(base.ups) + comps))
    }

    /** The slash `realpath` puts between the output and the next component. */
    function Lead(): string {
      Separator(Render())
    }
  }

  function Unlead(t: string): string {
    if t == "" then "" else t[1..]
  }

  // ---------------------------------------------------------------- Flat

  lemma {:induction false} FlatAppend(a: seq<string>, b: seq<string>)
    ensures Flat(a + b) == Flat(a) + Flat(b)
  {
    if a == [] {
      assert a + b == b;
    } else {
      FlatAppend(a[1..], b);
      assert (a + b)[1..] == a[1..] + b;
    }
  }

  lemma FlatSnoc(a: seq<string>, x: string)
    ensures Flat(a + [x]) == Flat(a) + "/" + x
  {
    FlatAppend(a, [x]);
    assert [x][1..] == [];
    assert Flat([x]) == "/" + x;
  }

  lemma {:induction false} FlatDots(n: nat)
    ensures |Flat(Dots(n))| == 3 * n
  {
    if n > 0 {
      assert Dots(n)[1..] == Dots(n - 1);
      FlatDots(n - 1);
    }
  }

  lemma {:induction false} FlatClean(cs: seq<string>)
    requires forall c :: c in cs ==> IsName(c)
    ensures '\0' !in Flat(cs)
    ensures cs != [] ==> |Flat(cs)| >= 2 && Flat(cs)[0] == '/' && Flat(cs)[1] != '/' && !EndsInSlash(Flat(cs))
  {
    if cs != [] {
      FlatClean(cs[1..]);
      assert cs[0] in cs;
      assert forall c :: c in cs[1..] ==> c in cs;
    }
  }

  // -------------------------------------------------------------- Render

  lemma RenderShape(at: Resolved)
    requires at.WellFormed()
    ensures at.base.Root? ==> at.Render() != "" && at.Render()[0] == '/'
    ensures at.base.Relative? && at.Render() != "" ==> at.Render()[0] != '/'
    ensures EndsInSlash(at.Render()) <==> at.base.Root? && at.comps == []
    ensures at.Render() == "" <==> at == Resolved(Relative(0), [])
  {
    if at.base.Root? {
      FlatClean(at.comps);
      if at.base.slashes == 2 {
        assert at.Render()[1..] == if at.comps == [] then "/" else Flat(at.comps);
      }
    } else {
      UnleadClean(Dots(at.base.ups) + at.comps);
    }
  }

  lemma UnleadClean(all: seq<string>)
    requires forall c :: c in all ==> IsName(c)
    ensures Unlead(Flat(all)) != "" ==> Unlead(Flat(all))[0] != '/'
    ensures !EndsInSlash(Unlead(Flat(all)))
    ensures Unlead(Flat(all)) == "" <==> all == []
  {
    FlatClean(all);
  }

  lemma RenderNulFree(at: Resolved)
    requires at.WellFormed()
    ensures '\0' !in at.Render()
  {
    FlatClean(at.comps);
    FlatClean(Dots(at.Ups()) + at.comps);
  }

  /** `q <= 3 * pending_up` says exactly that no component can be cancelled. */
  lemma PendingUpTest(at: Resolved)
    requires at.WellFormed()
    ensures |at.Render()| <= 3 * at.Ups() <==> at.base.Relative? && at.comps == []
    ensures at.base.Relative? ==>
      |at.Render()| == |Unlead(Flat(at.comps))| + (if at.comps == [] then (if at.Ups() == 0 then 0 else 3 * at.Ups() - 1) else 3 * at.Ups())
    ensures at.base.Relative? && at.comps != [] ==> at.Render()[3 * at.Ups()..] == Unlead(Flat(at.comps))
  {
    RenderShape(at);
    if at.base.Relative? {
      FlatAppend(Dots(at.Ups()), at.comps);
      FlatDots(at.Ups());
      FlatClean(at.comps);
      assert Dots(at.base.ups) + [] == Dots(at.base.ups);
      if at.comps != [] {
        var d, f := Flat(Dots(at.base.ups)), Flat(at.comps);
        assert (d + f)[1..][3 * at.base.ups..] == f[1..];
      }
    }
  }

  lemma UnleadSnoc(all: seq<string>, x: string)
    ensures Unlead(Flat(all + [x])) == if all == [] then x else Unlead(Flat(all)) + "/" + x
  {
    FlatSnoc(all, x);
    if all == [] {
      assert Flat(all + [x]) == "/" + x;
    } else {
      assert (Flat(all) + ("/" + x))[1..] == Flat(all)[1..] + ("/" + x);
      assert Flat(all)[1..] + ("/" + x) == Flat(all)[1..] + "/" + x;
    }
  }

  /** Appending a component appends its bytes, with a slash where one is needed. */
  lemma RenderPush(at: Resolved, x: string)
    requires at.WellFormed() && IsProper(x)
    ensures at.Push(x).WellFormed()
    ensures at.Push(x).Render() == at.Render() + at.Lead() + x
  {
    RenderShape(at);
    if at.base.Root? {
      RenderPushRoot(at, x);
    } else {
      var all := Dots(at.base.ups) + at.comps;
      assert all + [x] == Dots(at.base.ups) + (at.comps + [x]);
      UnleadSnoc(all, x);
      assert "" + "" + x == x;
    }
  }

  lemma Regroup(a: string, b: string, c: string)
    ensures a + (b + c) == a + b + c
  {
  }

  lemma RenderPushRoot(at: Resolved, x: string)
    requires at.WellFormed() && IsProper(x) && at.base.Root?
    ensures at.Push(x).Render() == at.Render() + at.Lead() + x
  {
    RenderShape(at);
    var pre := if at.base.slashes == 2 then "/" else "";
    var f := Flat(at.comps);
    FlatSnoc(at.comps, x);
    assert at.Push(x).Render() == pre + (f + "/" + x);
    if at.comps == [] {
      assert at.Lead() == "";
      assert at.Render() + at.Lead() == pre + "/";
      assert f + "/" == "/";
      Regroup(pre, "/", x);
    } else {
      assert at.Lead() == "/";
      assert at.Render() == pre + f;
      Regroup(pre, f + "/", x);
      Regroup(pre, f, "/");
    }
  }

  /** One more counted `..` appends `..`, with a slash where one is needed. */
  lemma RenderUp(u: nat)
    ensures var at := Resolved(Relative(u), []);
            Resolved(Relative(u + 1), []).Render() == at.Render() + at.Lead() + ".."
  {
    var at := Resolved(Relative(u), []);
    RenderShape(at);
    assert Dots(u + 1) == Dots(u) + [".."];
    FlatSnoc(Dots(u), "..");
    assert Dots(u) + [] == Dots(u) && Dots(u + 1) + [] == Dots(u + 1);
    if u == 0 {
      assert Flat(Dots(1)) == "/" + "..";
    }
  }

  /** Cancelling a component leaves the bytes before it, less the separating slash. */
  lemma RenderPop(at: Resolved)
    requires at.WellFormed() && at.comps != []
    ensures at.Pop().WellFormed()
    ensures at.Render() == at.Pop().Render() + at.Pop().Lead() + at.comps[|at.comps| - 1]
    ensures '/' !in at.comps[|at.comps| - 1]
  {
    var x := at.comps[|at.comps| - 1];
    assert x in at.comps;
    forall c | c in at.Pop().comps ensures IsProper(c) {
      assert c in at.comps;
    }
    RenderPush(at.Pop(), x);
    assert at.Pop().Push(x) == at;
  }

  // --------------------------------------------------------------- Names

  lemma {:induction false} NamesSkip(t: string)
    ensures Names(SkipSlashes(t)) == Names(t)
    decreases |t|
  {
    if t != "" && t[0] == '/' {
      NamesSkip(t[1..]);
      assert SkipSlashes(t) == SkipSlashes(t[1..]);
    } else {
      assert SkipSlashes(t) == t;
    }
  }

  lemma {:induction false} NameLenAppend(a: string, b: string)
    requires NameLen(a) < |a| || b == "" || b[0] == '/'
    ensures NameLen(a + b) == NameLen(a)
  {
    if a == "" || a[0] == '/' {
    } else {
      NameLenAppend(a[1..], b);
      assert (a + b)[1..] == a[1..] + b;
    }
  }

  /** A pathname splits at any slash: prefixing link contents to the pending text
      prefixes its names to the pending names. */
  lemma {:induction false} NamesAppend(a: string, b: string)
    requires a == "" || EndsInSlash(a) || b == "" || b[0] == '/'
    ensures Names(a + b) == Names(a) + Names(b)
    decreases |a|
  {
    if a == "" {
      assert a + b == b;
    } else if a[0] == '/' {
      assert (a + b)[1..] == a[1..] + b;
      NamesAppend(a[1..], b);
    } else {
      var k := NameLen(a);
      NameLenAppend(a, b);
      assert (a + b)[..k] == a[..k];
      assert (a + b)[k..] == a[k..] + b;
      NamesAppend(a[k..], b);
    }
  }

  lemma NameLenName(x: string)
    requires IsName(x)
    ensures NameLen(x) == |x| && Names(x) == [x]
  {
    assert forall i :: 0 <= i < |x| ==> x[i] in x;
    assert x[..|x|] == x && x[|x|..] == "";
  }

  lemma NamesSlash(t: string)
    ensures Names("/" + t) == Names(t)
  {
    assert ("/" + t)[1..] == t;
  }

  lemma NamesCons(x: string, rest: string)
    requires IsName(x)
    requires rest == "" || rest[0] == '/'
    ensures Names("/" + x + rest) == [x] + Names(rest)
  {
    assert "/" + x + rest == "/" + (x + rest);
    NamesSlash(x + rest);
    NamesAppend(x, rest);
    NameLenName(x);
  }

  lemma {:induction false} NamesFlat(cs: seq<string>)
    requires forall c :: c in cs ==> IsName(c)
    ensures Names(Flat(cs)) == cs
  {
    if cs != [] {
      assert cs[0] in cs;
      assert forall c :: c in cs[1..] ==> c in cs;
      NamesFlat(cs[1..]);
      NamesCons(cs[0], Flat(cs[1..]));
      assert [cs[0]] + cs[1..] == cs;
    }
  }

  /** Reading the output back as a pathname gives the counted `..` and then the components. */
  lemma NamesRender(at: Resolved)
    requires at.WellFormed()
    ensures Names(at.Render()) == Dots(at.Ups()) + at.comps
  {
    var all := Dots(at.Ups()) + at.comps;
    assert forall c :: c in Dots(at.Ups()) ==> IsName(c);
    NamesFlat(all);
    FlatClean(all);
    if at.base.Root? {
      assert all == at.comps;
      if at.comps == [] {
        assert Names("/") == [] && Names("//") == [];
      } else if at.base.slashes == 2 {
        assert at.Render()[1..] == Flat(at.comps);
      } else {
        assert at.Render() == Flat(at.comps);
      }
    } else if all != [] {
      assert Flat(all)[1..] == at.Render();
    }
  }

  lemma NamesSeparated(r: string, x: string)
    ensures Names(r + Separator(r) + x) == Names(r) + Names(x)
  {
    if Separator(r) == "" {
      assert r + Separator(r) + x == r + x;
      NamesAppend(r, x);
    } else {
      assert r + Separator(r) + x == r + ("/" + x);
      NamesAppend(r, "/" + x);
      NamesSlash(x);
    }
  }

  /** Reading the bytes of one more component back, as `readlink` does with the query. */
  lemma NamesQuery(at: Resolved, x: string)
    requires at.WellFormed() && (x == "" || IsName(x))
    ensures Names(at.Render() + at.Lead() + x) == Dots(at.Ups()) + at.comps + (if x == "" then [] else [x])
  {
    NamesRender(at);
    NamesSeparated(at.Render(), x);
    if x != "" { NameLenName(x); }
  }
}
