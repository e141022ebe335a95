/** Lexical POSIX path operations, as Python's `os.path` performs them:
    `isabs`, `join`, `normpath`, `abspath` and `dirname`.

    Besides the string-level definitions, this module gives normalised
    absolute paths a component view: such a path is `Render(cs)`, a `/`
    followed by the valid components `cs` joined with `/`; the root `/` is
    `Render([])`. The lemmas relate the string operations to that view. */
module PosixPath {
  import opened StrOps

  /** `os.path.isabs(p)`. */
  predicate IsAbs(p: string)
  {
    |p| > 0 && p[0] == Sep
  }

  /** `os.path.join(a, b)` for two arguments: an absolute `b` replaces `a`;
      otherwise `b` is appended, with a separator unless `a` is empty or
      already ends with one. */
  function Join(a: string, b: string): (r: string)
    ensures IsAbs(b) ==> r == b
    ensures !IsAbs(b) ==> a <= r && |b| <= |r| <= |a| + 1 + |b| && r[|r| - |b|..] == b
    ensures IsAbs(a) || IsAbs(b) ==> IsAbs(r)
  {
    if IsAbs(b) then b
    else if a == "" || a[|a| - 1] == Sep then a + b
    else a + "/" + b
  }

  /** A component of a normalised path: not empty, not `.` or `..`, and
      without a separator. */
  predicate ValidComp(c: string)
  {
    c != "" && c != "." && c != ".." && Sep !in c
  }

  /** Every component is valid. */
  predicate Normal(cs: seq<string>)
  {
    forall i :: 0 <= i < |cs| ==> ValidComp(cs[i])
  }

  /** The absolute path with components `cs`; the root for `[]`. */
  function Render(cs: seq<string>): string
  {
    "/" + JoinParts(cs)
  }

  /** The components of a normalised absolute path (inverse of `Render`). */
  function Comps(p: string): seq<string>
  {
    if |p| <= 1 then [] else Split(p[1..])
  }

  /** `p` is an absolute path in the form `normpath` produces: the root, or a
      `/` followed by valid components separated by single `/`s, so with no
      `.`, `..` or empty component and no trailing separator. */
  predicate IsNormalized(p: string)
  {
    p == "/" || (|p| > 1 && p[0] == Sep && Normal(Split(p[1..])))
  }

  /** The parent's components; the root is its own parent. */
  function DropLast(cs: seq<string>): seq<string>
  {
    if cs == [] then [] else cs[..|cs| - 1]
  }

  /** One iteration of `normpath`'s loop over the pieces of the path: skip
      empty pieces and `.`; let `..` cancel the previous component, except
      that it is kept at the start of a relative path or after another `..`,
      and dropped at the root of an absolute path. */
  function NormStep(initial: bool, acc: seq<string>, c: string): seq<string>
  {
    if c == "" || c == "." then acc
    else if c != ".." || (!initial && acc == []) || (acc != [] && acc[|acc| - 1] == "..") then acc + [c]
    else DropLast(acc)
  }

  /** `normpath`'s loop over all pieces, starting from the components `acc`. */
  function NormComps(initial: bool, acc: seq<string>, pieces: seq<string>): seq<string>
    decreases |pieces|
  {
    if pieces == [] then acc
    else NormComps(initial, NormStep(initial, acc, pieces[0]), pieces[1..])
  }

  /** `os.path.normpath(p)` (the leading-`//` case is not modelled). An
      absolute path comes out normalised. */
  function NormPath(p: string): (r: string)
    ensures IsAbs(p) ==> IsNormalized(r)
  {
    if p == "" then "."
    else
      var initial := IsAbs(p);
      var cs := NormComps(initial, [], Split(p));
      var body := JoinParts(cs);
      var q := if initial then "/" + body else body;
      if initial then
        NormCompsNormal([], Split(p));
        RenderNormalized(cs);
        q
      else if q == "" then "." else q
  }

  /** `os.path.abspath(p)`, with `cwd` standing for `os.getcwd()`: a relative
      path is joined onto `cwd`, then normalised. */
  function AbsPath(cwd: string, p: string): (r: string)
    ensures IsAbs(cwd) ==> IsNormalized(r)
  {
    NormPath(if IsAbs(p) then p else Join(cwd, p))
  }

  /** `os.path.dirname(p)`: everything up to the last separator, with
      trailing separators removed unless nothing but separators is left.
      The result is a prefix of `p`. */
  function Dirname(p: string): (r: string)
    ensures r <= p
  {
    var head := p[..LastSep(p) + 1];
    if head != "" && !AllSep(head) then RStrip(head) else head
  }

  /** Folding `normpath`'s loop over two lists of pieces in turn. */
  lemma {:induction false} NormCompsAppend(initial: bool, acc: seq<string>, a: seq<string>, b: seq<string>)
    ensures NormComps(initial, acc, a + b) == NormComps(initial, NormComps(initial, acc, a), b)
    decreases |a|
  {
    if a == [] {
      assert a + b == b;
    } else {
      assert (a + b)[0] == a[0];
      assert (a + b)[1..] == a[1..] + b;
      NormCompsAppend(initial, NormStep(initial, acc, a[0]), a[1..], b);
    }
  }

  /** In an absolute path, the loop keeps only valid components. */
  lemma {:induction false} NormCompsNormal(acc: seq<string>, pieces: seq<string>)
    requires Normal(acc)
    requires forall i :: 0 <= i < |pieces| ==> Sep !in pieces[i]
    ensures Normal(NormComps(true, acc, pieces))
    decreases |pieces|
  {
    if pieces != [] {
      NormCompsNormal(NormStep(true, acc, pieces[0]), pieces[1..]);
    }
  }

  /** Valid components pass through the loop unchanged. */
  lemma {:induction false} NormCompsValid(initial: bool, acc: seq<string>, cs: seq<string>)
    requires Normal(cs)
    ensures NormComps(initial, acc, cs) == acc + cs
    decreases |cs|
  {
    if cs != [] {
      NormCompsValid(initial, acc + [cs[0]], cs[1..]);
      assert acc + [cs[0]] + cs[1..] == acc + cs;
    }
  }

  /** `Render` and `Comps` are inverse on valid component lists: the
      rendered path is normalised and parses back to `cs`. */
  lemma RenderNormalized(cs: seq<string>)
    requires Normal(cs)
    ensures IsNormalized(Render(cs))
    ensures Comps(Render(cs)) == cs
  {
    if cs != [] {
      var p := Render(cs);
      assert p[1..] == JoinParts(cs);
      assert |cs| == 1 || JoinParts(cs) == cs[0] + "/" + JoinParts(cs[1..]);
      SplitJoin(cs);
    }
  }

  /** ... and on normalised paths: `p` is the rendering of its components. */
  lemma CompsRender(p: string)
    requires IsNormalized(p)
    ensures Normal(Comps(p))
    ensures Render(Comps(p)) == p
  {
    if p != "/" {
      JoinSplit(p[1..]);
      assert p == [p[0]] + p[1..];
    }
  }

  /** Distinct valid component lists render to distinct paths. */
  lemma RenderInjective(a: seq<string>, b: seq<string>)
    requires Normal(a) && Normal(b)
    requires Render(a) == Render(b)
    ensures a == b
  {
    RenderNormalized(a);
    RenderNormalized(b);
  }

  /** Rendering one more component appends a separator and the component. */
  lemma RenderSnoc(cs: seq<string>, c: string)
    ensures cs == [] ==> Render(cs + [c]) == "/" + c
    ensures cs != [] ==> Render(cs + [c]) == Render(cs) + "/" + c
  {
    if cs != [] {
      JoinPartsSnoc(cs, c);
    } else {
      assert cs + [c] == [c];
    }
  }

  /** Only the root ends with a separator. */
  lemma RenderLast(cs: seq<string>)
    requires Normal(cs)
    ensures cs == [] <==> Render(cs)[|Render(cs)| - 1] == Sep
  {
    if cs != [] {
      var init := cs[..|cs| - 1];
      var c := cs[|cs| - 1];
      assert cs == init + [c];
      RenderSnoc(init, c);
      assert c[|c| - 1] != Sep;
    }
  }

  /** The pieces `str.split` finds in a rendered path: an empty piece for the
      leading `/`, then the components (or one more empty piece for the root). */
  lemma SplitRender(cs: seq<string>)
    requires Normal(cs)
    ensures Split(Render(cs)) == [""] + (if cs == [] then [""] else cs)
  {
    assert Render(cs) == "" + "/" + JoinParts(cs);
    SplitAppend("", JoinParts(cs));
    if cs != [] {
      SplitJoin(cs);
    }
  }

  /** `normpath` leaves a normalised path unchanged. */
  lemma NormPathIdempotent(p: string)
    requires IsNormalized(p)
    ensures NormPath(p) == p
  {
    CompsRender(p);
    var cs := Comps(p);
    SplitRender(cs);
    var pieces := Split(p);
    assert pieces[0] == "" && pieces[1..] == (if cs == [] then [""] else cs);
    assert NormComps(true, [], pieces) == NormComps(true, [], pieces[1..]);
    if cs != [] {
      NormCompsValid(true, [], cs);
      assert [] + cs == cs;
    } else {
      assert NormComps(true, [], [""]) == [];
    }
    NormPathAbs(p);
  }

  /** Joining a valid component onto a rendered path renders the extended list. */
  lemma JoinRender(cs: seq<string>, c: string)
    requires Normal(cs)
    requires ValidComp(c)
    ensures Join(Render(cs), c) == Render(cs + [c])
  {
    RenderLast(cs);
    RenderSnoc(cs, c);
  }

  /** On an absolute path, `normpath` renders what its loop leaves. */
  lemma NormPathAbs(p: string)
    requires IsAbs(p)
    ensures NormPath(p) == Render(NormComps(true, [], Split(p)))
  {
  }

  /** The loop over the pieces of `Join(Render(cs), f)`, for a relative
      `f`, is the loop over the pieces of `f` continued from `cs`. */
  lemma NormCompsJoin(cs: seq<string>, f: string)
    requires Normal(cs)
    requires !IsAbs(f)
    ensures NormComps(true, [], Split(Join(Render(cs), f))) == NormComps(true, cs, Split(f))
  {
    RenderLast(cs);
    var j := Join(Render(cs), f);
    var front := if cs == [] then "" else Render(cs);
    assert j == front + "/" + f;
    SplitAppend(front, f);
    var pieces := Split(j);
    if cs == [] {
      assert pieces == [""] + Split(f);
      assert ([""] + Split(f))[1..] == Split(f);
    } else {
      SplitRender(cs);
      assert pieces == ([""] + cs) + Split(f);
      NormCompsAppend(true, [], [""] + cs, Split(f));
      assert NormComps(true, [], [""] + cs) == NormComps(true, [], cs) by {
        assert ([""] + cs)[1..] == cs;
      }
      NormCompsValid(true, [], cs);
      assert [] + cs == cs;
    }
  }

  /** Normalising a relative name `f` joined onto a normalised path applies
      `normpath`'s step to each piece of `f` in turn, starting from the
      path's components; when every piece is a valid component, they are
      simply appended. */
  lemma NormPathJoinAll(cs: seq<string>, f: string)
    requires Normal(cs)
    requires !IsAbs(f)
    ensures NormPath(Join(Render(cs), f)) == Render(NormComps(true, cs, Split(f)))
    ensures Normal(Split(f)) ==> NormPath(Join(Render(cs), f)) == Render(cs + Split(f))
  {
    NormCompsJoin(cs, f);
    NormPathAbs(Join(Render(cs), f));
    if Normal(Split(f)) {
      NormCompsValid(true, cs, Split(f));
    }
  }

  /** Joining one separator-free piece `c` onto a normalised path and
      normalising: `""` and `.` leave the path alone, `..` goes to the parent
      (and stays at the root), any other piece is appended. */
  lemma NormPathJoin(cs: seq<string>, c: string)
    requires Normal(cs)
    requires Sep !in c
    ensures c == "" || c == "." ==> NormPath(Join(Render(cs), c)) == Render(cs)
    ensures c == ".." ==> NormPath(Join(Render(cs), c)) == Render(DropLast(cs))
    ensures ValidComp(c) ==> NormPath(Join(Render(cs), c)) == Render(cs + [c])
  {
    RenderLast(cs);
    SplitNoSep(c);
    NormCompsJoin(cs, c);
    assert NormComps(true, cs, [c]) == NormStep(true, cs, c);
    NormPathAbs(Join(Render(cs), c));
    assert cs != [] ==> ValidComp(cs[|cs| - 1]);
  }

  /** `dirname` of a rendered path renders the parent's components; the root
      is its own `dirname`. */
  lemma DirnameRender(cs: seq<string>)
    requires Normal(cs)
    ensures Dirname(Render(cs)) == Render(DropLast(cs))
  {
    var p := Render(cs);
    if cs == [] {
      assert LastSep(p) == 0;
      assert p[..1] == "/";
    } else {
      var init := cs[..|cs| - 1];
      var c := cs[|cs| - 1];
      assert cs == init + [c];
      RenderSnoc(init, c);
      var front := if init == [] then "" else Render(init);
      assert p == front + "/" + c;
      LastSepAppend(front, c);
      var head := p[..|front| + 1];
      assert head == front + "/";
      if init == [] {
        assert AllSep(head);
      } else {
        assert Normal(init);
        RenderLast(init);
        assert head[1] == init[0][0];
        assert !AllSep(head);
        assert RStrip(head) == RStrip(front);
      }
    }
  }

  /** `dirname` of a normalised path is its parent, again normalised; it
      returns its argument unchanged exactly at the root. */
  lemma DirnameNormalized(p: string)
    requires IsNormalized(p)
    ensures IsNormalized(Dirname(p))
    ensures Comps(Dirname(p)) == DropLast(Comps(p))
    ensures Dirname(p) == p <==> p == "/"
  {
    CompsRender(p);
    var cs := Comps(p);
    DirnameRender(cs);
    RenderNormalized(DropLast(cs));
    if Dirname(p) == p {
      RenderInjective(DropLast(cs), cs);
    }
  }
}
