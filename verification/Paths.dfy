/**
 * The floppy browser's path handling (sidetnfs_floppy_browse.c, 65-180).
 *
 * A path means the list of its components; normalizing evaluates that list on a stack, and a
 * rendered stack can be read back.  Everything the browser needs follows from those two facts.
 */
module Paths {
  import opened Words

  const CWD_LEN := 256
  const MAX_COMPONENTS := 128

  const CURRENT: seq<byte> := [DOT]
  const PARENT: seq<byte> := [DOT, DOT]

  // -- Meaning of a path -----------------------------------------------------------------------

  /** Length of the leading stretch without separators. */
  function TokenLen(s: seq<byte>): (n: nat)
    ensures n <= |s| && SLASH !in s[..n] && (n < |s| ==> s[n] == SLASH)
    ensures s != [] && s[0] != SLASH ==> n > 0
  {
    if s == [] || s[0] == SLASH then 0
    else
      var n := 1 + TokenLen(s[1..]);
      assert s[..n] == [s[0]] + s[1..][..n - 1];
      n
  }

  /** The non-empty stretches between separators. */
  function Components(s: seq<byte>): seq<seq<byte>>
    decreases |s|
  {
    if s == [] then []
    else if s[0] == SLASH then Components(s[1..])
    else
      var n := TokenLen(s);
      [s[..n]] + Components(s[n..])
  }

  /** Backslashes separate too. */
  function ForwardSlashes(s: seq<byte>): (t: seq<byte>)
    ensures |t| == |s| && BACKSLASH !in t && (CString(s) ==> CString(t))
    ensures forall i :: 0 <= i < |s| ==> t[i] == if s[i] == BACKSLASH then SLASH else s[i]
  {
    if s == [] then [] else [if s[0] == BACKSLASH then SLASH else s[0]] + ForwardSlashes(s[1..])
  }

  /** One component, applied to the stack; going up from the root stays there. */
  function Apply(stack: seq<seq<byte>>, c: seq<byte>): seq<seq<byte>> {
    if c == CURRENT then stack
    else if c == PARENT then (if stack == [] then [] else stack[..|stack| - 1])
    else stack + [c]
  }

  function Eval(stack: seq<seq<byte>>, components: seq<seq<byte>>): seq<seq<byte>>
    decreases |components|
  {
    if components == [] then stack else Eval(Apply(stack, components[0]), components[1..])
  }

  function Join(stack: seq<seq<byte>>): seq<byte> {
    if stack == [] then []
    else if |stack| == 1 then stack[0]
    else Join(stack[..|stack| - 1]) + [SLASH] + stack[|stack| - 1]
  }

  function Render(stack: seq<seq<byte>>): seq<byte> {
    [SLASH] + Join(stack)
  }

  /** Where a path leads. */
  function Target(path: seq<byte>): seq<seq<byte>> {
    Eval([], Components(ForwardSlashes(path)))
  }

  /** A component that names something. */
  predicate Name(c: seq<byte>) {
    c != [] && SLASH !in c && BACKSLASH !in c && CString(c) && c != CURRENT && c != PARENT
  }

  predicate Names(cs: seq<seq<byte>>) {
    forall i :: 0 <= i < |cs| ==> Name(cs[i])
  }

  /** Absolute, and without empty, "." or ".." components. */
  predicate Canonical(path: seq<byte>) {
    Names(Components(path)) && path == Render(Components(path))
  }

  // -- Reading a rendered path back ------------------------------------------------------------

  lemma {:induction false} TokenLenAppend(a: seq<byte>, b: seq<byte>)
    ensures TokenLen(a + [SLASH] + b) == TokenLen(a)
  {
    if a == [] {
      assert (a + [SLASH] + b)[0] == SLASH;
    } else if a[0] != SLASH {
      TokenLenAppend(a[1..], b);
      assert (a + [SLASH] + b)[1..] == a[1..] + [SLASH] + b;
    }
  }

  lemma FirstComponent(s: seq<byte>)
    requires s != [] && s[0] != SLASH
    ensures 0 < TokenLen(s) <= |s| && Components(s) == [s[..TokenLen(s)]] + Components(s[TokenLen(s)..])
  {
  }

  lemma FirstComponentAppend(a: seq<byte>, b: seq<byte>)
    requires a != [] && a[0] != SLASH
    ensures var n := TokenLen(a);
            && 0 < n <= |a| && Components(a) == [a[..n]] + Components(a[n..])
            && Components(a + [SLASH] + b) == [a[..n]] + Components(a[n..] + [SLASH] + b)
  {
    var s, n := a + [SLASH] + b, TokenLen(a);
    TokenLenAppend(a, b);
    FirstComponent(a);
    FirstComponent(s);
    hide TokenLen, Components;
    assert s[..n] == a[..n] && s[n..] == a[n..] + [SLASH] + b;
  }

  lemma {:induction false} ComponentsAppend(a: seq<byte>, b: seq<byte>)
    ensures Components(a + [SLASH] + b) == Components(a) + Components(b)
    decreases |a|
  {
    var s := a + [SLASH] + b;
    if a == [] {
      assert s[0] == SLASH && s[1..] == b;
    } else if a[0] == SLASH {
      assert s[1..] == a[1..] + [SLASH] + b;
      ComponentsAppend(a[1..], b);
    } else {
      FirstComponentAppend(a, b);
      ComponentsAppend(a[TokenLen(a)..], b);
      hide TokenLen, Components;
    }
  }

  lemma {:induction false} WholeToken(s: seq<byte>)
    requires SLASH !in s
    ensures TokenLen(s) == |s|
  {
    if s != [] { WholeToken(s[1..]); }
  }

  lemma OneComponent(c: seq<byte>)
    requires c != [] && SLASH !in c
    ensures Components(c) == [c]
  {
    WholeToken(c);
    assert c[..|c|] == c && c[|c|..] == [];
  }

  lemma {:induction false} ComponentsOfJoin(stack: seq<seq<byte>>)
    requires Names(stack)
    ensures Components(Join(stack)) == stack
  {
    if |stack| == 1 {
      OneComponent(stack[0]);
    } else if |stack| > 1 {
      var init, last := stack[..|stack| - 1], stack[|stack| - 1];
      ComponentsOfJoin(init);
      OneComponent(last);
      ComponentsAppend(Join(init), last);
      assert stack == init + [last];
    }
  }

  lemma ComponentsOfRender(stack: seq<seq<byte>>)
    requires Names(stack)
    ensures Components(Render(stack)) == stack
  {
    ComponentsOfJoin(stack);
    assert Render(stack)[1..] == Join(stack);
  }

  // -- Evaluation keeps names only -------------------------------------------------------------

  predicate Tokens(cs: seq<seq<byte>>) {
    forall i :: 0 <= i < |cs| ==> cs[i] != [] && SLASH !in cs[i] && BACKSLASH !in cs[i] && CString(cs[i])
  }

  lemma {:induction false} ComponentsAreTokens(s: seq<byte>)
    requires CString(s) && BACKSLASH !in s
    ensures Tokens(Components(s))
    ensures |Components(s)| <= (|s| + 1) / 2
    decreases |s|
  {
    if s != [] {
      if s[0] == SLASH {
        ComponentsAreTokens(s[1..]);
      } else {
        var n := TokenLen(s);
        ComponentsAreTokens(s[n..]);
        if n < |s| {
          assert s[n..][0] == SLASH;
          assert s[n..][1..] == s[n + 1..];
          ComponentsAreTokens(s[n + 1..]);
        }
      }
    }
  }

  lemma {:induction false} EvalKeepsNames(stack: seq<seq<byte>>, cs: seq<seq<byte>>)
    requires Names(stack) && Tokens(cs)
    ensures Names(Eval(stack, cs))
    decreases |cs|
  {
    if cs != [] {
      EvalKeepsNames(Apply(stack, cs[0]), cs[1..]);
    }
  }

  lemma {:induction false} EvalOfNames(stack: seq<seq<byte>>, cs: seq<seq<byte>>)
    requires Names(cs)
    ensures Eval(stack, cs) == stack + cs
    decreases |cs|
  {
    if cs == [] {
      assert stack + cs == stack;
    } else {
      EvalOfNames(stack + [cs[0]], cs[1..]);
      assert stack + cs == stack + [cs[0]] + cs[1..];
    }
  }

  lemma {:induction false} EvalAppend(stack: seq<seq<byte>>, a: seq<seq<byte>>, b: seq<seq<byte>>)
    ensures Eval(stack, a + b) == Eval(Eval(stack, a), b)
    decreases |a|
  {
    if a == [] {
      assert a + b == b;
    } else {
      assert (a + b)[1..] == a[1..] + b;
      EvalAppend(Apply(stack, a[0]), a[1..], b);
    }
  }

  lemma TargetHasNames(path: seq<byte>)
    requires CString(path)
    ensures Names(Target(path))
  {
    ComponentsAreTokens(ForwardSlashes(path));
    EvalKeepsNames([], Components(ForwardSlashes(path)));
  }

  /** Whatever the input, a normalized path is canonical and still leads to the same place. */
  lemma RenderedTargetIsCanonical(path: seq<byte>)
    requires CString(path)
    ensures Canonical(Render(Target(path)))
    ensures Components(Render(Target(path))) == Target(path)
  {
    TargetHasNames(path);
    ComponentsOfRender(Target(path));
  }

  lemma {:induction false} JoinIsClean(stack: seq<seq<byte>>)
    requires Names(stack)
    ensures BACKSLASH !in Join(stack) && CString(Join(stack))
  {
    if |stack| > 1 { JoinIsClean(stack[..|stack| - 1]); }
  }

  lemma CanonicalIsClean(path: seq<byte>)
    requires Canonical(path)
    ensures CString(path) && BACKSLASH !in path && path != [] && path[0] == SLASH && ForwardSlashes(path) == path
  {
    JoinIsClean(Components(path));
  }

  /** Normalizing a canonical path changes nothing. */
  lemma NormalizeIsIdempotent(path: seq<byte>)
    requires Canonical(path)
    ensures Render(Target(path)) == path
  {
    CanonicalIsClean(path);
    EvalOfNames([], Components(path));
    assert [] + Components(path) == Components(path);
  }

  /** Entering `name` appends one component; going up drops the last one. */
  lemma EnterTarget(cwd: seq<byte>, name: seq<byte>)
    requires Canonical(cwd) && Name(name)
    ensures Target(cwd + [SLASH] + name) == Components(cwd) + [name]
  {
    CanonicalIsClean(cwd);
    ForwardSlashesIsIdentity(cwd + [SLASH] + name);
    ComponentsAppend(cwd, name);
    OneComponent(name);
    EvalOfNames([], Components(cwd) + [name]);
    assert [] + (Components(cwd) + [name]) == Components(cwd) + [name];
  }

  /**
   * Any path text, extended by one component: `/` (47) and `\` (92) both separate, `.` (46) stays, `..`
   * goes up unless already at the root, and anything else goes down.
   */
  lemma ComponentByNumber(path: seq<byte>, separator: byte, c: seq<byte>)
    requires separator in {47, 92} && c != [] && 47 !in c && 92 !in c
    ensures var at := Target(path);
            Target(path + [separator] + c) ==
              if c == [46] then at else if c != [46, 46] then at + [c] else if at == [] then [] else at[..|at| - 1]
    ensures Target([]) == []
  {
    var s := ForwardSlashes(path);
    assert ForwardSlashes(path + [separator] + c) == s + [47] + c;
    ComponentsAppend(s, c);
    OneComponent(c);
    EvalAppend([], Components(s), [c]);
    assert Eval(Target(path), [c]) == Apply(Target(path), c);
    hide Components;
  }

  lemma UpTarget(cwd: seq<byte>)
    requires Canonical(cwd)
    ensures var stack := Components(cwd);
            Target(cwd + [SLASH] + PARENT) == if stack == [] then [] else stack[..|stack| - 1]
  {
    var stack := Components(cwd);
    CanonicalIsClean(cwd);
    ForwardSlashesIsIdentity(cwd + [SLASH] + PARENT);
    ComponentsAppend(cwd, PARENT);
    OneComponent(PARENT);
    EvalAppend([], stack, [PARENT]);
    EvalOfNames([], stack);
    assert [] + stack == stack;
    assert Eval(stack, [PARENT]) == Apply(stack, PARENT);
  }

  lemma ForwardSlashesIsIdentity(s: seq<byte>)
    requires BACKSLASH !in s
    ensures ForwardSlashes(s) == s
  {
  }

  /** Entering a directory and going up again leads back, whenever both paths fit. */
  lemma EnterThenUp(cwd: seq<byte>, name: seq<byte>)
    requires Canonical(cwd) && Name(name)
    ensures var inside := Render(Target(cwd + [SLASH] + name));
            Render(Target(inside + [SLASH] + PARENT)) == cwd
  {
    var stack := Components(cwd) + [name];
    EnterTarget(cwd, name);
    ComponentsOfRender(stack);
    UpTarget(Render(stack));
    assert stack[..|stack| - 1] == Components(cwd);
  }

  // -- The loops -------------------------------------------------------------------------------

  lemma {:induction false} JoinGrows(stack: seq<seq<byte>>, k: nat)
    requires k <= |stack|
    ensures |Join(stack[..k])| <= |Join(stack)|
  {
    if k < |stack| && |stack| > 1 {
      var init := stack[..|stack| - 1];
      JoinGrows(init, k);
      assert init[..k] == stack[..k];
    } else if k == |stack| {
      assert stack[..k] == stack;
    }
  }

  /**
   * `floppy_normalize_path`.  Succeeds exactly when the input and the result fit their buffers;
   * the 128-slot component table is never the limit.
   */
  method NormalizePath(path: seq<byte>, outSize: nat) returns (out: Option<seq<byte>>)
    requires CString(path)
    ensures var r := Render(Target(path));
            out == if 2 <= outSize && |path| < 256 && |r| < 256 && |r| < outSize then Some(r) else None
  {
    if outSize < 2 { return None; }
    if |path| >= CWD_LEN { return None; }
    var work := path;
    for i := 0 to |work|
      invariant |work| == |path|
      invariant forall k :: 0 <= k < i ==> work[k] == ForwardSlashes(path)[k]
      invariant forall k :: i <= k < |work| ==> work[k] == path[k]
    {
      if work[i] == BACKSLASH { work := work[i := SLASH]; }
    }
    assert work == ForwardSlashes(path);
    assert Target(path) == Eval([], Components(work));
    hide *;
    var components := CollectComponents(work);
    out := Assemble(components, outSize);
  }

  lemma RenderStep(components: seq<seq<byte>>, i: nat)
    requires i < |components|
    ensures Render(components[..i + 1]) == Render(components[..i]) + (if i > 0 then [SLASH] else []) + components[i]
    ensures |Render(components[..i + 1])| <= |Render(components)|
  {
    assert components[..i + 1][..i] == components[..i];
    JoinGrows(components, i + 1);
  }

  /** Writes the components out again. */
  method Assemble(components: seq<seq<byte>>, outSize: nat) returns (out: Option<seq<byte>>)
    ensures var r := Render(components);
            out == if |r| < CWD_LEN && |r| < outSize then Some(r) else None
  {
    var result := [SLASH];
    for i := 0 to |components|
      invariant result == Render(components[..i]) && |result| < CWD_LEN
    {
      RenderStep(components, i);
      var needed := |components[i]| + (if i > 0 then 1 else 0);
      if |result| + needed >= CWD_LEN { return None; }
      if i > 0 { result := result + [SLASH]; }
      result := result + components[i];
    }
    assert components[..|components|] == components;
    if |result| + 1 > outSize { return None; }
    return Some(result);
  }

  lemma SkipSeparator(work: seq<byte>, at: nat)
    requires at < |work| && work[at] == SLASH
    ensures Components(work[at..]) == Components(work[at + 1..])
  {
    assert work[at..][1..] == work[at + 1..];
  }

  /** The token in front, and where it ends. */
  method ReadToken(work: seq<byte>, at: nat, ghost stack: seq<seq<byte>>) returns (tok: seq<byte>, end: nat)
    requires at < |work| && work[at] != SLASH
    ensures at < end <= |work|
    ensures |Components(work[at..])| == 1 + |Components(work[end..])|
    ensures Eval(stack, Components(work[at..])) == Eval(Apply(stack, tok), Components(work[end..]))
  {
    var n := TokenLen(work[at..]);
    tok, end := work[at..at + n], at + n;
    assert work[at..][n..] == work[end..] && work[at..][..n] == tok;
    assert Components(work[at..])[1..] == Components(work[end..]);
  }

  lemma NoMoreTokens(stack: seq<seq<byte>>)
    ensures Eval(stack, Components([])) == stack
  {
  }

  method SkipSeparators(work: seq<byte>, from: nat) returns (at: nat)
    requires from <= |work|
    ensures from <= at <= |work| && (at < |work| ==> work[at] != SLASH)
    ensures Components(work[at..]) == Components(work[from..])
  {
    at := from;
    while at < |work| && work[at] == SLASH
      invariant from <= at <= |work|
      invariant Components(work[at..]) == Components(work[from..])
    {
      SkipSeparator(work, at);
      at := at + 1;
    }
  }

  /** One component; a full table would drop the token, which is why the caller counts them. */
  method Step(components: seq<seq<byte>>, tok: seq<byte>) returns (r: seq<seq<byte>>)
    requires |components| < MAX_COMPONENTS
    ensures r == Apply(components, tok) && |r| <= |components| + 1
  {
    r := components;
    if tok == CURRENT {
    } else if tok == PARENT {
      if |components| > 0 { r := components[..|components| - 1]; }
    } else if |components| < MAX_COMPONENTS {
      r := components + [tok];
    }
  }

  /** One turn of the `strtok_r` loop. */
  method TokenTurn(work: seq<byte>, at: nat, components: seq<seq<byte>>) returns (r: seq<seq<byte>>, next: nat)
    requires at < |work| && work[at] != SLASH && |components| < MAX_COMPONENTS
    ensures at < next <= |work| && (next < |work| ==> work[next] != SLASH)
    ensures |r| <= |components| + 1
    ensures |Components(work[at..])| == 1 + |Components(work[next..])|
    ensures Eval(r, Components(work[next..])) == Eval(components, Components(work[at..]))
  {
    var tok;
    tok, next := ReadToken(work, at, components);
    r := Step(components, tok);
    next := SkipSeparators(work, next);
  }

  /** The `strtok_r` loop, which evaluates the components as it meets them. */
  method CollectComponents(work: seq<byte>) returns (components: seq<seq<byte>>)
    requires CString(work) && BACKSLASH !in work && |work| < CWD_LEN
    ensures components == Eval([], Components(work))
  {
    ComponentsAreTokens(work);
    assert |Components(work)| <= MAX_COMPONENTS;
    hide *;
    components := [];
    ghost var all := Components(work);
    ghost var goal, met := Eval([], all), 0;
    assert work[0..] == work;
    var at := SkipSeparators(work, 0);
    while at < |work|
      invariant at <= |work| && (at < |work| ==> work[at] != SLASH)
      invariant |components| <= met && met + |Components(work[at..])| == |all|
      invariant Eval(components, Components(work[at..])) == goal
    {
      components, at := TokenTurn(work, at, components);
      met := met + 1;
    }
    assert work[at..] == [];
    NoMoreTokens(components);
  }

  // -- Joining with a root ---------------------------------------------------------------------

  /** Runs of separators shrink to one. */
  function Collapse(s: seq<byte>): seq<byte> {
    if |s| < 2 then s
    else if s[0] == SLASH && s[1] == SLASH then Collapse(s[1..])
    else [s[0]] + Collapse(s[1..])
  }

  predicate DoubleAt(s: seq<byte>, i: nat) {
    i + 1 < |s| && s[i] == SLASH && s[i + 1] == SLASH
  }

  lemma {:induction false} CollapseHead(s: seq<byte>)
    requires s != []
    ensures Collapse(s) != [] && Collapse(s)[0] == s[0]
  {
    if DoubleAt(s, 0) { CollapseHead(s[1..]); }
  }

  lemma {:induction false} CollapseDropsOne(s: seq<byte>, i: nat)
    requires DoubleAt(s, i)
    ensures Collapse(s[..i] + s[i + 1..]) == Collapse(s)
  {
    var t := s[..i] + s[i + 1..];
    if i == 0 {
      assert t == s[1..];
    } else {
      CollapseDropsOne(s[1..], i - 1);
      assert s[1..][..i - 1] + s[1..][i..] == t[1..];
      assert t[0] == s[0] && t[1] == s[1];
    }
  }

  lemma {:induction false} NothingToCollapse(s: seq<byte>)
    requires forall i :: 0 <= i < |s| ==> !DoubleAt(s, i)
    ensures Collapse(s) == s
  {
    if |s| >= 2 {
      assert !DoubleAt(s, 0);
      forall i | 0 <= i < |s[1..]| ensures !DoubleAt(s[1..], i) {
        assert !DoubleAt(s, i + 1);
      }
      NothingToCollapse(s[1..]);
    }
  }

  /** A token in front stays as it is. */
  lemma {:induction false} CollapseKeepsToken(s: seq<byte>, n: nat)
    requires n <= |s| && SLASH !in s[..n]
    ensures Collapse(s) == s[..n] + Collapse(s[n..])
  {
    if n > 0 {
      assert s[0] == s[..n][0] && s[1..][..n - 1] == s[..n][1..];
      CollapseKeepsToken(s[1..], n - 1);
      assert s[1..][n - 1..] == s[n..];
      assert Collapse(s) == [s[0]] + Collapse(s[1..]);
    }
  }

  lemma {:induction false} TokenThenSeparator(s: seq<byte>, n: nat)
    requires n <= |s| && SLASH !in s[..n] && (n < |s| ==> s[n] == SLASH)
    ensures TokenLen(s) == n
  {
    if n > 0 {
      assert s[0] == s[..n][0] && s[1..][..n - 1] == s[..n][1..];
      TokenThenSeparator(s[1..], n - 1);
    }
  }

  /** The joined path leads through the same components. */
  lemma {:induction false} CollapseKeepsComponents(s: seq<byte>)
    ensures Components(Collapse(s)) == Components(s)
    decreases |s|
  {
    if |s| >= 2 {
      if s[0] == SLASH {
        CollapseKeepsComponents(s[1..]);
        assert !DoubleAt(s, 0) ==> Collapse(s)[1..] == Collapse(s[1..]);
      } else {
        var n := TokenLen(s);
        var c := Collapse(s);
        CollapseKeepsToken(s, n);
        CollapseKeepsComponents(s[n..]);
        assert c[..n] == s[..n] && c[n..] == Collapse(s[n..]);
        if n < |s| { CollapseHead(s[n..]); }
        TokenThenSeparator(c, n);
      }
    }
  }

  /** `strstr(s, "//")`. */
  method FindDouble(s: seq<byte>) returns (at: Option<nat>)
    ensures at.Some? ==> DoubleAt(s, at.value)
    ensures at.None? ==> forall i :: 0 <= i < |s| ==> !DoubleAt(s, i)
  {
    for i := 0 to |s|
      invariant forall k :: 0 <= k < i ==> !DoubleAt(s, k)
    {
      if i + 1 < |s| && s[i] == SLASH && s[i + 1] == SLASH { return Some(i); }
    }
    return None;
  }

  /** `join_root_and_cwd`: fails only when the unjoined text does not fit; leaves no "//". */
  method JoinRootAndCwd(root: seq<byte>, cwd: seq<byte>, outSize: nat) returns (out: Option<seq<byte>>)
    ensures out.Some? <==> |root + cwd| < outSize
    ensures out.Some? ==> out.value == Collapse(root + cwd)
    ensures out.Some? ==> forall i :: 0 <= i < |out.value| ==> !DoubleAt(out.value, i)
  {
    if |root + cwd| >= outSize { return None; }
    var text := root + cwd;
    var p := FindDouble(text);
    while p.Some?
      invariant Collapse(text) == Collapse(root + cwd)
      invariant p.Some? ==> DoubleAt(text, p.value)
      invariant p.None? ==> forall i :: 0 <= i < |text| ==> !DoubleAt(text, i)
      decreases |text|
    {
      CollapseDropsOne(text, p.value);
      text := text[..p.value] + text[p.value + 1..];
      p := FindDouble(text);
    }
    NothingToCollapse(text);
    return Some(text);
  }

  /** A joined path's components are the root's followed by the working directory's. */
  lemma JoinedComponents(root: seq<byte>, cwd: seq<byte>)
    requires Canonical(cwd)
    ensures Components(Collapse(root + cwd)) == Components(root) + Components(cwd)
  {
    CollapseKeepsComponents(root + cwd);
    CanonicalIsClean(cwd);
    assert root + cwd == root + [SLASH] + cwd[1..];
    ComponentsAppend(root, cwd[1..]);
  }
}
