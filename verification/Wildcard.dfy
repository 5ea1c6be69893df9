/**
 * The wildcard matcher behind Fsfirst and Fsnext (sidetnfs_probe.c, 2261-2322).
 *
 * `Glob` says what a pattern means, by nondeterministic choice at every `*`.  The firmware's
 * loop keeps one backtrack point only, the most recent `*`; `WildcardMatchUpper` is that loop,
 * proved to decide `Glob`.
 */
module Wildcard {
  import opened Words

  /** Does the pattern character stand for the name character? */
  predicate SameLetter(p: byte, c: byte) {
    p == 63 || p == c || (65 <= c <= 90 && p == c + 32) || (97 <= c <= 122 && p == c - 32)
  }

  /** `*` stands for any run of characters, `?` for one character, case is ignored. */
  predicate Glob(pat: seq<byte>, str: seq<byte>)
    decreases |pat| + |str|
  {
    if pat == [] then str == []
    else if pat[0] == STAR then Glob(pat[1..], str) || (str != [] && Glob(pat, str[1..]))
    else str != [] && SameLetter(pat[0], str[0]) && Glob(pat[1..], str[1..])
  }

  // A name that holds a literal '*' is the one thing the loop can get wrong, because it compares
  // letters before it looks for a '*' in the pattern.
  predicate Unambiguous(pat: seq<byte>, str: seq<byte>) {
    STAR !in pat || STAR !in str
  }

  /** A leading `*` can swallow any further prefix of the name. */
  lemma {:induction false} StarAbsorbs(pat: seq<byte>, str: seq<byte>, k: nat)
    requires k <= |str| && pat != [] && pat[0] == STAR
    requires Glob(pat, str[k..])
    ensures Glob(pat, str)
  {
    if k > 0 {
      assert str[1..][k - 1..] == str[k..];
      StarAbsorbs(pat, str[1..], k - 1);
    }
  }

  /** The meaning by number: 42 stands for any run, 63 for any one character, and letters match in either case. */
  lemma {:induction false} GlobByNumber(p: byte, rest: seq<byte>, s: seq<byte>)
    ensures Glob([], s) <==> s == []
    ensures Glob([42] + rest, s) <==> exists k :: 0 <= k <= |s| && Glob(rest, s[k..])
    ensures p != 42 ==>
              (Glob([p] + rest, s) <==>
                 && s != [] && Glob(rest, s[1..])
                 && (p == 63 || p == s[0] || (65 <= s[0] <= 90 && p == s[0] + 32) || (97 <= s[0] <= 122 && p == s[0] - 32)))
    decreases |s|
  {
    assert s[0..] == s;
    assert ([p] + rest)[1..] == rest;
    StarByNumber(rest, s);
  }

  lemma {:induction false} StarByNumber(rest: seq<byte>, s: seq<byte>)
    ensures Glob([42] + rest, s) <==> exists k :: 0 <= k <= |s| && Glob(rest, s[k..])
    decreases |s|
  {
    var pat := [42] + rest;
    assert pat[1..] == rest && s[0..] == s;
    if s != [] {
      StarByNumber(rest, s[1..]);
      forall k | 0 <= k <= |s| - 1 ensures s[1..][k..] == s[k + 1..] {}
      if Glob(pat, s[1..]) {
        var k :| 0 <= k <= |s[1..]| && Glob(rest, s[1..][k..]);
        assert Glob(rest, s[k + 1..]);
      }
      if k :| 0 < k <= |s| && Glob(rest, s[k..]) {
        assert Glob(rest, s[1..][k - 1..]);
      }
    }
  }

  /** A star-free stretch of pattern consumes exactly its own length of the name. */
  lemma {:induction false} SegmentConsumes(seg: seq<byte>, rest: seq<byte>, str: seq<byte>)
    requires STAR !in seg
    requires Glob(seg + rest, str)
    ensures |seg| <= |str| && Glob(rest, str[|seg|..])
  {
    if seg == [] {
      assert seg + rest == rest && str[0..] == str;
    } else {
      assert (seg + rest)[1..] == seg[1..] + rest;
      SegmentConsumes(seg[1..], rest, str[1..]);
      assert str[1..][|seg| - 1..] == str[|seg|..];
    }
  }

  /** Once a later `*` is reached, an earlier one never needs to be reconsidered. */
  lemma {:induction false} LatestStarSuffices(pat: seq<byte>, seg: seq<byte>, rest: seq<byte>, str: seq<byte>)
    requires pat == [STAR] + seg + rest && STAR !in seg
    requires rest != [] && rest[0] == STAR
    requires |seg| <= |str|
    requires Glob(pat, str)
    ensures Glob(rest, str[|seg|..])
    decreases |str|
  {
    assert pat[1..] == seg + rest;
    if Glob(pat[1..], str) {
      SegmentConsumes(seg, rest, str);
    } else if |seg| <= |str[1..]| {
      LatestStarSuffices(pat, seg, rest, str[1..]);
      assert str[|seg|..][1..] == str[1..][|seg|..];
      StarAbsorbs(rest, str[|seg|..], 1);
    } else {
      GlobNeedsLetters(pat, seg, rest, str[1..]);
    }
  }

  lemma {:induction false} GlobNeedsLetters(pat: seq<byte>, seg: seq<byte>, rest: seq<byte>, str: seq<byte>)
    requires pat == [STAR] + seg + rest && STAR !in seg
    requires Glob(pat, str)
    ensures |seg| <= |str|
    decreases |str|
  {
    assert pat[1..] == seg + rest;
    if Glob(pat[1..], str) {
      SegmentConsumes(seg, rest, str);
    } else {
      GlobNeedsLetters(pat, seg, rest, str[1..]);
    }
  }

  /** Comparing one letter: always sound, and exact unless the pattern letter is itself a `*`. */
  lemma OneLetter(pat: seq<byte>, str: seq<byte>)
    requires pat != [] && str != [] && SameLetter(pat[0], str[0])
    ensures Glob(pat[1..], str[1..]) ==> Glob(pat, str)
    ensures pat[0] != STAR ==> Glob(pat[1..], str[1..]) == Glob(pat, str)
  {
    if pat[0] == STAR && Glob(pat[1..], str[1..]) {
      assert Glob(pat, str[1..]);
    }
  }

  lemma {:induction false} OnlyStarsMatchNothing(pat: seq<byte>)
    ensures Glob(pat, []) <==> forall k :: 0 <= k < |pat| ==> pat[k] == STAR
  {
    if pat != [] {
      OnlyStarsMatchNothing(pat[1..]);
      assert forall k :: 1 <= k < |pat| ==> pat[k] == pat[1..][k - 1];
    }
  }

  /** The loop's state: where it compares, and the backtrack point (pattern and name position). */
  datatype Place = Place(p: nat, s: nat, starred: bool, sp: nat, ss: nat)

  ghost predicate InRange(pat: seq<byte>, str: seq<byte>, c: Place) {
    && c.p <= |pat| && c.s <= |str|
    && (c.starred ==> c.sp < c.p && c.ss <= c.s && pat[c.sp] == STAR)
  }

  /** Success from here, or from the backtrack point, is success for the whole pattern. */
  ghost predicate Sound(pat: seq<byte>, str: seq<byte>, c: Place)
    requires InRange(pat, str, c)
  {
    if !c.starred then Glob(pat[c.p..], str[c.s..]) ==> Glob(pat, str)
    else
      && (Glob(pat[c.p..], str[c.s..]) ==> Glob(pat[c.sp + 1..], str[c.ss..]))
      && (Glob(pat[c.sp..], str[c.ss..]) ==> Glob(pat, str))
  }

  /** Nothing the cursor has passed can still be needed. */
  ghost predicate Complete(pat: seq<byte>, str: seq<byte>, c: Place)
    requires InRange(pat, str, c)
  {
    if !c.starred then Glob(pat, str) ==> Glob(pat[c.p..], str[c.s..])
    else
      && c.s - c.ss == c.p - c.sp - 1 && STAR !in pat[c.sp + 1..c.p]
      && (Glob(pat[c.sp + 1..], str[c.ss..]) ==> Glob(pat[c.p..], str[c.s..]))
      && (Glob(pat, str) ==> Glob(pat[c.sp..], str[c.ss..]))
  }

  ghost predicate Inv(pat: seq<byte>, str: seq<byte>, c: Place) {
    && InRange(pat, str, c)
    && Sound(pat, str, c)
    && (Unambiguous(pat, str) ==> Complete(pat, str, c))
  }

  lemma LetterStep(pat: seq<byte>, str: seq<byte>, c: Place)
    requires Inv(pat, str, c) && c.p < |pat| && c.s < |str| && SameLetter(pat[c.p], str[c.s])
    requires CString(str)
    ensures Inv(pat, str, c.(p := c.p + 1, s := c.s + 1))
  {
    assert pat[c.p..][1..] == pat[c.p + 1..] && str[c.s..][1..] == str[c.s + 1..];
    OneLetter(pat[c.p..], str[c.s..]);
    if pat[c.p] == STAR { OnlyStarIsStar(str[c.s]); }
    hide Glob, SameLetter;
  }

  lemma OnlyStarIsStar(c: byte)
    requires SameLetter(STAR, c)
    ensures c == STAR
  {
  }

  lemma StarStep(pat: seq<byte>, str: seq<byte>, c: Place)
    requires Inv(pat, str, c) && c.p < |pat| && pat[c.p] == STAR
    ensures Inv(pat, str, Place(c.p + 1, c.s, true, c.p, c.s))
  {
    assert pat[c.p..][1..] == pat[c.p + 1..];
    if c.starred {
      var sp, ss := c.sp, c.ss;
      assert pat[sp..][1..] == pat[sp + 1..];
      if Unambiguous(pat, str) && Glob(pat, str) {
        assert pat[sp..] == [STAR] + pat[sp + 1..c.p] + pat[c.p..];
        LatestStarSuffices(pat[sp..], pat[sp + 1..c.p], pat[c.p..], str[ss..]);
        assert str[ss..][c.s - ss..] == str[c.s..];
      }
    }
  }

  /** A mismatch after a `*`: the remembered `*` takes one more character. */
  lemma BacktrackStep(pat: seq<byte>, str: seq<byte>, c: Place)
    requires Inv(pat, str, c) && c.s < |str| && c.starred
    requires !Glob(pat[c.p..], str[c.s..])
    ensures Inv(pat, str, Place(c.sp + 1, c.ss + 1, true, c.sp, c.ss + 1))
  {
    var sp, ss := c.sp, c.ss;
    assert pat[sp..][1..] == pat[sp + 1..] && str[ss..][1..] == str[ss + 1..];
  }

  lemma Mismatch(pat: seq<byte>, str: seq<byte>, c: Place)
    requires InRange(pat, str, c) && c.s < |str|
    requires c.p < |pat| ==> !SameLetter(pat[c.p], str[c.s]) && pat[c.p] != STAR
    ensures !Glob(pat[c.p..], str[c.s..])
  {
  }

  /** At the end of the name only stars may be left; the backtrack point cannot help any more. */
  lemma AtEnd(pat: seq<byte>, str: seq<byte>, c: Place)
    requires Inv(pat, str, c) && c.s == |str|
    ensures Glob(pat[c.p..], []) ==> Glob(pat, str)
    ensures Unambiguous(pat, str) ==> Glob(pat[c.p..], []) == Glob(pat, str)
  {
    assert str[c.s..] == [];
    if c.starred {
      var sp, ss := c.sp, c.ss;
      assert pat[sp..][1..] == pat[sp + 1..];
      if Unambiguous(pat, str) && Glob(pat, str) && !Glob(pat[c.p..], []) {
        assert pat[sp..] == [STAR] + pat[sp + 1..c.p] + pat[c.p..];
        EndNeedsStars(pat[sp..], pat[sp + 1..c.p], pat[c.p..], str[ss..]);
      }
    }
  }

  lemma EndNeedsStars(pat: seq<byte>, seg: seq<byte>, rest: seq<byte>, str: seq<byte>)
    requires pat == [STAR] + seg + rest && STAR !in seg && |seg| == |str|
    requires Glob(pat, str)
    ensures Glob(rest, [])
  {
    assert pat[1..] == seg + rest;
    if Glob(pat[1..], str) {
      SegmentConsumes(seg, rest, str);
    } else {
      GlobNeedsLetters(pat, seg, rest, str[1..]);
    }
  }

  const START := Place(0, 0, false, 0, 0)

  /** What the loop answers from place `c`: letters first, then a `*`, then the backtrack point. */
  ghost predicate Accepts(pat: seq<byte>, str: seq<byte>, c: Place)
    requires InRange(pat, str, c)
    decreases |str| - (if c.starred then c.ss else -1), |str| - c.s + |pat| - c.p
  {
    if c.s == |str| then Glob(pat[c.p..], [])
    else if c.p < |pat| && SameLetter(pat[c.p], str[c.s]) then Accepts(pat, str, c.(p := c.p + 1, s := c.s + 1))
    else if c.p < |pat| && pat[c.p] == STAR then Accepts(pat, str, Place(c.p + 1, c.s, true, c.p, c.s))
    else c.starred && Accepts(pat, str, Place(c.sp + 1, c.ss + 1, true, c.sp, c.ss + 1))
  }

  lemma AcceptsNext(pat: seq<byte>, str: seq<byte>, c: Place)
    requires InRange(pat, str, c)
    ensures c.s == |str| ==> Accepts(pat, str, c) == Glob(pat[c.p..], [])
    ensures c.s < |str| ==>
              var same, star := c.p < |pat| && SameLetter(pat[c.p], str[c.s]), c.p < |pat| && pat[c.p] == STAR;
              && (same ==> Accepts(pat, str, c) == Accepts(pat, str, c.(p := c.p + 1, s := c.s + 1)))
              && (!same && star ==> Accepts(pat, str, c) == Accepts(pat, str, Place(c.p + 1, c.s, true, c.p, c.s)))
              && (!same && !star && c.starred ==>
                    Accepts(pat, str, c) == Accepts(pat, str, Place(c.sp + 1, c.ss + 1, true, c.sp, c.ss + 1)))
              && (!same && !star && !c.starred ==> !Accepts(pat, str, c))
  {
    hide Glob, SameLetter;
  }

  /** A `*` in the name can mislead the loop: it takes `*b` not to match `*ab`. */
  lemma StarInNameMisleads()
    ensures var pat, str: seq<byte> := [STAR, 'b' as int], [STAR, 'a' as int, 'b' as int];
            Glob(pat, str) && !Accepts(pat, str, START)
  {
    var pat, str: seq<byte> := [STAR, 'b' as int], [STAR, 'a' as int, 'b' as int];
    assert str[2..] == [str[2]] && pat[1..] == [pat[1]] && pat[1..][1..] == [] == str[2..][1..];
    StarAbsorbs(pat, str, 2);
  }

  /**
   * The firmware's loop.  It terminates on every input, never accepts a name outside `Glob`,
   * and is exact unless the pattern and the name both hold a `*`.
   */
  method WildcardMatchUpper(pat: seq<byte>, str: seq<byte>) returns (matched: bool)
    requires CString(pat) && CString(str)
    ensures matched == Accepts(pat, str, START)
    ensures matched ==> Glob(pat, str)
    ensures Unambiguous(pat, str) ==> matched == Glob(pat, str)
  {
    var c := START;
    assert pat[0..] == pat && str[0..] == str;
    assert Inv(pat, str, c);
    hide Glob, Accepts, Sound, Complete;
    while c.s < |str|
      invariant Inv(pat, str, c) && Accepts(pat, str, c) == Accepts(pat, str, START)
      decreases |str| - (if c.starred then c.ss else -1), |str| - c.s + |pat| - c.p
    {
      AcceptsNext(pat, str, c);
      var atP := if c.p < |pat| then pat[c.p] else NUL;
      if atP == QUERY || ToUpper(atP) == ToUpper(str[c.s]) {
        LetterStep(pat, str, c);
        c := c.(p := c.p + 1, s := c.s + 1);
      } else if atP == STAR {
        StarStep(pat, str, c);
        c := Place(c.p + 1, c.s, true, c.p, c.s);
      } else if c.starred {
        Mismatch(pat, str, c);
        BacktrackStep(pat, str, c);
        c := Place(c.sp + 1, c.ss + 1, true, c.sp, c.ss + 1);
      } else {
        Mismatch(pat, str, c);
        return false;
      }
    }
    AtEnd(pat, str, c);
    AcceptsNext(pat, str, c);
    matched := SkipStars(pat, c.p);
  }

  method SkipStars(pat: seq<byte>, from: nat) returns (atEnd: bool)
    requires from <= |pat|
    ensures atEnd == Glob(pat[from..], [])
  {
    var p := from;
    while p < |pat| && pat[p] == STAR
      invariant from <= p <= |pat|
      invariant forall k :: from <= k < p ==> pat[k] == STAR
    {
      p := p + 1;
    }
    OnlyStarsMatchNothing(pat[from..]);
    assert p < |pat| ==> pat[from..][p - from] != STAR;
    return p == |pat|;
  }
}
