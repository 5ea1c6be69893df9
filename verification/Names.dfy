/**
 * Which directory entries GEMDOS can see (sidetnfs_probe.c, 2116-2337): the strict 8.3 name
 * check, the conversion of a TNFS entry to Atari form, and the pattern and attribute tests.
 */
module Names {
  import opened Words
  import Wildcard

  /** One entry of a READDIRX answer. */
  datatype Entry = Entry(flags: byte, size: dword, mtime: dword, ctime: dword, name: seq<byte>) {
    predicate Directory() { flags % 2 == 1 }
    predicate Hidden() { flags / 2 % 2 == 1 }
    predicate Special() { flags / 4 % 2 == 1 }
    predicate Dot() { name == [] || name == [DOT] || name == [DOT, DOT] }
  }

  /** The same entry as the Atari sees it; the packed date and time are left as `mtime`. */
  datatype AtariEntry = AtariEntry(name: seq<byte>, folder: bool, hidden: bool, size: dword, mtime: dword)

  const FORBIDDEN: seq<byte> :=
    [' ' as int, SLASH, BACKSLASH, '<' as int, '>' as int, ':' as int, '"' as int, '|' as int, QUERY, STAR]

  predicate LegalLetter(c: byte) {
    c >= 32 && c !in FORBIDDEN && !('a' as int <= c <= 'z' as int) && c != DOT
  }

  predicate LegalPart(s: seq<byte>, limit: nat) {
    1 <= |s| <= limit && forall k :: 0 <= k < |s| ==> LegalLetter(s[k])
  }

  /** The legal characters by number, among the printable ones and above. */
  lemma LegalByNumber(c: byte)
    ensures LegalLetter(c) <==>
              c > 32 && c !in {34, 42, 46, 47, 58, 60, 62, 63, 92, 124} && !(97 <= c <= 122)
  {
    assert FORBIDDEN == [32, 47, 92, 60, 62, 58, 34, 124, 63, 42];
  }

  /** `BASE` or `BASE.EXT`, with one to eight and one to three legal letters. */
  ghost predicate Supported83(name: seq<byte>) {
    || LegalPart(name, 8)
    || exists base, ext :: LegalPart(base, 8) && LegalPart(ext, 3) && name == base + [DOT] + ext
  }

  /** The position of the dot decides how a name with one dot splits. */
  lemma SplitAtDot(name: seq<byte>, dot: nat)
    requires dot < |name| && name[dot] == DOT
    requires forall k :: 0 <= k < |name| && k != dot ==> name[k] != DOT
    ensures Supported83(name) <==> LegalPart(name[..dot], 8) && LegalPart(name[dot + 1..], 3)
  {
    assert name == name[..dot] + [DOT] + name[dot + 1..];
    if Supported83(name) && !LegalPart(name, 8) {
      var base, ext :| LegalPart(base, 8) && LegalPart(ext, 3) && name == base + [DOT] + ext;
      assert name[|base|] == DOT;
      assert base == name[..dot] && ext == name[dot + 1..];
    }
  }

  /** In `BASE.EXT` the separator is the only character that is not a legal letter. */
  lemma DottedShape(base: seq<byte>, ext: seq<byte>)
    requires LegalPart(base, 8) && LegalPart(ext, 3)
    ensures var n := base + [DOT] + ext;
            n[|base|] == DOT && forall k :: 0 <= k < |n| && k != |base| ==> LegalLetter(n[k])
  {
    var n := base + [DOT] + ext;
    assert forall k :: |base| < k < |n| ==> n[k] == ext[k - |base| - 1];
  }

  lemma NoDotNoSplit(name: seq<byte>)
    requires DOT !in name
    ensures Supported83(name) <==> LegalPart(name, 8)
  {
    forall base, ext | LegalPart(base, 8) && LegalPart(ext, 3) ensures name != base + [DOT] + ext {
      assert DOT in base + [DOT] + ext;
    }
  }

  /** Two dots, a leading dot, or a forbidden character rule a name out. */
  lemma NeverSupported(name: seq<byte>, i: nat, j: nat)
    requires i < |name| && j < |name|
    requires || (i < j && name[i] == DOT && name[j] == DOT)
             || (name[i] != DOT && !LegalLetter(name[i]))
             || (i == 0 && name[i] == DOT)
    ensures !Supported83(name)
  {
    forall base, ext | LegalPart(base, 8) && LegalPart(ext, 3) ensures name != base + [DOT] + ext {
      DottedShape(base, ext);
    }
  }

  /** An entry GEMDOS can see never holds a `*`, so the matcher is exact on every such name. */
  lemma SupportedHasNoStar(name: seq<byte>)
    requires Supported83(name)
    ensures STAR !in name && CString(name)
  {
    if k :| 0 <= k < |name| && name[k] in {STAR, NUL} {
      NeverSupported(name, k, k);
    }
  }

  method IsSupported83Name(name: seq<byte>) returns (ok: bool)
    requires CString(name)
    ensures ok == Supported83(name)
  {
    if name == [] { return false; }
    if name[0] == DOT {
      NeverSupported(name, 0, 0);
      return false;
    }
    var dotCount, dotPos := 0, 0;
    for i := 0 to |name|
      invariant 0 <= dotCount <= i
      invariant dotCount == 0 ==> forall k :: 0 <= k < i ==> LegalLetter(name[k])
      invariant dotCount == 1 ==> dotPos < i && name[dotPos] == DOT &&
                                  forall k :: 0 <= k < i && k != dotPos ==> LegalLetter(name[k])
      invariant dotCount > 1 ==> exists a, b :: 0 <= a < b < i && name[a] == DOT && name[b] == DOT
      invariant dotCount >= 1 ==> 0 <= dotPos < i && name[dotPos] == DOT
    {
      var c := name[i];
      if c == DOT {
        dotCount := dotCount + 1;
        dotPos := i;
      } else if c < 32 || c in FORBIDDEN || 'a' as int <= c <= 'z' as int {
        NeverSupported(name, i, i);
        return false;
      }
    }
    if dotCount > 1 {
      ghost var a, b :| 0 <= a < b < |name| && name[a] == DOT && name[b] == DOT;
      NeverSupported(name, a, b);
      return false;
    }
    var baseLen := if dotCount == 1 then dotPos else |name|;
    var extLen := if dotCount == 1 then |name| - dotPos - 1 else 0;
    if dotCount == 1 { SplitAtDot(name, dotPos); } else { NoDotNoSplit(name); }
    if baseLen == 0 || baseLen > 8 { return false; }
    if dotCount == 1 && (extLen == 0 || extLen > 3) { return false; }
    return true;
  }

  ghost predicate Visible(e: Entry) {
    (e.flags as bv8) & 0x04 == 0 && Supported83(e.name)
  }

  /** The Atari form of a visible entry; a folder has no size. */
  function ToAtari(e: Entry): AtariEntry {
    var folder := (e.flags as bv8) & 0x01 != 0;
    AtariEntry(e.name, folder, (e.flags as bv8) & 0x02 != 0, if folder then 0 else e.size, e.mtime)
  }

  method NormalizeDirEntry(e: Entry) returns (out: Option<AtariEntry>)
    requires CString(e.name)
    ensures out == if Visible(e) then Some(ToAtari(e)) else None
  {
    if e.Special() { return None; }
    var ok := IsSupported83Name(e.name);
    if !ok { return None; }
    return Some(AtariEntry(e.name, e.Directory(), e.Hidden(), if e.Directory() then 0 else e.size, e.mtime));
  }

  const PATTERN_SIZE := 13

  /** Patterns are cut to the buffer, and a trailing `.*` is dropped. */
  function NormalizePattern(pattern: seq<byte>): seq<byte> {
    var cut := if |pattern| < PATTERN_SIZE then pattern else pattern[..PATTERN_SIZE - 1];
    if |cut| >= 2 && cut[|cut| - 1] == STAR && cut[|cut| - 2] == DOT then cut[..|cut| - 2] else cut
  }

  /** Thirteen bytes hold twelve characters; of those a final `.*` (46 42) goes, and nothing else does. */
  lemma PatternByNumber(pattern: seq<byte>, stem: seq<byte>)
    ensures |pattern| > 12 ==> NormalizePattern(pattern) == NormalizePattern(pattern[..12])
    ensures |stem| <= 10 ==> NormalizePattern(stem + [46, 42]) == stem
    ensures |pattern| <= 12 && NormalizePattern(pattern) != pattern ==>
              pattern == NormalizePattern(pattern) + [46, 42]
  {
    var dotStar := stem + [46, 42];
    assert dotStar[..|stem|] == stem;
    if |pattern| > 12 { assert pattern[..12][..12] == pattern[..12]; }
  }

  method GemdosPatternMatch(name: seq<byte>, pattern: seq<byte>) returns (matched: bool)
    requires CString(name) && CString(pattern)
    ensures matched ==> Wildcard.Glob(NormalizePattern(pattern), name)
    ensures STAR !in name ==> matched == Wildcard.Glob(NormalizePattern(pattern), name)
  {
    matched := Wildcard.WildcardMatchUpper(NormalizePattern(pattern), name);
  }

  /** Does a search asking for `search` attributes want this entry?  A plain file counts as archived. */
  predicate AttrMatch(e: AtariEntry, search: byte) {
    || (!e.folder && !e.hidden && search / 32 % 2 == 1)
    || (e.folder && search / 16 % 2 == 1)
    || (e.hidden && search / 2 % 2 == 1)
  }

  /** `*.*` is how GEMDOS programs ask for everything. */
  lemma StarDotStarMatchesAll(name: seq<byte>)
    ensures Wildcard.Glob(NormalizePattern([STAR, DOT, STAR]), name)
  {
    var p := [STAR];
    assert NormalizePattern([STAR, DOT, STAR]) == p;
    assert Wildcard.Glob(p[1..], name[|name|..]);
    assert Wildcard.Glob(p, name[|name|..]);
    Wildcard.StarAbsorbs(p, name, |name|);
  }

  // -- The entries a search stands for ------------------------------------------------------

  /** The attribute byte of an entry with these server flags: folder and hidden bits, or the archive bit for neither. */
  function Attributes(flags: byte): bv8 {
    var f := flags as bv8;
    if f & 0x03 == 0 then 0x20 else (if f & 0x01 != 0 then 0x10 else 0) | (if f & 0x02 != 0 then 0x02 else 0)
  }

  /** Not special, an 8.3 name that matches, and an attribute in common with what is searched for. */
  ghost predicate Wanted(e: Entry, pattern: seq<byte>, attribs: byte) {
    && Visible(e) && Wildcard.Glob(NormalizePattern(pattern), e.name)
    && Attributes(e.flags) & (attribs as bv8) != 0
  }

  /** The tests the program makes on an entry in Atari form come to the same. */
  lemma WantedIsTested(e: Entry, pattern: seq<byte>, attribs: byte)
    ensures Wanted(e, pattern, attribs) <==>
              && !e.Dot() && Visible(e)
              && Wildcard.Glob(NormalizePattern(pattern), e.name) && AttrMatch(ToAtari(e), attribs)
  {
    hide Wildcard.Glob, NormalizePattern;
    if e.Dot() { DotIsNotSupported(e.name); }
    hide Supported83;
  }

  lemma DotIsNotSupported(name: seq<byte>)
    requires name == [] || name[0] == DOT
    ensures !Supported83(name)
  {
    if name != [] { NeverSupported(name, 0, 0); }
  }

  ghost function MatchForm(e: Entry, pattern: seq<byte>, attribs: byte): seq<AtariEntry> {
    if Wanted(e, pattern, attribs) then [ToAtari(e)] else []
  }

  /** The answer a search owes its caller: the wanted entries, in server order. */
  ghost function Matches(dir: seq<Entry>, pattern: seq<byte>, attribs: byte): seq<AtariEntry> {
    if dir == [] then [] else MatchForm(dir[0], pattern, attribs) + Matches(dir[1..], pattern, attribs)
  }

  /**
   * One entry with an 8.3 name under `*.*` (42 46 42), bit by bit: it is found exactly if it is not
   * special and shares an attribute with the search, and these are the fields of its row.
   */
  lemma StarDotStarFinds(e: Entry, attribs: byte)
    requires Supported83(e.name)
    ensures var f, a, found := e.flags as bv8, attribs as bv8, Matches([e], [42, 46, 42], attribs);
            && (found != [] <==>
                  && f & 0x04 == 0
                  && ((f & 0x01 != 0 && a & 0x10 != 0) || (f & 0x02 != 0 && a & 0x02 != 0) || (f & 0x03 == 0 && a & 0x20 != 0)))
            && (found != [] ==>
                  && |found| == 1 && found[0].name == e.name && found[0].mtime == e.mtime
                  && (found[0].folder <==> f & 0x01 != 0) && (found[0].hidden <==> f & 0x02 != 0)
                  && found[0].size == if f & 0x01 != 0 then 0 else e.size)
  {
    StarDotStarMatchesAll(e.name);
    assert Matches([e], [42, 46, 42], attribs) == MatchForm(e, [42, 46, 42], attribs);
    hide Wildcard.Glob, NormalizePattern, Supported83;
  }

  /** In a directory of 8.3 folders a `*.*` search for folders finds all of them, and any other search none. */
  ghost predicate FoldersFound(all: seq<AtariEntry>, dir: seq<Entry>, attribs: byte) {
    (forall k :: 0 <= k < |dir| ==> Supported83(dir[k].name) && dir[k].flags == 1) ==>
      if attribs / 16 % 2 == 0 then all == []
      else |all| == |dir| && forall k :: 0 <= k < |dir| ==> all[k].name == dir[k].name && all[k].folder
  }

  lemma {:induction false} StarDotStarFindsFolders(dir: seq<Entry>, attribs: byte)
    ensures FoldersFound(Matches(dir, [42, 46, 42], attribs), dir, attribs)
  {
    if dir != [] && forall k :: 0 <= k < |dir| ==> Supported83(dir[k].name) && dir[k].flags == 1 {
      hide Wanted, Supported83, Matches;
      StarDotStarFindsFolders(dir[1..], attribs);
      StarDotStarFinds(dir[0], attribs);
      MatchesFirst(dir, [42, 46, 42], attribs);
    }
  }

  lemma MatchesFirst(dir: seq<Entry>, pattern: seq<byte>, attribs: byte)
    requires dir != []
    ensures Matches(dir, pattern, attribs) == Matches([dir[0]], pattern, attribs) + Matches(dir[1..], pattern, attribs)
  {
    hide Wanted;
    assert [dir[0]][1..] == [];
  }
}
