/**
 * Path handling as Python's `os.path` does it on a POSIX system (`posixpath`):
 * `join`, `basename`, `dirname` and `splitext`, with '/' as the only separator.
 */
module Paths {
  import opened Base
  import opened Text

  const Sep: char := '/'

  /** Python's `s.rfind(c)`, with `None` for -1. */
  function LastIndexOf(s: string, c: char): (r: Option<nat>)
    ensures r.Some? ==> r.value < |s| && s[r.value] == c
    ensures r.Some? ==> forall j :: r.value < j < |s| ==> s[j] != c
    ensures r.None? <==> c !in s
  {
    if |s| == 0 then None
    else if s[|s| - 1] == c then Some(|s| - 1)
    else
      assert s == s[..|s| - 1] + [s[|s| - 1]];
      LastIndexOf(s[..|s| - 1], c)
  }

  /** Appending text without `c` does not move the last `c`. */
  lemma LastIndexOfAppend(p: string, t: string, c: char)
    requires c !in t
    ensures LastIndexOf(p + t, c) == LastIndexOf(p, c)
  {
    var r := LastIndexOf(p + t, c);
    if c in p {
      var i := LastIndexOf(p, c).value;
      assert (p + t)[i] == c;
    } else {
      assert c !in p + t by {
        forall j | 0 <= j < |p + t| ensures (p + t)[j] != c {
          if j < |p| { assert (p + t)[j] == p[j]; } else { assert (p + t)[j] == t[j - |p|]; }
        }
      }
    }
  }

  /** Python's `posixpath.join(a, b)`. */
  function Join(a: string, b: string): string
  {
    if |b| > 0 && b[0] == Sep then b
    else if a == "" || a[|a| - 1] == Sep then a + b
    else a + [Sep] + b
  }

  /** Python's `posixpath.basename(p)`: the text after the last separator. */
  function Basename(p: string): (name: string)
    ensures Sep !in name
    ensures EndsWith(p, name)
    ensures |name| == |p| || p[|p| - |name| - 1] == Sep
  {
    match LastIndexOf(p, Sep)
    case None => p
    case Some(i) => p[i + 1..]
  }

  /** Every character of `s` is a separator. */
  predicate AllSep(s: string)
  {
    forall k :: 0 <= k < |s| ==> s[k] == Sep
  }

  /** Python's `s.rstrip(c)` for one character `c`. */
  function RStrip(s: string, c: char): (r: string)
    ensures r <= s
    ensures r == "" || r[|r| - 1] != c
    ensures forall k :: |r| <= k < |s| ==> s[k] == c
  {
    if |s| == 0 || s[|s| - 1] != c then s
    else RStrip(s[..|s| - 1], c)
  }

  /**
   * Python's `posixpath.dirname(p)`: everything up to the last separator, with
   * trailing separators removed unless the head consists of separators only.
   */
  function Dirname(p: string): (dir: string)
    ensures dir <= p && |dir| <= |p| - |Basename(p)|
    ensures forall k :: |dir| <= k < |p| - |Basename(p)| ==> p[k] == Sep
    ensures dir == "" <==> Sep !in p
    ensures NormalDir(dir)
    ensures AllSep(dir) ==> |dir| == |p| - |Basename(p)|
  {
    var head := match LastIndexOf(p, Sep) case None => "" case Some(i) => p[..i + 1];
    if head != "" && !AllSep(head) then RStrip(head, Sep) else head
  }

  /** A directory as `dirname` returns it: empty, separators only, or not ending in one. */
  predicate NormalDir(d: string)
  {
    d == "" || d[|d| - 1] != Sep || AllSep(d)
  }

  /** The index of the last separator, or -1 when there is none. */
  function SepIndex(p: string): (i: int)
    ensures -1 <= i < |p|
  {
    match LastIndexOf(p, Sep) case None => -1 case Some(i) => i
  }

  /**
   * Where `posixpath.splitext(p)` starts the extension: at the last dot, when
   * that dot lies in the last component and something other than a dot
   * precedes it there (so `.bashrc` has no extension).
   */
  function ExtStart(p: string): (r: Option<nat>)
    ensures r.Some? ==> SepIndex(p) < r.value < |p| && p[r.value] == '.'
    ensures r.Some? ==> forall j :: r.value < j < |p| ==> p[j] != '.'
    ensures r.Some? ==> exists k :: SepIndex(p) < k < r.value && p[k] != '.'
    ensures r.None? <==> !exists d, k :: SepIndex(p) < k < d < |p| && p[d] == '.' && p[k] != '.'
  {
    match LastIndexOf(p, '.')
    case None => None
    case Some(d) =>
      if SepIndex(p) < d && exists k :: SepIndex(p) < k < d && p[k] != '.' then Some(d) else None
  }

  /** Python's `posixpath.splitext(p)`. */
  function SplitExt(p: string): (parts: (string, string))
    ensures parts.0 + parts.1 == p
    ensures parts.1 == "" || IsExtension(parts.1)
    ensures parts.1 != "" ==> exists k :: SepIndex(p) < k < |parts.0| && p[k] != '.'
    ensures parts.1 == "" <==> !exists d, k :: SepIndex(p) < k < d < |p| && p[d] == '.' && p[k] != '.'
  {
    match ExtStart(p)
    case None => (p, "")
    case Some(d) =>
      assert '.' !in p[d..][1..] by {
        forall j | 0 <= j < |p[d..][1..]| ensures p[d..][1..][j] != '.' { assert p[d..][1..][j] == p[d + 1 + j]; }
      }
      assert Sep !in p[d..] by {
        forall j | 0 <= j < |p[d..]| ensures p[d..][j] != Sep { assert p[d..][j] == p[d + j]; }
      }
      (p[..d], p[d..])
  }

  /** `os.path.splitext(p)[0]`. */
  function Root(p: string): string { SplitExt(p).0 }

  /** `os.path.splitext(p)[1]`. */
  function Ext(p: string): string { SplitExt(p).1 }

  /** A string `splitext` could return as an extension, other than the empty one. */
  predicate IsExtension(ext: string)
  {
    |ext| > 0 && ext[0] == '.' && Sep !in ext && '.' !in ext[1..]
  }

  /** The last component of `q` has a character that is not a dot. */
  predicate NamedLastComponent(q: string)
  {
    exists k :: 0 <= k < |q| && q[k] != '.' && q[k] != Sep && forall j :: k < j < |q| ==> q[j] != Sep
  }

  /** The last dot of `q + ext` is the one that starts the extension. */
  lemma LastDotOfAppend(q: string, ext: string)
    requires IsExtension(ext)
    ensures LastIndexOf(q + ext, '.') == Some(|q|)
  {
    var p := q + ext;
    assert p[|q|] == '.';
  }

  /** Appending an extension to a named last component splits back into the two parts. */
  lemma SplitExtAppend(q: string, ext: string)
    requires IsExtension(ext) && NamedLastComponent(q)
    ensures SplitExt(q + ext) == (q, ext)
  {
    var p := q + ext;
    LastDotOfAppend(q, ext);
    LastIndexOfAppend(q, ext, Sep);
    var k :| 0 <= k < |q| && q[k] != '.' && q[k] != Sep && forall j :: k < j < |q| ==> q[j] != Sep;
    assert SepIndex(q) < k by {
      if LastIndexOf(q, Sep).Some? {
        assert q[LastIndexOf(q, Sep).value] == Sep;
      }
    }
    assert p[k] == q[k];
    ExtStartAt(p, |q|, k);
    assert p[..|q|] == q && p[|q|..] == ext;
  }

  /** A named character between the last separator and the last dot makes that dot start the extension. */
  lemma ExtStartAt(p: string, d: nat, k: nat)
    requires LastIndexOf(p, '.') == Some(d)
    requires SepIndex(p) < k < d && p[k] != '.'
    ensures ExtStart(p) == Some(d)
  {
  }

  /** Appending text with no dot and no separator keeps an empty extension empty. */
  lemma ExtAppendPlain(p: string, t: string)
    requires '.' !in t && Sep !in t && Ext(p) == ""
    ensures Ext(p + t) == ""
  {
    LastIndexOfAppend(p, t, '.');
    LastIndexOfAppend(p, t, Sep);
    match LastIndexOf(p, '.')
    case None =>
    case Some(d) =>
      assert forall k :: SepIndex(p) < k < d ==> (p + t)[k] == p[k];
  }

  /** A character of the appended text is found at its shifted position. */
  lemma LastIndexOfShift(pre: string, s: string, c: char, ds: nat)
    requires LastIndexOf(s, c) == Some(ds)
    ensures LastIndexOf(pre + s, c) == Some(|pre| + ds)
  {
    var p := pre + s;
    assert p[|pre| + ds] == s[ds];
    forall j | |pre| + ds < j < |p| ensures p[j] != c {
      assert p[j] == s[j - |pre|];
    }
    LastIndexOfIs(p, c, |pre| + ds);
  }

  /** The last `c` is at `i` when `s[i]` is a `c` and none follows. */
  lemma {:induction false} LastIndexOfIs(s: string, c: char, i: nat)
    requires i < |s| && s[i] == c && forall j :: i < j < |s| ==> s[j] != c
    ensures LastIndexOf(s, c) == Some(i)
    decreases |s|
  {
    if s[|s| - 1] != c {
      var t := s[..|s| - 1];
      LastIndexOfIs(t, c, i);
    }
  }

  /** A text that is empty or ends in a separator has no extension. */
  lemma ExtOfDirPrefix(pre: string)
    requires pre == "" || pre[|pre| - 1] == Sep
    ensures Ext(pre) == "" && SepIndex(pre) == |pre| - 1
  {
  }

  /** Only the last component decides the extension. */
  lemma ExtOfLastComponent(pre: string, name: string)
    requires pre == "" || pre[|pre| - 1] == Sep
    requires Sep !in name
    ensures Ext(pre + name) == Ext(name)
  {
    var p := pre + name;
    ExtOfDirPrefix(pre);
    LastIndexOfAppend(pre, name, Sep);
    assert SepIndex(p) == |pre| - 1;
    match LastIndexOf(name, '.')
    case Some(d) =>
      LastIndexOfShift(pre, name, '.', d);
      ExtStartShift(pre, name, d);
      assert p[|pre| + d..] == name[d..];
    case None =>
      LastIndexOfAppend(pre, name, '.');
  }

  lemma ExtStartShift(pre: string, name: string, d: nat)
    requires SepIndex(pre + name) == |pre| - 1 && Sep !in name
    requires LastIndexOf(name, '.') == Some(d) && LastIndexOf(pre + name, '.') == Some(|pre| + d)
    ensures ExtStart(pre + name) == if ExtStart(name).Some? then Some(|pre| + d) else None
  {
    var p := pre + name;
    assert SepIndex(name) == -1;
    assert forall k :: |pre| <= k < |p| ==> p[k] == name[k - |pre|];
    if exists k :: -1 < k < d && name[k] != '.' {
      var k :| -1 < k < d && name[k] != '.';
      assert p[|pre| + k] != '.';
    }
  }

  /** `join(dir, name)` is `dir`, a separator where needed, and `name`; so it has the name's extension. */
  lemma ExtOfJoin(dir: string, name: string)
    requires name != "" && Sep !in name
    ensures Ext(Join(dir, name)) == Ext(name)
  {
    if dir == "" || dir[|dir| - 1] == Sep {
      ExtOfLastComponent(dir, name);
    } else {
      assert Join(dir, name) == (dir + [Sep]) + name;
      ExtOfLastComponent(dir + [Sep], name);
    }
  }

  /** Lowering case moves neither dots nor separators, so the extension starts at the same place. */
  lemma ExtStartLower(p: string)
    ensures ExtStart(Lower(p)) == ExtStart(p)
  {
    LowerKeeps(p, '.');
    LowerKeeps(p, Sep);
    var lp := Lower(p);
    assert SepIndex(lp) == SepIndex(p);
    assert forall k :: 0 <= k < |p| ==> (lp[k] != '.' <==> p[k] != '.');
  }

  /** Lower-casing commutes with taking the extension. */
  lemma ExtLower(p: string)
    ensures Ext(Lower(p)) == Lower(Ext(p))
  {
    ExtStartLower(p);
    match ExtStart(p)
    case None =>
      assert Lower("") == "";
    case Some(d) =>
      LowerSuffix(p, d);
  }

  /** Lowering case leaves the positions of `.` and `/` where they were. */
  lemma LowerKeeps(p: string, c: char)
    requires c == '.' || c == Sep
    ensures LastIndexOf(Lower(p), c) == LastIndexOf(p, c)
  {
    var lp := Lower(p);
    assert forall j :: 0 <= j < |p| ==> (lp[j] == c <==> p[j] == c);
    var a, b := LastIndexOf(lp, c), LastIndexOf(p, c);
    if b.Some? {
      assert lp[b.value] == c;
    }
    if a.Some? {
      assert p[a.value] == c;
    }
  }

  /**
   * Joining a directory as `dirname` returns it with a plain file name gives a
   * path whose `basename` is that name and whose `dirname` is that directory.
   */
  lemma {:induction false} JoinSplitsBack(dir: string, name: string)
    requires NormalDir(dir) && name != "" && Sep !in name
    ensures Basename(Join(dir, name)) == name
    ensures Dirname(Join(dir, name)) == dir
  {
    var p := Join(dir, name);
    if dir == "" {
      assert p == name;
    } else if dir[|dir| - 1] == Sep {
      assert p == dir + name;
      LastIndexOfAppend(dir, name, Sep);
      assert p[..|dir|] == dir && p[|dir|..] == name;
    } else {
      var head := dir + [Sep];
      assert p == head + name;
      LastIndexOfAppend(head, name, Sep);
      assert p[..|head|] == head && p[|head|..] == name;
      assert head[|dir| - 1] != Sep;
      assert head[..|head| - 1] == dir;
    }
  }

  /** Whatever the directory, `basename` of `join(dir, name)` is the plain name. */
  lemma JoinBasename(dir: string, name: string)
    requires name != "" && Sep !in name
    ensures Basename(Join(dir, name)) == name
  {
    var p := Join(dir, name);
    if dir == "" {
      assert p == name;
    } else if dir[|dir| - 1] == Sep {
      LastIndexOfAppend(dir, name, Sep);
      assert p[|dir|..] == name;
    } else {
      var head := dir + [Sep];
      assert p == head + name;
      LastIndexOfAppend(head, name, Sep);
      assert p[|head|..] == name;
    }
  }
}
