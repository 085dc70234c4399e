/** The three `os.path` operations (POSIX flavour) that decide which class an
    image file belongs to: `dirname`, `basename` and `join`. */
module PosixPath {

  const Sep: char := '/'

  predicate NoSep(s: string)
  {
    forall k :: 0 <= k < |s| ==> s[k] != Sep
  }

  predicate AllSep(s: string)
  {
    forall k :: 0 <= k < |s| ==> s[k] == Sep
  }

  /** `p.rfind('/')`: the position of the last separator, or -1. */
  function LastSep(p: string): (r: int)
    ensures -1 <= r < |p|
  {
    if p == [] then -1
    else if p[|p| - 1] == Sep then |p| - 1
    else LastSep(p[..|p| - 1])
  }

  /** `LastSep` finds a separator, and there is none after it. */
  lemma {:induction false} LastSepSpec(p: string)
    ensures LastSep(p) >= 0 ==> p[LastSep(p)] == Sep
    ensures forall k :: LastSep(p) < k < |p| ==> p[k] != Sep
  {
    if p != [] && p[|p| - 1] != Sep {
      var init := p[..|p| - 1];
      LastSepSpec(init);
      assert forall k :: 0 <= k < |init| ==> init[k] == p[k];
    }
  }

  /** The last separator is determined by the two properties above. */
  lemma LastSepUnique(p: string, r: int)
    requires -1 <= r < |p|
    requires r >= 0 ==> p[r] == Sep
    requires forall k :: r < k < |p| ==> p[k] != Sep
    ensures LastSep(p) == r
  {
    LastSepSpec(p);
    var q := LastSep(p);
    if r >= 0 {
      assert p[r] == Sep;
    }
    if q >= 0 {
      assert p[q] == Sep;
    }
  }

  /** `s.rstrip('/')`: `s` without its trailing separators. */
  function RStripSep(s: string): (r: string)
    ensures |r| <= |s|
  {
    if s != [] && s[|s| - 1] == Sep then RStripSep(s[..|s| - 1]) else s
  }

  /** What `RStripSep` keeps is a prefix that does not end in a separator,
      and what it drops is separators only. */
  lemma {:induction false} RStripSepSpec(s: string)
    ensures RStripSep(s) == s[..|RStripSep(s)|]
    ensures RStripSep(s) == [] || RStripSep(s)[|RStripSep(s)| - 1] != Sep
    ensures forall k :: |RStripSep(s)| <= k < |s| ==> s[k] == Sep
  {
    if s != [] && s[|s| - 1] == Sep {
      var init := s[..|s| - 1];
      RStripSepSpec(init);
      assert forall k :: 0 <= k < |init| ==> init[k] == s[k];
      assert init[..|RStripSep(init)|] == s[..|RStripSep(init)|];
    }
  }

  /** `posixpath.dirname`: everything up to the last separator, with the
      trailing separators removed unless the head is made of separators only
      (then stripping would leave nothing; `DirnameTestsHead` shows that the
      two tests agree). */
  function Dirname(p: string): string
  {
    var head := p[..LastSep(p) + 1];
    if RStripSep(head) != [] then RStripSep(head) else head
  }

  /** Stripping trailing separators leaves something exactly when the string
      is non-empty and not made of separators only. */
  lemma DirnameTestsHead(head: string)
    ensures RStripSep(head) != [] <==> head != [] && !AllSep(head)
  {
    RStripSepSpec(head);
    if RStripSep(head) == [] && head != [] {
      assert AllSep(head);
    }
    if RStripSep(head) != [] {
      var n := |RStripSep(head)|;
      assert head[n - 1] == RStripSep(head)[n - 1];
    }
  }

  /** `posixpath.basename`: everything after the last separator. */
  function Basename(p: string): string
  {
    p[LastSep(p) + 1..]
  }

  /** The file name part is a suffix of the path without separators. */
  lemma BasenameSpec(p: string)
    ensures NoSep(Basename(p))
    ensures |Basename(p)| <= |p| && Basename(p) == p[|p| - |Basename(p)|..]
  {
    LastSepSpec(p);
  }

  /** `posixpath.join(a, b)`: an absolute `b` replaces `a`; otherwise a
      separator is inserted unless `a` is empty or already ends in one. */
  function Join(a: string, b: string): (r: string)
    ensures |b| > 0 && b[0] == Sep ==> r == b
    ensures !(|b| > 0 && b[0] == Sep) ==> |b| <= |r| && b == r[|r| - |b|..]
  {
    if |b| > 0 && b[0] == Sep then b
    else if a == [] || a[|a| - 1] == Sep then a + b
    else a + [Sep] + b
  }

  /** `os.path.basename(os.path.dirname(p))`: the name of the directory that
      holds `p`. */
  function ParentName(p: string): string
  {
    Basename(Dirname(p))
  }

  /** Joining a name without separators onto a prefix that is empty or ends
      in a separator: `LastSep` then points just before the name. */
  lemma LastSepBeforeName(pre: string, name: string)
    requires pre == [] || pre[|pre| - 1] == Sep
    requires NoSep(name)
    ensures LastSep(pre + name) == |pre| - 1
  {
    var p := pre + name;
    forall k | |pre| - 1 < k < |p| ensures p[k] != Sep {
      assert p[k] == name[k - |pre|];
    }
    LastSepUnique(p, |pre| - 1);
  }

  /** The directory part of `d/name` is `d` when `d` does not end in a
      separator. */
  lemma DirnameOfChild(d: string, name: string)
    requires d != [] && d[|d| - 1] != Sep
    requires NoSep(name)
    ensures Dirname(d + [Sep] + name) == d
  {
    var p := d + [Sep] + name;
    assert p == (d + [Sep]) + name;
    LastSepBeforeName(d + [Sep], name);
    var head := p[..|d| + 1];
    assert head == d + [Sep];
    assert head[..|head| - 1] == d;
    assert RStripSep(head) == RStripSep(d) == d;
  }

  /** The file name part of `pre + name` is `name` when `pre` is empty or
      ends in a separator. */
  lemma BasenameOfChild(pre: string, name: string)
    requires pre == [] || pre[|pre| - 1] == Sep
    requires NoSep(name)
    ensures Basename(pre + name) == name
  {
    LastSepBeforeName(pre, name);
    assert (pre + name)[|pre|..] == name;
  }

  /** For every path that `glob` builds from a base directory, a class
      directory `cls` and a file name (neither containing a separator), the
      parent-directory name is `cls` again. */
  lemma ParentNameOfJoin(base: string, cls: string, name: string)
    requires cls != [] && NoSep(cls) && NoSep(name)
    ensures ParentName(Join(Join(base, cls), name)) == cls
  {
    var pre := if base == [] || base[|base| - 1] == Sep then base else base + [Sep];
    var d := Join(base, cls);
    assert cls[0] != Sep;
    assert d == pre + cls;
    assert d[|d| - 1] == cls[|cls| - 1];
    assert Join(d, name) == d + [Sep] + name;
    DirnameOfChild(d, name);
    BasenameOfChild(pre, cls);
  }

  /** Two names without separators joined onto the same directory give the
      same path only if they are the same name. */
  lemma JoinInjective(root: string, a: string, b: string)
    requires NoSep(a) && NoSep(b)
    requires Join(root, a) == Join(root, b)
    ensures a == b
  {
    var pre := if root == [] || root[|root| - 1] == Sep then root else root + [Sep];
    if a != [] {
      assert a[0] != Sep;
    }
    if b != [] {
      assert b[0] != Sep;
    }
    assert Join(root, a) == pre + a;
    assert Join(root, b) == pre + b;
    assert a == (pre + a)[|pre|..];
    assert b == (pre + b)[|pre|..];
  }
}
