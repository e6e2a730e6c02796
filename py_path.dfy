/** The POSIX path operations the data code relies on (Python's `posixpath`):
    `join` of two components, `basename` and `dirname`, over `seq<char>`. */
module PyPath {

  const SEP: char := '/'

  /** Python's `os.path.join(a, b)`: an absolute `b` replaces `a`; otherwise
      `b` is appended, with one separator unless `a` is empty or already
      ends in one. */
  function Join(a: string, b: string): (r: string)
    ensures |b| > 0 && b[0] == SEP ==> r == b
    ensures !(|b| > 0 && b[0] == SEP) ==> |r| >= |a| + |b| && r[|r| - |b|..] == b
  {
    if |b| > 0 && b[0] == SEP then b
    else if a == [] || a[|a| - 1] == SEP then a + b
    else a + [SEP] + b
  }

  /** For a relative `b`, `join(a, b)` is `a`, then one separator exactly
      when `a` is non-empty and does not already end in one, then `b`. */
  lemma JoinSpec(a: string, b: string)
    requires !(|b| > 0 && b[0] == SEP)
    ensures |Join(a, b)| == |a| + |b| + (if a == [] || a[|a| - 1] == SEP then 0 else 1)
    ensures Join(a, b)[..|a|] == a
    ensures !(a == [] || a[|a| - 1] == SEP) ==> Join(a, b)[|a|] == SEP
    ensures Join(a, b)[|Join(a, b)| - |b|..] == b
  {
  }

  /** Python's `str.rfind(c)`: the index of the last occurrence of `c`, or -1. */
  function RFind(s: string, c: char): (r: int)
    ensures -1 <= r < |s|
  {
    if s == [] then -1
    else if s[|s| - 1] == c then |s| - 1
    else RFind(s[..|s| - 1], c)
  }

  /** `RFind` finds the last occurrence: `c` is at `r`, and nowhere after. */
  lemma {:induction false} RFindSpec(s: string, c: char)
    ensures RFind(s, c) >= 0 ==> s[RFind(s, c)] == c
    ensures forall j :: RFind(s, c) < j < |s| ==> s[j] != c
  {
    if s != [] && s[|s| - 1] != c {
      RFindSpec(s[..|s| - 1], c);
    }
  }

  /** Python's `str.rstrip('/')`: drop every trailing separator. */
  function RStripSep(s: string): string {
    if s != [] && s[|s| - 1] == SEP then RStripSep(s[..|s| - 1]) else s
  }

  /** `posixpath.basename`: the trailing run of non-separator characters. */
  function Basename(p: string): string {
    if p == [] || p[|p| - 1] == SEP then [] else Basename(p[..|p| - 1]) + [p[|p| - 1]]
  }

  /** The head `posixpath.split` computes: everything up to and including
      the last separator. */
  function Head(p: string): string {
    if p == [] || p[|p| - 1] == SEP then p else Head(p[..|p| - 1])
  }

  /** `Basename` is `p[p.rfind('/') + 1:]`, as `posixpath.basename` writes it. */
  lemma {:induction false} BasenameAfterLastSep(p: string)
    ensures Basename(p) == p[RFind(p, SEP) + 1..]
  {
    if p != [] && p[|p| - 1] != SEP {
      var q := p[..|p| - 1];
      BasenameAfterLastSep(q);
      assert q[RFind(q, SEP) + 1..] + [p[|p| - 1]] == p[RFind(p, SEP) + 1..];
    }
  }

  /** `Head` is `p[:p.rfind('/') + 1]`, as `posixpath.dirname` writes it. */
  lemma {:induction false} HeadUpToLastSep(p: string)
    ensures Head(p) == p[..RFind(p, SEP) + 1]
  {
    if p != [] && p[|p| - 1] != SEP {
      var q := p[..|p| - 1];
      HeadUpToLastSep(q);
      assert q[..RFind(q, SEP) + 1] == p[..RFind(p, SEP) + 1];
    }
  }

  /** `posixpath.dirname`: the head, with its trailing separators removed
      unless nothing but separators is left (stripping leaves nothing
      exactly when the head is empty or all separators). */
  function Dirname(p: string): string {
    var head := Head(p);
    var stripped := RStripSep(head);
    if stripped != [] then stripped else head
  }

  /** A single path component as `os.listdir` yields it: non-empty, no separator. */
  predicate IsComponent(d: string) {
    d != [] && SEP !in d
  }

  /** Joining a component onto any root yields a prefix that is empty or
      ends in a separator, followed by the component itself. */
  lemma JoinComponent(root: string, d: string)
    requires IsComponent(d)
    ensures exists pre :: Join(root, d) == pre + d && (pre == [] || pre[|pre| - 1] == SEP)
  {
    if root == [] || root[|root| - 1] == SEP {
      assert Join(root, d) == root + d;
    } else {
      assert Join(root, d) == (root + [SEP]) + d;
    }
  }

  /** The last separator of `s + [SEP] + t` is the one just added when `t`
      has none. */
  lemma RFindBeforeTail(s: string, t: string)
    requires SEP !in t
    ensures RFind(s + [SEP] + t, SEP) == |s|
  {
    if t == [] {
      assert s + [SEP] + t == s + [SEP];
    } else {
      assert s + [SEP] + t == (s + [SEP]) + t;
      RFindBeforeComponent(s + [SEP], t);
    }
  }

  /** The last separator of `pre + d` lies in `pre` when `d` is a component. */
  lemma RFindBeforeComponent(pre: string, d: string)
    requires IsComponent(d)
    requires pre == [] || pre[|pre| - 1] == SEP
    ensures RFind(pre + d, SEP) == |pre| - 1
  {
    var p := pre + d;
    RFindSpec(p, SEP);
    forall j | |pre| <= j < |p|
      ensures p[j] != SEP
    {
      assert p[j] == d[j - |pre|];
    }
    if pre != [] {
      assert p[|pre| - 1] == SEP;
    }
  }

  /** `basename(pre + d)` is `d` when `pre` ends in a separator (or is empty). */
  lemma BasenameComponent(pre: string, d: string)
    requires IsComponent(d)
    requires pre == [] || pre[|pre| - 1] == SEP
    ensures Basename(pre + d) == d
  {
    RFindBeforeComponent(pre, d);
    BasenameAfterLastSep(pre + d);
    assert (pre + d)[|pre|..] == d;
  }

  /** `dirname(join(dir, file))` is `dir` when `dir` is non-empty, does not
      end in a separator, and `file` holds no separator. */
  lemma DirnameJoinFile(dir: string, file: string)
    requires dir != [] && dir[|dir| - 1] != SEP
    requires SEP !in file
    ensures Dirname(Join(dir, file)) == dir
  {
    var p := Join(dir, file);
    assert p == dir + [SEP] + file;
    RFindBeforeTail(dir, file);
    HeadUpToLastSep(p);
    var head := p[..|dir| + 1];
    assert head == dir + [SEP];
    assert head[..|head| - 1] == dir;
    assert RStripSep(dir) == dir;
  }

  /** The round trip the data code uses to recover a patient's folder:
      `basename(dirname(join(join(root, d), file)))` is `d` for every root,
      every component `d` and every file name without a separator. */
  lemma BasenameDirnameJoin(root: string, d: string, file: string)
    requires IsComponent(d)
    requires SEP !in file
    ensures Basename(Dirname(Join(Join(root, d), file))) == d
  {
    JoinComponent(root, d);
    var pre :| Join(root, d) == pre + d && (pre == [] || pre[|pre| - 1] == SEP);
    assert (pre + d)[|pre + d| - 1] == d[|d| - 1];
    DirnameJoinFile(pre + d, file);
    BasenameComponent(pre, d);
  }
}
