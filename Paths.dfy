/**
 * The three `os.path` operations the service relies on, on `/`-separated
 * strings, as Python's `posixpath` defines them: `basename`, `dirname` and
 * the two-argument `join`. No normalisation (no `..`, no repeated `/`
 * collapsing) happens in any of them, and none does here either.
 */
module Paths {

  const Sep: char := '/'

  /** The index just past the last `/` of `p`, or 0 when `p` has none
      (`p.rfind('/') + 1`). */
  function TailStart(p: string): (i: nat)
    ensures i <= |p|
    ensures i > 0 ==> p[i - 1] == Sep
    ensures forall j :: i <= j < |p| ==> p[j] != Sep
  {
    if |p| == 0 then 0
    else if p[|p| - 1] == Sep then |p|
    else TailStart(p[..|p| - 1])
  }

  /** `posixpath.basename`: everything after the last `/`. */
  function Basename(p: string): (b: string)
    ensures Sep !in b
    ensures Sep !in p ==> b == p
  {
    assert Sep !in p ==> TailStart(p) == 0;
    p[TailStart(p)..]
  }

  predicate AllSeparators(s: string) {
    forall j :: 0 <= j < |s| ==> s[j] == Sep
  }

  /** `str.rstrip('/')`. */
  function RStripSeparators(s: string): (r: string)
    ensures r <= s
    ensures r == [] || r[|r| - 1] != Sep
    ensures AllSeparators(s[|r|..])
  {
    if |s| == 0 || s[|s| - 1] != Sep then s
    else
      var r := RStripSeparators(s[..|s| - 1]);
      assert s[|r|..] == s[..|s| - 1][|r|..] + [Sep];
      r
  }

  /** `posixpath.dirname`: the head before the last `/`, with trailing
      slashes removed unless the head consists of slashes only. */
  function Dirname(p: string): (d: string)
    ensures |d| <= |p|
  {
    var head := p[..TailStart(p)];
    if head != [] && !AllSeparators(head) then RStripSeparators(head) else head
  }

  /** `posixpath.join(a, b)`: an absolute `b` replaces `a`; otherwise a
      separator is inserted unless `a` is empty or already ends in one. */
  function Join(a: string, b: string): string {
    if |b| > 0 && b[0] == Sep then b
    else if a == [] || a[|a| - 1] == Sep then a + b
    else a + [Sep] + b
  }

  /** An absolute directory name that does not end in `/`, such as
      `/images/grayscale`. */
  predicate IsPlainDirectory(d: string) {
    |d| > 0 && d[0] == Sep && d[|d| - 1] != Sep
  }

  /** `os.makedirs(d)` creates `d` and each missing ancestor; this is the set
      of directories it leaves in place. */
  function Lineage(d: string): (s: set<string>)
    ensures d in s
    decreases |d|
  {
    var parent := Dirname(d);
    if |parent| < |d| then {d} + Lineage(parent) else {d}
  }

  /** Where the last separator of `x + y` lies, given where it lies in `x`
      and in `y`. */
  lemma {:induction false} TailStartAppend(x: string, y: string)
    ensures TailStart(x + y) == if TailStart(y) > 0 then |x| + TailStart(y) else TailStart(x)
    decreases |y|
  {
    if |y| == 0 {
      assert x + y == x;
    } else if y[|y| - 1] == Sep {
    } else {
      assert (x + y)[..|x + y| - 1] == x + y[..|y| - 1];
      TailStartAppend(x, y[..|y| - 1]);
    }
  }

  /** The last component of a joined path is the last component of its
      second argument. */
  lemma BasenameJoin(a: string, b: string)
    ensures Basename(Join(a, b)) == Basename(b)
  {
    if |b| > 0 && b[0] == Sep {
    } else if a == [] {
      assert a + b == b;
    } else if a[|a| - 1] == Sep {
      TailStartAppend(a, b);
      if TailStart(b) == 0 {
        assert TailStart(a) == |a|;
        assert (a + b)[|a|..] == b;
      } else {
        assert (a + b)[|a| + TailStart(b)..] == b[TailStart(b)..];
      }
    } else {
      TailStartAppend(a + [Sep], b);
      if TailStart(b) == 0 {
        assert TailStart(a + [Sep]) == |a| + 1;
        assert (a + [Sep] + b)[|a| + 1..] == b;
      } else {
        assert (a + [Sep] + b)[|a| + 1 + TailStart(b)..] == b[TailStart(b)..];
      }
    }
  }

  /** Joining a plain directory with a relative name inserts exactly one
      separator, and `dirname` and `basename` take the result apart again. */
  lemma {:induction false} JoinSplit(dir: string, name: string)
    requires IsPlainDirectory(dir)
    requires Sep !in name
    ensures Join(dir, name) == dir + "/" + name
    ensures Dirname(Join(dir, name)) == dir
    ensures Basename(Join(dir, name)) == name
  {
    var p := dir + [Sep] + name;
    assert TailStart(name) == 0;
    TailStartAppend(dir + [Sep], name);
    assert TailStart(p) == |dir| + 1;
    var head := p[..|dir| + 1];
    assert head == dir + [Sep];
    assert !AllSeparators(head) by { assert head[|dir| - 1] != Sep; }
    assert head[..|head| - 1] == dir;
    assert p[|dir| + 1..] == name;
  }
}
