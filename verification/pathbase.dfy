/** The last element of a slash-separated path, as Go's `path.Base`
    computes it for the attachment's file name. */
module PathBase {
  import opened Substrings

  predicate AllSlashes(s: string)
  {
    forall k | 0 <= k < |s| :: s[k] == '/'
  }

  predicate NoSlash(s: string)
  {
    forall k | 0 <= k < |s| :: s[k] != '/'
  }

  /** `p` without the run of slashes that ends it. */
  function TrimTrailingSlashes(p: string): (r: string)
    ensures |r| <= |p| && r == p[..|r|]
    ensures |r| == 0 || r[|r| - 1] != '/'
    ensures AllSlashes(p[|r|..])
  {
    if |p| > 0 && p[|p| - 1] == '/' then
      var r := TrimTrailingSlashes(p[..|p| - 1]);
      assert p[|r|..] == p[..|p| - 1][|r|..] + ['/'];
      r
    else p
  }

  /** The empty path has base "."; trailing slashes are dropped; what
      follows the last remaining slash is the base, or "/" when nothing
      but slashes was left. */
  function Base(p: string): (r: string)
    ensures |r| > 0
    ensures r == "/" || NoSlash(r)
  {
    if p == "" then "."
    else
      var t := TrimTrailingSlashes(p);
      var e := t[LastIndex(t, '/') + 1..];
      if e == "" then "/" else e
  }

  /** A path made of a directory part (empty or ending in a slash), a
      non-empty name without slashes, and any number of trailing slashes
      has that name as its base. */
  lemma BaseOfJoin(dir: string, name: string, tail: string)
    requires dir == "" || dir[|dir| - 1] == '/'
    requires |name| > 0 && NoSlash(name) && AllSlashes(tail)
    ensures Base(dir + name + tail) == name
  {
    var p := dir + name + tail;
    TrimOfJoin(dir + name, tail);
    var t := TrimTrailingSlashes(p);
    assert t == dir + name;
    var i := LastIndex(t, '/');
    forall j | |dir| <= j < |t|
      ensures t[j] != '/'
    {
      assert t[j] == name[j - |dir|];
    }
    if |dir| > 0 {
      assert t[|dir| - 1] == '/';
    }
    assert i == |dir| - 1;
    assert t[i + 1..] == name;
  }

  /** Trimming stops at the last character that is not a slash. */
  lemma {:induction false} TrimOfJoin(s: string, tail: string)
    requires |s| > 0 && s[|s| - 1] != '/' && AllSlashes(tail)
    ensures TrimTrailingSlashes(s + tail) == s
    decreases |tail|
  {
    if |tail| > 0 {
      var p := s + tail;
      assert p[..|p| - 1] == s + tail[..|tail| - 1];
      TrimOfJoin(s, tail[..|tail| - 1]);
    }
  }

  /** A non-empty path of slashes only has base "/". */
  lemma BaseOfSlashes(p: string)
    requires |p| > 0 && AllSlashes(p)
    ensures Base(p) == "/"
  {
  }

  /** Trimming keeps every character up to the last one that is not a slash. */
  lemma TrimKeeps(p: string, k: int)
    requires 0 <= k < |p| && p[k] != '/'
    ensures k < |TrimTrailingSlashes(p)|
  {
    var t := TrimTrailingSlashes(p);
    forall j | |t| <= j < |p|
      ensures p[j] == '/'
    {
      assert p[j] == p[|t|..][j - |t|];
    }
  }

  /** Every path other than the empty one and the all-slash ones splits
      into a directory part, its base, and trailing slashes. */
  lemma BaseSplit(p: string) returns (dir: string, tail: string)
    requires exists k | 0 <= k < |p| :: p[k] != '/'
    ensures p == dir + Base(p) + tail
    ensures dir == "" || dir[|dir| - 1] == '/'
    ensures AllSlashes(tail)
  {
    var t := TrimTrailingSlashes(p);
    var k :| 0 <= k < |p| && p[k] != '/';
    TrimKeeps(p, k);
    var i := LastIndex(t, '/');
    var name := t[i + 1..];
    dir, tail := t[..i + 1], p[|t|..];
    forall j | 0 <= j < |name|
      ensures name[j] != '/'
    {
      assert name[j] == t[i + 1 + j];
    }
    assert t == dir + name;
    SplitAt(p, |t|);
    BaseOfJoin(dir, name, tail);
  }

  lemma SplitAt(p: string, n: int)
    requires 0 <= n <= |p|
    ensures p == p[..n] + p[n..]
  {
  }

  /** Taking the base of a base changes nothing. */
  lemma BaseIdempotent(p: string)
    ensures Base(Base(p)) == Base(p)
  {
    var r := Base(p);
    if r == "/" {
      BaseOfSlashes(r);
    } else {
      BaseOfName(r);
    }
  }

  /** A non-empty name without slashes is its own base. */
  lemma BaseOfName(name: string)
    requires |name| > 0 && NoSlash(name)
    ensures Base(name) == name
  {
    BaseOfJoin("", name, "");
    assert "" + name + "" == name;
  }
}
