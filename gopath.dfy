/** Go's `path.Base`: the last element of a slash-separated path. Trailing
    slashes are removed first; the empty path gives "." and a path made only
    of slashes gives "/". */
module GoPath {

  /** The path with every trailing '/' removed. */
  function TrimTrailingSlashes(p: string): string
  {
    if p != [] && p[|p| - 1] == '/' then TrimTrailingSlashes(p[..|p| - 1]) else p
  }

  /** Trimming keeps a prefix that does not end in '/' and drops only
      slashes. */
  lemma {:induction false} TrimTrailingSlashesDropsSlashes(p: string)
    ensures var r := TrimTrailingSlashes(p);
      && r <= p
      && (r == [] || r[|r| - 1] != '/')
      && (forall i :: |r| <= i < |p| ==> p[i] == '/')
  {
    if p != [] && p[|p| - 1] == '/' {
      TrimTrailingSlashesDropsSlashes(p[..|p| - 1]);
    }
  }

  /** What follows the last '/' of the path (all of it when there is none). */
  function LastElement(p: string): string
  {
    if p == [] || p[|p| - 1] == '/' then [] else LastElement(p[..|p| - 1]) + [p[|p| - 1]]
  }

  /** The last element is a slash-free suffix of the path, preceded by a
      '/' unless it is the whole path. */
  lemma {:induction false} LastElementIsSuffix(p: string)
    ensures var r := LastElement(p);
      && '/' !in r
      && |r| <= |p| && r == p[|p| - |r|..]
      && (|r| < |p| ==> p[|p| - |r| - 1] == '/')
  {
    if p != [] && p[|p| - 1] != '/' {
      var init := p[..|p| - 1];
      var e := LastElement(init);
      LastElementIsSuffix(init);
      assert LastElement(p) == e + [p[|p| - 1]];
      assert p[|p| - |e| - 1..] == init[|init| - |e|..] + [p[|p| - 1]];
      if |e| < |init| {
        assert p[|p| - |e| - 2] == init[|init| - |e| - 1];
      }
    }
  }

  /** The name an archive entry gets: never empty, and it names no
      directory (only the root "/" itself contains a slash). */
  function Base(p: string): (r: string)
    ensures r != []
    ensures r == "/" || '/' !in r
  {
    if p == [] then "."
    else
      var e := LastElement(TrimTrailingSlashes(p));
      LastElementIsSuffix(TrimTrailingSlashes(p));
      if e == [] then "/" else e
  }

  /** A name without any slash is its own base name. */
  lemma BaseOfFlatName(p: string)
    requires p != [] && '/' !in p
    ensures Base(p) == p
  {
    assert p[|p| - 1] in p;
    LastElementIsSuffix(p);
  }

  /** The directory part of a path never reaches the entry name. */
  lemma BaseAfterDirectory(dir: string, name: string)
    requires name != [] && '/' !in name
    ensures Base(dir + "/" + name) == name
  {
    var p := dir + "/" + name;
    assert p[|p| - 1] == name[|name| - 1];
    assert name[|name| - 1] in name;
    assert TrimTrailingSlashes(p) == p;
    LastElementIsSuffix(p);
    assert p[|p| - |name|..] == name;
    assert p[|p| - |name| - 1] == '/';
  }

  /** A trailing slash does not change the base name of a non-empty path. */
  lemma BaseIgnoresTrailingSlash(p: string)
    requires p != []
    ensures Base(p + "/") == Base(p)
  {
    var q := p + "/";
    assert q[..|q| - 1] == p;
    assert TrimTrailingSlashes(q) == TrimTrailingSlashes(p);
  }

  /** Taking the base name twice changes nothing. */
  lemma BaseIdempotent(p: string)
    ensures Base(Base(p)) == Base(p)
  {
    var b := Base(p);
    if b == "/" {
      assert TrimTrailingSlashes(b) == [];
    } else {
      BaseOfFlatName(b);
    }
  }
}
