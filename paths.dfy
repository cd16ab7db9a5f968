/** Paths held as strings, joined the way Rust's `Path::join` joins them on Unix. */
module Paths {

  /**
   * `base.join(rel)`: an absolute `rel` replaces `base`; otherwise one '/'
   * separates the two, unless `base` is empty or already ends in '/'.
   */
  function Join(base: string, rel: string): string
  {
    if rel != [] && rel[0] == '/' then rel
    else if base == [] || base[|base| - 1] == '/' then base + rel
    else base + "/" + rel
  }

  /** A path that `Join` appends rather than substitutes. */
  predicate Relative(p: string)
  {
    p == [] || p[0] != '/'
  }

  /** A non-empty relative path without a trailing '/', such as "devkitARM/bin". */
  predicate Segment(p: string)
  {
    p != [] && p[0] != '/' && p[|p| - 1] != '/'
  }

  /**
   * Joining a relative name onto a segment and then onto a base is the same
   * as joining the segment onto the base and then the name:
   * `base.join(dir.join(name)) == base.join(dir).join(name)`.
   */
  lemma JoinNested(base: string, dir: string, name: string)
    requires Segment(dir) && Relative(name)
    ensures Join(base, Join(dir, name)) == Join(Join(base, dir), name)
  {
    var inner := Join(dir, name);
    assert inner == dir + "/" + name;
    assert inner[0] == dir[0];
    var left := Join(base, dir);
    assert left[|left| - 1] == dir[|dir| - 1];
    if base == [] || base[|base| - 1] == '/' {
      assert Join(base, inner) == base + (dir + "/" + name);
      assert Join(left, name) == (base + dir) + "/" + name;
    } else {
      assert Join(base, inner) == base + "/" + (dir + "/" + name);
      assert Join(left, name) == (base + "/" + dir) + "/" + name;
    }
  }

  /**
   * Under a root directory `D` that does not end in '/', joining a relative
   * sub-directory and then an executable name gives `D/sub/name`.
   */
  lemma JoinUnderRoot(root: string, dir: string, name: string)
    requires root != [] && root[|root| - 1] != '/'
    requires Segment(dir) && Relative(name)
    ensures Join(Join(root, dir), name) == root + "/" + dir + "/" + name
  {
    var left := Join(root, dir);
    assert left == root + "/" + dir;
    assert left[|left| - 1] == dir[|dir| - 1];
  }
}
