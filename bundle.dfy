/**
 * The path selection of `src/models/bundle.rs`: which files of the project
 * directory go into `bundle.zip` and under which name. The files listed in
 * the bundle description (the description itself, `.bundleignore` and the
 * platform icons) keep their place at the top of the archive; every other
 * walked entry goes under the game's source directory; version-control
 * data and the archive itself are pruned from the walk.
 *
 * Paths are sequences of components, as `Path::components` sees them on a
 * Unix system: empty components are gone, a `.` is `CurDir` when it starts
 * a relative path and is gone elsewhere, `..` is `ParentDir`, and every
 * other component is its bytes. The working directory is absolute, so its
 * root is left implicit.
 */
module BundleModel {
  import opened Bytes
  import Utf8
  import Order
  import BundleConfig

  datatype Component = CurDir | ParentDir | Normal(name: seq<byte>)

  type Path = seq<Component>

  /** The position of a component's variant in the declaration of `std::path::Component`. */
  function Rank(c: Component): nat
  {
    match c
    case CurDir => 0
    case ParentDir => 1
    case Normal(_) => 2
  }

  /** `CurDir`, then `ParentDir`, then names in byte order (the derived `Ord` of `Component`). */
  predicate ComponentLt(x: Component, y: Component)
  {
    if x.Normal? && y.Normal? then Order.Lex(x.name, y.name, ByteLt) else Rank(x) < Rank(y)
  }

  predicate ByteLt(x: byte, y: byte)
  {
    x < y
  }

  /** `Ord for Path`: componentwise lexicographic. */
  function PathLt(): (Path, Path) -> bool
  {
    Order.LexLt(ComponentLt)
  }

  lemma ComponentLtStrictTotalOrder()
    ensures Order.StrictTotalOrder(ComponentLt)
  {
    Order.LexStrictTotalOrder(ByteLt);
    forall x: Component, y: Component, z: Component | ComponentLt(x, y) && ComponentLt(y, z)
      ensures ComponentLt(x, z)
    {
      if x.Normal? {
        Order.LexTransitive(x.name, y.name, z.name, ByteLt);
      }
    }
    forall x: Component ensures !ComponentLt(x, x) {
      if x.Normal? {
        Order.LexIrreflexive(x.name, ByteLt);
      }
    }
    forall x: Component, y: Component | x != y ensures ComponentLt(x, y) || ComponentLt(y, x) {
      if x.Normal? && y.Normal? {
        Order.LexConnected(x.name, y.name, ByteLt);
      }
    }
  }

  lemma PathLtStrictTotalOrder()
    ensures Order.StrictTotalOrder(PathLt())
  {
    ComponentLtStrictTotalOrder();
    Order.LexLtStrictTotalOrder(ComponentLt);
  }

  /** The offset of the first `/` in `s`, or `|s|` when there is none. */
  function FirstSlash(s: string): (k: nat)
    ensures k <= |s|
    ensures k < |s| ==> s[k] == '/'
    ensures forall i :: 0 <= i < k ==> s[i] != '/'
  {
    if s == [] || s[0] == '/' then 0 else 1 + FirstSlash(s[1..])
  }

  /** The component one `/`-separated part of a path string contributes. */
  function PartComponents(part: string): (r: Path)
    ensures |r| <= 1
  {
    if part == "" || part == "." then []
    else if part == ".." then [ParentDir]
    else [Normal(Utf8.Encode(part))]
  }

  /** A name component that `Path::components` could not have produced. */
  predicate Empty(c: Component)
  {
    c.Normal? && (c.name == [] || c.name == Ascii("."))
  }

  /** The components of `s` other than a leading `CurDir` and the root. */
  function Parts(s: string): (r: Path)
    ensures forall i :: 0 <= i < |r| ==> r[i] != CurDir && !Empty(r[i])
    decreases |s|
  {
    if s == [] then []
    else
      var k := FirstSlash(s);
      var part := s[..k];
      if k < |s| then
        var rest := Parts(s[k + 1..]);
        PartNonEmpty(part);
        PartComponents(part) + rest
      else
        PartNonEmpty(part);
        PartComponents(part)
  }

  /** A part that is neither empty nor `.` contributes no empty name. */
  lemma PartNonEmpty(part: string)
    ensures forall c :: c in PartComponents(part) ==> c != CurDir && !Empty(c)
  {
    if part != "" && part != "." && part != ".." {
      var e := Utf8.Encode(part);
      if e == Ascii(".") {
        // a one-byte encoding is one ASCII character, that byte
        assert false;
      }
    }
  }

  /** Does a relative path string begin with a `.` component? */
  predicate LeadingCurDir(s: string)
  {
    s == "." || (|s| >= 2 && s[0] == '.' && s[1] == '/')
  }

  /** `Path::new(s).components()`, without the root. */
  function Components(s: string): Path
  {
    if LeadingCurDir(s) then [CurDir] + Parts(s) else Parts(s)
  }

  /** No component is empty or `.`, and `CurDir` stands first exactly when `s` starts with `.`. */
  lemma ComponentsClean(s: string)
    ensures forall i :: 0 <= i < |Components(s)| ==> !Empty(Components(s)[i])
    ensures forall i :: 0 <= i < |Components(s)| ==> (Components(s)[i] == CurDir <==> i == 0 && LeadingCurDir(s))
  {
  }

  /**
   * `base.join(s)` for a string `s` and an absolute `base`: an absolute `s`
   * replaces the base; otherwise its components follow the base's, and a
   * leading `.` of `s` is no longer a leading component, so it is gone.
   */
  function JoinStr(base: Path, s: string): Path
  {
    if |s| > 0 && s[0] == '/' then Parts(s) else base + Parts(s)
  }

  /** What `JoinStr` gives, in terms of the components of `s` on their own. */
  lemma JoinStrComponents(base: Path, s: string)
    ensures |s| > 0 && s[0] == '/' ==> JoinStr(base, s) == Components(s)
    ensures !(|s| > 0 && s[0] == '/') ==>
      && |base| <= |JoinStr(base, s)| && JoinStr(base, s)[..|base|] == base
      && Components(s) == (if LeadingCurDir(s) then [CurDir] else []) + JoinStr(base, s)[|base|..]
    ensures forall i :: |base| <= i < |JoinStr(base, s)| ==> JoinStr(base, s)[i] != CurDir && !Empty(JoinStr(base, s)[i])
  {
    var r := JoinStr(base, s);
    if !(|s| > 0 && s[0] == '/') {
      assert r[|base|..] == Parts(s);
    }
  }

  const IGNORE_NAME: string := ".bundleignore"
  const BUNDLE_NAME: string := "bundle.zip"

  /** The bytes of the two fixed root includes' names (both ASCII, so their UTF-8 encoding). */
  const CONFIG_FILE: seq<byte> := Ascii(BundleConfig.CONFIG_NAME)
  const IGNORE_FILE: seq<byte> := Ascii(IGNORE_NAME)

  /** Names pruned from the walk, with everything below them. */
  const IGNORE_DATA: seq<string> :=
    [".git", ".gitignore", ".gitattributes", ".gitmodules", ".hg", ".svn", BUNDLE_NAME]

  lemma IgnoreDataAscii()
    ensures forall i, j :: 0 <= i < |IGNORE_DATA| && 0 <= j < |IGNORE_DATA[i]| ==> IGNORE_DATA[i][j] as int < 128
  {
  }

  /** The ignored names as bytes; they are ASCII, so these are their UTF-8 encodings. */
  function IgnoredBytes(): (r: seq<seq<byte>>)
    ensures |r| == |IGNORE_DATA|
    ensures forall i :: 0 <= i < |r| ==> r[i] == Ascii(IGNORE_DATA[i])
  {
    IgnoreDataAscii();
    seq(|IGNORE_DATA|, i requires 0 <= i < |IGNORE_DATA| => Ascii(IGNORE_DATA[i]))
  }

  lemma IgnoredBytesEncoded(i: nat)
    requires i < |IGNORE_DATA|
    ensures IgnoredBytes()[i] == Utf8.Encode(IGNORE_DATA[i])
  {
    IgnoreDataAscii();
    Utf8.EncodeAscii(IGNORE_DATA[i]);
  }

  /**
   * The `filter_entry` test on a file name: a name whose bytes spell an
   * ignored name is pruned, every other one is kept.
   */
  predicate Keep(name: seq<byte>)
  {
    name !in IgnoredBytes()
  }

  /** A name that is not valid UTF-8 (`to_str` gives `None`) is never pruned. */
  lemma NotUtf8Kept(name: seq<byte>)
    requires !Utf8.Valid(name)
    ensures Keep(name)
  {
    forall i | 0 <= i < |IGNORE_DATA| ensures IgnoredBytes()[i] != name {
      IgnoredBytesEncoded(i);
      Utf8.EncodeValid(IGNORE_DATA[i]);
    }
  }

  /** A UTF-8 name is pruned exactly when the string it spells is in `IGNORE_DATA`. */
  lemma KeepEncoded(s: string)
    ensures Keep(Utf8.Encode(s)) <==> s !in IGNORE_DATA
  {
    if !Keep(Utf8.Encode(s)) {
      PrunedIsIgnored(s);
    }
    if s in IGNORE_DATA {
      var i :| 0 <= i < |IGNORE_DATA| && IGNORE_DATA[i] == s;
      IgnoredBytesEncoded(i);
    }
  }

  lemma PrunedIsIgnored(s: string)
    requires !Keep(Utf8.Encode(s))
    ensures s in IGNORE_DATA
  {
    var i :| 0 <= i < |IgnoredBytes()| && IgnoredBytes()[i] == Utf8.Encode(s);
    IgnoredBytesEncoded(i);
    IgnoreDataAscii();
    SameAsciiEncoding(s, IGNORE_DATA[i]);
  }

  /** Two strings with the same encoding, one of them ASCII, are equal. */
  lemma SameAsciiEncoding(s: string, t: string)
    requires forall j :: 0 <= j < |t| ==> t[j] as int < 128
    requires Utf8.Encode(s) == Utf8.Encode(t)
    ensures s == t
  {
    Utf8.EncodeAscii(t);
    Utf8.AsciiEncoding(s);
    assert |s| == |t|;
    forall j | 0 <= j < |s| ensures s[j] == t[j] {
      assert Ascii(s)[j] == Ascii(t)[j];
    }
  }

  /** A directory tree below the working directory, children in the order the directory lists them. */
  datatype Node = File(name: seq<byte>) | Dir(name: seq<byte>, children: seq<Node>)

  /** One entry the walk yields: its path relative to the working directory, and whether it is a file. */
  datatype Walked = Walked(rel: Path, isFile: bool)

  /** The walk below `n`, pre-order, pruned at names that are not kept; `parent` is the relative path of `n`'s directory. */
  function WalkNode(n: Node, parent: Path): seq<Walked>
    decreases n, 1
  {
    if !Keep(n.name) then []
    else
      var rel := parent + [Normal(n.name)];
      [Walked(rel, n.File?)] + (if n.Dir? then WalkNodes(n.children, rel) else [])
  }

  function WalkNodes(ns: seq<Node>, parent: Path): seq<Walked>
    decreases ns, 0
  {
    if ns == [] then [] else WalkNode(ns[0], parent) + WalkNodes(ns[1..], parent)
  }

  /** `WalkDir`'s name for its root: the last component of the directory, or `/` itself. */
  function RootName(cwd: Path): seq<byte>
  {
    if cwd == [] then Ascii("/")
    else match cwd[|cwd| - 1]
      case CurDir => Ascii(".")
      case ParentDir => Ascii("..")
      case Normal(b) => b
  }

  /** The filtered walk of the working directory: the root first (unless its own name is pruned), then its contents. */
  function Walk(cwd: Path, contents: seq<Node>): seq<Walked>
  {
    if Keep(RootName(cwd)) then [Walked([], false)] + WalkNodes(contents, []) else []
  }

  /** `rel` extends `parent` by one or more kept names. */
  ghost predicate KeptBelow(rel: Path, parent: Path)
  {
    && |parent| < |rel|
    && rel[..|parent|] == parent
    && forall k :: |parent| <= k < |rel| ==> rel[k].Normal? && Keep(rel[k].name)
  }

  lemma KeptBelowTrans(a: Path, b: Path, c: Path)
    requires KeptBelow(a, b) && KeptBelow(b, c)
    ensures KeptBelow(a, c)
  {
    assert a[..|c|] == a[..|b|][..|c|];
    forall k | |c| <= k < |a| ensures a[k].Normal? && Keep(a[k].name) {
      if k < |b| {
        assert a[k] == a[..|b|][k] == b[k];
      }
    }
  }

  lemma {:induction false} WalkNodeKept(n: Node, parent: Path)
    ensures forall w :: w in WalkNode(n, parent) ==> KeptBelow(w.rel, parent)
    decreases n, 1
  {
    if Keep(n.name) {
      var rel := parent + [Normal(n.name)];
      assert KeptBelow(rel, parent);
      if n.Dir? {
        WalkNodesKept(n.children, rel);
        forall w | w in WalkNodes(n.children, rel) ensures KeptBelow(w.rel, parent) {
          KeptBelowTrans(w.rel, rel, parent);
        }
      }
    }
  }

  lemma {:induction false} WalkNodesKept(ns: seq<Node>, parent: Path)
    ensures forall w :: w in WalkNodes(ns, parent) ==> KeptBelow(w.rel, parent)
    decreases ns, 0
  {
    if ns != [] {
      WalkNodeKept(ns[0], parent);
      WalkNodesKept(ns[1..], parent);
    }
  }

  /**
   * Nothing pruned is walked: every entry's relative path is made of kept
   * names only, so an ignored directory's whole subtree is absent.
   */
  lemma WalkKept(cwd: Path, contents: seq<Node>)
    ensures forall w :: w in Walk(cwd, contents) ==> Keep(RootName(cwd))
    ensures forall w, k :: w in Walk(cwd, contents) && 0 <= k < |w.rel| ==> w.rel[k].Normal? && Keep(w.rel[k].name)
  {
    WalkNodesKept(contents, []);
  }

  /** What the zip writer is asked to add. */
  datatype Record = AddFile(path: Path) | AddDirectory(path: Path)
  {
    function Path(): Path
    {
      match this
      case AddFile(p) => p
      case AddDirectory(p) => p
    }
  }

  /** A root include keeps its relative path; everything else goes under the source directory. */
  function ArchivePath(rel: Path, cwd: Path, includes: seq<Path>, source: string): Path
  {
    if cwd + rel in includes then rel else Components(source) + rel
  }

  function ToRecord(w: Walked, cwd: Path, includes: seq<Path>, source: string): Record
  {
    var p := ArchivePath(w.rel, cwd, includes, source);
    if w.isFile then AddFile(p) else AddDirectory(p)
  }

  /** The records of the walked entries in walk order, the walk root (empty relative path) skipped. */
  function Archive(entries: seq<Walked>, cwd: Path, includes: seq<Path>, source: string): (r: seq<Record>)
    ensures |r| <= |entries|
  {
    if entries == [] then []
    else
      var w := entries[|entries| - 1];
      var prev := Archive(entries[..|entries| - 1], cwd, includes, source);
      if w.rel == [] then prev else prev + [ToRecord(w, cwd, includes, source)]
  }

  /** Archiving one more entry appends its record, unless it is the root. */
  lemma ArchiveSnoc(entries: seq<Walked>, i: nat, cwd: Path, includes: seq<Path>, source: string)
    requires i < |entries|
    ensures Archive(entries[..i + 1], cwd, includes, source)
      == Archive(entries[..i], cwd, includes, source)
         + (if entries[i].rel == [] then [] else [ToRecord(entries[i], cwd, includes, source)])
  {
    assert entries[..i + 1][..i] == entries[..i];
  }

  /**
   * Every record comes from a non-root entry, with the entry's kind, at the
   * entry's relative path when that is a root include and under the source
   * directory otherwise; and every non-root entry has its record.
   */
  lemma {:induction false} ArchiveRecords(entries: seq<Walked>, cwd: Path, includes: seq<Path>, source: string)
    ensures forall r :: r in Archive(entries, cwd, includes, source) ==>
      exists w :: w in entries && w.rel != [] && r == ToRecord(w, cwd, includes, source)
    ensures forall w :: w in entries && w.rel != [] ==> ToRecord(w, cwd, includes, source) in Archive(entries, cwd, includes, source)
  {
    if entries != [] {
      var front := entries[..|entries| - 1];
      ArchiveRecords(front, cwd, includes, source);
      assert entries == front + [entries[|entries| - 1]];
    }
  }

  /** A walked description file at the top of the tree, being a root include, is archived at the top. */
  lemma ConfigArchivedAtTop(entries: seq<Walked>, cwd: Path, includes: seq<Path>, source: string)
    requires cwd + [Normal(CONFIG_FILE)] in includes
    requires Walked([Normal(CONFIG_FILE)], true) in entries
    ensures AddFile([Normal(CONFIG_FILE)]) in Archive(entries, cwd, includes, source)
  {
    ArchiveRecords(entries, cwd, includes, source);
    assert ToRecord(Walked([Normal(CONFIG_FILE)], true), cwd, includes, source) == AddFile([Normal(CONFIG_FILE)]);
  }

  /** `sort` then `dedup` on a list of paths: strictly ascending, same paths. */
  method SortDedup(paths: seq<Path>) returns (r: seq<Path>)
    ensures Order.StrictlySorted(r, PathLt())
    ensures Order.Elems(r) == Order.Elems(paths)
  {
    PathLtStrictTotalOrder();
    var sorted := Order.Sort(paths, PathLt());
    r := Order.Dedup(sorted, PathLt());
    forall p ensures p in Order.Elems(sorted) <==> p in Order.Elems(paths) {
      calc <==> {
        p in Order.Elems(sorted);
        p in multiset(sorted);
        p in multiset(paths);
        p in Order.Elems(paths);
      }
    }
  }

  /**
   * The root includes do not depend on the order the icon map is visited
   * in: two strictly ascending lists of the same paths are equal.
   */
  lemma RootIncludesOrderFree(a: seq<Path>, b: seq<Path>)
    requires Order.StrictlySorted(a, PathLt()) && Order.StrictlySorted(b, PathLt())
    requires Order.Elems(a) == Order.Elems(b)
    ensures a == b
  {
    PathLtStrictTotalOrder();
    Order.StrictlySortedUnique(a, b, PathLt());
  }

  /** A non-empty relative path made of kept names only. */
  ghost predicate KeptRelative(rel: Path)
  {
    rel != [] && forall k :: 0 <= k < |rel| ==> rel[k].Normal? && Keep(rel[k].name)
  }

  /**
   * Every archived path ends in the non-empty relative path of a walked
   * entry, made of kept names only, and is that path itself or that path
   * under the source directory.
   */
  lemma ArchivedNamesKept(cwd: Path, contents: seq<Node>, includes: seq<Path>, source: string)
    ensures forall r :: r in Archive(Walk(cwd, contents), cwd, includes, source) ==>
      exists rel :: KeptRelative(rel) && (r.Path() == rel || r.Path() == Components(source) + rel)
  {
    var entries := Walk(cwd, contents);
    ArchiveRecords(entries, cwd, includes, source);
    WalkKept(cwd, contents);
    forall r | r in Archive(entries, cwd, includes, source)
      ensures exists rel :: KeptRelative(rel) && (r.Path() == rel || r.Path() == Components(source) + rel)
    {
      var w :| w in entries && w.rel != [] && r == ToRecord(w, cwd, includes, source);
      assert KeptRelative(w.rel);
      assert r.Path() == ArchivePath(w.rel, cwd, includes, source);
    }
  }

  /** `Bundle`: the working directory, the bundle description, the selected root includes and what was written. */
  class Bundle {
    const cwd: Path
    const config: BundleConfig.BundleConfig
    var rootIncludes: seq<Path>
    var zip: seq<Record>

    /** `Bundle::new` once the working directory is known and the archive is created. */
    constructor (cwd: Path, config: BundleConfig.BundleConfig)
      ensures this.cwd == cwd && this.config == config
      ensures rootIncludes == [] && zip == []
    {
      this.cwd := cwd;
      this.config := config;
      rootIncludes := [];
      zip := [];
    }

    /** The paths `collect_root_includes` keeps, given the set of paths that exist. */
    ghost function IncludeSet(icons: map<BundleConfig.PlatformTarget, string>, existing: set<Path>): set<Path>
    {
      {cwd + [Normal(CONFIG_FILE)]}
      + (if cwd + [Normal(IGNORE_FILE)] in existing then {cwd + [Normal(IGNORE_FILE)]} else {})
      + IconIncludes(icons, icons.Keys, existing)
    }

    ghost function IconIncludes(icons: map<BundleConfig.PlatformTarget, string>, keys: set<BundleConfig.PlatformTarget>, existing: set<Path>): set<Path>
    {
      set t | t in keys && t in icons && JoinStr(cwd, icons[t]) in existing :: JoinStr(cwd, icons[t])
    }

    lemma IconIncludesStep(icons: map<BundleConfig.PlatformTarget, string>, rest: set<BundleConfig.PlatformTarget>,
                           t: BundleConfig.PlatformTarget, existing: set<Path>)
      requires t in rest && rest <= icons.Keys
      ensures IconIncludes(icons, icons.Keys - (rest - {t}), existing)
        == IconIncludes(icons, icons.Keys - rest, existing)
           + (if JoinStr(cwd, icons[t]) in existing then {JoinStr(cwd, icons[t])} else {})
    {
      assert icons.Keys - (rest - {t}) == (icons.Keys - rest) + {t};
    }

    /** The icon loop of `collect_root_includes`: each existing icon path is pushed, in map order. */
    method AddExistingIcons(includes: seq<Path>, existing: set<Path>) returns (r: seq<Path>)
      ensures Order.Elems(r) == Order.Elems(includes) + IconIncludes(config.metadata.icons, config.metadata.icons.Keys, existing)
    {
      var icons := config.metadata.icons;
      r := includes;
      var rest := icons.Keys;
      while rest != {}
        invariant rest <= icons.Keys
        invariant Order.Elems(r) == Order.Elems(includes) + IconIncludes(icons, icons.Keys - rest, existing)
        decreases rest
      {
        var t :| t in rest;
        var path := JoinStr(cwd, icons[t]);
        Order.ElemsAppend(r, path);
        if path in existing {
          r := r + [path];
        }
        IconIncludesStep(icons, rest, t, existing);
        rest := rest - {t};
      }
    }

    /**
     * `collect_root_includes`: the description file always, `.bundleignore`
     * and each icon when they exist, sorted and without duplicates. The
     * icons are visited in whatever order the map yields them.
     */
    method CollectRootIncludes(existing: set<Path>)
      modifies this
      ensures zip == old(zip)
      ensures Order.StrictlySorted(rootIncludes, PathLt())
      ensures Order.Elems(rootIncludes) == IncludeSet(config.metadata.icons, existing)
      ensures cwd + [Normal(CONFIG_FILE)] in rootIncludes
      ensures cwd + [Normal(IGNORE_FILE)] in rootIncludes <==> cwd + [Normal(IGNORE_FILE)] in existing
      ensures forall t :: t in config.metadata.icons && JoinStr(cwd, config.metadata.icons[t]) in existing ==>
        JoinStr(cwd, config.metadata.icons[t]) in rootIncludes
      ensures forall p :: p in rootIncludes ==> p == cwd + [Normal(CONFIG_FILE)] || p in existing
    {
      var icons := config.metadata.icons;
      var includes: seq<Path> := [cwd + [Normal(CONFIG_FILE)]];
      var ignore := cwd + [Normal(IGNORE_FILE)];
      if ignore in existing {
        includes := includes + [ignore];
      }
      includes := AddExistingIcons(includes, existing);
      rootIncludes := SortDedup(includes);
      assert forall p :: p in rootIncludes <==> p in Order.Elems(rootIncludes);
      assert CONFIG_FILE != IGNORE_FILE by {
        assert CONFIG_FILE[0] != IGNORE_FILE[0];
      }
      assert (cwd + [Normal(CONFIG_FILE)])[|cwd|] != (cwd + [Normal(IGNORE_FILE)])[|cwd|];
      assert forall p :: p in IconIncludes(icons, icons.Keys, existing) ==> p in existing;
    }

    /**
     * The loop of `add_tree` over the walked entries: the root is skipped,
     * every other entry is handed to the zip writer at its archive path.
     */
    method ArchiveEntries(entries: seq<Walked>)
      modifies this
      ensures rootIncludes == old(rootIncludes)
      ensures zip == old(zip) + Archive(entries, cwd, rootIncludes, config.build.source)
    {
      var source := config.build.source;
      for i := 0 to |entries|
        invariant rootIncludes == old(rootIncludes)
        invariant zip == old(zip) + Archive(entries[..i], cwd, rootIncludes, source)
      {
        var w := entries[i];
        ArchiveSnoc(entries, i, cwd, rootIncludes, source);
        if w.rel != [] {
          var isRootFile := cwd + w.rel in rootIncludes;
          var filePath := if isRootFile then w.rel else Components(source) + w.rel;
          if w.isFile {
            zip := zip + [AddFile(filePath)];
          } else {
            zip := zip + [AddDirectory(filePath)];
          }
        }
      }
      assert entries[..|entries|] == entries;
    }

    /**
     * `add_tree`: selects the root includes, then hands every entry of the
     * filtered walk but the root to the zip writer, at its archive path.
     * The description file, when the walk meets it at the top of the
     * working directory, is archived at the top of the archive.
     */
    method AddTree(existing: set<Path>, contents: seq<Node>)
      modifies this
      ensures Order.StrictlySorted(rootIncludes, PathLt())
      ensures Order.Elems(rootIncludes) == IncludeSet(config.metadata.icons, existing)
      ensures zip == old(zip) + Archive(Walk(cwd, contents), cwd, rootIncludes, config.build.source)
      ensures Walked([Normal(CONFIG_FILE)], true) in Walk(cwd, contents) ==>
        AddFile([Normal(CONFIG_FILE)]) in zip
    {
      CollectRootIncludes(existing);
      var entries := Walk(cwd, contents);
      ArchiveEntries(entries);
      if Walked([Normal(CONFIG_FILE)], true) in entries {
        ConfigArchivedAtTop(entries, cwd, rootIncludes, config.build.source);
      }
    }
  }
}
