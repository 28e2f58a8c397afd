/** Environment trees, the entries that are to turn the default tree into a given one,
    and the replay of entries on a tree. */
module EnvTree {
  import opened Octets
  import opened EnvFormat

  type Path = seq<byte>

  datatype Entry = File(data: seq<byte>) | Link(target: seq<byte>)

  type Tree = map<Path, Entry>

  /** What stands at the end of a link.  Where the links of a tree lead also depends on
      what is around it, so the views below are parameters. */
  datatype Target = Missing | Directory | Contents(data: seq<byte>)

  type View = Path -> Target
  type Resolver = (Tree, Path) -> Target

  const SLASH: byte := 47

  /** What follows the last slash. */
  function Basename(p: Path): seq<byte> {
    if p == [] || p[|p| - 1] == SLASH then [] else Basename(p[..|p| - 1]) + [p[|p| - 1]]
  }

  lemma {:induction false} BasenameIs(p: Path)
    ensures var b := Basename(p);
            |b| <= |p| && b == p[|p| - |b|..] && 47 !in b && (|b| < |p| ==> p[|p| - |b| - 1] == 47)
  {
    if p != [] && p[|p| - 1] != SLASH {
      var q, c := p[..|p| - 1], p[|p| - 1];
      BasenameIs(q);
      var b := Basename(q);
      assert Basename(p) == b + [c];
      assert p[|q| - |b|..] == q[|q| - |b|..] + [c];
    }
  }

  /** What lstat reports as the size of a link: its length on the host, but zero on ramfs. */
  type Sizes = Path -> nat

  /** What readlink leaves in a buffer of one byte more than that size. */
  function LinkBytes(target: seq<byte>, n: nat): (r: seq<byte>)
    ensures |r| == n + 1
  {
    if |target| <= n then target + Zeros(n + 1 - |target|) else target[..n + 1]
  }

  /** How a file or link is stored, `n` being the size reported for a link. */
  function ToInode(p: Path, e: Entry, n: nat): Inode {
    match e
    case File(data) => Inode(p, data, MODE_RWX)
    case Link(target) => Inode(p, LinkBytes(target, n), MODE_LINK)
  }

  /** How the absence of a file of the default tree is stored: as a link to its own
      basename. */
  function Whiteout(p: Path): Inode {
    Inode(p, Basename(p) + [0], MODE_LINK)
  }

  // ------------------------------------------------------------------
  // Directories: what stands above the paths of a tree

  predicate Above(d: Path, p: Path) {
    0 < |d| < |p| && p[..|d|] == d && p[|d|] == SLASH
  }

  lemma AboveIs(d: Path, p: Path)
    ensures Above(d, p) <==> d != [] && exists x {:trigger d + [47] + x} :: p == d + [47] + x
  {
    if Above(d, p) {
      assert p == d + [47] + p[|d| + 1..];
    }
  }

  predicate IsDir(t: Tree, p: Path) {
    exists q {:trigger Above(p, q)} | q in t :: Above(p, q)
  }

  /** A file or link stands where a directory above `p` would have to be. */
  predicate Blocked(t: Tree, p: Path) {
    exists d {:trigger Above(d, p)} | d in t :: Above(d, p)
  }

  predicate LinkAbove(t: Tree, p: Path) {
    exists d {:trigger Above(d, p)} | d in t :: t[d].Link? && Above(d, p)
  }

  function Parents(p: Path): set<Path> {
    set i | 0 < i < |p| && p[i] == SLASH :: p[..i]
  }

  lemma ParentsAbove(d: Path, p: Path)
    ensures d in Parents(p) <==> Above(d, p)
  {
    if Above(d, p) {
      assert p[..|d|] in Parents(p);
    }
  }

  function DirsOf(t: Tree): set<Path> {
    set p, d | p in t && d in Parents(p) :: d
  }

  lemma DirsOfTree(t: Tree, d: Path)
    ensures d in DirsOf(t) <==> IsDir(t, d)
  {
    if d in DirsOf(t) {
      var p :| p in t && d in Parents(p);
      ParentsAbove(d, p);
    }
    if IsDir(t, d) {
      var p :| p in t && Above(d, p);
      ParentsAbove(d, p);
    }
  }

  /** No path of a tree is at the same time a directory of it. */
  ghost predicate WellFormed(t: Tree) {
    forall p, q {:trigger Above(p, q)} | p in t && q in t :: !Above(p, q)
  }

  /** No path of one tree is a directory of the other. */
  ghost predicate NoClash(t: Tree, u: Tree) {
    forall p, q {:trigger Above(p, q)} | (p in t && q in u) || (p in u && q in t) :: !Above(p, q)
  }

  // ------------------------------------------------------------------
  // Saving: what to store

  /** What stands at a path, links being followed; `dirs` are directories that may be
      empty. */
  function StandsAt(t: Tree, dirs: set<Path>, view: View, p: Path): Target {
    if p in t then (if t[p].Link? then view(p) else Contents(t[p].data))
    else if IsDir(t, p) || p in dirs then Directory
    else if LinkAbove(t, p) then view(p)
    else Missing
  }

  /** The current tree with its directories, the default tree, what their links lead to,
      and the sizes reported for the links of the current one. */
  datatype Trees = Trees(env: Tree, dirs: set<Path>, dflt: Tree, envView: View, dfltView: View, size: Sizes) {
    predicate Exists(p: Path) {
      StandsAt(env, dirs, envView, p) != Missing
    }

    /** What compare_file finds: both can be opened and read the same, links being
        followed. */
    predicate ReadsSame(p: Path) {
      var d := StandsAt(dflt, {}, dfltView, p);
      d.Contents? && StandsAt(env, dirs, envView, p) == d
    }
  }

  /** One call of file_action. */
  function FileAction(w: Trees, p: Path, es: seq<Inode>): seq<Inode>
    requires p in w.env
  {
    if w.ReadsSame(p) then es else [ToInode(p, w.env[p], w.size(p))] + es
  }

  /** One call of file_remove_action. */
  function FileRemoveAction(w: Trees, p: Path, es: seq<Inode>): seq<Inode> {
    if w.Exists(p) then es else [Whiteout(p)] + es
  }

  ghost predicate Named(es: seq<Inode>, p: Path) {
    exists i :: 0 <= i < |es| && es[i].name == p
  }

  ghost predicate Distinct(es: seq<Inode>) {
    forall i, j | 0 <= i < j < |es| :: es[i].name != es[j].name
  }

  /** Each entry is what the tree has at its name. */
  ghost predicate Right(env: Tree, size: Sizes, es: seq<Inode>) {
    forall i {:trigger es[i]} | 0 <= i < |es| ::
      es[i].name in env && es[i] == ToInode(es[i].name, env[es[i].name], size(es[i].name))
  }

  ghost predicate Whiteouts(es: seq<Inode>) {
    forall i {:trigger es[i]} | 0 <= i < |es| :: es[i] == Whiteout(es[i].name)
  }

  /** Of the paths `ps`, those that do not read the same have an entry. */
  ghost predicate ChangedAmong(w: Trees, ps: seq<Path>, es: seq<Inode>) {
    && Right(w.env, w.size, es) && Distinct(es)
    && forall p {:trigger Named(es, p)} :: Named(es, p) <==> p in ps && !w.ReadsSame(p)
  }

  /** Of the paths `ps`, those that do not exist have a whiteout. */
  ghost predicate RemovedAmong(w: Trees, ps: seq<Path>, es: seq<Inode>) {
    Whiteouts(es) && forall p {:trigger Named(es, p)} :: Named(es, p) <==> p in ps && !w.Exists(p)
  }

  lemma NamedPrepend(e: Inode, es: seq<Inode>, p: Path)
    ensures Named([e] + es, p) <==> e.name == p || Named(es, p)
  {
    var fs := [e] + es;
    if e.name == p {
      assert fs[0].name == p;
    }
    if Named(es, p) {
      var i :| 0 <= i < |es| && es[i].name == p;
      assert fs[i + 1].name == p;
    }
    if Named(fs, p) && e.name != p {
      var i :| 0 <= i < |fs| && fs[i].name == p;
      assert es[i - 1].name == p;
    }
  }

  lemma ChangedStep(w: Trees, ps: seq<Path>, p: Path, es: seq<Inode>)
    requires ChangedAmong(w, ps, es) && p in w.env && p !in ps
    ensures ChangedAmong(w, ps + [p], FileAction(w, p, es))
  {
    var r := FileAction(w, p, es);
    if !w.ReadsSame(p) {
      assert !Named(es, p);
      assert r[0].name == p && forall i | 0 < i < |r| :: r[i] == es[i - 1];
    }
    forall q ensures Named(r, q) <==> q in ps + [p] && !w.ReadsSame(q) {
      assert q in ps + [p] <==> q in ps || q == p;
      assert Named(es, q) <==> q in ps && !w.ReadsSame(q);
      NamedPrepend(ToInode(p, w.env[p], w.size(p)), es, q);
    }
  }

  lemma WhiteoutName(p: Path)
    ensures Whiteout(p).name == p
  {
  }

  lemma RemovedStep(w: Trees, ps: seq<Path>, p: Path, es: seq<Inode>)
    requires RemovedAmong(w, ps, es)
    ensures RemovedAmong(w, ps + [p], FileRemoveAction(w, p, es))
  {
    hide Whiteout, Basename;
    WhiteoutName(p);
    var r := FileRemoveAction(w, p, es);
    if !w.Exists(p) {
      assert forall i | 0 < i < |r| :: r[i] == es[i - 1];
    }
    forall q ensures Named(r, q) <==> q in ps + [p] && !w.Exists(q) {
      assert q in ps + [p] <==> q in ps || q == p;
      assert Named(es, q) <==> q in ps && !w.Exists(q);
      NamedPrepend(Whiteout(p), es, q);
    }
  }

  ghost predicate NoRepeats(paths: seq<Path>) {
    forall i, j | 0 <= i < j < |paths| :: paths[i] != paths[j]
  }

  /** Among the paths, `x` comes after `y`. */
  ghost predicate Later(paths: seq<Path>, x: Path, y: Path) {
    y in paths && forall a, b | 0 <= a < |paths| && 0 <= b < |paths| && paths[a] == x && paths[b] == y :: b < a
  }

  /** The entries come in the order opposite to that of the paths. */
  ghost predicate Backwards(paths: seq<Path>, es: seq<Inode>) {
    && (forall i {:trigger es[i]} | 0 <= i < |es| :: es[i].name in paths)
    && forall i, j {:trigger es[i], es[j]} | 0 <= i < j < |es| :: Later(paths, es[i].name, es[j].name)
  }

  lemma NothingYet(paths: seq<Path>)
    ensures Backwards(paths, [])
  {
  }

  lemma LaterMore(paths: seq<Path>, p: Path, x: Path, y: Path)
    requires p !in paths && y in paths && (x == p || (x in paths && Later(paths, x, y)))
    ensures Later(paths + [p], x, y)
  {
    var ps := paths + [p];
    forall a, b | 0 <= a < |ps| && 0 <= b < |ps| && ps[a] == x && ps[b] == y ensures b < a {
      assert b < |paths|;
      if x != p {
        assert paths[a] == x && paths[b] == y;
      }
    }
  }

  lemma BackwardsStep(paths: seq<Path>, p: Path, es: seq<Inode>, e: Inode)
    requires Backwards(paths, es) && p !in paths && e.name == p
    ensures Backwards(paths + [p], es) && Backwards(paths + [p], [e] + es)
  {
    hide Later;
    var ps, fs := paths + [p], [e] + es;
    forall i, j | 0 <= i < j < |fs| ensures Later(ps, fs[i].name, fs[j].name) {
      assert fs[j] == es[j - 1] && es[j - 1].name in paths;
      if i > 0 {
        assert fs[i] == es[i - 1] && es[i - 1].name in paths;
      }
      LaterMore(paths, p, fs[i].name, fs[j].name);
    }
    forall i, j | 0 <= i < j < |es| ensures Later(ps, es[i].name, es[j].name) {
      LaterMore(paths, p, es[i].name, es[j].name);
    }
  }

  /** The pass over the current tree. */
  method FilePass(w: Trees, paths: seq<Path>) returns (es: seq<Inode>)
    requires forall p {:trigger p in paths} | p in paths :: p in w.env
    requires forall i, j | 0 <= i < j < |paths| :: paths[i] != paths[j]
    ensures ChangedAmong(w, paths, es) && Backwards(paths, es)
  {
    hide ChangedAmong, Backwards;
    es := [];
    NothingYet(paths[..0]);
    assert ChangedAmong(w, [], []) by { NothingChanged(w); }
    var k := 0;
    while k < |paths|
      invariant 0 <= k <= |paths|
      invariant ChangedAmong(w, paths[..k], es) && Backwards(paths[..k], es)
    {
      var p := paths[k];
      assert p in paths && p !in paths[..k];
      ChangedStep(w, paths[..k], p, es);
      assert paths[..k + 1] == paths[..k] + [p];
      BackwardsStep(paths[..k], p, es, ToInode(p, w.env[p], w.size(p)));
      es := FileAction(w, p, es);
      k := k + 1;
    }
    assert paths[..k] == paths;
  }

  lemma NothingChanged(w: Trees)
    ensures ChangedAmong(w, [], [])
  {
  }

  /** The pass over the default tree, which puts its entries before those of the
      first. */
  method RemovePass(w: Trees, paths: seq<Path>, before: seq<Inode>) returns (es: seq<Inode>)
    ensures exists k: nat {:trigger es[k..]} ::
              k <= |es| && es[k..] == before && RemovedAmong(w, paths, es[..k]) && (NoRepeats(paths) ==> Backwards(paths, es[..k]))
  {
    hide RemovedAmong, FileRemoveAction, Backwards;
    NothingYet(paths[..0]);
    es := before;
    ghost var k: nat := 0;
    assert RemovedAmong(w, [], []) by { NothingRemoved(w); }
    var n := 0;
    while n < |paths|
      invariant 0 <= n <= |paths| && k <= |es| && es[k..] == before
      invariant RemovedAmong(w, paths[..n], es[..k]) && (NoRepeats(paths) ==> Backwards(paths[..n], es[..k]))
    {
      var p := paths[n];
      RemovedStep(w, paths[..n], p, es[..k]);
      assert paths[..n + 1] == paths[..n] + [p];
      if NoRepeats(paths) {
        BackwardsRemove(w, paths[..n], p, es[..k]);
      }
      RemoveSplit(w, p, es, k);
      k := |FileRemoveAction(w, p, es[..k])|;
      es := FileRemoveAction(w, p, es);
      n := n + 1;
    }
    assert paths[..n] == paths;
  }

  lemma BackwardsRemove(w: Trees, paths: seq<Path>, p: Path, es: seq<Inode>)
    requires Backwards(paths, es) && p !in paths
    ensures Backwards(paths + [p], FileRemoveAction(w, p, es))
  {
    hide Whiteout, Backwards;
    WhiteoutName(p);
    BackwardsStep(paths, p, es, Whiteout(p));
  }

  lemma NothingRemoved(w: Trees)
    ensures RemovedAmong(w, [], [])
  {
  }

  lemma RemoveSplit(w: Trees, p: Path, es: seq<Inode>, k: nat)
    requires k <= |es|
    ensures FileRemoveAction(w, p, es) == FileRemoveAction(w, p, es[..k]) + es[k..]
  {
    hide Whiteout, Basename;
    assert es == es[..k] + es[k..];
    assert [Whiteout(p)] + es == [Whiteout(p)] + es[..k] + es[k..];
  }

  /** What is saved: whiteouts for what the default tree has and the current one has
      not, and an entry for every path of the current tree that does not read the same
      in both. */
  ghost predicate Delta(w: Trees, es: seq<Inode>, k: nat) {
    && k <= |es| && Whiteouts(es[..k]) && Right(w.env, w.size, es[k..]) && Distinct(es[k..])
    && (forall p {:trigger Named(es[..k], p)} :: Named(es[..k], p) <==> p in w.dflt && !w.Exists(p))
    && (forall p {:trigger Named(es[k..], p)} :: Named(es[k..], p) <==> p in w.env && !w.ReadsSame(p))
  }

  /** For a path that is a file, or nothing, in either tree: it is saved exactly when its
      bytes are not those of the default tree, and it has a whiteout exactly when it is gone. */
  lemma DeltaOfFile(w: Trees, es: seq<Inode>, k: nat, p: Path)
    requires Delta(w, es, k) && (p in w.env ==> w.env[p].File?) && (p in w.dflt ==> w.dflt[p].File?)
    requires !IsDir(w.env, p) && p !in w.dirs && !LinkAbove(w.env, p) && !IsDir(w.dflt, p) && !LinkAbove(w.dflt, p)
    ensures Named(es[k..], p) <==> p in w.env && (p !in w.dflt || w.env[p].data != w.dflt[p].data)
    ensures Named(es[..k], p) <==> p in w.dflt && p !in w.env
  {
    assert Named(es[..k], p) <==> p in w.dflt && !w.Exists(p);
    assert Named(es[k..], p) <==> p in w.env && !w.ReadsSame(p);
  }

  /** For a link of the current tree it is what it leads to that counts, and a directory
      counts as existing. */
  lemma DeltaOfLink(w: Trees, es: seq<Inode>, k: nat, p: Path)
    requires Delta(w, es, k)
    ensures p in w.env && w.env[p].Link? && p in w.dflt && w.dflt[p].File? ==>
              (Named(es[k..], p) <==> w.envView(p) != Contents(w.dflt[p].data)) && (Named(es[..k], p) <==> w.envView(p) == Missing)
    ensures p in w.env && w.env[p].Link? && p in w.dflt && w.dflt[p].Link? ==>
              (Named(es[k..], p) <==> !(w.dfltView(p).Contents? && w.envView(p) == w.dfltView(p))) && (Named(es[..k], p) <==> w.envView(p) == Missing)
    ensures p in w.dflt && p !in w.env && (IsDir(w.env, p) || p in w.dirs) ==> !Named(es[..k], p)
  {
    assert Named(es[..k], p) <==> p in w.dflt && !w.Exists(p);
    assert Named(es[k..], p) <==> p in w.env && !w.ReadsSame(p);
  }

  /** The two passes of envfs_save, each over a listing of its tree. */
  method CollectEntries(w: Trees, envPaths: seq<Path>, dfltPaths: seq<Path>) returns (es: seq<Inode>)
    requires forall p {:trigger p in w.env} {:trigger p in envPaths} :: p in w.env <==> p in envPaths
    requires forall p {:trigger p in w.dflt} {:trigger p in dfltPaths} :: p in w.dflt <==> p in dfltPaths
    requires forall i, j | 0 <= i < j < |envPaths| :: envPaths[i] != envPaths[j]
    ensures exists k: nat :: Delta(w, es, k) && (NoRepeats(dfltPaths) ==> Backwards(dfltPaths, es[..k])) && Backwards(envPaths, es[k..])
  {
    var changed := FilePass(w, envPaths);
    es := RemovePass(w, dfltPaths, changed);
    ghost var k: nat :| k <= |es| && es[k..] == changed && RemovedAmong(w, dfltPaths, es[..k]);
    assert Delta(w, es, k);
  }

  // ------------------------------------------------------------------
  // Loading: what an entry does to a tree

  /** The files and links under a directory, and the directories there. */
  datatype Files = Files(tree: Tree, dirs: set<Path>)

  datatype Applied<T> = Ok(value: T) | ThroughLink | OpenFails | Overrun

  predicate Exists(t: Tree, p: Path, see: Resolver) {
    p in t && (t[p].Link? ==> see(t, p) != Missing)
  }

  /** A link to its own basename stands for the absence of the file. */
  predicate IsWhiteout(e: Inode) {
    IsLink(e.mode) && Terminated(e.buf) && LinkTarget(e.buf) == Basename(e.name)
  }

  function Placed(e: Inode): Entry {
    if IsLink(e.mode) then Link(LinkTarget(e.buf)) else File(e.buf)
  }

  /** What an entry does where no directory is in the way.  A link that leads nowhere does
      not count as existing: it is not unlinked, and creating another in its place fails
      without ending the load.  Writing a file over a link would write what the link leads
      to, and a target that does not end with its entry would run on into the next; both
      are outside the model. */
  function ApplyTree(t: Tree, e: Inode, noOverwrite: bool, see: Resolver): Applied<Tree> {
    if noOverwrite && Exists(t, e.name, see) then Ok(t)
    else if IsWhiteout(e) then Ok(t - {e.name})
    else if IsLink(e.mode) then
      if e.name in t && !Exists(t, e.name, see) then Ok(t)
      else if !Terminated(e.buf) then Overrun
      else Ok(t[e.name := Placed(e)])
    else if e.name in t && t[e.name].Link? then ThroughLink
    else Ok(t[e.name := Placed(e)])
  }

  /** make_directory on the directory of a path: from the top down to where a file is in
      the way. */
  function Made(f: Files, p: Path): set<Path> {
    f.dirs + set d | d in Parents(p) && d !in f.tree && !Blocked(f.tree, d)
  }

  /** One entry of an image.  Where a directory stands, or below a file, no file can be
      opened, and unlinking and linking fail without ending the load.  What lies behind a
      link to a directory is outside the model. */
  function Apply(f: Files, e: Inode, noOverwrite: bool, see: Resolver): Applied<Files> {
    var dirs := Made(f, e.name);
    if LinkAbove(f.tree, e.name) then ThroughLink
    else if e.name in dirs || Blocked(f.tree, e.name) then
      if IsLink(e.mode) || (noOverwrite && e.name in dirs) then Ok(f.(dirs := dirs)) else OpenFails
    else
      match ApplyTree(f.tree, e, noOverwrite, see)
      case Ok(t) => Ok(Files(t, dirs))
      case ThroughLink => ThroughLink
      case OpenFails => OpenFails
      case Overrun => Overrun
  }

  function Replay(f: Files, es: seq<Inode>, noOverwrite: bool, see: Resolver): Applied<Files>
    decreases es
  {
    if es == [] then Ok(f)
    else
      var a := Apply(f, es[0], noOverwrite, see);
      if a.Ok? then Replay(a.value, es[1..], noOverwrite, see) else a
  }

  /** The assumptions on a tree: no path is a directory too, and names and link targets
      are C strings. */
  ghost predicate ProperTree(t: Tree) {
    WellFormed(t) && ProperNames(t)
  }

  ghost predicate ProperNames(t: Tree) {
    forall p {:trigger p in t} | p in t :: CString(p) && (t[p].Link? ==> CString(t[p].target))
  }

  /** What is left of a target in a buffer of `n + 1` bytes. */
  function Cut(target: seq<byte>, n: nat): seq<byte> {
    if |target| <= n + 1 then target else target[..n + 1]
  }

  /** The whole target is stored, and its end can be told. */
  predicate Whole(target: seq<byte>, n: nat) {
    |target| <= n || (|target| == n + 1 && (n + 1) % 4 != 0)
  }

  /** What is stored for a link ends with its entry. */
  predicate Closes(target: seq<byte>, n: nat) {
    |target| <= n || (n + 1) % 4 != 0
  }

  lemma StoredLink(target: seq<byte>, n: nat)
    requires CString(target)
    ensures LinkTarget(LinkBytes(target, n)) == Cut(target, n) && (Terminated(LinkBytes(target, n)) <==> Closes(target, n))
  {
    if |target| <= n {
      var z := Zeros(n - |target|);
      assert LinkBytes(target, n) == target + [0] + z;
      StrLenIs(target, z);
    }
  }

  /** A link that is taken for a whiteout when it is loaded. */
  predicate Erasing(p: Path, target: seq<byte>, n: nat) {
    Closes(target, n) && Cut(target, n) == Basename(p)
  }

  lemma BasenameProper(p: Path)
    requires CString(p)
    ensures CString(Basename(p))
  {
    BasenameIs(p);
  }

  lemma WhiteoutIs(p: Path)
    requires CString(p)
    ensures IsWhiteout(Whiteout(p))
  {
    hide Basename;
    BasenameProper(p);
    var b := Basename(p);
    StrLenIs(b, []);
    assert b + [0] + [] == b + [0];
  }

  /** A whiteout removes its name and touches nothing else. */
  lemma ApplyWhiteout(t: Tree, p: Path, see: Resolver)
    requires CString(p)
    ensures ApplyTree(t, Whiteout(p), false, see) == Ok(t - {p})
  {
    hide Basename, IsWhiteout;
    WhiteoutIs(p);
  }

  /** Whether an entry for `p` brings what the saved tree has there.  A file does not where
      it would be written through a link.  A link does not if it is taken for a whiteout; nor
      where another one is that leads nowhere; nor, except in the place of its like that leads
      nowhere, if it is not stored whole. */
  predicate Replaceable(t: Tree, env: Tree, n: nat, p: Path, see: Resolver)
    requires p in env
  {
    match env[p]
    case File(_) => p in t ==> t[p].File?
    case Link(target) =>
      !Erasing(p, target, n) && if p in t && t[p].Link? && see(t, p) == Missing then t[p] == env[p] else Whole(target, n)
  }

  /** What a link does that does not come back. */
  function NotPut(t: Tree, p: Path, target: seq<byte>, n: nat, see: Resolver): Applied<Tree> {
    if Erasing(p, target, n) then Ok(t - {p})
    else if p in t && t[p].Link? && see(t, p) == Missing then Ok(t)
    else if !Closes(target, n) then Overrun
    else Ok(t[p := Link(Cut(target, n))])
  }

  lemma StoredWhiteout(p: Path, target: seq<byte>, n: nat)
    requires CString(target)
    ensures var e := ToInode(p, Link(target), n);
            && e.name == p && e.mode == 0xa1ff && IsLink(e.mode) && (IsWhiteout(e) <==> Erasing(p, target, n))
            && (Terminated(e.buf) <==> Closes(target, n)) && Placed(e) == Link(Cut(target, n))
  {
    hide Basename, StrLen, CString, LinkTarget, Terminated, LinkBytes, Cut, Closes;
    StoredLink(target, n);
  }

  lemma ApplyRight(t: Tree, env: Tree, n: nat, p: Path, see: Resolver)
    requires ProperNames(env) && p in env
    ensures ApplyTree(t, ToInode(p, env[p], n), false, see) ==
            if Replaceable(t, env, n, p, see) then Ok(t[p := env[p]])
            else if env[p].Link? then NotPut(t, p, env[p].target, n, see) else ThroughLink
  {
    hide Basename, StrLen, CString, LinkTarget, Terminated, LinkBytes, IsWhiteout, Erasing, IsLink;
    if env[p].Link? {
      StoredWhiteout(p, env[p].target, n);
      assert Whole(env[p].target, n) ==> Closes(env[p].target, n) && Cut(env[p].target, n) == env[p].target;
    } else {
      FileInode(p, env[p].data, n);
    }
    assert p in t && t[p] == env[p] ==> t[p := env[p]] == t;
  }

  lemma FileInode(p: Path, data: seq<byte>, n: nat)
    ensures var e := ToInode(p, File(data), n); e.name == p && e.mode == 0x1ff && !IsLink(e.mode) && !IsWhiteout(e) && Placed(e) == File(data)
  {
  }

  // ------------------------------------------------------------------
  // Replaying what was saved

  /** Each entry in turn can replace what is there, those before it being in place. */
  predicate AllReplaceable(t: Tree, env: Tree, size: Sizes, es: seq<Inode>, see: Resolver)
    requires Right(env, size, es)
    decreases es
  {
    es == [] ||
    var p := es[0].name;
    Replaceable(t, env, size(p), p, see) && AllReplaceable(t[p := env[p]], env, size, es[1..], see)
  }

  ghost predicate SameAt(t: Tree, env: Tree, p: Path) {
    (p in t <==> p in env) && (p in t && p in env ==> t[p] == env[p])
  }

  /** Wherever the tree `t` differs from `env` there is an entry to come. */
  ghost predicate Covered(t: Tree, env: Tree, es: seq<Inode>) {
    forall p {:trigger SameAt(t, env, p)} :: Named(es, p) || SameAt(t, env, p)
  }

  /** An entry changes the tree at its own path only, and takes no directory away. */
  lemma ApplyFrame(f: Files, e: Inode, noOverwrite: bool, see: Resolver, p: Path)
    requires p != e.name
    ensures var a := Apply(f, e, noOverwrite, see); a.Ok? ==> SameAt(a.value.tree, f.tree, p) && f.dirs <= a.value.dirs
  {
    hide Placed, IsWhiteout, Terminated, Blocked, LinkAbove, IsLink;
  }

  /** No entry, no change. */
  lemma {:induction false} ReplayFrame(f: Files, es: seq<Inode>, p: Path, noOverwrite: bool, see: Resolver)
    requires !Named(es, p)
    ensures var r := Replay(f, es, noOverwrite, see); r.Ok? ==> SameAt(r.value.tree, f.tree, p)
    decreases es
  {
    hide Apply;
    if es != [] {
      assert es == [es[0]] + es[1..];
      NamedPrepend(es[0], es[1..], p);
      ApplyFrame(f, es[0], noOverwrite, see, p);
      var a := Apply(f, es[0], noOverwrite, see);
      if a.Ok? {
        ReplayFrame(a.value, es[1..], p, noOverwrite, see);
      }
    }
  }

  // ------------------------------------------------------------------
  // Directories in the way

  lemma ApplyOnDir(f: Files, e: Inode, noOverwrite: bool, see: Resolver)
    requires e.name in f.dirs
    ensures var a := Apply(f, e, noOverwrite, see); a.Ok? ==> a.value.tree == f.tree && f.dirs <= a.value.dirs
  {
    hide Placed, IsWhiteout, Terminated, Blocked, LinkAbove, IsLink;
  }

  /** Where a directory stands no entry puts anything. */
  lemma {:induction false} DirStays(f: Files, es: seq<Inode>, p: Path, noOverwrite: bool, see: Resolver)
    requires p in f.dirs && p !in f.tree
    ensures var r := Replay(f, es, noOverwrite, see); r.Ok? ==> p !in r.value.tree
    decreases es
  {
    hide Apply;
    if es != [] {
      var a := Apply(f, es[0], noOverwrite, see);
      if es[0].name == p {
        ApplyOnDir(f, es[0], noOverwrite, see);
      } else {
        ApplyFrame(f, es[0], noOverwrite, see, p);
      }
      if a.Ok? {
        DirStays(a.value, es[1..], p, noOverwrite, see);
      }
    }
  }

  lemma ApplyBelow(f: Files, e: Inode, noOverwrite: bool, see: Resolver)
    requires Blocked(f.tree, e.name)
    ensures var a := Apply(f, e, noOverwrite, see); a.Ok? ==> a.value.tree == f.tree
  {
    hide Placed, IsWhiteout, Terminated, Blocked, LinkAbove, IsLink;
  }

  /** Nor is anything put below a file or link that stays. */
  lemma {:induction false} BelowStays(f: Files, es: seq<Inode>, d: Path, p: Path, noOverwrite: bool, see: Resolver)
    requires d in f.tree && Above(d, p) && p !in f.tree && !Named(es, d)
    ensures var r := Replay(f, es, noOverwrite, see); r.Ok? ==> p !in r.value.tree
    decreases es
  {
    hide Apply;
    if es != [] {
      assert es == [es[0]] + es[1..];
      NamedPrepend(es[0], es[1..], d);
      var a := Apply(f, es[0], noOverwrite, see);
      ApplyFrame(f, es[0], noOverwrite, see, d);
      if es[0].name == p {
        ApplyBelow(f, es[0], noOverwrite, see);
      } else {
        ApplyFrame(f, es[0], noOverwrite, see, p);
      }
      if a.Ok? {
        BelowStays(a.value, es[1..], d, p, noOverwrite, see);
      }
    }
  }

  /** Nothing is in the way of the paths of `env`. */
  ghost predicate ClearAt(f: Files, p: Path) {
    p !in f.dirs && !Blocked(f.tree, p)
  }

  ghost predicate ClearFor(f: Files, env: Tree) {
    forall p {:trigger ClearAt(f, p)} | p in env :: ClearAt(f, p)
  }

  lemma ApplyClear(f: Files, e: Inode, noOverwrite: bool, see: Resolver)
    requires ClearAt(f, e.name)
    ensures Apply(f, e, noOverwrite, see) ==
            match ApplyTree(f.tree, e, noOverwrite, see)
            case Ok(t) => Ok(Files(t, Made(f, e.name)))
            case ThroughLink => ThroughLink
            case OpenFails => OpenFails
            case Overrun => Overrun
  {
    hide ApplyTree;
    ParentsAbove(e.name, e.name);
  }

  lemma ClearStep(f: Files, env: Tree, p: Path, t: Tree)
    requires ClearFor(f, env) && WellFormed(env) && p in env && t.Keys <= f.tree.Keys + {p}
    ensures ClearFor(Files(t, Made(f, p)), env)
  {
    var g := Files(t, Made(f, p));
    forall q | q in env ensures ClearAt(g, q) {
      assert ClearAt(f, q);
      ParentsAbove(q, p);
    }
  }

  /** The replay ends well and leaves exactly this tree. */
  ghost predicate Gives(r: Applied<Files>, env: Tree) {
    r.Ok? && r.value.tree == env
  }

  /** Replaying entries that cover all differences yields the saved tree exactly when
      each can replace what is there. */
  lemma {:induction false} ReplayRight(f: Files, env: Tree, size: Sizes, es: seq<Inode>, see: Resolver)
    requires ProperTree(env) && Right(env, size, es) && Distinct(es) && Covered(f.tree, env, es) && ClearFor(f, env)
    ensures Gives(Replay(f, es, false, see), env) <==> AllReplaceable(f.tree, env, size, es, see)
    decreases es
  {
    hide ProperNames, WellFormed, Covered, ToInode, Apply, ApplyTree, Replaceable, NotPut, ClearFor, Made, ClearAt;
    var t := f.tree;
    if es == [] {
      NothingLeftToDo(t, env);
    } else {
      assert es == [es[0]] + es[1..];
      var p := es[0].name;
      ClearHere(f, env, p);
      ApplyClear(f, es[0], false, see);
      ApplyRight(t, env, size(p), p, see);
      assert !Named(es[1..], p);
      if Replaceable(t, env, size(p), p, see) {
        CoveredStep(t, env, es[0], es[1..]);
        ClearStep(f, env, p, t[p := env[p]]);
        ReplayRight(Files(t[p := env[p]], Made(f, p)), env, size, es[1..], see);
      } else if env[p].Link? {
        NotReplaced(t, env, size(p), p, see);
        var a := NotPut(t, p, env[p].target, size(p), see);
        if a.Ok? {
          ReplayFrame(Files(a.value, Made(f, p)), es[1..], p, false, see);
        }
      }
    }
  }

  lemma ClearHere(f: Files, env: Tree, p: Path)
    requires ClearFor(f, env) && p in env
    ensures ClearAt(f, p)
  {
  }

  lemma NotReplaced(t: Tree, env: Tree, n: nat, p: Path, see: Resolver)
    requires p in env && env[p].Link? && !Replaceable(t, env, n, p, see)
    ensures var a := NotPut(t, p, env[p].target, n, see); a.Ok? ==> !SameAt(a.value, env, p)
  {
    hide Erasing;
  }

  lemma CoveredStep(t: Tree, env: Tree, e: Inode, es: seq<Inode>)
    requires Covered(t, env, [e] + es) && e.name in env
    ensures Covered(t[e.name := env[e.name]], env, es)
  {
    var t' := t[e.name := env[e.name]];
    forall p ensures Named(es, p) || SameAt(t', env, p) {
      NamedPrepend(e, es, p);
      assert SameAt(t, env, p) || Named([e] + es, p);
    }
  }

  lemma NothingLeftToDo(t: Tree, env: Tree)
    requires Covered(t, env, [])
    ensures t == env
  {
    forall p ensures SameAt(t, env, p) {
      assert !Named([], p);
    }
    forall p | p in t ensures p in env && t[p] == env[p] {
      assert SameAt(t, env, p);
    }
    forall p | p in env ensures p in t {
      assert SameAt(t, env, p);
    }
  }

  ghost function WithoutNamed(t: Tree, ws: seq<Inode>): Tree {
    map p | p in t && !Named(ws, p) :: t[p]
  }

  /** What is left of the tree `t` and of its directories. */
  ghost predicate Within(f: Files, t: Tree) {
    f.tree.Keys <= t.Keys && forall d {:trigger d in f.dirs} | d in f.dirs :: IsDir(t, d)
  }

  lemma WithinClear(f: Files, t: Tree, p: Path)
    requires WellFormed(t) && Within(f, t) && p in t
    ensures ClearAt(f, p) && forall d {:trigger d in Made(f, p)} | d in Made(f, p) :: IsDir(t, d)
  {
    forall d | d in Made(f, p) ensures IsDir(t, d) {
      ParentsAbove(d, p);
    }
  }

  lemma {:induction false} ReplayWhiteouts(f: Files, dflt: Tree, ws: seq<Inode>, es: seq<Inode>, see: Resolver) returns (g: Files)
    requires ProperTree(dflt) && Within(f, dflt) && Whiteouts(ws) && forall i {:trigger ws[i]} | 0 <= i < |ws| :: ws[i].name in dflt
    ensures Replay(f, ws + es, false, see) == Replay(g, es, false, see)
    ensures g.tree == WithoutNamed(f.tree, ws) && f.dirs <= g.dirs && Within(g, dflt)
    decreases ws
  {
    hide Whiteout, Apply, ApplyTree, CString, WithoutNamed, LinkTarget, WellFormed, IsDir, ClearAt, Parents, Blocked;
    if ws == [] {
      assert ws + es == es;
      WithoutNone(f.tree);
      g := f;
    } else {
      var p := ws[0].name;
      ApplyWhiteout(f.tree, p, see);
      WithinClear(f, dflt, p);
      ApplyClear(f, ws[0], false, see);
      assert (ws + es)[0] == ws[0] && (ws + es)[1..] == ws[1..] + es;
      g := ReplayWhiteouts(Files(f.tree - {p}, Made(f, p)), dflt, ws[1..], es, see);
      WithoutFirst(f.tree, ws);
    }
  }

  lemma WithoutNone(t: Tree)
    ensures WithoutNamed(t, []) == t
  {
  }

  lemma WithoutFirst(t: Tree, ws: seq<Inode>)
    requires ws != []
    ensures WithoutNamed(t, ws) == WithoutNamed(t - {ws[0].name}, ws[1..])
  {
    assert ws == [ws[0]] + ws[1..];
    forall p ensures Named(ws, p) <==> ws[0].name == p || Named(ws[1..], p) {
      NamedPrepend(ws[0], ws[1..], p);
    }
  }

  /** What is not saved is the same in both trees.  Reading the same is not enough: a
      link may lead to the very bytes the other tree holds in a file. */
  ghost predicate NoDisguise(w: Trees) {
    forall p {:trigger w.ReadsSame(p)} | p in w.env && w.ReadsSame(p) :: p in w.dflt && w.env[p] == w.dflt[p]
  }

  ghost function Laid(t: Tree): Files {
    Files(t, DirsOf(t))
  }

  /** The assumptions on both trees. */
  ghost predicate ProperTrees(w: Trees) {
    ProperTree(w.env) && ProperTree(w.dflt) && forall d {:trigger d in w.dirs} | d in w.dirs :: d !in w.env
  }

  /** No directory of the current tree, though it be empty, stands in the place of a file or
      link of the default tree. */
  ghost predicate NoDirInPlace(w: Trees) {
    forall d {:trigger d in w.dirs} | d in w.dirs :: d !in w.dflt
  }

  /** Replaying what was saved on the default tree gives the saved tree exactly when no
      path of one tree is a directory of the other, nothing is disguised and each entry
      brings what was saved. */
  lemma ReplayDelta(w: Trees, es: seq<Inode>, k: nat, see: Resolver)
    requires ProperTrees(w) && Delta(w, es, k)
    ensures Gives(Replay(Laid(w.dflt), es, false, see), w.env) <==>
            && NoClash(w.dflt, w.env) && NoDirInPlace(w) && NoDisguise(w)
            && AllReplaceable(WithoutNamed(w.dflt, es[..k]), w.env, w.size, es[k..], see)
  {
    hide *;
    if !NoClash(w.dflt, w.env) {
      ClashFails(w, es, k, see);
    } else if !NoDirInPlace(w) {
      DirInPlaceFails(w, es, k, see);
    } else if !NoDisguise(w) {
      DisguiseFails(w, es, k, see);
    } else {
      DeltaReplays(w, es, k, see);
    }
  }

  lemma LaidWithin(t: Tree)
    ensures Within(Laid(t), t)
  {
    forall d | d in Laid(t).dirs ensures IsDir(t, d) {
      DirsOfTree(t, d);
    }
  }

  lemma DeltaReplays(w: Trees, es: seq<Inode>, k: nat, see: Resolver)
    requires ProperTrees(w) && Delta(w, es, k) && NoClash(w.dflt, w.env) && NoDirInPlace(w) && NoDisguise(w)
    ensures Gives(Replay(Laid(w.dflt), es, false, see), w.env) <==>
            AllReplaceable(WithoutNamed(w.dflt, es[..k]), w.env, w.size, es[k..], see)
  {
    hide Replay, AllReplaceable, ProperTree, NoClash, NoDirInPlace, NoDisguise, Covered, Within, WithoutNamed, Gives;
    WhiteoutNames(w, es, k);
    LaidWithin(w.dflt);
    assert es == es[..k] + es[k..];
    var g := ReplayWhiteouts(Laid(w.dflt), w.dflt, es[..k], es[k..], see);
    DeltaCovers(w, es, k);
    NoClashClear(g, w);
    ReplayRight(g, w.env, w.size, es[k..], see);
  }

  lemma NoClashClear(g: Files, w: Trees)
    requires NoClash(w.dflt, w.env) && Within(g, w.dflt)
    ensures ClearFor(g, w.env)
  {
    forall p | p in w.env ensures ClearAt(g, p) {
    }
  }

  /** A disguised link is not among the entries, so it stays what it was. */
  lemma DisguiseFails(w: Trees, es: seq<Inode>, k: nat, see: Resolver)
    requires Delta(w, es, k) && !NoDisguise(w)
    ensures !Gives(Replay(Laid(w.dflt), es, false, see), w.env)
  {
    hide Replay, ProperTree, Whiteouts, Right, Distinct, DirsOf;
    var p :| p in w.env && w.ReadsSame(p) && !(p in w.dflt && w.env[p] == w.dflt[p]);
    assert !Named(es[..k], p) && !Named(es[k..], p);
    NamedSplit(es, k, p);
    ReplayFrame(Laid(w.dflt), es, p, false, see);
  }

  lemma NamedSplit(es: seq<Inode>, k: nat, p: Path)
    requires k <= |es|
    ensures Named(es, p) <==> Named(es[..k], p) || Named(es[k..], p)
  {
    if Named(es, p) {
      var i :| 0 <= i < |es| && es[i].name == p;
      if i < k {
        assert es[..k][i].name == p;
      } else {
        assert es[k..][i - k].name == p;
      }
    }
    if Named(es[..k], p) {
      var i :| 0 <= i < k && es[..k][i].name == p;
      assert es[i].name == p;
    }
    if Named(es[k..], p) {
      var i :| 0 <= i < |es| - k && es[k..][i].name == p;
      assert es[k + i].name == p;
    }
  }

  /** A file where the other tree has a directory: either the directory stays in the
      file's place, or the file, which counts as existing, is never removed. */
  lemma ClashFails(w: Trees, es: seq<Inode>, k: nat, see: Resolver)
    requires ProperTrees(w) && Delta(w, es, k) && !NoClash(w.dflt, w.env)
    ensures !Gives(Replay(Laid(w.dflt), es, false, see), w.env)
  {
    hide Replay, ProperNames, Whiteouts, Right, Distinct, DirsOf;
    var p, q :| ((p in w.dflt && q in w.env) || (p in w.env && q in w.dflt)) && Above(p, q);
    if p in w.env && q in w.dflt {
      DirsOfTree(w.dflt, p);
      DirStays(Laid(w.dflt), es, p, false, see);
    } else {
      assert IsDir(w.env, p) && p !in w.env;
      assert !Named(es[..k], p) && !Named(es[k..], p);
      NamedSplit(es, k, p);
      ReplayFrame(Laid(w.dflt), es, p, false, see);
    }
  }

  /** An empty directory in the place of a default file counts as existing, so the file is
      never removed. */
  lemma DirInPlaceFails(w: Trees, es: seq<Inode>, k: nat, see: Resolver)
    requires ProperTrees(w) && Delta(w, es, k) && !NoDirInPlace(w)
    ensures !Gives(Replay(Laid(w.dflt), es, false, see), w.env)
  {
    hide Replay, ProperTree, Whiteouts, Right, Distinct, DirsOf;
    var p :| p in w.dirs && p in w.dflt;
    assert !Named(es[..k], p) && !Named(es[k..], p);
    NamedSplit(es, k, p);
    ReplayFrame(Laid(w.dflt), es, p, false, see);
  }

  lemma WhiteoutNames(w: Trees, es: seq<Inode>, k: nat)
    requires Delta(w, es, k)
    ensures forall i {:trigger es[..k][i]} | 0 <= i < |es[..k]| :: es[..k][i].name in w.dflt
  {
    forall i | 0 <= i < k ensures es[..k][i].name in w.dflt {
      assert Named(es[..k], es[..k][i].name);
    }
  }

  lemma DeltaCovers(w: Trees, es: seq<Inode>, k: nat)
    requires Delta(w, es, k) && NoDisguise(w) && NoDirInPlace(w) && NoClash(w.dflt, w.env)
    ensures Covered(WithoutNamed(w.dflt, es[..k]), w.env, es[k..])
  {
    var t := WithoutNamed(w.dflt, es[..k]);
    forall p ensures Named(es[k..], p) || SameAt(t, w.env, p) {
      assert Named(es[..k], p) <==> p in w.dflt && !w.Exists(p);
      assert Named(es[k..], p) <==> p in w.env && !w.ReadsSame(p);
    }
  }

  /** The default tree holds a file `a`; in the current one `a` is a link to a file `b`
      with the same bytes.  Only `b` is saved, and loading leaves `a` a file. */
  lemma {:induction false} DisguisedLink(a: Path, b: Path, data: seq<byte>, see: Resolver)
    requires a != b && !Above(a, b) && !Above(b, a)
    ensures var dflt := map[a := File(data)];
            var env := map[a := Link(b), b := File(data)];
            var w := Trees(env, {}, dflt, p => Contents(data), p => Missing, p => 0);
            var es := [ToInode(b, File(data), 0)];
            Delta(w, es, 0) && NoClash(dflt, env) && Gives(Replay(Laid(dflt), es, false, see), map[a := File(data), b := File(data)])
  {
    var w := Trees(map[a := Link(b), b := File(data)], {}, map[a := File(data)], p => Contents(data), p => Missing, p => 0);
    var es := [ToInode(b, File(data), 0)];
    assert es[0..] == es && es[..0] == [] && es[1..] == [];
    assert Named(es, b) by { assert es[0].name == b; }
    DirsOfTree(w.dflt, b);
    ApplyClear(Laid(w.dflt), es[0], false, see);
    ReplayNothing(Files(w.dflt[b := File(data)], Made(Laid(w.dflt), b)), false, see);
  }

  lemma ReplayNothing(f: Files, noOverwrite: bool, see: Resolver)
    ensures Replay(f, [], noOverwrite, see) == Ok(f)
  {
  }

  /** The default tree holds `b`, the current one a file in place of the directory above
      it.  The file `b` is removed, but the directory is still there and the load fails. */
  lemma {:induction false} DirectoryBecomesFile(a: Path, b: Path, x: seq<byte>, y: seq<byte>, see: Resolver)
    requires Above(a, b) && CString(b)
    ensures var dflt, env := map[b := File(x)], map[a := File(y)];
            var w := Trees(env, {}, dflt, p => Missing, p => Missing, p => 0);
            var es := [Whiteout(b), ToInode(a, File(y), 0)];
            Delta(w, es, 1) && Replay(Laid(dflt), es, false, see) == OpenFails
  {
    hide Whiteout, DirsOf;
    var w := Trees(map[a := File(y)], {}, map[b := File(x)], p => Missing, p => Missing, p => 0);
    WhiteoutName(b);
    var es := [Whiteout(b), ToInode(a, File(y), 0)];
    assert es[..1] == [Whiteout(b)] && es[1..] == [ToInode(a, File(y), 0)];
    assert Named(es[..1], b) by { assert es[..1][0].name == b; }
    assert Named(es[1..], a) by { assert es[1..][0].name == a; }
    var f := Laid(w.dflt);
    DirsOfTree(w.dflt, a);
    DirsOfTree(w.dflt, b);
    ApplyClear(f, es[0], false, see);
    ApplyWhiteout(w.dflt, b, see);
    var g := Files(w.dflt - {b}, Made(f, b));
    assert Apply(g, es[1], false, see) == OpenFails by { assert a in g.dirs; }
    assert Replay(g, es[1..], false, see) == OpenFails;
  }

  /** The other way round: the default tree holds a file in place of a directory of the
      current one.  It counts as existing, so it is not removed, and nothing can be put
      below it. */
  lemma {:induction false} FileBecomesDirectory(a: Path, b: Path, x: seq<byte>, y: seq<byte>, see: Resolver)
    requires Above(a, b)
    ensures var dflt, env := map[a := File(x)], map[b := File(y)];
            var w := Trees(env, {}, dflt, p => Missing, p => Missing, p => 0);
            var es := [ToInode(b, File(y), 0)];
            Delta(w, es, 0) && Replay(Laid(dflt), es, false, see) == OpenFails
  {
    var w := Trees(map[b := File(y)], {}, map[a := File(x)], p => Missing, p => Missing, p => 0);
    var es := [ToInode(b, File(y), 0)];
    assert es[0..] == es && es[..0] == [];
    assert Named(es, b) by { assert es[0].name == b; }
    assert IsDir(w.env, a);
    assert Blocked(w.dflt, b);
  }

  /** And with an empty directory in the place of a default file: nothing is saved. */
  lemma {:induction false} EmptyDirectoryInPlace(a: Path, x: seq<byte>, see: Resolver)
    ensures var w := Trees(map[], {a}, map[a := File(x)], p => Missing, p => Missing, p => 0);
            Delta(w, [], 0) && Gives(Replay(Laid(w.dflt), [], false, see), map[a := File(x)])
  {
    var w := Trees(map[], {a}, map[a := File(x)], p => Missing, p => Missing, p => 0);
    assert w.Exists(a);
  }

  // ------------------------------------------------------------------
  // Links that are not stored whole

  /** An entry that puts something in place. */
  ghost predicate Puts(e: Inode, p: Path, x: Entry) {
    e.name == p && !IsWhiteout(e) && (IsLink(e.mode) ==> Terminated(e.buf)) && x == Placed(e)
  }

  ghost predicate Brought(es: seq<Inode>, p: Path, x: Entry) {
    exists i {:trigger es[i]} :: 0 <= i < |es| && Puts(es[i], p, x)
  }

  lemma ApplyAt(f: Files, e: Inode, noOverwrite: bool, see: Resolver)
    ensures var a, p := Apply(f, e, noOverwrite, see), e.name;
            a.Ok? && p in a.value.tree ==> SameAt(a.value.tree, f.tree, p) || Puts(e, p, a.value.tree[p])
  {
    hide Placed, IsWhiteout, Terminated, Blocked, LinkAbove, IsLink;
  }

  /** Whatever stands at a path after a replay was there before or was put there by an entry
      of that name. */
  lemma {:induction false} ReplayBrings(f: Files, es: seq<Inode>, p: Path, noOverwrite: bool, see: Resolver)
    ensures var r := Replay(f, es, noOverwrite, see);
            r.Ok? && p in r.value.tree ==> SameAt(r.value.tree, f.tree, p) || Brought(es, p, r.value.tree[p])
    decreases es
  {
    hide Apply, Puts;
    if es != [] {
      var a := Apply(f, es[0], noOverwrite, see);
      if a.Ok? {
        ReplayBrings(a.value, es[1..], p, noOverwrite, see);
        var r := Replay(a.value, es[1..], noOverwrite, see);
        if r.Ok? && p in r.value.tree {
          var x := r.value.tree[p];
          if Brought(es[1..], p, x) {
            var i :| 0 <= i < |es| - 1 && Puts(es[1..][i], p, x);
            assert Puts(es[i + 1], p, x);
          } else if es[0].name == p {
            ApplyAt(f, es[0], noOverwrite, see);
          } else {
            ApplyFrame(f, es[0], noOverwrite, see, p);
          }
        }
      }
    }
  }

  /** A link that has changed and is not stored whole does not come back. */
  lemma CutFails(w: Trees, es: seq<Inode>, k: nat, p: Path, see: Resolver)
    requires ProperTrees(w) && Delta(w, es, k) && p in w.env && w.env[p].Link? && !SameAt(w.dflt, w.env, p)
    requires !Whole(w.env[p].target, w.size(p))
    ensures !Gives(Replay(Laid(w.dflt), es, false, see), w.env)
  {
    hide Replay, WellFormed, Distinct, DirsOf, Cut, Whiteout, IsWhiteout, Terminated, IsLink, Placed, ToInode;
    ReplayBrings(Laid(w.dflt), es, p, false, see);
    var x, n := w.env[p], w.size(p);
    if Brought(es, p, x) {
      var i :| 0 <= i < |es| && Puts(es[i], p, x);
      if i < k {
        assert es[..k][i] == Whiteout(p);
        WhiteoutIs(p);
      } else {
        assert es[k..][i - k] == ToInode(p, x, n);
        StoredWhiteout(p, x.target, n);
        CutShorter(x.target, n);
      }
    }
  }

  lemma CutShorter(target: seq<byte>, n: nat)
    requires Closes(target, n) && !Whole(target, n)
    ensures Cut(target, n) != target
  {
  }

  /** On ramfs, which reports zero, every changed link of two characters or more is lost. */
  lemma LinksLostOnRamfs(w: Trees, es: seq<Inode>, k: nat, p: Path, see: Resolver)
    requires ProperTrees(w) && Delta(w, es, k) && p in w.env && w.env[p].Link? && !SameAt(w.dflt, w.env, p)
    requires w.size(p) == 0 && 2 <= |w.env[p].target|
    ensures !Gives(Replay(Laid(w.dflt), es, false, see), w.env)
  {
    hide *;
    NotWhole(w.env[p].target);
    CutFails(w, es, k, p, see);
  }

  lemma NotWhole(target: seq<byte>)
    requires 2 <= |target|
    ensures !Whole(target, 0)
  {
  }

  /** A tree of one such link comes back with its first character only, or not at all if
      that is the name of the link. */
  lemma {:induction false} LinkCut(a: Path, target: seq<byte>, see: Resolver)
    requires CString(target) && 2 <= |target|
    ensures var w := Trees(map[a := Link(target)], {}, map[], p => Missing, p => Missing, p => 0);
            var es := [ToInode(a, Link(target), 0)];
            && Delta(w, es, 0)
            && Gives(Replay(Laid(w.dflt), es, false, see), if Basename(a) == target[..1] then map[] else map[a := Link(target[..1])])
  {
    hide LinkBytes, Basename, CString;
    var w := Trees(map[a := Link(target)], {}, map[], p => Missing, p => Missing, p => 0);
    var es := [ToInode(a, Link(target), 0)];
    assert es[0..] == es && es[..0] == [] && es[1..] == [];
    assert Named(es, a) by { assert es[0].name == a; }
    var f := Laid(w.dflt);
    NoDirs();
    ApplyClear(f, es[0], false, see);
    StoredWhiteout(a, target, 0);
    var t: Tree := if Basename(a) == target[..1] then map[] else map[a := Link(target[..1])];
    assert ApplyTree(f.tree, es[0], false, see) == Ok(t);
    ReplayNothing(Files(t, Made(f, a)), false, see);
  }

  lemma NoDirs()
    ensures Laid(map[]) == Files(map[], {})
  {
  }

  /** Trees of plain files: nothing is disguised and every entry can be put in place. */
  lemma PlainFiles(w: Trees, es: seq<Inode>, k: nat, see: Resolver)
    requires Delta(w, es, k)
    requires forall p {:trigger p in w.env} | p in w.env :: w.env[p].File?
    requires forall p {:trigger p in w.dflt} | p in w.dflt :: w.dflt[p].File?
    ensures NoDisguise(w) && AllReplaceable(WithoutNamed(w.dflt, es[..k]), w.env, w.size, es[k..], see)
  {
    PlainReplaceable(WithoutNamed(w.dflt, es[..k]), w.env, w.size, es[k..], see);
  }

  /** So for plain files the condition is that no path of one tree is a directory of the
      other. */
  lemma PlainRoundTrip(w: Trees, es: seq<Inode>, k: nat, see: Resolver)
    requires ProperTrees(w) && Delta(w, es, k)
    requires forall p {:trigger p in w.env} | p in w.env :: w.env[p].File?
    requires forall p {:trigger p in w.dflt} | p in w.dflt :: w.dflt[p].File?
    ensures Gives(Replay(Laid(w.dflt), es, false, see), w.env) <==> NoClash(w.dflt, w.env) && NoDirInPlace(w)
  {
    hide *;
    PlainFiles(w, es, k, see);
    ReplayDelta(w, es, k, see);
  }

  lemma {:induction false} PlainReplaceable(t: Tree, env: Tree, size: Sizes, es: seq<Inode>, see: Resolver)
    requires Right(env, size, es)
    requires forall p {:trigger p in env} | p in env :: env[p].File?
    requires forall p {:trigger p in t} | p in t :: t[p].File?
    ensures AllReplaceable(t, env, size, es, see)
    decreases es
  {
    if es != [] {
      PlainReplaceable(t[es[0].name := env[es[0].name]], env, size, es[1..], see);
    }
  }

  // ------------------------------------------------------------------
  // Laying one tree over another: the built-in environment

  /** The entries hold the whole tree. */
  ghost predicate Lists(t: Tree, size: Sizes, es: seq<Inode>) {
    Right(t, size, es) && Distinct(es) && forall p {:trigger p in t} | p in t :: Named(es, p)
  }

  /** Replaying all of `dflt` onto a tree gives that tree overlaid with it, exactly when
      no path of one is a directory of the other and each entry can replace what is
      there. */
  lemma ReplayOver(t: Tree, dflt: Tree, size: Sizes, es: seq<Inode>, see: Resolver)
    requires ProperTree(t) && ProperTree(dflt) && Lists(dflt, size, es)
    ensures Right(t + dflt, size, es)
    ensures Gives(Replay(Laid(t), es, false, see), t + dflt) <==> NoClash(t, dflt) && AllReplaceable(t, t + dflt, size, es, see)
  {
    hide Replay, AllReplaceable, ProperNames, DirsOf, Blocked;
    var env := t + dflt;
    assert Right(env, size, es);
    if NoClash(t, dflt) {
      OverlayProper(t, dflt);
      forall p ensures Named(es, p) || SameAt(t, env, p) {
      }
      LaidClear(t, env);
      ReplayRight(Laid(t), env, size, es, see);
    } else {
      var p, q :| ((p in t && q in dflt) || (p in dflt && q in t)) && Above(p, q);
      if p in dflt && q in t {
        DirsOfTree(t, p);
        DirStays(Laid(t), es, p, false, see);
      } else {
        forall i | 0 <= i < |es| ensures es[i].name != p {
          assert es[i].name in dflt;
        }
        BelowStays(Laid(t), es, p, q, false, see);
      }
    }
  }

  lemma LaidClear(t: Tree, env: Tree)
    requires WellFormed(env) && t.Keys <= env.Keys
    ensures ClearFor(Laid(t), env)
  {
    hide DirsOf;
    forall p | p in env ensures ClearAt(Laid(t), p) {
      DirsOfTree(t, p);
    }
  }

  /** Every directory above a file or link is there. */
  ghost predicate Complete(f: Files) {
    forall p, d {:trigger Above(d, p)} | p in f.tree && Above(d, p) :: d in f.dirs
  }

  lemma LaidComplete(t: Tree)
    ensures Complete(Laid(t))
  {
    hide DirsOf;
    forall p, d | p in t && Above(d, p) ensures d in DirsOf(t) {
      DirsOfTree(t, d);
    }
  }

  lemma ApplyComplete(f: Files, e: Inode, noOverwrite: bool, see: Resolver)
    requires Complete(f)
    ensures var a := Apply(f, e, noOverwrite, see); a.Ok? ==> Complete(a.value)
  {
    hide Apply, Parents;
    var a := Apply(f, e, noOverwrite, see);
    if a.Ok? {
      forall p, d | p in a.value.tree && Above(d, p) ensures d in a.value.dirs {
        if p in f.tree {
          ApplyDirs(f, e, noOverwrite, see);
        } else {
          if p != e.name {
            ApplyFrame(f, e, noOverwrite, see, p);
          }
          ApplyNew(f, e, noOverwrite, see);
          ParentsAbove(d, p);
        }
      }
    }
  }

  lemma ApplyDirs(f: Files, e: Inode, noOverwrite: bool, see: Resolver)
    ensures var a := Apply(f, e, noOverwrite, see); a.Ok? ==> a.value.dirs == Made(f, e.name)
  {
    hide Placed, IsWhiteout, Terminated, Blocked, LinkAbove, IsLink, Made;
  }

  /** Something new is put only where nothing is in the way, and then all of the directories
      above it have been made. */
  lemma ApplyNew(f: Files, e: Inode, noOverwrite: bool, see: Resolver)
    ensures var a := Apply(f, e, noOverwrite, see);
            a.Ok? && e.name in a.value.tree && e.name !in f.tree ==> Parents(e.name) <= a.value.dirs
  {
    hide Placed, IsWhiteout, Terminated, LinkAbove, IsLink, Parents;
    var a := Apply(f, e, noOverwrite, see);
    if a.Ok? && e.name in a.value.tree && e.name !in f.tree {
      assert !Blocked(f.tree, e.name);
      forall d | d in Parents(e.name) ensures d in Made(f, e.name) {
        ParentsAbove(d, e.name);
        BlockedBelow(f.tree, d, e.name);
      }
    }
  }

  lemma BlockedBelow(t: Tree, d: Path, p: Path)
    requires Above(d, p) && !Blocked(t, p)
    ensures d !in t && !Blocked(t, d)
  {
    if Blocked(t, d) {
      var x :| x in t && Above(x, d);
      assert Above(x, p);
    }
  }

  lemma {:induction false} ReplayComplete(f: Files, es: seq<Inode>, noOverwrite: bool, see: Resolver)
    requires Complete(f)
    ensures var r := Replay(f, es, noOverwrite, see); r.Ok? ==> Complete(r.value)
    decreases es
  {
    hide Apply, Complete;
    if es != [] {
      ApplyComplete(f, es[0], noOverwrite, see);
      var a := Apply(f, es[0], noOverwrite, see);
      if a.Ok? {
        ReplayComplete(a.value, es[1..], noOverwrite, see);
      }
    }
  }

  lemma OverlayProper(t: Tree, dflt: Tree)
    requires ProperTree(t) && ProperTree(dflt) && NoClash(t, dflt)
    ensures ProperTree(t + dflt)
  {
  }

  // ------------------------------------------------------------------
  // ENV_FLAG_NO_OVERWRITE

  /** Whether an entry ends the load: a file does below a file, and in the place of a link
      that leads nowhere and so counts as missing; a link does if its target does not end. */
  predicate Keepable(f: Files, e: Inode, see: Resolver) {
    var p := e.name;
    !LinkAbove(f.tree, p) &&
    if p in f.dirs then true
    else if Blocked(f.tree, p) then IsLink(e.mode)
    else if p in f.tree then IsLink(e.mode) || f.tree[p].File? || see(f.tree, p) != Missing
    else IsLink(e.mode) ==> Terminated(e.buf)
  }

  /** What is there stays, but for a link that leads nowhere and has a whiteout; what is
      missing comes if nothing is in its way. */
  ghost function Kept(f: Files, e: Inode, see: Resolver): Tree {
    var t, p := f.tree, e.name;
    if !ClearAt(f, p) || (p in t && (t[p].File? || see(t, p) != Missing)) then t
    else if IsWhiteout(e) then t - {p}
    else if p in t then t
    else t[p := Placed(e)]
  }

  ghost predicate AllKeepable(f: Files, es: seq<Inode>, see: Resolver)
    decreases es
  {
    es == [] || (Keepable(f, es[0], see) && AllKeepable(Files(Kept(f, es[0], see), Made(f, es[0].name)), es[1..], see))
  }

  lemma ApplyKeeping(f: Files, e: Inode, see: Resolver)
    ensures Apply(f, e, true, see).Ok? <==> Keepable(f, e, see)
    ensures Keepable(f, e, see) ==> Apply(f, e, true, see) == Ok(Files(Kept(f, e, see), Made(f, e.name)))
  {
    hide Placed, LinkTarget, Basename, Terminated, Blocked, LinkAbove, IsLink, Parents;
    ParentsAbove(e.name, e.name);
  }

  /** No name of an entry is a directory above another's. */
  ghost predicate Apart(es: seq<Inode>) {
    forall i, j {:trigger es[i], es[j]} | 0 <= i < |es| && 0 <= j < |es| :: !Above(es[i].name, es[j].name)
  }

  /** What an entry leaves at its name, from what was there at the start. */
  ghost predicate KeptBy(f: Files, e: Inode, r: Tree) {
    var p := e.name;
    if p in f.tree then SameAt(r, f.tree, p) || (p !in r && IsWhiteout(e) && f.tree[p].Link?)
    else if IsWhiteout(e) || !ClearAt(f, p) then p !in r
    else p in r && r[p] == Placed(e)
  }

  ghost predicate AllKept(f: Files, es: seq<Inode>, r: Tree) {
    && (forall p {:trigger SameAt(r, f.tree, p)} :: Named(es, p) || SameAt(r, f.tree, p))
    && (forall i {:trigger es[i]} | 0 <= i < |es| :: KeptBy(f, es[i], r))
  }

  /** Loading any image without overwriting: exactly when it ends well, and what is then
      at each path. */
  lemma {:induction false} ReplayKeeping(f: Files, es: seq<Inode>, see: Resolver)
    ensures var r := Replay(f, es, true, see);
            && (r.Ok? <==> AllKeepable(f, es, see))
            && (r.Ok? && Distinct(es) && Apart(es) ==> AllKept(f, es, r.value.tree))
    decreases es
  {
    hide Apply, Keepable, Kept, Made, KeptBy, Above;
    if es != [] {
      ApplyKeeping(f, es[0], see);
      if Keepable(f, es[0], see) {
        var g := Files(Kept(f, es[0], see), Made(f, es[0].name));
        ReplayKeeping(g, es[1..], see);
        var r := Replay(g, es[1..], true, see);
        if r.Ok? && Distinct(es) && Apart(es) {
          assert Distinct(es[1..]) && Apart(es[1..]);
          AllKeptStep(f, es, see, r.value.tree);
        }
      }
    } else {
      forall p ensures Named(es, p) || SameAt(f.tree, f.tree, p) {
      }
    }
  }

  lemma AllKeptStep(f: Files, es: seq<Inode>, see: Resolver, r: Tree)
    requires es != [] && Distinct(es) && Apart(es) && Keepable(f, es[0], see)
    requires AllKept(Files(Kept(f, es[0], see), Made(f, es[0].name)), es[1..], r)
    ensures AllKept(f, es, r)
  {
    hide Keepable, Kept, Made, KeptBy;
    var e := es[0];
    var g := Files(Kept(f, e, see), Made(f, e.name));
    assert es == [e] + es[1..];
    forall p | !Named(es, p) ensures SameAt(r, f.tree, p) {
      NamedPrepend(e, es[1..], p);
      assert SameAt(r, g.tree, p);
      KeptFrame(f, e, see, p);
    }
    forall i | 0 <= i < |es| ensures KeptBy(f, es[i], r) {
      if i == 0 {
        assert !Named(es[1..], e.name) by {
          forall j | 0 <= j < |es[1..]| ensures es[1..][j].name != e.name { assert es[j + 1] == es[1..][j]; }
        }
        assert SameAt(r, g.tree, e.name);
        KeptHere(f, e, see, r);
      } else {
        assert KeptBy(g, es[1..][i - 1], r);
        KeptLater(f, e, see, es[i], r);
      }
    }
  }

  lemma KeptFrame(f: Files, e: Inode, see: Resolver, p: Path)
    requires p != e.name
    ensures SameAt(Kept(f, e, see), f.tree, p)
  {
    hide Placed, IsWhiteout, ClearAt;
  }

  lemma KeptHere(f: Files, e: Inode, see: Resolver, r: Tree)
    requires SameAt(r, Kept(f, e, see), e.name)
    ensures KeptBy(f, e, r)
  {
    hide Placed, IsWhiteout, ClearAt;
  }

  lemma KeptLater(f: Files, e: Inode, see: Resolver, d: Inode, r: Tree)
    requires e.name != d.name && !Above(e.name, d.name) && !Above(d.name, e.name)
    requires KeptBy(Files(Kept(f, e, see), Made(f, e.name)), d, r)
    ensures KeptBy(f, d, r)
  {
    hide Placed, IsWhiteout, Parents;
    ParentsAbove(d.name, e.name);
    KeptFrame(f, e, see, d.name);
    assert ClearAt(Files(Kept(f, e, see), Made(f, e.name)), d.name) <==> ClearAt(f, d.name);
  }

  /** Whatever the image holds, whiteouts and directories in the way included, a file that
      is there stays. */
  lemma {:induction false} FilesStay(f: Files, es: seq<Inode>, p: Path, see: Resolver)
    requires p in f.tree && f.tree[p].File?
    ensures var r := Replay(f, es, true, see); r.Ok? ==> SameAt(r.value.tree, f.tree, p)
    decreases es
  {
    hide Apply;
    if es != [] {
      var a := Apply(f, es[0], true, see);
      FileStays(f, es[0], p, see);
      if a.Ok? {
        FilesStay(a.value, es[1..], p, see);
      }
    }
  }

  lemma FileStays(f: Files, e: Inode, p: Path, see: Resolver)
    requires p in f.tree && f.tree[p].File?
    ensures var a := Apply(f, e, true, see); a.Ok? ==> SameAt(a.value.tree, f.tree, p)
  {
    hide Placed, IsWhiteout, Terminated, Blocked, LinkAbove, IsLink;
  }
}
