/** The part of the operating system's file system that the service touches through
    java.io.File, Guava's Files, Commons IO's FileUtils and PrintWriter.

    A path is the sequence of its name components, relative to the working directory of
    the service; the empty path is the working directory itself, which always exists.
    The state is a map from file paths to contents plus a set of directory paths. */
module FileStore {
  import opened Base

  type Name = string
  type Path = seq<Name>

  /** What a file holds: text written by a PrintWriter, or a JSON document written by
      Jackson's ObjectMapper (whose character encoding is not modelled). */
  datatype Content = Text(text: string) | Document(fields: map<string, Json>)

  function Parent(p: Path): Path { if p == [] then [] else p[..|p| - 1] }

  function Last(p: Path): Name { if p == [] then "" else p[|p| - 1] }

  /** `d` is `p` or one of its ancestors. */
  predicate IsPrefix(d: Path, p: Path) { |d| <= |p| && p[..|d|] == d }

  /** `p` lies strictly inside directory `d`. */
  predicate IsBelow(p: Path, d: Path) { |d| < |p| && p[..|d|] == d }

  /** The path that `p`, inside or equal to `from`, has once `from` is renamed to `to`. */
  function Moved(p: Path, from: Path, to: Path): Path
    requires IsPrefix(from, p)
  {
    to + p[|from|..]
  }

  /** The path that `q`, inside or equal to `to`, had before `from` was renamed to `to`. */
  function Origin(q: Path, from: Path, to: Path): Path
    requires IsPrefix(to, q)
  {
    from + q[|to|..]
  }

  /** Renaming is a bijection between the entries inside `from` and those inside `to`. */
  lemma MovedOrigin(p: Path, from: Path, to: Path)
    requires IsPrefix(from, p)
    ensures IsPrefix(to, Moved(p, from, to)) && Origin(Moved(p, from, to), from, to) == p
  {
    assert Moved(p, from, to)[|to|..] == p[|from|..];
    assert p == p[..|from|] + p[|from|..];
  }

  lemma OriginMoved(q: Path, from: Path, to: Path)
    requires IsPrefix(to, q)
    ensures IsPrefix(from, Origin(q, from, to)) && Moved(Origin(q, from, to), from, to) == q
  {
    assert Origin(q, from, to)[|from|..] == q[|to|..];
    assert q == q[..|to|] + q[|to|..];
  }

  lemma MovedInjective(from: Path, to: Path)
    ensures forall p1, p2 {:trigger Moved(p1, from, to), Moved(p2, from, to)} ::
              IsPrefix(from, p1) && IsPrefix(from, p2) && Moved(p1, from, to) == Moved(p2, from, to) ==> p1 == p2
  {
    forall p1, p2 | IsPrefix(from, p1) && IsPrefix(from, p2) && Moved(p1, from, to) == Moved(p2, from, to)
      ensures p1 == p2
    {
      MovedOrigin(p1, from, to);
      MovedOrigin(p2, from, to);
    }
  }

  /** The non-empty prefixes of `p`: what File.mkdirs creates. */
  function Prefixes(p: Path): set<Path> { set i | 0 < i <= |p| :: p[..i] }

  datatype FsState = FsState(files: map<Path, Content>, dirs: set<Path>) {

    /** File.exists(): a file or a directory. */
    predicate Exists(p: Path) { p == [] || p in files || p in dirs }

    /** File.isDirectory(). */
    predicate IsDir(p: Path) { p == [] || p in dirs }

    /** Every entry sits in an existing directory, and no path is both a file and a
        directory. */
    predicate Valid()
    {
      && [] !in files && [] !in dirs
      && files.Keys !! dirs
      && (forall p | p in files :: IsDir(Parent(p)))
      && (forall p | p in dirs :: IsDir(Parent(p)))
    }

    /** The names File.list() reports for directory `d`. */
    function Children(d: Path): set<Name>
    {
      (set p | p in files && |p| == |d| + 1 && p[..|d|] == d :: p[|d|])
      + (set p | p in dirs && |p| == |d| + 1 && p[..|d|] == d :: p[|d|])
    }

    /** File.mkdir() succeeds. */
    predicate CanMkdir(p: Path) { !Exists(p) && IsDir(Parent(p)) }

    /** File.mkdirs() succeeds: it returns false when `p` already exists and fails when
        some ancestor is a file. */
    predicate CanMkdirs(p: Path) { !Exists(p) && forall i | 0 < i < |p| :: p[..i] !in files }

    /** new PrintWriter(p) opens (creating or truncating) a file. */
    predicate CanWrite(p: Path) { p != [] && p !in dirs && IsDir(Parent(p)) }

    /** File.renameTo(to) on a Unix file system (rename(2)): the source exists, the
        target's directory exists, the target is not inside the source, and an existing
        target is replaced only by an entry of its own kind, a directory only when empty. */
    predicate CanRename(from: Path, to: Path)
    {
      && from != [] && to != [] && Exists(from) && IsDir(Parent(to))
      && (from == to || (!IsPrefix(from, to) && TargetReplaceable(from, to)))
    }

    /** rename(2) may put `from` in place of `to`. */
    predicate TargetReplaceable(from: Path, to: Path)
    {
      || !Exists(to)
      || (from in files && to in files)
      || (from in dirs && to in dirs && Children(to) == {})
    }

    /** FileUtils.cleanDirectory(d) succeeds. */
    predicate CanClean(d: Path) { IsDir(d) }

    function AfterMkdir(p: Path): FsState { FsState(files, dirs + {p}) }

    function AfterMkdirs(p: Path): FsState { FsState(files, dirs + Prefixes(p)) }

    function AfterWrite(p: Path, c: Content): FsState { FsState(files[p := c], dirs) }

    function AfterRename(from: Path, to: Path): FsState
    {
      if from == to then this
      else
        MovedInjective(from, to);
        FsState(
          (map p | p in files && !IsPrefix(from, p) && p != to :: files[p])
          + (map p | p in files && IsPrefix(from, p) :: Moved(p, from, to) := files[p]),
          (set p | p in dirs && !IsPrefix(from, p) && p != to)
          + (set p | p in dirs && IsPrefix(from, p) :: Moved(p, from, to)))
    }

    function AfterClean(d: Path): FsState
    {
      FsState(map p | p in files && !IsBelow(p, d) :: files[p],
              set p | p in dirs && !IsBelow(p, d))
    }
  }

  /** Under a valid state, nothing exists inside a directory that does not exist. */
  lemma {:induction false} NothingBelowMissing(s: FsState, d: Path, p: Path)
    requires s.Valid() && !s.Exists(d) && IsBelow(p, d)
    ensures p !in s.files && p !in s.dirs
    decreases |p|
  {
    if p in s.files || p in s.dirs {
      var q := Parent(p);
      if |q| > |d| {
        NothingBelowMissing(s, d, q);
      }
    }
  }

  lemma MkdirValid(s: FsState, p: Path)
    requires s.Valid() && s.CanMkdir(p)
    ensures s.AfterMkdir(p).Valid()
  {
  }

  lemma MkdirsValid(s: FsState, p: Path)
    requires s.Valid() && s.CanMkdirs(p)
    ensures s.AfterMkdirs(p).Valid()
  {
    var t := s.AfterMkdirs(p);
    forall q | q in Prefixes(p) ensures t.IsDir(Parent(q)) && q !in s.files {
      var i :| 0 < i <= |p| && q == p[..i];
      if i > 1 {
        assert Parent(q) == p[..i - 1];
      }
      if i == |p| {
        assert q == p;
      }
    }
  }

  lemma WriteValid(s: FsState, p: Path, c: Content)
    requires s.Valid() && s.CanWrite(p)
    ensures s.AfterWrite(p, c).Valid()
  {
  }

  lemma CleanValid(s: FsState, d: Path)
    requires s.Valid() && s.CanClean(d)
    ensures s.AfterClean(d).Valid()
  {
    var t := s.AfterClean(d);
    forall p | p in t.files || p in t.dirs ensures t.IsDir(Parent(p)) {
    }
  }

  lemma RenameValid(s: FsState, from: Path, to: Path)
    requires s.Valid() && s.CanRename(from, to)
    ensures s.AfterRename(from, to).Valid()
  {
    if from != to {
      var t := s.AfterRename(from, to);
      forall p | p in t.files || p in t.dirs ensures t.IsDir(Parent(p)) && p != [] {
        RenamedEntryValid(s, from, to, p);
      }
      forall p | p in t.files ensures p !in t.dirs {
        RenamedKindsDisjoint(s, from, to, p);
      }
    }
  }

  /** Membership in the renamed state: an entry is kept when it is neither inside
      `from` nor the replaced `to`, and an entry inside `to` comes from inside `from`. */
  lemma RenamedMembers(s: FsState, from: Path, to: Path, q: Path)
    requires from != to
    ensures q in s.AfterRename(from, to).files <==>
              (q in s.files && !IsPrefix(from, q) && q != to) || (IsPrefix(to, q) && Origin(q, from, to) in s.files)
    ensures q in s.AfterRename(from, to).dirs <==>
              (q in s.dirs && !IsPrefix(from, q) && q != to) || (IsPrefix(to, q) && Origin(q, from, to) in s.dirs)
  {
    var t := s.AfterRename(from, to);
    if IsPrefix(to, q) {
      OriginMoved(q, from, to);
    }
    if q in t.files && !(q in s.files && !IsPrefix(from, q) && q != to) {
      var p :| p in s.files && IsPrefix(from, p) && q == Moved(p, from, to);
      MovedOrigin(p, from, to);
    }
    if q in t.dirs && !(q in s.dirs && !IsPrefix(from, q) && q != to) {
      var p :| p in s.dirs && IsPrefix(from, p) && q == Moved(p, from, to);
      MovedOrigin(p, from, to);
    }
  }

  /** Every proper ancestor of an entry is a directory. */
  lemma {:induction false} AncestorsAreDirs(s: FsState, p: Path, i: nat)
    requires s.Valid() && (p in s.files || p in s.dirs) && 0 < i < |p|
    ensures p[..i] in s.dirs
    decreases |p|
  {
    var q := Parent(p);
    assert q in s.dirs;
    if i < |q| {
      AncestorsAreDirs(s, q, i);
      assert q[..i] == p[..i];
    }
  }

  /** An entry one level inside `d` is listed among its children. */
  lemma ListedChild(s: FsState, d: Path, c: Path)
    requires (c in s.files || c in s.dirs) && |c| == |d| + 1 && c[..|d|] == d
    ensures c[|d|] in s.Children(d)
  {
  }

  /** Renaming an entry of `d` to another name in `d` swaps the two names in its
      listing. */
  lemma RenameChildren(s: FsState, d: Path, from: Path, to: Path)
    requires s.CanRename(from, to) && from != to
    requires |from| == |d| + 1 && |to| == |d| + 1 && from[..|d|] == d && to[..|d|] == d
    ensures s.AfterRename(from, to).Children(d) == s.Children(d) - {from[|d|]} + {to[|d|]}
  {
    forall n ensures n in s.AfterRename(from, to).Children(d) <==> n in s.Children(d) - {from[|d|]} + {to[|d|]} {
      RenameChild(s, d, from, to, n);
    }
  }

  lemma RenameChild(s: FsState, d: Path, from: Path, to: Path, n: Name)
    requires s.CanRename(from, to) && from != to
    requires |from| == |d| + 1 && |to| == |d| + 1 && from[..|d|] == d && to[..|d|] == d
    ensures n in s.AfterRename(from, to).Children(d) <==> (n in s.Children(d) && n != from[|d|]) || n == to[|d|]
  {
    var t := s.AfterRename(from, to);
    var c := d + [n];
    assert c[..|d|] == d && c[|d|] == n;
    assert from == d + [from[|d|]] && to == d + [to[|d|]];
    RenamedSibling(s, from, to, c);
    if n in t.Children(d) {
      ChildEntry(t, d, n);
    }
    if n in s.Children(d) {
      ChildEntry(s, d, n);
    }
    if c in t.files || c in t.dirs {
      ListedChild(t, d, c);
    }
    if c in s.files || c in s.dirs {
      ListedChild(s, d, c);
    }
  }

  /** Among entries as long as the renamed ones, the source is gone and the target is
      there. */
  lemma RenamedSibling(s: FsState, from: Path, to: Path, c: Path)
    requires s.CanRename(from, to) && from != to
    requires |c| == |from| == |to|
    ensures (c in s.AfterRename(from, to).files || c in s.AfterRename(from, to).dirs) <==>
              ((c in s.files || c in s.dirs) && c != from && c != to) || c == to
  {
    RenamedMembers(s, from, to, c);
    assert IsPrefix(from, c) <==> c == from;
    assert IsPrefix(to, c) <==> c == to;
    if c == to {
      assert Origin(c, from, to) == from;
      assert from in s.files || from in s.dirs;
    }
  }

  /** Renaming between two paths of the same depth: the source is gone and the
      target is an entry of the source's kind. */
  lemma RenameSameDepth(s: FsState, from: Path, to: Path)
    requires s.CanRename(from, to) && from != to && |from| == |to|
    ensures !s.AfterRename(from, to).Exists(from)
    ensures to in s.AfterRename(from, to).files <==> from in s.files
    ensures to in s.AfterRename(from, to).dirs <==> from in s.dirs
  {
    RenamedMembers(s, from, to, from);
    RenamedMembers(s, from, to, to);
    assert from[..|to|] == from && to[..|from|] == to;
    assert to[|to|..] == [] && Origin(to, from, to) == from;
  }

  /** What was one level inside the source is one level inside the target. */
  lemma RenameMovesChild(s: FsState, from: Path, to: Path, n: Name)
    requires s.CanRename(from, to) && from != to
    ensures from + [n] in s.files ==> to + [n] in s.AfterRename(from, to).files
    ensures from + [n] in s.dirs ==> to + [n] in s.AfterRename(from, to).dirs
  {
    var c := to + [n];
    assert IsPrefix(to, c) && Origin(c, from, to) == from + [n];
    RenamedMembers(s, from, to, c);
  }

  /** Entries outside both the source and the target are untouched. */
  lemma RenameKeepsOther(s: FsState, from: Path, to: Path, q: Path)
    requires s.CanRename(from, to) && from != to && !IsPrefix(from, q) && !IsPrefix(to, q)
    ensures q in s.AfterRename(from, to).files <==> q in s.files
    ensures q in s.AfterRename(from, to).dirs <==> q in s.dirs
  {
    RenamedMembers(s, from, to, q);
  }

  /** Every listed child is an entry one level inside `d`. */
  lemma ChildEntry(s: FsState, d: Path, n: Name)
    requires n in s.Children(d)
    ensures d + [n] in s.files || d + [n] in s.dirs
  {
    if n in (set p | p in s.files && |p| == |d| + 1 && p[..|d|] == d :: p[|d|]) {
      var p :| p in s.files && |p| == |d| + 1 && p[..|d|] == d && p[|d|] == n;
      assert p == d + [n];
    } else {
      var p :| p in s.dirs && |p| == |d| + 1 && p[..|d|] == d && p[|d|] == n;
      assert p == d + [n];
    }
  }

  /** Nothing that rename(2) accepts to replace has anything inside it. */
  lemma NothingBelowTarget(s: FsState, from: Path, to: Path, q: Path)
    requires s.Valid() && s.CanRename(from, to) && from != to
    requires q in s.files || q in s.dirs
    ensures !IsBelow(q, to)
  {
    if IsBelow(q, to) {
      AncestorsAreDirs(s, q, |to|);
      var c := q[..|to| + 1];
      if |to| + 1 < |q| {
        AncestorsAreDirs(s, q, |to| + 1);
        ListedChild(s, to, c);
      } else {
        ListedChild(s, to, q);
      }
    }
  }

  /** An entry of the renamed state has its directory in the renamed state. */
  lemma RenamedEntryValid(s: FsState, from: Path, to: Path, q: Path)
    requires s.Valid() && s.CanRename(from, to) && from != to
    requires q in s.AfterRename(from, to).files || q in s.AfterRename(from, to).dirs
    ensures q != [] && s.AfterRename(from, to).IsDir(Parent(q))
  {
    RenamedMembers(s, from, to, q);
    var pq := Parent(q);
    if pq != [] {
      RenamedMembers(s, from, to, pq);
      if IsPrefix(to, q) && (Origin(q, from, to) in s.files || Origin(q, from, to) in s.dirs) {
        MovedParent(s, from, to, q);
      } else {
        KeptParent(s, from, to, q);
      }
    }
  }

  lemma MovedParent(s: FsState, from: Path, to: Path, q: Path)
    requires s.Valid() && s.CanRename(from, to) && from != to
    requires IsPrefix(to, q) && (Origin(q, from, to) in s.files || Origin(q, from, to) in s.dirs)
    requires Parent(q) != []
    ensures (Parent(q) in s.dirs && !IsPrefix(from, Parent(q)) && Parent(q) != to)
            || (IsPrefix(to, Parent(q)) && Origin(Parent(q), from, to) in s.dirs)
  {
    var o := Origin(q, from, to);
    var pq := Parent(q);
    if q != to {
      assert IsPrefix(to, pq);
      assert Origin(pq, from, to) == Parent(o);
    }
  }

  lemma KeptParent(s: FsState, from: Path, to: Path, q: Path)
    requires s.Valid() && s.CanRename(from, to) && from != to
    requires (q in s.files || q in s.dirs) && !IsPrefix(from, q) && q != to
    requires Parent(q) != []
    ensures Parent(q) in s.dirs && !IsPrefix(from, Parent(q)) && Parent(q) != to
  {
    var pq := Parent(q);
    assert pq != to by {
      if pq == to { NothingBelowTarget(s, from, to, q); }
    }
  }

  lemma RenamedKindsDisjoint(s: FsState, from: Path, to: Path, q: Path)
    requires s.Valid() && s.CanRename(from, to) && from != to
    requires q in s.AfterRename(from, to).files
    ensures q !in s.AfterRename(from, to).dirs
  {
    RenamedMembers(s, from, to, q);
    if IsPrefix(to, q) && q != to {
      if q in s.files || q in s.dirs {
        NothingBelowTarget(s, from, to, q);
      }
    }
  }

  /** The file system the service runs against. */
  class FileSystem {
    var files: map<Path, Content>
    var dirs: set<Path>

    function State(): FsState
      reads this
    {
      FsState(files, dirs)
    }

    ghost predicate Valid()
      reads this
    {
      State().Valid()
    }

    constructor (initial: FsState)
      requires initial.Valid()
      ensures Valid() && State() == initial
    {
      files, dirs := initial.files, initial.dirs;
    }

    /** File.mkdir(). */
    method Mkdir(p: Path) returns (ok: bool)
      requires Valid()
      modifies this
      ensures Valid()
      ensures ok == old(State()).CanMkdir(p)
      ensures State() == if ok then old(State()).AfterMkdir(p) else old(State())
    {
      ok := State().CanMkdir(p);
      if ok {
        MkdirValid(State(), p);
        dirs := dirs + {p};
      }
    }

    /** File.mkdirs(). */
    method Mkdirs(p: Path) returns (ok: bool)
      requires Valid()
      modifies this
      ensures Valid()
      ensures ok == old(State()).CanMkdirs(p)
      ensures State() == if ok then old(State()).AfterMkdirs(p) else old(State())
    {
      ok := State().CanMkdirs(p);
      if ok {
        MkdirsValid(State(), p);
        dirs := dirs + Prefixes(p);
      }
    }

    /** Open `p` with a PrintWriter, write `c` and close it. */
    method Write(p: Path, c: Content) returns (ok: bool)
      requires Valid()
      modifies this
      ensures Valid()
      ensures ok == old(State()).CanWrite(p)
      ensures State() == if ok then old(State()).AfterWrite(p, c) else old(State())
    {
      ok := State().CanWrite(p);
      if ok {
        WriteValid(State(), p, c);
        files := files[p := c];
      }
    }

    /** File.renameTo(). */
    method Rename(from: Path, to: Path) returns (ok: bool)
      requires Valid()
      modifies this
      ensures Valid()
      ensures ok == old(State()).CanRename(from, to)
      ensures State() == if ok then old(State()).AfterRename(from, to) else old(State())
    {
      ok := State().CanRename(from, to);
      if ok {
        RenameValid(State(), from, to);
        var t := State().AfterRename(from, to);
        files, dirs := t.files, t.dirs;
      }
    }

    /** FileUtils.cleanDirectory(): deletes everything inside `d`. */
    method Clean(d: Path) returns (ok: bool)
      requires Valid()
      modifies this
      ensures Valid()
      ensures ok == old(State()).CanClean(d)
      ensures State() == if ok then old(State()).AfterClean(d) else old(State())
    {
      ok := State().CanClean(d);
      if ok {
        CleanValid(State(), d);
        var t := State().AfterClean(d);
        files, dirs := t.files, t.dirs;
      }
    }

    /** File.list(): the names inside directory `d`, in no particular order, or None
        (Java's null) when `d` is not a directory. */
    method List(d: Path) returns (names: Option<seq<Name>>)
      ensures names.Some? <==> State().IsDir(d)
      ensures names.Some? ==> (forall n :: n in names.value <==> n in State().Children(d))
    {
      if !State().IsDir(d) {
        return None;
      }
      var rest := State().Children(d);
      var acc: seq<Name> := [];
      while rest != {}
        invariant forall n :: n in State().Children(d) <==> n in acc || n in rest
        decreases rest
      {
        var n :| n in rest;
        acc := acc + [n];
        rest := rest - {n};
      }
      names := Some(acc);
    }
  }
}
