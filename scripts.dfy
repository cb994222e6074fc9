/** Script trees and their on-disk layout (model/Script.java).

    A Script is a strict binary tree: each node has code and an optional follow-up to run
    when it exits zero (`okScript`) and one to run otherwise (`errorScript`). A
    WrittenScript is the same tree stored in files: a node at `name.sh` keeps its ok
    child in `nameo.sh` and its error child in `namee.sh`, and the existence of those
    files is the only record that a child exists. */
module Scripts {
  import opened Base
  import opened FileStore

  /** A script tree as the API receives it; `code` is None where the JSON had none. */
  datatype Script = Script(code: Option<string>, okScript: Option<Script>, errorScript: Option<Script>)

  /** A script tree stored on disk. The Java subclass redeclares okScript/errorScript,
      hiding the base class's fields, so the two are separate types here. */
  datatype WrittenScript =
    WrittenScript(location: Path, code: string, okScript: Option<WrittenScript>, errorScript: Option<WrittenScript>)

  const MissingCode: string := "Missing Script#code"

  // ---------------------------------------------------------------------------------
  // Positions in a tree

  /** A position is the word of branch letters ('o' for ok, 'e' for error) on the way
      from the root; the letters are the ones the file names use. */
  predicate IsPosition(w: seq<char>) { forall i :: 0 <= i < |w| ==> w[i] == 'o' || w[i] == 'e' }

  /** The subtree at position `w`, if the tree has one. */
  function NodeAt(s: Script, w: seq<char>): Option<Script>
    decreases |w|
  {
    if w == [] then Some(s)
    else if w[0] == 'o' && s.okScript.Some? then NodeAt(s.okScript.value, w[1..])
    else if w[0] == 'e' && s.errorScript.Some? then NodeAt(s.errorScript.value, w[1..])
    else None
  }

  function WrittenAt(t: WrittenScript, w: seq<char>): Option<WrittenScript>
    decreases |w|
  {
    if w == [] then Some(t)
    else if w[0] == 'o' && t.okScript.Some? then WrittenAt(t.okScript.value, w[1..])
    else if w[0] == 'e' && t.errorScript.Some? then WrittenAt(t.errorScript.value, w[1..])
    else None
  }

  lemma {:induction false} NodeAtIsPosition(s: Script, w: seq<char>)
    requires NodeAt(s, w).Some?
    ensures IsPosition(w)
    decreases |w|
  {
    if w != [] {
      var c := if w[0] == 'o' then s.okScript.value else s.errorScript.value;
      NodeAtIsPosition(c, w[1..]);
      assert w == [w[0]] + w[1..];
    }
  }

  // ---------------------------------------------------------------------------------
  // Script.validateIn

  /** Script.validateIn: rejects a node without code with a 400 error, after which it
      checks the ok subtree and then the error subtree. */
  function Validate(s: Script): Outcome
  {
    if s.code.None? then Fail(BadRequest(MissingCode))
    else if s.okScript.Some? && Validate(s.okScript.value).Fail? then Validate(s.okScript.value)
    else if s.errorScript.Some? then Validate(s.errorScript.value)
    else Pass
  }

  /** A tree validates exactly when every one of its nodes has code; otherwise the error
      is always the 400 "Missing Script#code". */
  lemma ValidateIffAllCode(s: Script)
    ensures Validate(s).Pass? <==> forall w :: NodeAt(s, w).Some? ==> NodeAt(s, w).value.code.Some?
    ensures Validate(s).Fail? ==> Validate(s).error == BadRequest(MissingCode)
  {
    if Validate(s).Pass? {
      forall w | NodeAt(s, w).Some? ensures NodeAt(s, w).value.code.Some? {
        ValidNodeHasCode(s, w);
      }
    } else {
      var w := MissingCodeAt(s);
    }
  }

  lemma {:induction false} ValidNodeHasCode(s: Script, w: seq<char>)
    requires Validate(s).Pass? && NodeAt(s, w).Some?
    ensures NodeAt(s, w).value.code.Some?
    decreases |w|
  {
    if w != [] {
      if w[0] == 'o' && s.okScript.Some? {
        ValidNodeHasCode(s.okScript.value, w[1..]);
      } else {
        ValidNodeHasCode(s.errorScript.value, w[1..]);
      }
    }
  }

  /** A failing validation points at a node without code. */
  lemma {:induction false} MissingCodeAt(s: Script) returns (w: seq<char>)
    requires Validate(s).Fail?
    ensures NodeAt(s, w).Some? && NodeAt(s, w).value.code.None?
    ensures Validate(s).error == BadRequest(MissingCode)
  {
    if s.code.None? {
      w := [];
    } else if s.okScript.Some? && Validate(s.okScript.value).Fail? {
      var v := MissingCodeAt(s.okScript.value);
      w := "o" + v;
      assert w[1..] == v;
    } else {
      var v := MissingCodeAt(s.errorScript.value);
      w := "e" + v;
      assert w[1..] == v;
    }
  }

  // ---------------------------------------------------------------------------------
  // childOkLocation / childErrorLocation

  predicate EndsWith(s: string, suffix: string) { |suffix| <= |s| && s[|s| - |suffix|..] == suffix }

  /** The characters java.util.regex treats as line terminators. */
  predicate IsLineTerminator(c: char)
  {
    c == '\n' || c == '\r' || c == '\U{0085}' || c == '\U{2028}' || c == '\U{2029}'
  }

  /** name.replaceFirst("\\.sh$", ""): drops a final ".sh". Without MULTILINE, Java's `$`
      also matches just before a line terminator that ends the input, so a ".sh"
      followed by one final terminator (or by "\r\n") is dropped too. */
  function StripSh(n: string): string
  {
    if EndsWith(n, ".sh") then n[..|n| - 3]
    else if |n| >= 5 && n[|n| - 2..] == "\r\n" && EndsWith(n[..|n| - 2], ".sh") then n[..|n| - 5] + "\r\n"
    else if |n| >= 4 && IsLineTerminator(n[|n| - 1]) && EndsWith(n[..|n| - 1], ".sh") then n[..|n| - 4] + [n[|n| - 1]]
    else n
  }

  /** The file name of a child: strip ".sh", then append "o.sh" or "e.sh". */
  function ChildName(n: string, branch: char): string
  {
    StripSh(n) + [branch] + ".sh"
  }

  /** childOkLocation (branch 'o') and childErrorLocation (branch 'e'). The suffixes
      contain no separator, so rewriting the last name is rewriting the path string. */
  function ChildPath(loc: Path, branch: char): Path
  {
    Parent(loc) + [ChildName(Last(loc), branch)]
  }

  /** The file that holds position `w` of a tree stored at `loc`: for a non-empty `w`,
      the stem of `loc`'s name followed by `w` and ".sh". */
  function PathAt(loc: Path, w: seq<char>): Path
  {
    if w == [] then loc else Parent(loc) + [StripSh(Last(loc)) + w + ".sh"]
  }

  lemma StripShLength(n: string)
    ensures |n| - 3 <= |StripSh(n)| <= |n|
  {
  }

  /** Stripping a name that ends in ".sh" removes exactly those three characters. */
  lemma StripShOfSh(stem: string)
    ensures StripSh(stem + ".sh") == stem
  {
    assert (stem + ".sh")[..|stem|] == stem;
  }

  /** For a parent name ending in ".sh", both child names end in ".sh", are one
      character longer than the parent's, and differ from each other and from it. */
  lemma ChildNameOfSh(n: string)
    requires EndsWith(n, ".sh")
    ensures EndsWith(ChildName(n, 'o'), ".sh") && EndsWith(ChildName(n, 'e'), ".sh")
    ensures |ChildName(n, 'o')| == |n| + 1 && |ChildName(n, 'e')| == |n| + 1
    ensures ChildName(n, 'o') != ChildName(n, 'e')
    ensures ChildName(n, 'o') != n && ChildName(n, 'e') != n
    ensures ChildName(n, 'o') == n[..|n| - 3] + "o.sh" && ChildName(n, 'e') == n[..|n| - 3] + "e.sh"
  {
    var stem := n[..|n| - 3];
    assert ChildName(n, 'o')[|stem|] == 'o';
    assert ChildName(n, 'e')[|stem|] == 'e';
  }

  /** A name that does not end in ".sh" (nor in ".sh" and a final line terminator)
      just gets the suffix appended. */
  lemma ChildNameOfOther(n: string, branch: char)
    requires !EndsWith(n, ".sh")
    requires !(|n| >= 4 && IsLineTerminator(n[|n| - 1]) && EndsWith(n[..|n| - 1], ".sh"))
    requires !(|n| >= 5 && n[|n| - 2..] == "\r\n" && EndsWith(n[..|n| - 2], ".sh"))
    ensures ChildName(n, branch) == n + [branch] + ".sh"
  {
  }

  /** A child's file sits in the parent's directory and has a longer name. */
  lemma ChildPathFacts(loc: Path, branch: char)
    ensures Parent(ChildPath(loc, branch)) == Parent(loc)
    ensures Last(ChildPath(loc, branch)) == ChildName(Last(loc), branch)
    ensures |Last(ChildPath(loc, branch))| > |Last(loc)|
    ensures ChildPath(loc, branch) == PathAt(loc, [branch])
  {
    StripShLength(Last(loc));
    var p := ChildPath(loc, branch);
    assert p[..|p| - 1] == Parent(loc);
  }

  /** The position `w` below a child is the position `branch` then `w` below its parent. */
  lemma PathAtChild(loc: Path, branch: char, w: seq<char>)
    ensures PathAt(ChildPath(loc, branch), w) == PathAt(loc, [branch] + w)
  {
    ChildPathFacts(loc, branch);
    if w != [] {
      var stem := StripSh(Last(loc));
      var c := ChildPath(loc, branch);
      StripShOfSh(stem + [branch]);
      assert Last(c) == (stem + [branch]) + ".sh";
      assert StripSh(Last(c)) == stem + [branch];
      calc {
        PathAt(c, w);
        Parent(loc) + [(stem + [branch]) + w + ".sh"];
        { assert (stem + [branch]) + w == stem + ([branch] + w); }
        Parent(loc) + [stem + ([branch] + w) + ".sh"];
        PathAt(loc, [branch] + w);
      }
    } else {
      assert [branch] + w == [branch];
    }
  }

  /** Distinct positions of a tree stored at `loc` are stored in distinct files, so
      writing a tree never overwrites another of its own nodes. */
  lemma PathAtInjective(loc: Path, w1: seq<char>, w2: seq<char>)
    requires PathAt(loc, w1) == PathAt(loc, w2)
    ensures w1 == w2
  {
    StripShLength(Last(loc));
    var stem := StripSh(Last(loc));
    if w1 != [] && w2 != [] {
      var n1 := stem + w1 + ".sh";
      var n2 := stem + w2 + ".sh";
      assert n1 == PathAt(loc, w1)[|Parent(loc)|];
      assert n2 == PathAt(loc, w2)[|Parent(loc)|];
      assert w1 == n1[|stem|..|n1| - 3];
      assert w2 == n2[|stem|..|n2| - 3];
    }
  }

  // ---------------------------------------------------------------------------------
  // new WrittenScript(script, location): writing a tree

  /** The tree a successful write returns: the input's shape and code, each node's
      location derived from its parent's. */
  function Place(s: Script, loc: Path): WrittenScript
    requires Validate(s).Pass?
  {
    WrittenScript(loc, s.code.value,
      if s.okScript.Some? then Some(Place(s.okScript.value, ChildPath(loc, 'o'))) else None,
      if s.errorScript.Some? then Some(Place(s.errorScript.value, ChildPath(loc, 'e'))) else None)
  }

  /** Forgets the locations of a stored tree. */
  function Unwritten(t: WrittenScript): Script
  {
    Script(Some(t.code),
      if t.okScript.Some? then Some(Unwritten(t.okScript.value)) else None,
      if t.errorScript.Some? then Some(Unwritten(t.errorScript.value)) else None)
  }

  /** The files of a stored tree and what each holds, in the order the write constructor
      produces them: the ok subtree, the error subtree, then the node's own file. */
  function Layout(t: WrittenScript): map<Path, Content>
  {
    (ChildLayout(t.okScript) + ChildLayout(t.errorScript))[t.location := Text(t.code)]
  }

  /** The files a write of `s` at `loc` may touch. */
  function Locations(s: Script, loc: Path): set<Path>
  {
    {loc} + ChildLocations(s.okScript, ChildPath(loc, 'o')) + ChildLocations(s.errorScript, ChildPath(loc, 'e'))
  }

  function ChildLocations(child: Option<Script>, loc: Path): set<Path>
  {
    if child.Some? then Locations(child.value, loc) else {}
  }

  /** The write constructor as a function of the files before it (the directories do
      not change): the files after it and what it returns or throws. The ok subtree is
      written first, then the error subtree; then a PrintWriter creates or truncates the
      node's own file and writes the code, which throws on a null code after the file
      was created empty. */
  function WriteSpec(files: map<Path, Content>, dirs: set<Path>, s: Script, loc: Path): (map<Path, Content>, Result<WrittenScript>)
    decreases s
  {
    var (f1, ok) := WriteChild(files, dirs, s.okScript, ChildPath(loc, 'o'));
    if ok.Err? then (f1, Err(ok.error))
    else
      var (f2, err) := WriteChild(f1, dirs, s.errorScript, ChildPath(loc, 'e'));
      if err.Err? then (f2, Err(err.error))
      else if !FsState(f2, dirs).CanWrite(loc) then (f2, Err(IOFailure))
      else if s.code.None? then (f2[loc := Text("")], Err(NullPointer))
      else (f2[loc := Text(s.code.value)], Ok(WrittenScript(loc, s.code.value, ok.value, err.value)))
  }

  /** Optional.map of the write constructor over a child. */
  function WriteChild(files: map<Path, Content>, dirs: set<Path>, child: Option<Script>, loc: Path): (map<Path, Content>, Result<Option<WrittenScript>>)
    decreases child
  {
    if child.None? then (files, Ok(None))
    else
      var (f, r) := WriteSpec(files, dirs, child.value, loc);
      (f, if r.Ok? then Ok(Some(r.value)) else Err(r.error))
  }

  /** A node's file can be opened for writing at every position of the tree. */
  ghost predicate Writable(dirs: set<Path>, s: Script, loc: Path)
  {
    forall w :: NodeAt(s, w).Some? ==> FsState(map[], dirs).CanWrite(PathAt(loc, w))
  }

  /** new WrittenScript(script, location), writing through the file system. */
  method Write(fs: FileSystem, s: Script, loc: Path) returns (r: Result<WrittenScript>)
    requires fs.Valid()
    modifies fs
    ensures fs.Valid() && fs.dirs == old(fs.dirs)
    ensures (fs.files, r) == WriteSpec(old(fs.files), old(fs.dirs), s, loc)
    decreases s
  {
    var ok: Option<WrittenScript> := None;
    if s.okScript.Some? {
      var c := Write(fs, s.okScript.value, ChildPath(loc, 'o'));
      if c.Err? {
        return Err(c.error);
      }
      ok := Some(c.value);
    }
    var err: Option<WrittenScript> := None;
    if s.errorScript.Some? {
      var c := Write(fs, s.errorScript.value, ChildPath(loc, 'e'));
      if c.Err? {
        return Err(c.error);
      }
      err := Some(c.value);
    }
    if s.code.None? {
      var created := fs.Write(loc, Text(""));
      return if created then Err(NullPointer) else Err(IOFailure);
    }
    var written := fs.Write(loc, Text(s.code.value));
    if !written {
      return Err(IOFailure);
    }
    r := Ok(WrittenScript(loc, s.code.value, ok, err));
  }

  /** The write succeeds when every node has code and every node's file can be opened;
      it then returns the placed tree, and the files are the old ones overlaid with that
      tree's layout. */
  lemma {:induction false} WriteSpecSucceeds(files: map<Path, Content>, dirs: set<Path>, s: Script, loc: Path)
    requires Validate(s).Pass? && Writable(dirs, s, loc)
    ensures WriteSpec(files, dirs, s, loc) == (files + Layout(Place(s, loc)), Ok(Place(s, loc)))
    decreases s
  {
    var okLoc, errLoc := ChildPath(loc, 'o'), ChildPath(loc, 'e');
    WritableChild(dirs, s, loc, 'o');
    WritableChild(dirs, s, loc, 'e');
    var t := Place(s, loc);
    var f1 := files + ChildLayout(t.okScript);
    WriteChildSucceeds(files, dirs, s.okScript, okLoc);
    if s.okScript.None? {
      assert f1 == files;
    } else {
      assert t.okScript == Some(Place(s.okScript.value, okLoc));
    }
    assert WriteChild(files, dirs, s.okScript, okLoc) == (f1, Ok(t.okScript));
    var f2 := f1 + ChildLayout(t.errorScript);
    WriteChildSucceeds(f1, dirs, s.errorScript, errLoc);
    if s.errorScript.None? {
      assert f2 == f1;
    } else {
      assert t.errorScript == Some(Place(s.errorScript.value, errLoc));
    }
    assert WriteChild(f1, dirs, s.errorScript, errLoc) == (f2, Ok(t.errorScript));
    assert FsState(f2, dirs).CanWrite(loc);
    LayoutOverlay(files, t);
  }

  /** The layout of an optional subtree. */
  function ChildLayout(t: Option<WrittenScript>): map<Path, Content>
  {
    if t.Some? then Layout(t.value) else map[]
  }

  lemma LayoutOverlay(files: map<Path, Content>, t: WrittenScript)
    ensures (files + ChildLayout(t.okScript) + ChildLayout(t.errorScript))[t.location := Text(t.code)]
            == files + Layout(t)
  {
  }

  lemma {:induction false} WriteChildSucceeds(files: map<Path, Content>, dirs: set<Path>, child: Option<Script>, loc: Path)
    requires child.Some? ==> Validate(child.value).Pass? && Writable(dirs, child.value, loc)
    ensures child.Some? ==>
              WriteChild(files, dirs, child, loc)
              == (files + Layout(Place(child.value, loc)), Ok(Some(Place(child.value, loc))))
    ensures child.None? ==> WriteChild(files, dirs, child, loc) == (files, Ok(None))
    decreases child
  {
    if child.Some? {
      WriteSpecSucceeds(files, dirs, child.value, loc);
    }
  }

  /** The write fails when some node lacks code or some node's file cannot be opened. */
  lemma {:induction false} WriteSpecFails(files: map<Path, Content>, dirs: set<Path>, s: Script, loc: Path)
    requires WriteSpec(files, dirs, s, loc).1.Ok?
    ensures Validate(s).Pass? && Writable(dirs, s, loc)
    decreases s
  {
    var okLoc, errLoc := ChildPath(loc, 'o'), ChildPath(loc, 'e');
    var (f1, ok) := WriteChild(files, dirs, s.okScript, okLoc);
    if s.okScript.Some? {
      WriteSpecFails(files, dirs, s.okScript.value, okLoc);
    }
    var (f2, err) := WriteChild(f1, dirs, s.errorScript, errLoc);
    if s.errorScript.Some? {
      WriteSpecFails(f1, dirs, s.errorScript.value, errLoc);
    }
    WritableChild(dirs, s, loc, 'o');
  }

  /** The write succeeds exactly when every node has code and every node's file can be
      opened. */
  lemma WriteSpecOk(files: map<Path, Content>, dirs: set<Path>, s: Script, loc: Path)
    ensures WriteSpec(files, dirs, s, loc).1.Ok? <==> Validate(s).Pass? && Writable(dirs, s, loc)
  {
    if Validate(s).Pass? && Writable(dirs, s, loc) {
      WriteSpecSucceeds(files, dirs, s, loc);
    } else if WriteSpec(files, dirs, s, loc).1.Ok? {
      WriteSpecFails(files, dirs, s, loc);
    }
  }

  /** Writability of a tree splits into that of its root and of its subtrees. */
  lemma WritableChild(dirs: set<Path>, s: Script, loc: Path, branch: char)
    requires branch == 'o' || branch == 'e'
    ensures var child := if branch == 'o' then s.okScript else s.errorScript;
            child.Some? ==>
              (Writable(dirs, s, loc) ==> Writable(dirs, child.value, ChildPath(loc, branch)))
    ensures Writable(dirs, s, loc) <==>
              && FsState(map[], dirs).CanWrite(loc)
              && (s.okScript.Some? ==> Writable(dirs, s.okScript.value, ChildPath(loc, 'o')))
              && (s.errorScript.Some? ==> Writable(dirs, s.errorScript.value, ChildPath(loc, 'e')))
  {
    assert NodeAt(s, []) == Some(s);
    if Writable(dirs, s, loc) {
      WritableBelow(dirs, s, loc, 'o');
      WritableBelow(dirs, s, loc, 'e');
    }
    if FsState(map[], dirs).CanWrite(loc)
       && (s.okScript.Some? ==> Writable(dirs, s.okScript.value, ChildPath(loc, 'o')))
       && (s.errorScript.Some? ==> Writable(dirs, s.errorScript.value, ChildPath(loc, 'e')))
    {
      WritableAbove(dirs, s, loc);
    }
  }

  lemma WritableAbove(dirs: set<Path>, s: Script, loc: Path)
    requires FsState(map[], dirs).CanWrite(loc)
    requires s.okScript.Some? ==> Writable(dirs, s.okScript.value, ChildPath(loc, 'o'))
    requires s.errorScript.Some? ==> Writable(dirs, s.errorScript.value, ChildPath(loc, 'e'))
    ensures Writable(dirs, s, loc)
  {
    forall w | NodeAt(s, w).Some? ensures FsState(map[], dirs).CanWrite(PathAt(loc, w)) {
      if w != [] {
        var b, v := w[0], w[1..];
        assert w == [b] + v;
        if b == 'o' {
          ChildShift(s, loc, 'o', v);
          assert NodeAt(s.okScript.value, v).Some?;
        } else {
          ChildShift(s, loc, 'e', v);
          assert NodeAt(s.errorScript.value, v).Some?;
        }
      }
    }
  }

  lemma WritableBelow(dirs: set<Path>, s: Script, loc: Path, branch: char)
    requires branch == 'o' || branch == 'e'
    requires Writable(dirs, s, loc)
    ensures var child := if branch == 'o' then s.okScript else s.errorScript;
            child.Some? ==> Writable(dirs, child.value, ChildPath(loc, branch))
  {
    var child := if branch == 'o' then s.okScript else s.errorScript;
    if child.Some? {
      forall v | NodeAt(child.value, v).Some? ensures FsState(map[], dirs).CanWrite(PathAt(ChildPath(loc, branch), v)) {
        ChildShift(s, loc, branch, v);
        assert NodeAt(s, [branch] + v).Some?;
      }
    }
  }

  /** A write, even one that fails part way, leaves a valid file system valid. */
  lemma {:induction false} WriteSpecValid(files: map<Path, Content>, dirs: set<Path>, s: Script, loc: Path)
    requires FsState(files, dirs).Valid()
    ensures FsState(WriteSpec(files, dirs, s, loc).0, dirs).Valid()
    decreases s
  {
    var (f1, ok) := WriteChild(files, dirs, s.okScript, ChildPath(loc, 'o'));
    WriteChildValid(files, dirs, s.okScript, ChildPath(loc, 'o'));
    if ok.Ok? {
      var (f2, err) := WriteChild(f1, dirs, s.errorScript, ChildPath(loc, 'e'));
      WriteChildValid(f1, dirs, s.errorScript, ChildPath(loc, 'e'));
      if err.Ok? && FsState(f2, dirs).CanWrite(loc) {
        var c := Text(if s.code.Some? then s.code.value else "");
        WriteValid(FsState(f2, dirs), loc, c);
        assert WriteSpec(files, dirs, s, loc).0 == f2[loc := c];
      }
    }
  }

  lemma {:induction false} WriteChildValid(files: map<Path, Content>, dirs: set<Path>, child: Option<Script>, loc: Path)
    requires FsState(files, dirs).Valid()
    ensures FsState(WriteChild(files, dirs, child, loc).0, dirs).Valid()
    decreases child
  {
    if child.Some? {
      WriteSpecValid(files, dirs, child.value, loc);
    }
  }

  // ---------------------------------------------------------------------------------
  // What a write leaves behind

  /** The placed tree has the input's shape; each node sits at its position's file and
      holds the input node's code. */
  lemma {:induction false} PlaceAt(s: Script, loc: Path, w: seq<char>)
    requires Validate(s).Pass?
    ensures WrittenAt(Place(s, loc), w).Some? <==> NodeAt(s, w).Some?
    ensures NodeAt(s, w).Some? ==>
              && WrittenAt(Place(s, loc), w).value.location == PathAt(loc, w)
              && Some(WrittenAt(Place(s, loc), w).value.code) == NodeAt(s, w).value.code
    decreases |w|
  {
    if w != [] && ((w[0] == 'o' && s.okScript.Some?) || (w[0] == 'e' && s.errorScript.Some?)) {
      var child := if w[0] == 'o' then s.okScript.value else s.errorScript.value;
      var cloc := ChildPath(loc, w[0]);
      PlaceStep(s, loc, w);
      PlaceAt(child, cloc, w[1..]);
    }
  }

  lemma PlaceStep(s: Script, loc: Path, w: seq<char>)
    requires Validate(s).Pass?
    requires w != [] && ((w[0] == 'o' && s.okScript.Some?) || (w[0] == 'e' && s.errorScript.Some?))
    ensures var child := if w[0] == 'o' then s.okScript.value else s.errorScript.value;
            && Validate(child).Pass?
            && NodeAt(s, w) == NodeAt(child, w[1..])
            && WrittenAt(Place(s, loc), w) == WrittenAt(Place(child, ChildPath(loc, w[0])), w[1..])
            && PathAt(loc, w) == PathAt(ChildPath(loc, w[0]), w[1..])
  {
    PathAtChild(loc, w[0], w[1..]);
    assert [w[0]] + w[1..] == w;
  }

  /** Forgetting the locations of a placed tree gives back the script that was written. */
  lemma {:induction false} UnwrittenPlace(s: Script, loc: Path)
    requires Validate(s).Pass?
    ensures Unwritten(Place(s, loc)) == s
    decreases s
  {
    if s.okScript.Some? {
      UnwrittenPlace(s.okScript.value, ChildPath(loc, 'o'));
    }
    if s.errorScript.Some? {
      UnwrittenPlace(s.errorScript.value, ChildPath(loc, 'e'));
    }
  }

  /** The locations of a tree are exactly the files of its positions. */
  lemma {:induction false} PositionLocation(s: Script, loc: Path, w: seq<char>)
    requires NodeAt(s, w).Some?
    ensures PathAt(loc, w) in Locations(s, loc)
    decreases |w|
  {
    if w != [] {
      PositionLocation(if w[0] == 'o' then s.okScript.value else s.errorScript.value, ChildPath(loc, w[0]), w[1..]);
      PathAtChild(loc, w[0], w[1..]);
      assert [w[0]] + w[1..] == w;
    }
  }

  lemma {:induction false} LocationPosition(s: Script, loc: Path, p: Path) returns (w: seq<char>)
    requires p in Locations(s, loc)
    ensures NodeAt(s, w).Some? && PathAt(loc, w) == p
    decreases s
  {
    if p == loc {
      w := [];
    } else if s.okScript.Some? && p in Locations(s.okScript.value, ChildPath(loc, 'o')) {
      var v := LocationPosition(s.okScript.value, ChildPath(loc, 'o'), p);
      PathAtChild(loc, 'o', v);
      w := ['o'] + v;
      assert w[1..] == v;
    } else {
      var v := LocationPosition(s.errorScript.value, ChildPath(loc, 'e'), p);
      PathAtChild(loc, 'e', v);
      w := ['e'] + v;
      assert w[1..] == v;
    }
  }

  /** A placed tree's layout covers exactly its locations. */
  lemma {:induction false} LayoutKeys(s: Script, loc: Path)
    requires Validate(s).Pass?
    ensures Layout(Place(s, loc)).Keys == Locations(s, loc)
    decreases s
  {
    if s.okScript.Some? {
      LayoutKeys(s.okScript.value, ChildPath(loc, 'o'));
    }
    if s.errorScript.Some? {
      LayoutKeys(s.errorScript.value, ChildPath(loc, 'e'));
    }
  }

  /** Every position's file holds that position's code: distinct positions have distinct
      files, so no later write overwrites an earlier one. */
  lemma {:induction false} LayoutAt(s: Script, loc: Path, w: seq<char>)
    requires Validate(s).Pass? && NodeAt(s, w).Some?
    ensures PathAt(loc, w) in Layout(Place(s, loc)) && NodeAt(s, w).value.code.Some?
    ensures Layout(Place(s, loc))[PathAt(loc, w)] == Text(NodeAt(s, w).value.code.value)
    decreases |w|
  {
    var t := Place(s, loc);
    var p := PathAt(loc, w);
    ValidNodeHasCode(s, w);
    if w != [] {
      var b, v := w[0], w[1..];
      assert w == [b] + v;
      var c := if b == 'o' then s.okScript.value else s.errorScript.value;
      LayoutAt(c, ChildPath(loc, b), v);
      PathAtChild(loc, b, v);
      if p == loc {
        PathAtInjective(loc, w, []);
      }
      if b == 'o' && s.errorScript.Some? {
        LayoutKeys(s.errorScript.value, ChildPath(loc, 'e'));
        if p in Locations(s.errorScript.value, ChildPath(loc, 'e')) {
          var u := LocationPosition(s.errorScript.value, ChildPath(loc, 'e'), p);
          PathAtChild(loc, 'e', u);
          PathAtInjective(loc, w, ['e'] + u);
        }
      }
    }
  }

  /** `after` differs from `before` only at paths in `touched`, and loses no file. */
  predicate SameOutside(before: map<Path, Content>, after: map<Path, Content>, touched: set<Path>)
  {
    && before.Keys <= after.Keys
    && after.Keys <= before.Keys + touched
    && forall p :: p in before && p !in touched ==> after[p] == before[p]
  }

  lemma SameOutsideTrans(f: map<Path, Content>, g: map<Path, Content>, h: map<Path, Content>, a: set<Path>, b: set<Path>, c: set<Path>)
    requires SameOutside(f, g, a) && SameOutside(g, h, b) && a + b <= c
    ensures SameOutside(f, h, c)
  {
  }

  /** Whether the write succeeds or not, no file outside the tree's locations is created,
      removed or changed. */
  lemma {:induction false} WriteSpecFrame(files: map<Path, Content>, dirs: set<Path>, s: Script, loc: Path)
    ensures SameOutside(files, WriteSpec(files, dirs, s, loc).0, Locations(s, loc))
    decreases s
  {
    var okLocs := ChildLocations(s.okScript, ChildPath(loc, 'o'));
    var errLocs := ChildLocations(s.errorScript, ChildPath(loc, 'e'));
    var (f1, ok) := WriteChild(files, dirs, s.okScript, ChildPath(loc, 'o'));
    WriteChildFrame(files, dirs, s.okScript, ChildPath(loc, 'o'));
    var f2 := WriteChild(f1, dirs, s.errorScript, ChildPath(loc, 'e')).0;
    WriteChildFrame(f1, dirs, s.errorScript, ChildPath(loc, 'e'));
    var f3 := WriteSpec(files, dirs, s, loc).0;
    WriteSpecOwnFile(files, dirs, s, loc);
    if ok.Ok? {
      SameOutsideTrans(files, f1, f2, okLocs, errLocs, okLocs + errLocs);
      SameOutsideTrans(files, f2, f3, okLocs + errLocs, {loc}, Locations(s, loc));
    } else {
      SameOutsideTrans(files, f1, f3, okLocs, {}, Locations(s, loc));
    }
  }

  lemma {:induction false} WriteChildFrame(files: map<Path, Content>, dirs: set<Path>, child: Option<Script>, loc: Path)
    ensures SameOutside(files, WriteChild(files, dirs, child, loc).0, ChildLocations(child, loc))
    decreases child
  {
    if child.Some? {
      WriteSpecFrame(files, dirs, child.value, loc);
    }
  }

  /** The last step of a write touches at most the node's own file. */
  lemma WriteSpecOwnFile(files: map<Path, Content>, dirs: set<Path>, s: Script, loc: Path)
    ensures var (f1, ok) := WriteChild(files, dirs, s.okScript, ChildPath(loc, 'o'));
            var f2 := WriteChild(f1, dirs, s.errorScript, ChildPath(loc, 'e')).0;
            if ok.Err? then WriteSpec(files, dirs, s, loc).0 == f1
            else SameOutside(f2, WriteSpec(files, dirs, s, loc).0, {loc})
  {
  }

  // ---------------------------------------------------------------------------------
  // new WrittenScript(location): reading a tree back

  /** Entries beside `loc` with longer names: every file a read starting at `loc` can
      still visit is among them, since each child's name is one letter longer. */
  ghost function Longer(st: FsState, loc: Path): set<Path>
  {
    set q | q in st.files.Keys + st.dirs && Parent(q) == Parent(loc) && |Last(q)| > |Last(loc)|
  }

  lemma ChildLonger(st: FsState, loc: Path, branch: char)
    requires st.Exists(ChildPath(loc, branch))
    ensures Longer(st, ChildPath(loc, branch)) < Longer(st, loc)
  {
    ChildPathFacts(loc, branch);
    assert ChildPath(loc, branch) in Longer(st, loc);
  }

  /** The reading constructor: the node's own code first (a missing file or a directory
      is an I/O failure), then the ok child if its file exists, then the error child. */
  function Read(st: FsState, loc: Path): (r: Result<WrittenScript>)
    ensures r.Ok? ==> r.value.location == loc && loc in st.files && st.files[loc] == Text(r.value.code)
    ensures r.Ok? ==> (r.value.okScript.Some? <==> st.Exists(ChildPath(loc, 'o')))
    ensures r.Ok? ==> (r.value.errorScript.Some? <==> st.Exists(ChildPath(loc, 'e')))
    ensures r.Ok? && r.value.okScript.Some? ==> r.value.okScript.value.location == ChildPath(loc, 'o')
    ensures r.Ok? && r.value.errorScript.Some? ==> r.value.errorScript.value.location == ChildPath(loc, 'e')
    ensures r.Err? ==> r.error == IOFailure
    decreases Longer(st, loc)
  {
    if loc !in st.files || !st.files[loc].Text? then Err(IOFailure)
    else
      var okLoc, errLoc := ChildPath(loc, 'o'), ChildPath(loc, 'e');
      var ok: Result<Option<WrittenScript>> :=
        if !st.Exists(okLoc) then Ok(None)
        else
          (ChildLonger(st, loc, 'o');
           var c := Read(st, okLoc);
           if c.Ok? then Ok(Some(c.value)) else Err(c.error));
      if ok.Err? then Err(ok.error)
      else
        var err: Result<Option<WrittenScript>> :=
          if !st.Exists(errLoc) then Ok(None)
          else
            (ChildLonger(st, loc, 'e');
             var c := Read(st, errLoc);
             if c.Ok? then Ok(Some(c.value)) else Err(c.error));
        if err.Err? then Err(err.error)
        else Ok(WrittenScript(loc, st.files[loc].text, ok.value, err.value))
  }

  /** Every node of `s` is stored, with its code, in its position's file. */
  ghost predicate Holds(st: FsState, s: Script, loc: Path)
  {
    forall w :: NodeAt(s, w).Some? ==>
      && PathAt(loc, w) in st.files
      && st.files[PathAt(loc, w)].Text?
      && Some(st.files[PathAt(loc, w)].text) == NodeAt(s, w).value.code
  }

  /** No file or directory sits at a position the tree does not have. */
  ghost predicate NoStrays(st: FsState, s: Script, loc: Path)
  {
    forall w :: IsPosition(w) && NodeAt(s, w).None? ==> !st.Exists(PathAt(loc, w))
  }

  lemma HoldsChild(st: FsState, s: Script, loc: Path, branch: char)
    requires branch == 'o' || branch == 'e'
    requires Holds(st, s, loc) && NoStrays(st, s, loc)
    ensures var child := if branch == 'o' then s.okScript else s.errorScript;
            if child.Some? then Holds(st, child.value, ChildPath(loc, branch)) && NoStrays(st, child.value, ChildPath(loc, branch))
            else !st.Exists(ChildPath(loc, branch))
  {
    var child := if branch == 'o' then s.okScript else s.errorScript;
    if child.Some? {
      HoldsBelow(st, s, loc, branch);
      NoStraysBelow(st, s, loc, branch);
    } else {
      assert IsPosition([branch]);
      assert NodeAt(s, [branch]).None?;
      ChildPathFacts(loc, branch);
    }
  }

  /** A position inside a child is the branch letter followed by the position within
      the child. */
  lemma ChildShift(s: Script, loc: Path, branch: char, v: seq<char>)
    requires branch == 'o' || branch == 'e'
    ensures var child := if branch == 'o' then s.okScript else s.errorScript;
            child.Some? ==> NodeAt(s, [branch] + v) == NodeAt(child.value, v)
    ensures PathAt(ChildPath(loc, branch), v) == PathAt(loc, [branch] + v)
    ensures IsPosition(v) ==> IsPosition([branch] + v)
  {
    assert ([branch] + v)[1..] == v;
    PathAtChild(loc, branch, v);
    assert forall i :: 1 <= i < |[branch] + v| ==> ([branch] + v)[i] == v[i - 1];
  }

  lemma HoldsBelow(st: FsState, s: Script, loc: Path, branch: char)
    requires branch == 'o' || branch == 'e'
    requires Holds(st, s, loc)
    requires (if branch == 'o' then s.okScript else s.errorScript).Some?
    ensures Holds(st, (if branch == 'o' then s.okScript else s.errorScript).value, ChildPath(loc, branch))
  {
    var child := (if branch == 'o' then s.okScript else s.errorScript).value;
    var cloc := ChildPath(loc, branch);
    forall v | NodeAt(child, v).Some?
      ensures PathAt(cloc, v) in st.files && st.files[PathAt(cloc, v)].Text?
      ensures Some(st.files[PathAt(cloc, v)].text) == NodeAt(child, v).value.code
    {
      ChildShift(s, loc, branch, v);
      assert NodeAt(s, [branch] + v).Some?;
    }
  }

  lemma NoStraysBelow(st: FsState, s: Script, loc: Path, branch: char)
    requires branch == 'o' || branch == 'e'
    requires NoStrays(st, s, loc)
    requires (if branch == 'o' then s.okScript else s.errorScript).Some?
    ensures NoStrays(st, (if branch == 'o' then s.okScript else s.errorScript).value, ChildPath(loc, branch))
  {
    var child := (if branch == 'o' then s.okScript else s.errorScript).value;
    var cloc := ChildPath(loc, branch);
    forall v | IsPosition(v) && NodeAt(child, v).None? ensures !st.Exists(PathAt(cloc, v)) {
      ChildShift(s, loc, branch, v);
      assert IsPosition([branch] + v) && NodeAt(s, [branch] + v).None?;
    }
  }

  /** Reading a stored tree with nothing stray beside it gives back the tree a write
      returns. */
  lemma {:induction false} ReadPlaced(st: FsState, s: Script, loc: Path)
    requires Validate(s).Pass? && Holds(st, s, loc) && NoStrays(st, s, loc)
    ensures Read(st, loc) == Ok(Place(s, loc))
    decreases s
  {
    assert NodeAt(s, []) == Some(s);
    HoldsChild(st, s, loc, 'o');
    HoldsChild(st, s, loc, 'e');
    if s.okScript.Some? {
      ReadPlaced(st, s.okScript.value, ChildPath(loc, 'o'));
    }
    if s.errorScript.Some? {
      ReadPlaced(st, s.errorScript.value, ChildPath(loc, 'e'));
    }
  }

  /** Nothing exists at any file name a tree stored at `loc` could use below its root. */
  ghost predicate Fresh(st: FsState, loc: Path)
  {
    forall w :: IsPosition(w) && w != [] ==> !st.Exists(PathAt(loc, w))
  }

  /** Writing a tree where nothing stray lies beside it, then reading it back, returns
      what the write returned, and that is the script that was written. */
  lemma WriteThenRead(st: FsState, s: Script, loc: Path)
    requires Fresh(st, loc)
    requires WriteSpec(st.files, st.dirs, s, loc).1.Ok?
    ensures var (files, r) := WriteSpec(st.files, st.dirs, s, loc);
            Read(FsState(files, st.dirs), loc) == r && Unwritten(r.value) == s
  {
    WriteSpecOk(st.files, st.dirs, s, loc);
    WriteSpecSucceeds(st.files, st.dirs, s, loc);
    UnwrittenPlace(s, loc);
    var layout := Layout(Place(s, loc));
    var after := FsState(st.files + layout, st.dirs);
    forall w | NodeAt(s, w).Some?
      ensures PathAt(loc, w) in after.files && after.files[PathAt(loc, w)].Text?
      ensures Some(after.files[PathAt(loc, w)].text) == NodeAt(s, w).value.code
    {
      LayoutAt(s, loc, w);
    }
    LayoutKeys(s, loc);
    forall w | IsPosition(w) && NodeAt(s, w).None? ensures !after.Exists(PathAt(loc, w)) {
      assert NodeAt(s, []) == Some(s);
      if PathAt(loc, w) in layout {
        var u := LocationPosition(s, loc, PathAt(loc, w));
        PathAtInjective(loc, u, w);
      }
    }
    ReadPlaced(after, s, loc);
  }

  /** Without freshness the round trip fails: a stale "so.sh" beside "s.sh" is read back
      as an ok child the written script does not have. */
  lemma StaleChildIsRead()
    ensures var st := FsState(map[["so.sh"] := Text("old")], {});
            var s := Script(Some("true"), None, None);
            var (files, r) := WriteSpec(st.files, st.dirs, s, ["s.sh"]);
            && r == Ok(WrittenScript(["s.sh"], "true", None, None))
            && Read(FsState(files, st.dirs), ["s.sh"]).Ok?
            && Read(FsState(files, st.dirs), ["s.sh"]).value.okScript.Some?
  {
    var st := FsState(map[["so.sh"] := Text("old")], {});
    ChildNameOfSh("s.sh");
    assert "s.sh"[..1] + "o.sh" == "so.sh";
    assert "s.sh"[..1] + "e.sh" == "se.sh";
    assert ChildPath(["s.sh"], 'o') == ["so.sh"];
    assert ChildPath(["so.sh"], 'o') == ["soo.sh"] by {
      ChildNameOfSh("so.sh");
      assert "so.sh"[..2] + "o.sh" == "soo.sh";
    }
    assert ChildPath(["so.sh"], 'e') == ["soe.sh"] by {
      ChildNameOfSh("so.sh");
      assert "so.sh"[..2] + "e.sh" == "soe.sh";
    }
  }
}
