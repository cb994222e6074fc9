/** JobResource.java: the jobs/ directory as a numbered set of job directories, and the
    single-job area with its two-phase status record. Each request is one sequential
    step over the file system. */
module JobResource {
  import opened Base
  import opened JavaInt
  import opened FileStore
  import opened Scripts
  import opened Jobs

  const JobsDir: Path := ["jobs"]

  /** new File("jobs/" + id). */
  function JobDir(id: int): Path { ["jobs", ToString(id)] }

  /** new File("jobs/d" + jobDir.getName()). */
  function DeletedJobDir(id: int): Path { ["jobs", "d" + ToString(id)] }

  // ---------------------------------------------------------------------------------
  // latestJobNumber

  /** `r` is what the max-over-names stream yields for `names`: the largest number among
      the names that parse as Java ints, or 0 when none does. */
  predicate IsLatest(r: int, names: set<string>)
  {
    && (forall n | n in names && ParseInt(n).Some? :: ParseInt(n).value <= r)
    && ((exists n | n in names :: ParseInt(n).Some?) ==> exists n | n in names :: ParseInt(n) == Some(r))
    && ((forall n | n in names :: ParseInt(n).None?) ==> r == 0)
  }

  /** The largest parsed number among `names`, if any name parses. */
  function MaxParsed(names: seq<string>): (r: Option<int>)
    ensures r.None? <==> forall i | 0 <= i < |names| :: ParseInt(names[i]).None?
    ensures r.Some? ==> exists i | 0 <= i < |names| :: ParseInt(names[i]) == r
    ensures r.Some? ==> forall i | 0 <= i < |names| && ParseInt(names[i]).Some? :: ParseInt(names[i]).value <= r.value
  {
    if names == [] then None
    else
      var rest := MaxParsed(names[1..]);
      var here := ParseInt(names[0]);
      assert forall i | 1 <= i < |names| :: names[i] == names[1..][i - 1];
      if here.None? then rest
      else if rest.Some? && rest.value >= here.value then rest
      else here
  }

  /** Stream.of(names).filter(parses).mapToInt(Integer::valueOf).max().orElse(0). */
  function LatestIn(names: seq<string>): (r: int)
    ensures IsLatest(r, set n | n in names)
    ensures IsInt(r)
  {
    var m := MaxParsed(names);
    if m.Some? then m.value else 0
  }

  lemma IsLatestUnique(r1: int, r2: int, names: set<string>)
    requires IsLatest(r1, names) && IsLatest(r2, names)
    ensures r1 == r2
  {
    if exists n | n in names :: ParseInt(n).Some? {
      var n1 :| n1 in names && ParseInt(n1) == Some(r1);
      var n2 :| n2 in names && ParseInt(n2) == Some(r2);
    }
  }

  lemma {:induction false} SeqOfSet(names: set<string>) returns (s: seq<string>)
    ensures (set n | n in s) == names
    decreases names
  {
    if names == {} {
      s := [];
    } else {
      var n :| n in names;
      var rest := SeqOfSet(names - {n});
      s := [n] + rest;
      assert (set x | x in s) == (set x | x in rest) + {n};
    }
  }

  /** The latest job number for a set of entry names. */
  ghost function Latest(names: set<string>): (r: int)
    ensures IsLatest(r, names) && IsInt(r)
  {
    LatestExists(names);
    var r :| IsLatest(r, names);
    r
  }

  lemma LatestExists(names: set<string>)
    ensures exists r :: IsLatest(r, names)
  {
    var s := SeqOfSet(names);
    assert IsLatest(LatestIn(s), names);
  }

  /** latestJobNumber as a function of the state before it: create jobs/ when absent,
      then take the maximum over its entry names; a jobs/ that is not a directory lists
      as null, which the stream dereferences. */
  ghost function LatestSpec(st: FsState): (FsState, Result<int>)
  {
    if !st.Exists(JobsDir) && !st.CanMkdir(JobsDir) then (st, Err(IllegalArgument))
    else
      var s1 := if st.Exists(JobsDir) then st else st.AfterMkdir(JobsDir);
      if !s1.IsDir(JobsDir) then (s1, Err(NullPointer))
      else (s1, Ok(Latest(s1.Children(JobsDir))))
  }

  method LatestJobNumber(fs: FileSystem) returns (r: Result<int>)
    requires fs.Valid()
    modifies fs
    ensures fs.Valid()
    ensures (fs.State(), r) == LatestSpec(old(fs.State()))
  {
    if !fs.State().Exists(JobsDir) {
      var made := fs.Mkdir(JobsDir);
      if !made {
        return Err(IllegalArgument);
      }
    }
    var names := fs.List(JobsDir);
    if names.None? {
      return Err(NullPointer);
    }
    var latest := LatestIn(names.value);
    assert (set n | n in names.value) == fs.State().Children(JobsDir);
    IsLatestUnique(latest, Latest(fs.State().Children(JobsDir)), fs.State().Children(JobsDir));
    r := Ok(latest);
  }

  /** latestJobNumber fails only when jobs/ exists and is a file; otherwise jobs/ is a
      directory afterwards and only it may have been added. */
  lemma LatestSpecFacts(st: FsState)
    requires st.Valid()
    ensures var (after, r) := LatestSpec(st);
            && after.Valid()
            && (r.Ok? <==> JobsDir !in st.files)
            && (r.Err? ==> r.error == NullPointer)
            && (r.Ok? ==> after.IsDir(JobsDir) && after == FsState(st.files, st.dirs + {JobsDir}))
  {
    if !st.Exists(JobsDir) {
      MkdirValid(st, JobsDir);
    }
    assert st.dirs + {JobsDir} == st.dirs || JobsDir !in st.dirs;
  }

  // ---------------------------------------------------------------------------------
  // newJob's number: latestJobNumber() + 1

  /** Java int addition wraps around. */
  function Wrap32(n: int): int
  {
    (n - MinInt) % 0x1_0000_0000 + MinInt
  }

  /** The next job number as written: latest + 1 in int arithmetic. */
  function NextJobNumberAsWritten(latest: int): int
  {
    Wrap32(latest + 1)
  }

  /** With a job directory named 2147483647 the next number wraps to the smallest int,
      which is below the latest job instead of above it. */
  lemma NextJobNumberWraps()
    ensures Latest({ToString(MaxInt)}) == MaxInt
    ensures NextJobNumberAsWritten(MaxInt) == MinInt < MaxInt
  {
    assert Wrap32(MaxInt + 1) == MinInt;
    var names := {ToString(MaxInt)};
    ParseToString(MaxInt);
    assert IsLatest(MaxInt, names);
    IsLatestUnique(Latest(names), MaxInt, names);
  }

  /** The next job number, refusing to go past the largest int. */
  function NextJobNumber(latest: int): Result<int>
  {
    if latest >= MaxInt then Err(Overflow) else Ok(latest + 1)
  }

  /** Below the largest int the corrected number agrees with the written one. */
  lemma NextJobNumberAgrees(latest: int)
    requires IsInt(latest) && latest < MaxInt
    ensures NextJobNumber(latest) == Ok(NextJobNumberAsWritten(latest))
  {
  }

  /** The next number is a Java int above every numbered entry, so its directory name is
      not among the entries. */
  lemma NextJobNumberFresh(latest: int, names: set<string>)
    requires IsLatest(latest, names) && IsInt(latest)
    requires NextJobNumber(latest).Ok?
    ensures var n := NextJobNumber(latest).value;
            && IsInt(n)
            && (forall m | m in names && ParseInt(m).Some? :: ParseInt(m).value < n)
            && ToString(n) !in names
  {
    var n := NextJobNumber(latest).value;
    ParseToString(n);
  }

  // ---------------------------------------------------------------------------------
  // newJob

  /** newJob as a function of the state before it: validate, allocate the next number
      and create its directory (a failed mkdirs is a failed checkArgument), then write
      the job there and answer with the number. */
  ghost function NewJobSpec(st: FsState, j: Job): (FsState, Result<int>)
  {
    if ValidateJob(j).Fail? then (st, Err(ValidateJob(j).error))
    else
      var (s1, latest) := LatestSpec(st);
      if latest.Err? then (s1, Err(latest.error))
      else
        var next := NextJobNumber(latest.value);
        if next.Err? then (s1, Err(next.error))
        else if !s1.CanMkdirs(JobDir(next.value)) then (s1, Err(IllegalArgument))
        else
          var (s3, written) := WriteJobSpec(s1.AfterMkdirs(JobDir(next.value)), j, JobDir(next.value));
          (s3, if written.Ok? then Ok(next.value) else Err(written.error))
  }

  method NewJob(fs: FileSystem, j: Job) returns (r: Result<int>)
    requires fs.Valid()
    modifies fs
    ensures fs.Valid()
    ensures (fs.State(), r) == NewJobSpec(old(fs.State()), j)
    ensures ValidateJob(j).Fail? ==> fs.State() == old(fs.State())
  {
    var valid := ValidateJob(j);
    if valid.Fail? {
      return Err(valid.error);
    }
    var latest := LatestJobNumber(fs);
    if latest.Err? {
      return Err(latest.error);
    }
    var next := NextJobNumber(latest.value);
    if next.Err? {
      return Err(next.error);
    }
    var dir := JobDir(next.value);
    var made := fs.Mkdirs(dir);
    if !made {
      return Err(IllegalArgument);
    }
    var written := WriteJob(fs, j, dir);
    if written.Err? {
      return Err(written.error);
    }
    r := Ok(next.value);
  }

  /** Nothing lies inside a directory that has just been created. */
  ghost predicate EmptyBelow(s: FsState, dir: Path)
  {
    forall p | p in s.files || p in s.dirs :: !IsBelow(p, dir)
  }

  /** The number newJob allocates names no entry of jobs/, and creating its directory
      leaves that directory empty. */
  lemma NewJobDirFresh(st: FsState)
    requires st.Valid() && LatestSpec(st).1.Ok? && NextJobNumber(LatestSpec(st).1.value).Ok?
    ensures var s1 := LatestSpec(st).0;
            var n := NextJobNumber(LatestSpec(st).1.value).value;
            && IsInt(n) && ParseInt(Last(JobDir(n))) == Some(n)
            && !s1.Exists(JobDir(n)) && s1.CanMkdirs(JobDir(n))
            && s1.AfterMkdirs(JobDir(n)).Valid() && s1.AfterMkdirs(JobDir(n)).IsDir(JobDir(n))
            && EmptyBelow(s1.AfterMkdirs(JobDir(n)), JobDir(n))
  {
    LatestSpecFacts(st);
    var s1 := LatestSpec(st).0;
    var latest := LatestSpec(st).1.value;
    var n := NextJobNumber(latest).value;
    var dir := JobDir(n);
    NextJobNumberFresh(latest, s1.Children(JobsDir));
    ParseToString(n);
    if dir in s1.files || dir in s1.dirs {
      ListedChild(s1, JobsDir, dir);
    }
    assert dir[..1] == JobsDir;
    MkdirsValid(s1, dir);
    assert dir[..2] == dir;
    var s2 := s1.AfterMkdirs(dir);
    forall p | p in s2.files || p in s2.dirs ensures !IsBelow(p, dir) {
      if p in s1.files || p in s1.dirs {
        if IsBelow(p, dir) {
          NothingBelowMissing(s1, dir, p);
        }
      }
    }
  }

  /** Writing a valid job into an existing empty directory with a numeric name always
      succeeds, and nothing stray lies beside its root script. */
  lemma WriteIntoEmptyDir(s: FsState, j: Job, dir: Path)
    requires s.Valid() && s.IsDir(dir) && EmptyBelow(s, dir)
    requires ValidateJob(j).Pass? && ParseInt(Last(dir)).Some?
    ensures WriteJobSpec(s, j, dir).1.Ok?
    ensures Fresh(s, RootScriptPath(dir))
  {
    var root := RootScriptPath(dir);
    var script := j.okScript.value;
    assert IsBelow(ScriptsDir(dir), dir);
    var (s3, made) := MakeJobDirs(s, dir);
    assert made.Pass? && s3 == s.AfterMkdir(ScriptsDir(dir));
    assert Parent(root) == ScriptsDir(dir);
    forall w | IsPosition(w) || NodeAt(script, w).Some?
      ensures PathAt(root, w) !in s.files && PathAt(root, w) !in s.dirs
      ensures Parent(PathAt(root, w)) == ScriptsDir(dir) && PathAt(root, w) != ScriptsDir(dir)
    {
      var p := PathAt(root, w);
      assert p[..|dir|] == dir;
      assert IsBelow(p, dir);
    }
    WriteSpecOk(s3.files, s3.dirs, script, root);
  }

  /** newJob succeeds exactly when the job is valid, jobs/ is not a file and the next
      number fits in an int: the number's directory and the job's own files are then
      always creatable. It answers the latest number plus one; that directory did not
      exist before, is a directory now, holds the submitted job, and its number becomes
      the latest. */
  lemma NewJobSucceeds(st: FsState, j: Job)
    requires st.Valid()
    ensures var (after, r) := NewJobSpec(st, j);
            r.Ok? <==> ValidateJob(j).Pass? && JobsDir !in st.files && LatestSpec(st).1.value < MaxInt
    ensures var (after, r) := NewJobSpec(st, j);
            r.Ok? ==>
              && r.value == LatestSpec(st).1.value + 1
              && !st.Exists(JobDir(r.value)) && after.IsDir(JobDir(r.value))
              && ReadJob(after, JobDir(r.value)).Ok?
              && ReadJob(after, JobDir(r.value)).value.id == r.value
              && Unwritten(ReadJob(after, JobDir(r.value)).value.okScript) == j.okScript.value
  {
    LatestSpecFacts(st);
    var (after, r) := NewJobSpec(st, j);
    if ValidateJob(j).Pass? && JobsDir !in st.files && LatestSpec(st).1.value < MaxInt {
      NewJobDirFresh(st);
      var s1 := LatestSpec(st).0;
      var n := LatestSpec(st).1.value + 1;
      var dir := JobDir(n);
      var s2 := s1.AfterMkdirs(dir);
      WriteIntoEmptyDir(s2, j, dir);
      WriteThenReadJob(s2, j, dir);
      WriteJobSucceeds(s2, j, dir);
    }
  }

  /** A successful newJob leaves the state of writing the job into the freshly made
      directory of the next number. */
  lemma NewJobState(st: FsState, j: Job)
    requires st.Valid() && NewJobSpec(st, j).1.Ok?
    ensures var n := NewJobSpec(st, j).1.value;
            && LatestSpec(st).1.Ok? && n == LatestSpec(st).1.value + 1
            && NewJobSpec(st, j).0 == WriteJobSpec(LatestSpec(st).0.AfterMkdirs(JobDir(n)), j, JobDir(n)).0
            && WriteJobSpec(LatestSpec(st).0.AfterMkdirs(JobDir(n)), j, JobDir(n)).1.Ok?
  {
  }

  /** A job write into an existing directory adds entries only inside it. */
  lemma WriteJobEntries(s: FsState, j: Job, dir: Path)
    requires s.Valid() && s.IsDir(dir) && WriteJobSpec(s, j, dir).1.Ok?
    ensures var after := WriteJobSpec(s, j, dir).0;
            forall p | p in after.files || p in after.dirs :: p in s.files || p in s.dirs || IsBelow(p, dir)
  {
    WriteJobSucceeds(s, j, dir);
    MakeJobDirsFacts(s, dir);
    var after := WriteJobSpec(s, j, dir).0;
    var script, root := j.okScript.value, RootScriptPath(dir);
    LayoutKeys(script, root);
    forall p | p in after.files || p in after.dirs ensures p in s.files || p in s.dirs || IsBelow(p, dir) {
      if p in Layout(Place(script, root)) {
        var w := LocationPosition(script, root, p);
        assert PathAt(root, w)[..|dir|] == dir;
      } else if p !in s.files && p !in s.dirs {
        assert p == ScriptsDir(dir);
        assert p[..|dir|] == dir;
      }
    }
  }

  /** When every entry of `after` was in `before`, is an ancestor of `dir` or lies
      inside `dir`, the only new name in jobs/ is `dir`'s. */
  lemma JobsChildrenAfter(before: FsState, after: FsState, dir: Path)
    requires |dir| == 2 && dir[..1] == JobsDir
    requires forall p | p in after.files || p in after.dirs ::
               p in before.files || p in before.dirs || p in Prefixes(dir) || IsBelow(p, dir)
    ensures after.Children(JobsDir) <= before.Children(JobsDir) + {dir[1]}
  {
    forall m | m in after.Children(JobsDir) ensures m in before.Children(JobsDir) || m == dir[1] {
      var c := JobsDir + [m];
      ChildEntry(after, JobsDir, m);
      if c in before.files || c in before.dirs {
        ListedChild(before, JobsDir, c);
      } else if c in Prefixes(dir) {
        assert c == dir[..2];
      }
    }
  }

  /** Writing a job into a new directory named one above the latest number makes that
      number the latest. */
  lemma WrittenJobIsLatest(s1: FsState, latest: int, j: Job)
    requires s1.Valid() && s1.IsDir(JobsDir) && IsLatest(latest, s1.Children(JobsDir)) && IsInt(latest + 1)
    requires s1.CanMkdirs(JobDir(latest + 1))
    requires WriteJobSpec(s1.AfterMkdirs(JobDir(latest + 1)), j, JobDir(latest + 1)).1.Ok?
    ensures var after := WriteJobSpec(s1.AfterMkdirs(JobDir(latest + 1)), j, JobDir(latest + 1)).0;
            IsLatest(latest + 1, after.Children(JobsDir)) && after.IsDir(JobsDir)
  {
    var n := latest + 1;
    var dir := JobDir(n);
    var s2 := s1.AfterMkdirs(dir);
    assert dir[..2] == dir;
    MkdirsValid(s1, dir);
    WriteJobEntries(s2, j, dir);
    WriteJobSucceeds(s2, j, dir);
    NumberedDirIsLatest(s1, WriteJobSpec(s2, j, dir).0, latest);
  }

  /** When the only entries added to jobs/ are the directory of the number above the
      latest and what lies inside it, that number is the new latest. */
  lemma NumberedDirIsLatest(s1: FsState, after: FsState, latest: int)
    requires IsLatest(latest, s1.Children(JobsDir)) && IsInt(latest + 1)
    requires after.IsDir(JobDir(latest + 1)) && after.IsDir(JobsDir)
    requires forall p | p in after.files || p in after.dirs ::
               p in s1.files || p in s1.dirs || p in Prefixes(JobDir(latest + 1)) || IsBelow(p, JobDir(latest + 1))
    ensures IsLatest(latest + 1, after.Children(JobsDir))
  {
    var dir := JobDir(latest + 1);
    assert dir[..1] == JobsDir;
    JobsChildrenAfter(s1, after, dir);
    ListedChild(after, JobsDir, dir);
    LatestWithNewName(s1.Children(JobsDir), after.Children(JobsDir), latest);
  }

  /** Adding the name of the number above the latest makes it the latest. */
  lemma LatestWithNewName(names: set<string>, names2: set<string>, latest: int)
    requires IsLatest(latest, names) && IsInt(latest + 1)
    requires ToString(latest + 1) in names2 && names2 <= names + {ToString(latest + 1)}
    ensures IsLatest(latest + 1, names2)
  {
    ParseToString(latest + 1);
    forall m | m in names2 && ParseInt(m).Some? ensures ParseInt(m).value <= latest + 1 {
      if m != ToString(latest + 1) {
        assert m in names;
      }
    }
  }

  /** After newJob the number it answered is the latest job number. */
  lemma NewJobBecomesLatest(st: FsState, j: Job)
    requires st.Valid() && NewJobSpec(st, j).1.Ok?
    ensures LatestSpec(NewJobSpec(st, j).0) == (NewJobSpec(st, j).0, Ok(NewJobSpec(st, j).1.value))
  {
    NewJobState(st, j);
    LatestSpecFacts(st);
    var after := NewJobSpec(st, j).0;
    var s1 := LatestSpec(st).0;
    var latest := LatestSpec(st).1.value;
    var n := latest + 1;
    WrittenJobIsLatest(s1, latest, j);
    IsLatestUnique(n, Latest(after.Children(JobsDir)), after.Children(JobsDir));
  }

  // ---------------------------------------------------------------------------------
  // newJob as written, with the wrapping job number

  /** newJob with the next number computed as the source computes it, by wrapping int
      addition; NewJobSpec is the same request with the number checked. */
  ghost function NewJobSpecAsWritten(st: FsState, j: Job): (FsState, Result<int>)
  {
    if ValidateJob(j).Fail? then (st, Err(ValidateJob(j).error))
    else
      var (s1, latest) := LatestSpec(st);
      if latest.Err? then (s1, Err(latest.error))
      else
        var n := NextJobNumberAsWritten(latest.value);
        if !s1.CanMkdirs(JobDir(n)) then (s1, Err(IllegalArgument))
        else
          var (s3, written) := WriteJobSpec(s1.AfterMkdirs(JobDir(n)), j, JobDir(n));
          (s3, if written.Ok? then Ok(n) else Err(written.error))
  }

  /** Below the largest int, newJob as written and the checked newJob are the same
      request. */
  lemma NewJobAsWrittenAgrees(st: FsState, j: Job)
    requires LatestSpec(st).1.Ok? ==> LatestSpec(st).1.value < MaxInt
    ensures NewJobSpecAsWritten(st, j) == NewJobSpec(st, j)
  {
    if LatestSpec(st).1.Ok? {
      NextJobNumberAgrees(LatestSpec(st).1.value);
    }
  }

  /** With a job numbered 2147483647, newJob as written creates jobs/-2147483648 and
      answers -2147483648, a number that does not become the latest; once that
      directory exists every further newJob fails. The checked newJob refuses. */
  lemma NewJobAsWrittenWraps(st: FsState, j: Job)
    requires st.Valid() && ValidateJob(j).Pass? && JobsDir !in st.files
    requires LatestSpec(st).1 == Ok(MaxInt)
    ensures NewJobSpec(st, j).1 == Err(Overflow)
    ensures st.Exists(JobDir(MinInt)) ==> NewJobSpecAsWritten(st, j).1 == Err(IllegalArgument)
    ensures var (after, r) := NewJobSpecAsWritten(st, j);
            !st.Exists(JobDir(MinInt)) ==>
              && r == Ok(MinInt) && after.IsDir(JobDir(MinInt))
              && LatestSpec(after) == (after, Ok(MaxInt))
  {
    LatestSpecFacts(st);
    assert NextJobNumberAsWritten(MaxInt) == MinInt by {
      NextJobNumberWraps();
    }
    var s1 := LatestSpec(st).0;
    var dir := JobDir(MinInt);
    if !st.Exists(dir) {
      var s2 := WrapDirFresh(st);
      WriteIntoEmptyDir(s2, j, dir);
      WriteJobSucceeds(s2, j, dir);
      MakeJobDirsFacts(s2, dir);
      WrapKeepsLatest(s1, WriteJobSpec(s2, j, dir).0);
    }
  }

  /** The wrapped number's directory can be created empty when it is absent, and then
      parses back to the smallest int. */
  lemma WrapDirFresh(st: FsState) returns (s2: FsState)
    requires st.Valid() && JobsDir !in st.files && !st.Exists(JobDir(MinInt))
    ensures s2 == LatestSpec(st).0.AfterMkdirs(JobDir(MinInt))
    ensures LatestSpec(st).0.CanMkdirs(JobDir(MinInt))
    ensures s2.Valid() && s2.IsDir(JobDir(MinInt)) && EmptyBelow(s2, JobDir(MinInt))
    ensures ParseInt(Last(JobDir(MinInt))) == Some(MinInt)
    ensures LatestSpec(st).0.files.Keys <= s2.files.Keys && LatestSpec(st).0.dirs <= s2.dirs
  {
    LatestSpecFacts(st);
    var s1 := LatestSpec(st).0;
    var dir := JobDir(MinInt);
    ParseToString(MinInt);
    assert dir[..1] == JobsDir && dir[..2] == dir;
    MkdirsValid(s1, dir);
    s2 := s1.AfterMkdirs(dir);
    forall p | p in s2.files || p in s2.dirs ensures !IsBelow(p, dir) {
      if (p in s1.files || p in s1.dirs) && IsBelow(p, dir) {
        NothingBelowMissing(s1, dir, p);
      }
    }
  }

  /** A state whose jobs/ keeps every entry of one whose latest number is the largest
      int still has that latest number: no int lies above it. */
  lemma WrapKeepsLatest(s1: FsState, after: FsState)
    requires s1.IsDir(JobsDir) && Latest(s1.Children(JobsDir)) == MaxInt
    requires after.IsDir(JobsDir) && s1.files.Keys <= after.files.Keys && s1.dirs <= after.dirs
    ensures LatestSpec(after) == (after, Ok(MaxInt))
  {
    var names := s1.Children(JobsDir);
    var n0 :| n0 in names && ParseInt(n0) == Some(MaxInt);
    ChildEntry(s1, JobsDir, n0);
    ListedChild(after, JobsDir, JobsDir + [n0]);
    assert IsLatest(MaxInt, after.Children(JobsDir));
    IsLatestUnique(MaxInt, Latest(after.Children(JobsDir)), after.Children(JobsDir));
  }

  // ---------------------------------------------------------------------------------
  // job(id) and jobs()

  /** job(id): NotFound when jobs/<id> does not exist, otherwise the job read from it. */
  function JobById(st: FsState, id: int): (r: Result<WrittenJob>)
  {
    if !st.Exists(JobDir(id)) then Err(NotFound) else ReadJob(st, JobDir(id))
  }

  /** job(id) answers NotFound exactly when jobs/<id> is missing; a job it finds carries
      the requested id and directory. */
  lemma JobByIdFacts(st: FsState, id: int)
    requires IsInt(id)
    ensures JobById(st, id) == Err(NotFound) <==> !st.Exists(JobDir(id))
    ensures JobById(st, id).Ok? ==> JobById(st, id).value.id == id && JobById(st, id).value.directory == JobDir(id)
  {
    ParseToString(id);
  }

  /** The stream over the ids i..latest: ids without an entry are filtered out, the
      others are read in ascending order, and the first that fails to read ends the
      listing with its error. */
  function ListFrom(st: FsState, i: int, latest: int): (r: Result<seq<WrittenJob>>)
    decreases latest - i
  {
    if i > latest then Ok([])
    else if !st.Exists(JobDir(i)) then ListFrom(st, i + 1, latest)
    else
      var job :- ReadJob(st, JobDir(i));
      var rest :- ListFrom(st, i + 1, latest);
      Ok([job] + rest)
  }

  /** The ids of a listing. */
  function Ids(list: seq<WrittenJob>): set<int>
  {
    set k | 0 <= k < |list| :: list[k].id
  }

  lemma IdsCons(job: WrittenJob, rest: seq<WrittenJob>)
    ensures Ids([job] + rest) == {job.id} + Ids(rest)
  {
    var list := [job] + rest;
    assert forall k | 1 <= k < |list| :: list[k] == rest[k - 1];
    forall x | x in Ids(rest) ensures x in Ids(list) {
      var k :| 0 <= k < |rest| && rest[k].id == x;
      assert list[k + 1] == rest[k];
    }
    forall x | x in Ids(list) ensures x == job.id || x in Ids(rest) {
      var k :| 0 <= k < |list| && list[k].id == x;
      if k > 0 {
        assert list[k] == rest[k - 1];
      }
    }
    assert list[0] == job;
  }

  /** The ids in i..latest whose directory exists. */
  ghost function ExistingIds(st: FsState, i: int, latest: int): set<int>
  {
    set id | i <= id <= latest && st.Exists(JobDir(id))
  }

  /** Removing the first id of a range. */
  lemma ExistingIdsStep(st: FsState, i: int, latest: int)
    requires i <= latest
    ensures ExistingIds(st, i, latest) == ExistingIds(st, i + 1, latest) + (if st.Exists(JobDir(i)) then {i} else {})
  {
  }

  /** One step of a successful listing. */
  lemma ListFromStep(st: FsState, i: int, latest: int)
    requires i <= latest && ListFrom(st, i, latest).Ok?
    ensures ListFrom(st, i + 1, latest).Ok?
    ensures !st.Exists(JobDir(i)) ==> ListFrom(st, i, latest) == ListFrom(st, i + 1, latest)
    ensures st.Exists(JobDir(i)) ==>
              && ReadJob(st, JobDir(i)).Ok?
              && ListFrom(st, i, latest).value == [ReadJob(st, JobDir(i)).value] + ListFrom(st, i + 1, latest).value
  {
  }

  /** The head of a listing that starts at an existing directory is that job. */
  lemma ListFromHead(st: FsState, i: int, latest: int)
    requires IsInt(i) && i <= latest && st.Exists(JobDir(i)) && ListFrom(st, i, latest).Ok?
    ensures |ListFrom(st, i, latest).value| > 0
    ensures var job := ListFrom(st, i, latest).value[0];
            job.id == i && JobById(st, i) == Ok(job)
  {
    ListFromStep(st, i, latest);
    ParseToString(i);
  }

  /** A listing holds exactly the ids in range whose directory exists. */
  lemma {:induction false} ListFromIds(st: FsState, i: int, latest: int)
    requires MinInt <= i && latest <= MaxInt
    requires ListFrom(st, i, latest).Ok?
    ensures Ids(ListFrom(st, i, latest).value) == ExistingIds(st, i, latest)
    decreases latest - i
  {
    if i <= latest {
      ListFromStep(st, i, latest);
      ListFromIds(st, i + 1, latest);
      ExistingIdsStep(st, i, latest);
      if st.Exists(JobDir(i)) {
        var list := ListFrom(st, i, latest).value;
        var rest := ListFrom(st, i + 1, latest).value;
        ParseToString(i);
        assert list[0].id == i;
        IdsCons(list[0], rest);
      }
    }
  }

  /** Each element of a listing is what job(id) answers for its id. */
  lemma {:induction false} ListFromElement(st: FsState, i: int, latest: int, k: int)
    requires MinInt <= i && latest <= MaxInt
    requires ListFrom(st, i, latest).Ok? && 0 <= k < |ListFrom(st, i, latest).value|
    ensures JobById(st, ListFrom(st, i, latest).value[k].id) == Ok(ListFrom(st, i, latest).value[k])
    decreases latest - i
  {
    ListFromStep(st, i, latest);
    if !st.Exists(JobDir(i)) {
      ListFromElement(st, i + 1, latest, k);
    } else if k == 0 {
      ListFromHead(st, i, latest);
    } else {
      ListFromElement(st, i + 1, latest, k - 1);
    }
  }

  /** Every id in a listing lies in its range. */
  lemma {:induction false} ListFromIdBound(st: FsState, i: int, latest: int, k: int)
    requires MinInt <= i && latest <= MaxInt
    requires ListFrom(st, i, latest).Ok? && 0 <= k < |ListFrom(st, i, latest).value|
    ensures i <= ListFrom(st, i, latest).value[k].id <= latest
    decreases latest - i
  {
    ListFromStep(st, i, latest);
    if !st.Exists(JobDir(i)) {
      ListFromIdBound(st, i + 1, latest, k);
    } else if k == 0 {
      ListFromHead(st, i, latest);
    } else {
      ListFromIdBound(st, i + 1, latest, k - 1);
    }
  }

  /** A listing is in strictly ascending id order. */
  lemma {:induction false} ListFromAscending(st: FsState, i: int, latest: int, k: int, m: int)
    requires MinInt <= i && latest <= MaxInt
    requires ListFrom(st, i, latest).Ok? && 0 <= k < m < |ListFrom(st, i, latest).value|
    ensures ListFrom(st, i, latest).value[k].id < ListFrom(st, i, latest).value[m].id
    decreases latest - i
  {
    ListFromStep(st, i, latest);
    if !st.Exists(JobDir(i)) {
      ListFromAscending(st, i + 1, latest, k, m);
    } else if k == 0 {
      ListFromHead(st, i, latest);
      ListFromIdBound(st, i + 1, latest, m - 1);
    } else {
      ListFromAscending(st, i + 1, latest, k - 1, m - 1);
    }
  }

  /** A listing fails exactly when some existing directory in range does not read as a
      job, and then with that read's error. */
  lemma {:induction false} ListFromErr(st: FsState, i: int, latest: int)
    ensures ListFrom(st, i, latest).Err? <==>
              exists id | i <= id <= latest && st.Exists(JobDir(id)) :: ReadJob(st, JobDir(id)).Err?
    ensures ListFrom(st, i, latest).Err? ==>
              exists id | i <= id <= latest && st.Exists(JobDir(id)) :: ReadJob(st, JobDir(id)) == Err(ListFrom(st, i, latest).error)
    decreases latest - i
  {
    if i <= latest {
      ListFromErr(st, i + 1, latest);
      if ListFrom(st, i + 1, latest).Err? {
        var id :| i + 1 <= id <= latest && st.Exists(JobDir(id)) && ReadJob(st, JobDir(id)).Err?;
      }
      if exists id | i <= id <= latest && st.Exists(JobDir(id)) :: ReadJob(st, JobDir(id)).Err? {
        var id :| i <= id <= latest && st.Exists(JobDir(id)) && ReadJob(st, JobDir(id)).Err?;
        if id > i {
          assert i + 1 <= id;
        }
      }
    }
  }

  /** jobs(): the latest number first (which may create jobs/), then the listing of
      1..latest. */
  ghost function JobsSpec(st: FsState): (FsState, Result<seq<WrittenJob>>)
  {
    var (s1, latest) := LatestSpec(st);
    if latest.Err? then (s1, Err(latest.error)) else (s1, ListFrom(s1, 1, latest.value))
  }

  method ListJobs(fs: FileSystem) returns (r: Result<seq<WrittenJob>>)
    requires fs.Valid()
    modifies fs
    ensures fs.Valid()
    ensures (fs.State(), r) == JobsSpec(old(fs.State()))
  {
    var latest := LatestJobNumber(fs);
    if latest.Err? {
      return Err(latest.error);
    }
    r := ListFrom(fs.State(), 1, latest.value);
  }

  /** jobs() lists, in ascending order, exactly the jobs numbered 1 to the latest
      number whose directory exists, each as job(id) answers it. */
  lemma JobsListsExisting(st: FsState)
    requires st.Valid()
    ensures var (after, r) := JobsSpec(st);
            r.Ok? ==>
              && Ids(r.value) == ExistingIds(after, 1, Latest(after.Children(JobsDir)))
              && (forall k | 0 <= k < |r.value| :: JobById(after, r.value[k].id) == Ok(r.value[k]))
              && (forall k, m | 0 <= k < m < |r.value| :: r.value[k].id < r.value[m].id)
  {
    LatestSpecFacts(st);
    var (after, r) := JobsSpec(st);
    if r.Ok? {
      ListFromIds(after, 1, LatestSpec(st).1.value);
      forall k | 0 <= k < |r.value| ensures JobById(after, r.value[k].id) == Ok(r.value[k]) {
        ListFromElement(after, 1, LatestSpec(st).1.value, k);
      }
      forall k, m | 0 <= k < m < |r.value| ensures r.value[k].id < r.value[m].id {
        ListFromAscending(after, 1, LatestSpec(st).1.value, k, m);
      }
    }
  }

  // ---------------------------------------------------------------------------------
  // deleteJob(id)

  /** deleteJob: NotFound when jobs/<id> is missing, otherwise rename it to jobs/d<id>,
      a refused rename failing the checkArgument. */
  function DeleteJobSpec(st: FsState, id: int): (FsState, Outcome)
  {
    var from, to := JobDir(id), DeletedJobDir(id);
    if !st.Exists(from) then (st, Fail(NotFound))
    else if !st.CanRename(from, to) then (st, Fail(IllegalArgument))
    else (st.AfterRename(from, to), Pass)
  }

  method DeleteJob(fs: FileSystem, id: int) returns (r: Outcome)
    requires fs.Valid()
    modifies fs
    ensures fs.Valid()
    ensures (fs.State(), r) == DeleteJobSpec(old(fs.State()), id)
  {
    var from := JobDir(id);
    if !fs.State().Exists(from) {
      return Fail(NotFound);
    }
    var renamed := fs.Rename(from, DeletedJobDir(id));
    r := if renamed then Pass else Fail(IllegalArgument);
  }

  /** A job's name and its deleted name are distinct entries of jobs/. */
  lemma DeletedNameDiffers(id: int)
    ensures JobDir(id) != DeletedJobDir(id)
    ensures !IsPrefix(JobDir(id), DeletedJobDir(id)) && !IsPrefix(DeletedJobDir(id), JobDir(id))
    ensures ParseInt("d" + ToString(id)).None?
  {
    assert ("d" + ToString(id))[0] == 'd';
    assert ToString(id)[0] == '-' || IsDigit(ToString(id)[0]) by {
      DigitsParse(if id < 0 then -id else id);
    }
    assert JobDir(id)[1] != DeletedJobDir(id)[1];
  }

  /** deleteJob fails with NotFound exactly when jobs/<id> is missing, and with
      IllegalArgument exactly when jobs/d<id> is in the way; a failure changes
      nothing. */
  lemma DeleteJobFails(st: FsState, id: int)
    requires st.Valid()
    ensures var (after, r) := DeleteJobSpec(st, id);
            && (r == Fail(NotFound) <==> !st.Exists(JobDir(id)))
            && (r == Fail(IllegalArgument) <==>
                  st.Exists(JobDir(id)) && !st.TargetReplaceable(JobDir(id), DeletedJobDir(id)))
            && (r.Fail? ==> after == st)
  {
    var from, to := JobDir(id), DeletedJobDir(id);
    DeletedNameDiffers(id);
    if st.Exists(from) {
      assert Parent(from) == JobsDir == Parent(to);
      assert st.IsDir(JobsDir);
    }
  }

  /** A successful deleteJob moves jobs/<id> to jobs/d<id>: afterwards job(id) answers
      NotFound, jobs/d<id> exists and jobs/ is still a directory. */
  lemma DeleteJobMoves(st: FsState, id: int)
    requires st.Valid() && DeleteJobSpec(st, id).1.Pass?
    ensures var after := DeleteJobSpec(st, id).0;
            && after.Valid()
            && !after.Exists(JobDir(id)) && after.Exists(DeletedJobDir(id)) && after.IsDir(JobsDir)
            && JobById(after, id) == Err(NotFound)
  {
    var from, to := JobDir(id), DeletedJobDir(id);
    DeletedNameDiffers(id);
    assert st.Exists(from) && st.CanRename(from, to);
    assert Parent(from) == JobsDir && st.IsDir(JobsDir);
    RenameValid(st, from, to);
    RenameSameDepth(st, from, to);
    RenameKeepsOther(st, from, to, JobsDir);
  }

  /** A successful deleteJob swaps the job's name for its deleted name in the listing
      of jobs/, so the job's number is no longer counted. */
  lemma DeleteJobRenames(st: FsState, id: int)
    requires st.Valid() && DeleteJobSpec(st, id).1.Pass?
    ensures DeleteJobSpec(st, id).0.Children(JobsDir) == st.Children(JobsDir) - {ToString(id)} + {"d" + ToString(id)}
  {
    var from, to := JobDir(id), DeletedJobDir(id);
    DeletedNameDiffers(id);
    assert from[..1] == JobsDir && to[..1] == JobsDir;
    RenameChildren(st, JobsDir, from, to);
  }

  /** With every numbered name of jobs/ in canonical form, deleting the job with the
      latest positive number lowers the latest number; when the job just below it
      exists, that number becomes the latest. */
  lemma DeleteLatestLowersLatest(st: FsState, id: int)
    requires st.Valid() && st.IsDir(JobsDir) && 1 <= id
    requires Latest(st.Children(JobsDir)) == id
    requires forall n | n in st.Children(JobsDir) && ParseInt(n) == Some(id) :: n == ToString(id)
    requires DeleteJobSpec(st, id).1.Pass?
    ensures var after := DeleteJobSpec(st, id).0;
            after.Valid() && LatestSpec(after).1.Ok? && LatestSpec(after).1.value < id
    ensures var after := DeleteJobSpec(st, id).0;
            st.Exists(JobDir(id - 1)) ==> LatestSpec(after) == (after, Ok(id - 1))
  {
    DeleteJobMoves(st, id);
    DeleteJobRenames(st, id);
    DeletedNameDiffers(id);
    if st.Exists(JobDir(id - 1)) {
      ListedChild(st, JobsDir, JobDir(id - 1));
    }
    LatestOfRenamed(st.Children(JobsDir), DeleteJobSpec(st, id).0, id);
  }

  /** latestJobNumber over a jobs/ directory whose names are those of `before` with the
      latest number's name replaced by its deleted name. */
  lemma LatestOfRenamed(before: set<string>, after: FsState, id: int)
    requires after.IsDir(JobsDir) && 1 <= id && Latest(before) == id
    requires forall n | n in before && ParseInt(n) == Some(id) :: n == ToString(id)
    requires ParseInt("d" + ToString(id)).None?
    requires after.Children(JobsDir) == before - {ToString(id)} + {"d" + ToString(id)}
    ensures LatestSpec(after).1.Ok? && LatestSpec(after).1.value < id
    ensures ToString(id - 1) in before ==> LatestSpec(after) == (after, Ok(id - 1))
  {
    LatestAfterRemoval(before, id, "d" + ToString(id));
  }

  /** Replacing the single name of the latest number `id` by a name that does not
      parse lowers the latest number, to `id - 1` when that number's name is present. */
  lemma LatestAfterRemoval(before: set<string>, id: int, gone: string)
    requires 1 <= id && Latest(before) == id && ParseInt(gone).None?
    requires forall n | n in before && ParseInt(n) == Some(id) :: n == ToString(id)
    ensures Latest(before - {ToString(id)} + {gone}) < id
    ensures ToString(id - 1) in before ==> Latest(before - {ToString(id)} + {gone}) == id - 1
  {
    var names := before - {ToString(id)} + {gone};
    forall n | n in names && ParseInt(n).Some? ensures ParseInt(n).value <= id - 1 {
      assert n in before && n != ToString(id);
    }
    if ToString(id - 1) in before {
      ParseToString(id - 1);
      ParseToString(id);
      assert ToString(id - 1) != ToString(id);
      assert ToString(id - 1) in names;
      assert IsLatest(id - 1, names);
      IsLatestUnique(Latest(names), id - 1, names);
    }
  }

  /** Deleting the latest job, with the one below it still present, makes the next
      newJob reuse the deleted number. */
  lemma DeleteLatestReusesNumber(st: FsState, id: int, j: Job)
    requires st.Valid() && st.IsDir(JobsDir) && 1 <= id
    requires Latest(st.Children(JobsDir)) == id
    requires forall n | n in st.Children(JobsDir) && ParseInt(n) == Some(id) :: n == ToString(id)
    requires DeleteJobSpec(st, id).1.Pass? && st.Exists(JobDir(id - 1)) && ValidateJob(j).Pass?
    ensures NewJobSpec(DeleteJobSpec(st, id).0, j).1 == Ok(id)
  {
    DeleteLatestLowersLatest(st, id);
    NextNewJob(DeleteJobSpec(st, id).0, j, id - 1);
  }

  /** A valid job submitted when the latest number is `latest` gets `latest + 1`. */
  lemma NextNewJob(st: FsState, j: Job, latest: int)
    requires st.Valid() && LatestSpec(st) == (st, Ok(latest)) && latest < MaxInt && ValidateJob(j).Pass?
    ensures NewJobSpec(st, j).1 == Ok(latest + 1)
  {
    LatestSpecFacts(st);
    NewJobSucceeds(st, j);
  }

  /** newJob, whatever its outcome, leaves a valid file system valid. */
  lemma NewJobValid(st: FsState, j: Job)
    requires st.Valid()
    ensures NewJobSpec(st, j).0.Valid()
  {
    LatestSpecFacts(st);
    var (s1, latest) := LatestSpec(st);
    if ValidateJob(j).Pass? && latest.Ok? && NextJobNumber(latest.value).Ok? {
      var dir := JobDir(NextJobNumber(latest.value).value);
      if s1.CanMkdirs(dir) {
        MkdirsValid(s1, dir);
        WriteJobValid(s1.AfterMkdirs(dir), j, dir);
      }
    }
  }

  /** A successful newJob removes nothing. */
  lemma NewJobKeeps(st: FsState, j: Job)
    requires st.Valid() && NewJobSpec(st, j).1.Ok?
    ensures st.files.Keys <= NewJobSpec(st, j).0.files.Keys && st.dirs <= NewJobSpec(st, j).0.dirs
  {
    NewJobState(st, j);
    NewJobDirFresh(st);
    LatestSpecFacts(st);
    var n := NewJobSpec(st, j).1.value;
    var s2 := LatestSpec(st).0.AfterMkdirs(JobDir(n));
    WriteJobSucceeds(s2, j, JobDir(n));
    MakeJobDirsFacts(s2, JobDir(n));
  }

  /** A successful deleteJob of a non-empty job directory leaves jobs/d<id> a
      directory holding what jobs/<id> held, so it is not empty. */
  lemma DeletedDirNonEmpty(st: FsState, id: int) returns (n: Name)
    requires st.Valid() && st.IsDir(JobDir(id)) && st.Children(JobDir(id)) != {}
    requires DeleteJobSpec(st, id).1.Pass?
    ensures var after := DeleteJobSpec(st, id).0;
            && DeletedJobDir(id) in after.dirs
            && (DeletedJobDir(id) + [n] in after.files || DeletedJobDir(id) + [n] in after.dirs)
  {
    var from, to := JobDir(id), DeletedJobDir(id);
    DeletedNameDiffers(id);
    n :| n in st.Children(from);
    ChildEntry(st, from, n);
    RenameMovesChild(st, from, to, n);
    RenameSameDepth(st, from, to);
  }

  /** After the latest job was deleted and its number handed out again, deleting the
      new job fails: its deleted name is taken by the earlier job's non-empty
      directory. */
  lemma DeleteAgainFails(st: FsState, id: int, j: Job)
    requires st.Valid() && st.IsDir(JobsDir) && 1 <= id
    requires Latest(st.Children(JobsDir)) == id
    requires forall n | n in st.Children(JobsDir) && ParseInt(n) == Some(id) :: n == ToString(id)
    requires st.IsDir(JobDir(id)) && st.Children(JobDir(id)) != {}
    requires DeleteJobSpec(st, id).1.Pass? && st.Exists(JobDir(id - 1)) && ValidateJob(j).Pass?
    ensures var s2 := DeleteJobSpec(st, id).0;
            var s3 := NewJobSpec(s2, j).0;
            NewJobSpec(s2, j).1 == Ok(id) && DeleteJobSpec(s3, id) == (s3, Fail(IllegalArgument))
  {
    var from, to := JobDir(id), DeletedJobDir(id);
    DeleteLatestReusesNumber(st, id, j);
    DeleteJobMoves(st, id);
    var n := DeletedDirNonEmpty(st, id);
    var s2 := DeleteJobSpec(st, id).0;
    var s3 := NewJobSpec(s2, j).0;
    NewJobKeeps(s2, j);
    NewJobSucceeds(s2, j);
    NewJobValid(s2, j);
    var c := to + [n];
    assert c[..|to|] == to;
    ListedChild(s3, to, c);
    DeleteJobFails(s3, id);
  }

  // ---------------------------------------------------------------------------------
  // The single job: saveAndRunSingleScript, its status record, singleJobOutput and
  // singleScript

  const SingleDir: Path := ["jobs", "single-job"]
  const SingleScripts: Path := ["jobs", "single-job", "scripts"]
  const SingleScriptFile: Path := ["jobs", "single-job", "scripts", "script.sh"]
  const SingleWork: Path := ["jobs", "single-job", "work"]
  const SingleStatus: Path := ["jobs", "single-job", "status.json"]
  const SingleLog: Path := ["jobs", "single-job", "out.log"]

  // ---------------------------------------------------------------------------------
  // ScriptRunner (ScriptRunner.java): the interpreter named on the script's first line

  /** BufferedReader.readLine() on a fresh reader: null at the end of the input,
      otherwise the characters before the first line terminator. */
  function FirstLine(text: string): (r: Option<string>)
    ensures r.None? <==> text == []
    ensures r.Some? ==> |r.value| <= |text| && r.value == text[..|r.value|]
    ensures r.Some? ==> forall i | 0 <= i < |r.value| :: r.value[i] != '\n' && r.value[i] != '\r'
    ensures r.Some? && |r.value| < |text| ==> text[|r.value|] == '\n' || text[|r.value|] == '\r'
  {
    if text == [] then None
    else if text[0] == '\n' || text[0] == '\r' then Some([])
    else
      var rest := FirstLine(text[1..]);
      Some([text[0]] + (if rest.Some? then rest.value else []))
  }

  /** header.replaceFirst("^#!", ""). */
  function StripShebang(header: string): string
  {
    if |header| >= 2 && header[..2] == "#!" then header[2..] else header
  }

  /** A leading "#!" is removed once, and a header without one is kept whole. */
  lemma StripShebangFacts(rest: string, header: string)
    ensures StripShebang("#!" + rest) == rest
    ensures !(|header| >= 2 && header[..2] == "#!") ==> StripShebang(header) == header
  {
    assert ("#!" + rest)[..2] == "#!" && ("#!" + rest)[2..] == rest;
  }

  /** The process a ScriptRunner prepares: the interpreter named on the script's first
      line and the script itself. */
  datatype Command = Command(interpreter: string, script: Path)

  /** The ScriptRunner constructor: read the script's first line (an unreadable file is
      an I/O failure, an empty one yields null, which is then dereferenced) and strip a
      leading "#!" to get the interpreter. */
  function RunnerCommand(st: FsState, script: Path): (r: Result<Command>)
    ensures r == Err(IOFailure) <==> script !in st.files || !st.files[script].Text?
    ensures r == Err(NullPointer) <==> script in st.files && st.files[script] == Text([])
    ensures r.Err? ==> r.error == IOFailure || r.error == NullPointer
    ensures r.Ok? ==> r.value.script == script
    ensures r.Ok? ==> forall i | 0 <= i < |r.value.interpreter| ::
              r.value.interpreter[i] != '\n' && r.value.interpreter[i] != '\r'
    ensures r.Ok? ==>
              var text := st.files[script].text;
              var line := (if |text| >= 2 && text[..2] == "#!" then "#!" else "") + r.value.interpreter;
              && line <= text
              && (|line| < |text| ==> text[|line|] == '\n' || text[|line|] == '\r')
  {
    if script !in st.files || !st.files[script].Text? then Err(IOFailure)
    else
      var header := FirstLine(st.files[script].text);
      if header.None? then Err(NullPointer)
      else Ok(Command(StripShebang(header.value), script))
  }

  // ---------------------------------------------------------------------------------
  // The single job, continued: the status records and the run

  /** The status record before the run. */
  function StartedStatus(started: string): map<string, Json>
  {
    map["started" := JStr(started)]
  }

  /** The status record after the run: the started record with the end time and the
      exit code added. */
  function EndedStatus(status: map<string, Json>, ended: string, exit: int): map<string, Json>
  {
    status["ended" := JStr(ended)]["exitCode" := JInt(exit)]
  }

  /** The status map the request builds and later completes (a Fluent.HashMap that
      `append` updates in place). */
  class StatusRecord {
    var fields: map<string, Json>

    constructor ()
      ensures fields == map[]
    {
      fields := map[];
    }

    method Append(key: string, value: Json)
      modifies this
      ensures fields == old(fields)[key := value]
    {
      fields := fields[key := value];
    }
  }

  /** saveAndRunSingleScript up to the hand-over to the executor: create the scripts
      directory when absent, store the script, create the work directory when absent,
      write the status record holding only the start time, then prepare the runner. */
  function SaveAndRunSpec(st: FsState, script: string, started: string): (FsState, Result<Command>)
  {
    if !st.Exists(SingleScripts) && !st.CanMkdirs(SingleScripts) then (st, Err(IllegalArgument))
    else
      var s1 := if st.Exists(SingleScripts) then st else st.AfterMkdirs(SingleScripts);
      if !s1.CanWrite(SingleScriptFile) then (s1, Err(IOFailure))
      else
        var s2 := s1.AfterWrite(SingleScriptFile, Text(script));
        if !s2.Exists(SingleWork) && !s2.CanMkdir(SingleWork) then (s2, Err(IllegalArgument))
        else
          var s3 := if s2.Exists(SingleWork) then s2 else s2.AfterMkdir(SingleWork);
          if !s3.CanWrite(SingleStatus) then (s3, Err(IOFailure))
          else
            var s4 := s3.AfterWrite(SingleStatus, Document(StartedStatus(started)));
            (s4, RunnerCommand(s4, SingleScriptFile))
  }

  /** The request itself; the run is left to the caller, which completes the returned
      status record with CompleteSingleScript once the script has exited. */
  method SaveAndRunSingleScript(fs: FileSystem, script: string, started: string)
    returns (r: Result<Command>, status: StatusRecord?)
    requires fs.Valid()
    modifies fs
    ensures fs.Valid()
    ensures (fs.State(), r) == SaveAndRunSpec(old(fs.State()), script, started)
    ensures r.Ok? ==> status != null && fresh(status) && status.fields == StartedStatus(started)
  {
    status := null;
    if !fs.State().Exists(SingleScripts) {
      var made := fs.Mkdirs(SingleScripts);
      if !made {
        return Err(IllegalArgument), status;
      }
    }
    var stored := fs.Write(SingleScriptFile, Text(script));
    if !stored {
      return Err(IOFailure), status;
    }
    if !fs.State().Exists(SingleWork) {
      var made := fs.Mkdir(SingleWork);
      if !made {
        return Err(IllegalArgument), status;
      }
    }
    status := new StatusRecord();
    status.Append("started", JStr(started));
    var written := fs.Write(SingleStatus, Document(status.fields));
    if !written {
      return Err(IOFailure), status;
    }
    r := RunnerCommand(fs.State(), SingleScriptFile);
  }

  /** writeSingleJobStatus of the completed record. */
  function CompleteSpec(st: FsState, status: map<string, Json>, ended: string, exit: int): (FsState, Outcome)
  {
    if !st.CanWrite(SingleStatus) then (st, Fail(IOFailure))
    else (st.AfterWrite(SingleStatus, Document(EndedStatus(status, ended, exit))), Pass)
  }

  /** The continuation run when the script exits: append the end time and the exit
      code to the record, then write it over the status file. */
  method CompleteSingleScript(fs: FileSystem, status: StatusRecord, ended: string, exit: int)
    returns (r: Outcome)
    requires fs.Valid()
    modifies fs, status
    ensures fs.Valid()
    ensures status.fields == EndedStatus(old(status.fields), ended, exit)
    ensures (fs.State(), r) == CompleteSpec(old(fs.State()), old(status.fields), ended, exit)
  {
    status.Append("ended", JStr(ended));
    status.Append("exitCode", JInt(exit));
    var written := fs.Write(SingleStatus, Document(status.fields));
    r := if written then Pass else Fail(IOFailure);
  }

  /** singleJobOutput: an empty map while there is no status file; otherwise the stored
      record plus the log, either of which failing to read is an I/O failure. */
  function SingleJobOutput(st: FsState): (r: Result<map<string, Json>>)
  {
    if !st.Exists(SingleStatus) then Ok(map[])
    else if SingleStatus !in st.files || !st.files[SingleStatus].Document? then Err(IOFailure)
    else if SingleLog !in st.files || !st.files[SingleLog].Text? then Err(IOFailure)
    else Ok(st.files[SingleStatus].fields["log" := JStr(st.files[SingleLog].text)])
  }

  /** singleScript: the stored script under "script". */
  function SingleScript(st: FsState): (r: Result<map<string, Json>>)
    ensures r.Ok? <==> SingleScriptFile in st.files && st.files[SingleScriptFile].Text?
    ensures r.Err? ==> r.error == IOFailure
    ensures r.Ok? ==> r.value.Keys == {"script"}
    ensures r.Ok? ==> r.value["script"] == JStr(st.files[SingleScriptFile].text)
  {
    if SingleScriptFile !in st.files || !st.files[SingleScriptFile].Text? then Err(IOFailure)
    else Ok(map["script" := JStr(st.files[SingleScriptFile].text)])
  }

  /** How the single-job locations sit in the tree. */
  lemma SinglePaths()
    ensures Parent(SingleScripts) == SingleDir && Parent(SingleWork) == SingleDir
    ensures Parent(SingleStatus) == SingleDir && Parent(SingleLog) == SingleDir
    ensures Parent(SingleScriptFile) == SingleScripts && Parent(SingleDir) == JobsDir
    ensures SingleScripts in Prefixes(SingleScripts) && SingleDir in Prefixes(SingleScripts)
    ensures Prefixes(SingleScripts) == {JobsDir, SingleDir, SingleScripts}
  {
    assert SingleScripts[..1] == JobsDir && SingleScripts[..2] == SingleDir;
    assert SingleScripts[..3] == SingleScripts;
  }

  /** A single-job area in which saveAndRunSingleScript gets as far as the runner: the
      scripts directory exists and neither file location is taken by a directory. */
  predicate SingleJobReady(st: FsState)
  {
    && st.Valid()
    && st.IsDir(SingleScripts)
    && SingleScriptFile !in st.dirs && SingleStatus !in st.dirs
  }

  /** Whenever the request reaches the runner (it succeeds, or an empty script fails it),
      the script is stored and readable back, the status file records only the start,
      the area is ready for the next request, and the runner's interpreter is the first
      line of the script without its "#!". */
  lemma SaveAndRunStores(st: FsState, script: string, started: string)
    requires st.Valid()
    ensures var (after, r) := SaveAndRunSpec(st, script, started);
      r.Ok? || r == Err(NullPointer) ==>
        && SingleJobReady(after) && after.Exists(SingleWork)
        && SingleScript(after) == Ok(map["script" := JStr(script)])
        && SingleStatus in after.files && after.files[SingleStatus] == Document(StartedStatus(started))
        && (r == Err(NullPointer) <==> script == [])
        && (r.Ok? ==> r.value == Command(StripShebang(FirstLine(script).value), SingleScriptFile))
  {
    var (after, r) := SaveAndRunSpec(st, script, started);
    if r.Ok? || r == Err(NullPointer) {
      var s3 := SaveAndRunSteps(st, script, started);
      SinglePaths();
      WriteValid(s3, SingleStatus, Document(StartedStatus(started)));
      assert after.files[SingleScriptFile] == Text(script);
    }
  }

  /** The state just before the status write of a request that reaches the runner. */
  lemma SaveAndRunSteps(st: FsState, script: string, started: string) returns (s3: FsState)
    requires st.Valid()
    requires var r := SaveAndRunSpec(st, script, started).1; r.Ok? || r == Err(NullPointer)
    ensures s3.Valid() && s3.CanWrite(SingleStatus)
    ensures s3.Exists(SingleWork) && s3.IsDir(SingleScripts) && SingleScriptFile !in s3.dirs
    ensures SingleScriptFile in s3.files && s3.files[SingleScriptFile] == Text(script)
    ensures SaveAndRunSpec(st, script, started)
         == (s3.AfterWrite(SingleStatus, Document(StartedStatus(started))),
             RunnerCommand(s3.AfterWrite(SingleStatus, Document(StartedStatus(started))), SingleScriptFile))
  {
    SinglePaths();
    var s1 := if st.Exists(SingleScripts) then st else st.AfterMkdirs(SingleScripts);
    if !st.Exists(SingleScripts) {
      MkdirsValid(st, SingleScripts);
    }
    assert s1.CanWrite(SingleScriptFile);
    var s2 := s1.AfterWrite(SingleScriptFile, Text(script));
    WriteValid(s1, SingleScriptFile, Text(script));
    s3 := if s2.Exists(SingleWork) then s2 else s2.AfterMkdir(SingleWork);
    if !s2.Exists(SingleWork) {
      MkdirValid(s2, SingleWork);
    }
  }

  /** A request that fails before the status write leaves a previous run's status file
      as it was. */
  lemma SaveAndRunKeepsStatus(st: FsState, script: string, started: string)
    requires st.Valid()
    ensures var (after, r) := SaveAndRunSpec(st, script, started);
      && after.Valid()
      && (r.Err? ==> r.error == IllegalArgument || r.error == IOFailure || r.error == NullPointer)
      && (r.Err? && r.error != NullPointer ==>
            && (SingleStatus in after.files <==> SingleStatus in st.files)
            && (SingleStatus in st.files ==> after.files[SingleStatus] == st.files[SingleStatus]))
  {
    SinglePaths();
    if !st.Exists(SingleScripts) && st.CanMkdirs(SingleScripts) {
      MkdirsValid(st, SingleScripts);
    }
    var s1 := if st.Exists(SingleScripts) then st else st.AfterMkdirs(SingleScripts);
    if (st.Exists(SingleScripts) || st.CanMkdirs(SingleScripts)) && s1.CanWrite(SingleScriptFile) {
      var s2 := s1.AfterWrite(SingleScriptFile, Text(script));
      WriteValid(s1, SingleScriptFile, Text(script));
      if !s2.Exists(SingleWork) && s2.CanMkdir(SingleWork) {
        MkdirValid(s2, SingleWork);
      }
      var s3 := if s2.Exists(SingleWork) then s2 else s2.AfterMkdir(SingleWork);
      if s3.CanWrite(SingleStatus) {
        WriteValid(s3, SingleStatus, Document(StartedStatus(started)));
      }
    }
  }

  /** From a ready area the request reaches the runner, and it fails exactly when the
      script is empty. */
  lemma SaveAndRunFromReady(st: FsState, script: string, started: string)
    requires SingleJobReady(st)
    ensures var r := SaveAndRunSpec(st, script, started).1;
      (r.Ok? <==> script != []) && (script == [] ==> r == Err(NullPointer))
  {
    SinglePaths();
    var s2 := st.AfterWrite(SingleScriptFile, Text(script));
    assert s2.Exists(SingleWork) || s2.CanMkdir(SingleWork);
    var s3 := if s2.Exists(SingleWork) then s2 else s2.AfterMkdir(SingleWork);
    assert s3.CanWrite(SingleStatus);
    var s4 := s3.AfterWrite(SingleStatus, Document(StartedStatus(started)));
    assert s4.files[SingleScriptFile] == Text(script);
  }

  /** The first request, with nothing yet under jobs/single-job, also reaches the
      runner; SaveAndRunStores then gives the stored state. */
  lemma SaveAndRunFirstTime(st: FsState, script: string, started: string)
    requires st.Valid() && !st.Exists(SingleDir) && JobsDir !in st.files
    ensures var r := SaveAndRunSpec(st, script, started).1;
      (r.Ok? <==> script != []) && (script == [] ==> r == Err(NullPointer))
  {
    NothingBelowMissing(st, SingleDir, SingleScripts);
    NothingBelowMissing(st, SingleDir, SingleScriptFile);
    NothingBelowMissing(st, SingleDir, SingleWork);
    NothingBelowMissing(st, SingleDir, SingleStatus);
    SinglePaths();
    assert SingleScripts[..1] == JobsDir && SingleScripts[..2] == SingleDir;
    assert st.CanMkdirs(SingleScripts);
    var s1 := st.AfterMkdirs(SingleScripts);
    var s2 := s1.AfterWrite(SingleScriptFile, Text(script));
    assert s2.CanMkdir(SingleWork);
    var s3 := s2.AfterMkdir(SingleWork);
    assert s3.CanWrite(SingleStatus);
    var s4 := s3.AfterWrite(SingleStatus, Document(StartedStatus(started)));
    assert s4.files[SingleScriptFile] == Text(script);
  }

  /** A script that starts with "#!" and the interpreter's name runs under that
      interpreter. */
  lemma ShebangNamesInterpreter(program: string, body: string)
    requires forall i | 0 <= i < |program| :: program[i] != '\n' && program[i] != '\r'
    ensures FirstLine("#!" + program + "\n" + body) == Some("#!" + program)
    ensures StripShebang(FirstLine("#!" + program + "\n" + body).value) == program
  {
    FirstLineOfLine("#!" + program, body);
    StripShebangFacts(program, "");
  }

  /** The first line of a text is everything before its first line terminator. */
  lemma {:induction false} FirstLineOfLine(line: string, rest: string)
    requires forall i | 0 <= i < |line| :: line[i] != '\n' && line[i] != '\r'
    ensures FirstLine(line + "\n" + rest) == Some(line)
    decreases |line|
  {
    if line == [] {
      assert line + "\n" + rest == "\n" + rest;
    } else {
      assert (line + "\n" + rest)[1..] == line[1..] + "\n" + rest;
      FirstLineOfLine(line[1..], rest);
      assert [line[0]] + line[1..] == line;
    }
  }

  /** Completing a run in a ready area writes the finished record over the status file
      and keeps the area ready and the log in place; a write that fails changes
      nothing. */
  lemma CompleteFacts(st: FsState, status: map<string, Json>, ended: string, exit: int)
    requires st.Valid()
    ensures var (after, r) := CompleteSpec(st, status, ended, exit);
      && after.Valid()
      && (r.Fail? ==> after == st && r.error == IOFailure)
      && (SingleJobReady(st) ==>
            && r == Pass && SingleJobReady(after)
            && after.files[SingleStatus] == Document(EndedStatus(status, ended, exit)))
      && (SingleLog in after.files <==> SingleLog in st.files)
      && (SingleLog in st.files ==> after.files[SingleLog] == st.files[SingleLog])
  {
    SinglePaths();
    if st.CanWrite(SingleStatus) {
      WriteValid(st, SingleStatus, Document(EndedStatus(status, ended, exit)));
    }
  }

  /** singleJobOutput is empty exactly while no status file exists. */
  lemma SingleJobOutputEmpty(st: FsState)
    ensures SingleJobOutput(st) == Ok(map[]) <==> !st.Exists(SingleStatus)
  {
    if st.Exists(SingleStatus) && SingleJobOutput(st).Ok? {
      assert "log" in SingleJobOutput(st).value;
    }
  }

  /** The two phases as singleJobOutput shows them: while the script runs (the runner
      writes the log and leaves the status file alone) the output holds the start time
      and the log; once the run is completed it also holds the end time and the exit
      code. */
  lemma TwoPhaseOutput(st: FsState, script: string, started: string, running: FsState,
                       log: string, ended: string, exit: int)
    requires st.Valid() && SaveAndRunSpec(st, script, started).1.Ok?
    requires SingleJobReady(running)
    requires SingleStatus in running.files
    requires running.files[SingleStatus] == SaveAndRunSpec(st, script, started).0.files[SingleStatus]
    requires SingleLog in running.files && running.files[SingleLog] == Text(log)
    ensures SingleJobOutput(running) == Ok(map["started" := JStr(started), "log" := JStr(log)])
    ensures SingleJobOutput(CompleteSpec(running, StartedStatus(started), ended, exit).0)
         == Ok(map["started" := JStr(started), "ended" := JStr(ended), "exitCode" := JInt(exit), "log" := JStr(log)])
  {
    SaveAndRunStores(st, script, started);
    CompleteFacts(running, StartedStatus(started), ended, exit);
  }
}

