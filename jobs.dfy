/** Job.java: a job is a root script; a written job lives in a directory named by its
    number, with the root script at scripts/script-o.sh and its runs under runs/. */
module Jobs {
  import opened Base
  import opened JavaInt
  import opened FileStore
  import opened Scripts

  /** A job as the API receives it: the root script, and an id used only by updates. */
  datatype Job = Job(okScript: Option<Script>, id: Option<int>)

  /** A job stored in `directory`. */
  datatype WrittenJob = WrittenJob(okScript: WrittenScript, id: int, directory: Path)

  const MissingOkScript: string := "Missing Job#okScript"

  // ---------------------------------------------------------------------------------
  // Job.validateIn

  /** A missing root script is a 400 error; otherwise the script tree is checked. */
  function ValidateJob(j: Job): Outcome
  {
    if j.okScript.None? then Fail(BadRequest(MissingOkScript)) else Validate(j.okScript.value)
  }

  lemma ValidateJobIff(j: Job)
    ensures ValidateJob(j).Pass? <==>
              && j.okScript.Some?
              && forall w :: NodeAt(j.okScript.value, w).Some? ==> NodeAt(j.okScript.value, w).value.code.Some?
    ensures ValidateJob(j).Fail? ==>
              ValidateJob(j).error == BadRequest(if j.okScript.None? then MissingOkScript else MissingCode)
  {
    if j.okScript.Some? {
      ValidateIffAllCode(j.okScript.value);
    }
  }

  // ---------------------------------------------------------------------------------
  // new WrittenJob(job, directory) and new WrittenJob(directory)

  function ScriptsDir(dir: Path): Path { dir + ["scripts"] }

  function RootScriptPath(dir: Path): Path { dir + ["scripts", "script-o.sh"] }

  /** The first steps of the writing constructor: create the directory and then its
      scripts directory when absent; a failed creation is a failed checkArgument. */
  function MakeJobDirs(st: FsState, dir: Path): (FsState, Outcome)
  {
    if !st.Exists(dir) && !st.CanMkdirs(dir) then (st, Fail(IllegalArgument))
    else
      var s1 := if st.Exists(dir) then st else st.AfterMkdirs(dir);
      if !s1.Exists(ScriptsDir(dir)) && !s1.CanMkdir(ScriptsDir(dir)) then (s1, Fail(IllegalArgument))
      else (if s1.Exists(ScriptsDir(dir)) then s1 else s1.AfterMkdir(ScriptsDir(dir)), Pass)
  }

  /** Creating the job's directories adds directories only, and when it passes the
      directory exists as a directory and its scripts entry exists. */
  lemma MakeJobDirsFacts(st: FsState, dir: Path)
    requires st.Valid()
    ensures var (after, out) := MakeJobDirs(st, dir);
            && after.Valid() && after.files == st.files && st.dirs <= after.dirs
            && (forall p | p in after.dirs - st.dirs :: |p| <= |dir| + 1)
            && (out.Pass? ==> after.IsDir(dir) && after.Exists(ScriptsDir(dir)))
  {
    if st.Exists(dir) || st.CanMkdirs(dir) {
      var s1 := if st.Exists(dir) then st else st.AfterMkdirs(dir);
      if !st.Exists(dir) {
        MkdirsValid(st, dir);
        assert dir[..|dir|] == dir;
      }
      if !s1.Exists(ScriptsDir(dir)) && s1.CanMkdir(ScriptsDir(dir)) {
        MkdirValid(s1, ScriptsDir(dir));
      }
    }
  }

  /** The writing constructor as a function of the state before it: make the
      directories, take the id from the directory's name, then write the root script. */
  function WriteJobSpec(st: FsState, j: Job, dir: Path): (FsState, Result<WrittenJob>)
  {
    var (s2, made) := MakeJobDirs(st, dir);
    if made.Fail? then (s2, Err(made.error))
    else
      var id := ParseInt(Last(dir));
      if id.None? then (s2, Err(NumberFormat))
      else if j.okScript.None? then (s2, Err(NullPointer))
      else
        var (files, r) := WriteSpec(s2.files, s2.dirs, j.okScript.value, RootScriptPath(dir));
        (FsState(files, s2.dirs), if r.Ok? then Ok(WrittenJob(r.value, id.value, dir)) else Err(r.error))
  }

  method WriteJob(fs: FileSystem, j: Job, dir: Path) returns (r: Result<WrittenJob>)
    requires fs.Valid()
    modifies fs
    ensures fs.Valid()
    ensures (fs.State(), r) == WriteJobSpec(old(fs.State()), j, dir)
  {
    if !fs.State().Exists(dir) {
      var made := fs.Mkdirs(dir);
      if !made {
        return Err(IllegalArgument);
      }
    }
    if !fs.State().Exists(ScriptsDir(dir)) {
      var made := fs.Mkdir(ScriptsDir(dir));
      if !made {
        return Err(IllegalArgument);
      }
    }
    var id := ParseInt(Last(dir));
    if id.None? {
      return Err(NumberFormat);
    }
    if j.okScript.None? {
      return Err(NullPointer);
    }
    var root := Write(fs, j.okScript.value, RootScriptPath(dir));
    if root.Err? {
      return Err(root.error);
    }
    r := Ok(WrittenJob(root.value, id.value, dir));
  }

  /** A successful write leaves the directory and its scripts directory in place, takes
      the id from the directory's name and stores the validated root script at
      scripts/script-o.sh, adding exactly that tree's files. */
  lemma WriteJobSucceeds(st: FsState, j: Job, dir: Path)
    requires st.Valid()
    ensures var (after, r) := WriteJobSpec(st, j, dir);
            r.Ok? ==>
              && ValidateJob(j).Pass? && ParseInt(Last(dir)).Some?
              && r.value == WrittenJob(Place(j.okScript.value, RootScriptPath(dir)), ParseInt(Last(dir)).value, dir)
              && after.IsDir(dir) && after.IsDir(ScriptsDir(dir))
              && after.files == st.files + Layout(r.value.okScript)
    ensures ParseInt(Last(dir)).None? ==> WriteJobSpec(st, j, dir).1.Err?
  {
    if WriteJobSpec(st, j, dir).1.Ok? {
      MakeJobDirsFacts(st, dir);
      WriteJobSteps(st, j, dir);
      var s2 := MakeJobDirs(st, dir).0;
      WrittenRoot(s2, j.okScript.value, dir);
      ValidateJobIff(j);
    }
  }

  /** Writing the root script into the job's scripts directory succeeds only for a
      valid tree and then overlays the placed tree's files; the scripts entry is then a
      directory. */
  lemma WrittenRoot(s2: FsState, script: Script, dir: Path)
    requires s2.Valid() && s2.Exists(ScriptsDir(dir))
    requires WriteSpec(s2.files, s2.dirs, script, RootScriptPath(dir)).1.Ok?
    ensures Validate(script).Pass? && s2.IsDir(ScriptsDir(dir))
    ensures WriteSpec(s2.files, s2.dirs, script, RootScriptPath(dir))
            == (s2.files + Layout(Place(script, RootScriptPath(dir))), Ok(Place(script, RootScriptPath(dir))))
  {
    var loc := RootScriptPath(dir);
    WriteSpecOk(s2.files, s2.dirs, script, loc);
    WriteSpecSucceeds(s2.files, s2.dirs, script, loc);
    assert NodeAt(script, []) == Some(script);
    assert Parent(loc) == ScriptsDir(dir);
  }

  /** The steps a successful job write went through. */
  lemma WriteJobSteps(st: FsState, j: Job, dir: Path)
    requires WriteJobSpec(st, j, dir).1.Ok?
    ensures var s2 := MakeJobDirs(st, dir).0;
            var (after, r) := WriteJobSpec(st, j, dir);
            && MakeJobDirs(st, dir).1.Pass? && ParseInt(Last(dir)).Some? && j.okScript.Some?
            && WriteSpec(s2.files, s2.dirs, j.okScript.value, RootScriptPath(dir)).1.Ok?
            && after == FsState(WriteSpec(s2.files, s2.dirs, j.okScript.value, RootScriptPath(dir)).0, s2.dirs)
            && r.value == WrittenJob(WriteSpec(s2.files, s2.dirs, j.okScript.value, RootScriptPath(dir)).1.value,
                                     ParseInt(Last(dir)).value, dir)
  {
  }

  /** Writing a job, even one that fails part way, leaves a valid file system valid. */
  lemma WriteJobValid(st: FsState, j: Job, dir: Path)
    requires st.Valid()
    ensures WriteJobSpec(st, j, dir).0.Valid()
  {
    MakeJobDirsFacts(st, dir);
    var s2 := MakeJobDirs(st, dir).0;
    if j.okScript.Some? {
      WriteSpecValid(s2.files, s2.dirs, j.okScript.value, RootScriptPath(dir));
    }
  }

  /** The reading constructor: the id from the directory's name, then the root script. */
  function ReadJob(st: FsState, dir: Path): (r: Result<WrittenJob>)
    ensures r.Ok? ==> Some(r.value.id) == ParseInt(Last(dir)) && r.value.directory == dir
    ensures r.Ok? ==> r.value.okScript.location == RootScriptPath(dir)
    ensures r.Err? ==> r.error == NumberFormat || r.error == IOFailure
  {
    var id := ParseInt(Last(dir));
    if id.None? then Err(NumberFormat)
    else
      var root :- Read(st, RootScriptPath(dir));
      Ok(WrittenJob(root, id.value, dir))
  }

  /** Writing a job into a directory with nothing stray beside its root script, then
      reading that directory, gives back the written job and the submitted script. */
  lemma WriteThenReadJob(st: FsState, j: Job, dir: Path)
    requires st.Valid()
    requires Fresh(st, RootScriptPath(dir))
    requires WriteJobSpec(st, j, dir).1.Ok?
    ensures var (after, r) := WriteJobSpec(st, j, dir);
            && ReadJob(after, dir) == r
            && Unwritten(r.value.okScript) == j.okScript.value
            && Some(r.value.id) == ParseInt(Last(dir))
  {
    var loc := RootScriptPath(dir);
    var (s2, made) := MakeJobDirs(st, dir);
    MakeJobDirsFacts(st, dir);
    forall w | IsPosition(w) && w != [] ensures !s2.Exists(PathAt(loc, w)) {
      assert |PathAt(loc, w)| == |loc|;
      assert !st.Exists(PathAt(loc, w));
    }
    WriteThenRead(s2, j.okScript.value, loc);
  }

  // ---------------------------------------------------------------------------------
  // WrittenJob.run: the run directory

  /** okScript.location.getParentFile().getParentFile() followed by runs/1: a location
      of fewer than two names has no grandparent object (a null dereference), and one of
      exactly two names has a null grandparent, which File(null, "runs/1") treats as
      relative to the working directory. */
  function RunsDir(location: Path): Option<Path>
  {
    if |location| < 2 then None else Some(location[..|location| - 2] + ["runs", "1"])
  }

  lemma RunsDirOfJob(dir: Path)
    ensures RunsDir(RootScriptPath(dir)) == Some(dir + ["runs", "1"])
  {
    assert RootScriptPath(dir)[..|dir|] == dir;
  }

  /** The part of run that prepares the directory: create runs/1 when absent, then empty
      it; the script itself then runs there. */
  function PrepareRunSpec(st: FsState, location: Path): (FsState, Result<Path>)
  {
    var runs := RunsDir(location);
    if runs.None? then (st, Err(NullPointer))
    else if !st.Exists(runs.value) && !st.CanMkdirs(runs.value) then (st, Err(IllegalArgument))
    else
      var s1 := if st.Exists(runs.value) then st else st.AfterMkdirs(runs.value);
      if !s1.CanClean(runs.value) then (s1, Err(IllegalArgument))
      else (s1.AfterClean(runs.value), Ok(runs.value))
  }

  method PrepareRun(fs: FileSystem, location: Path) returns (r: Result<Path>)
    requires fs.Valid()
    modifies fs
    ensures fs.Valid()
    ensures (fs.State(), r) == PrepareRunSpec(old(fs.State()), location)
  {
    var runs := RunsDir(location);
    if runs.None? {
      return Err(NullPointer);
    }
    if !fs.State().Exists(runs.value) {
      var made := fs.Mkdirs(runs.value);
      if !made {
        return Err(IllegalArgument);
      }
    }
    var cleaned := fs.Clean(runs.value);
    if !cleaned {
      return Err(IllegalArgument);
    }
    r := Ok(runs.value);
  }

  /** A run always targets runs/1 beside the scripts directory; once prepared, that is an
      existing empty directory, and no file or directory outside it was removed or
      changed. */
  lemma PrepareRunEmpties(st: FsState, location: Path)
    ensures var (after, r) := PrepareRunSpec(st, location);
            && (r.Ok? ==> Some(r.value) == RunsDir(location))
            && (r.Ok? ==> after.IsDir(r.value) && after.Children(r.value) == {})
            && (r.Ok? ==> forall p | p in after.files :: p in st.files && after.files[p] == st.files[p])
            && (r.Ok? ==> forall p | p in st.files && !IsBelow(p, r.value) :: p in after.files)
            && (r.Ok? ==> forall d | d in st.dirs && !IsBelow(d, r.value) :: d in after.dirs)
            && (r.Err? <==> |location| < 2 || (!st.IsDir(RunsDir(location).value) && (st.Exists(RunsDir(location).value) || !st.CanMkdirs(RunsDir(location).value))))
  {
    var (after, r) := PrepareRunSpec(st, location);
    if |location| >= 2 {
      var runs := RunsDir(location).value;
      assert runs[..|runs|] == runs;
    }
    if r.Ok? {
      var runs := r.value;
      assert after.Children(runs) == {};
    }
  }

  // ---------------------------------------------------------------------------------
  // WrittenJob.listStatuses and WrittenJob.status

  /** Dynamic.get(key): present only for a non-null value stored under `key` in a map. */
  function Get(d: Option<Json>, key: string): Option<Json>
  {
    if d.Some? && d.value.JObj? && key in d.value.fields && !d.value.fields[key].JNull?
    then Some(d.value.fields[key]) else None
  }

  /** The next record of the walk: the ok child's status when present, else the error
      child's. */
  function NextStatus(d: Option<Json>): Option<Json>
  {
    if Get(d, "okScriptStatus").Some? then Get(d, "okScriptStatus") else Get(d, "errorScriptStatus")
  }

  /** The records listStatuses collects from `d`: each has "started", and the walk stops
      at the first that has not. An absent value is below every present one, and a nested
      value below the map holding it, so the walk ends. */
  function Chain(d: Option<Json>): seq<map<string, Json>>
    decreases if d.Some? then 1 else 0, if d.Some? then d.value else JNull
  {
    if Get(d, "started").None? then [] else [d.value.fields] + Chain(NextStatus(d))
  }

  lemma {:induction false} ChainFacts(d: Option<Json>)
    ensures Chain(d) == [] <==> Get(d, "started").None?
    ensures Chain(d) != [] ==> Some(JObj(Chain(d)[0])) == d
    ensures forall i | 0 <= i < |Chain(d)| :: Get(Some(JObj(Chain(d)[i])), "started").Some?
    ensures forall i | 0 <= i < |Chain(d)| - 1 :: Some(JObj(Chain(d)[i + 1])) == NextStatus(Some(JObj(Chain(d)[i])))
    ensures Chain(d) != [] ==> Get(NextStatus(Some(JObj(Chain(d)[|Chain(d)| - 1]))), "started").None?
    decreases if d.Some? then 1 else 0, if d.Some? then d.value else JNull
  {
    if Get(d, "started").Some? {
      var next := NextStatus(d);
      ChainFacts(next);
      var c := Chain(d);
      assert c[1..] == Chain(next);
    }
  }

  method ListStatuses(root: map<string, Json>) returns (list: seq<map<string, Json>>)
    ensures list == Chain(Some(JObj(root)))
  {
    list := [];
    var status: Option<Json> := Some(JObj(root));
    while Get(status, "started").Some?
      invariant list + Chain(status) == Chain(Some(JObj(root)))
      decreases if status.Some? then 1 else 0, if status.Some? then status.value else JNull
    {
      list := list + [status.value.fields];
      status := NextStatus(status);
    }
  }

  /** Dynamic.asString(). */
  function AsString(j: Json): Result<string>
  {
    if j.JStr? then Ok(j.str) else Err(ConversionFailure)
  }

  /** convert().intoInteger(): a Java int, or a string that parses as one. */
  function IntoInteger(j: Json): Result<int>
  {
    if j.JInt? && IsInt(j.num) then Ok(j.num)
    else if j.JStr? && ParseInt(j.str).Some? then Ok(ParseInt(j.str).value)
    else Err(ConversionFailure)
  }

  /** The last record of the walk from the root status, if any. */
  function FinalStatus(root: map<string, Json>): Option<Json>
  {
    var c := Chain(Some(JObj(root)));
    if c == [] then None else Some(JObj(c[|c| - 1]))
  }

  /** A field of the summary converts as the summary needs it. */
  predicate Converts(d: Option<Json>, key: string)
  {
    Get(d, key).Some? ==> if key == "exitCode" then IntoInteger(Get(d, key).value).Ok? else AsString(Get(d, key).value).Ok?
  }

  /** The status of run `runId` given the root script's status map: the root status and
      the run id, "started" of the first record, "ended" and "exitCode" of the last. */
  method Status(root: map<string, Json>, runId: int) returns (r: Result<map<string, Json>>)
    ensures r == Err(NoSuchElement) <==> Get(Some(JObj(root)), "started").None?
    ensures r == Err(ConversionFailure) <==>
              && Get(Some(JObj(root)), "started").Some?
              && !(Converts(Some(JObj(root)), "started") && Converts(FinalStatus(root), "ended") && Converts(FinalStatus(root), "exitCode"))
    ensures r.Err? ==> r.error in {NoSuchElement, ConversionFailure}
    ensures r.Ok? ==> r.value.Keys <= {"okScriptStatus", "run", "started", "ended", "exitCode"}
    ensures r.Ok? ==> "okScriptStatus" in r.value && r.value["okScriptStatus"] == JObj(root)
    ensures r.Ok? ==> "run" in r.value && r.value["run"] == JInt(runId)
    ensures r.Ok? ==> "started" in r.value && Some(r.value["started"]) == Get(Some(JObj(root)), "started")
    ensures r.Ok? ==> ("ended" in r.value <==> Get(FinalStatus(root), "ended").Some?)
    ensures r.Ok? && "ended" in r.value ==> Some(r.value["ended"]) == Get(FinalStatus(root), "ended")
    ensures r.Ok? ==> ("exitCode" in r.value <==> Get(FinalStatus(root), "exitCode").Some?)
    ensures r.Ok? && "exitCode" in r.value ==>
              && r.value["exitCode"].JInt?
              && IntoInteger(Get(FinalStatus(root), "exitCode").value) == Ok(r.value["exitCode"].num)
  {
    var statuses := ListStatuses(root);
    ChainFacts(Some(JObj(root)));
    var status := map["okScriptStatus" := JObj(root), "run" := JInt(runId)];
    if |statuses| == 0 {
      return Err(NoSuchElement);
    }
    var first := Some(JObj(statuses[0]));
    var started := Get(first, "started");
    if started.Some? {
      var s := AsString(started.value);
      if s.Err? {
        return Err(s.error);
      }
      status := status["started" := JStr(s.value)];
    }
    var last := Some(JObj(statuses[|statuses| - 1]));
    var ended := Get(last, "ended");
    if ended.Some? {
      var s := AsString(ended.value);
      if s.Err? {
        return Err(s.error);
      }
      status := status["ended" := JStr(s.value)];
    }
    var exitCode := Get(last, "exitCode");
    if exitCode.Some? {
      var c := IntoInteger(exitCode.value);
      if c.Err? {
        return Err(c.error);
      }
      status := status["exitCode" := JInt(c.value)];
    }
    r := Ok(status);
  }
}
