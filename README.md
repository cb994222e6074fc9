# script-ci-api: job storage and numbering, modelled in Dafny

This project models the storage side of a small continuous-integration server. A job is
a tree of shell scripts. The root script runs first. Each script may have a follow-up to
run when it exits with status zero (its *ok* script) and one to run otherwise (its *error*
script). The server keeps everything in the file system, under `jobs/` in its working
directory:

- `jobs/<n>/scripts/script-o.sh` holds the root script of job `n`.
- A script stored at `name.sh` keeps its ok child in `nameo.sh` and its error child in
  `namee.sh`. The existence of those files is the only record that a child exists.
- A job's number is the largest number among the entry names of `jobs/`, plus one.
- Deleting job `n` renames `jobs/n` to `jobs/dn`.
- `jobs/single-job/` holds a single ad-hoc script. Its `status.json` records when the
  script started and, once the script has exited, when it ended and with which exit code.

The model has six modules:

- `Base`: option, result and outcome types, the JSON values the weakly typed maps hold,
  one error constructor per exception kind that escapes the modelled code, and
  `Overflow`, which has no counterpart in the source: it is the corrected job numbering's
  refusal where the source's int addition wraps (see "## Findings").
- `JavaInt`: `Integer.valueOf` and `Integer.toString` on 32-bit `int`s.
- `FileStore`: the part of the file system the server uses, as a value (`FsState`: a
  map of files to contents and a set of directories) and as a class (`FileSystem`) whose
  methods create directories (`mkdir`, `mkdirs`), write files, rename entries and empty
  directories. The conditions under which each call succeeds are spelled out.
- `Scripts` (`model/Script.java`): script trees, their validation, the child file names,
  the recursive write and read constructors, and their round trip.
- `Jobs` (`model/Job.java`): job validation, writing and reading a job directory, the
  preparation of the run directory, and the status summary built from a chain of nested
  status maps.
- `JobResource` (`resource/JobResource.java`): the latest job number, creating, listing,
  reading and deleting jobs, and the single job's save, run, complete and output
  sequence.

Each request that changes the file system is a `method` on `FileSystem` whose
postcondition ties the new state and the result to a specification function of the old
state. The lemmas state what the source promises about those functions.

Two consequences of the numbering are proved:

- Deleting the job with the highest number lets the next new job reuse that number
  (`JobResource.DeleteLatestReusesNumber`).
- Deleting the reused number then fails, because `jobs/dn` already exists and is not
  empty (`JobResource.DeleteAgainFails`).

## Model

| member | source | states |
|---|---|---|
| `Scripts.ValidateIffAllCode` | src/main/java/alexh/ci/model/Script.java:20-27 | validation passes exactly when every node of the tree has code; otherwise it fails with the 400 error "Missing Script#code" |
| `Scripts.ValidNodeHasCode` | src/main/java/alexh/ci/model/Script.java:20-27 | in a tree that validates, the node at any position has code |
| `Scripts.MissingCodeAt` | src/main/java/alexh/ci/model/Script.java:20-27 | a failing validation has a witness: a position whose node has no code |
| `Scripts.NodeAtIsPosition` | src/main/java/alexh/ci/model/Script.java:16-17 | every position that reaches a node is a word over the branch letters `o` and `e` |
| `Scripts.StripShLength` | src/main/java/alexh/ci/model/Script.java:61 | stripping a final ".sh" removes at most three characters |
| `Scripts.StripShOfSh` | src/main/java/alexh/ci/model/Script.java:61 | a name ending in ".sh" loses exactly that suffix |
| `Scripts.ChildNameOfSh` | src/main/java/alexh/ci/model/Script.java:60-66 | for a name ending in ".sh", both child names end in ".sh", are one character longer, and differ from each other and from the parent; they are the stem plus "o.sh" or "e.sh" |
| `Scripts.ChildNameOfOther` | src/main/java/alexh/ci/model/Script.java:60-66 | a name without a final ".sh" (nor ".sh" before a final line terminator, which Java's `$` also accepts) just gets "o.sh" or "e.sh" appended |
| `Scripts.ChildPathFacts` | src/main/java/alexh/ci/model/Script.java:60-66 | a child's file sits in the parent's directory, has the derived name, and is longer than the parent's |
| `Scripts.PathAtChild` | src/main/java/alexh/ci/model/Script.java:40-41 | the file of position `w` below a child is the file of the branch letter followed by `w` below the parent |
| `Scripts.PathAtInjective` | src/main/java/alexh/ci/model/Script.java:60-66 | distinct positions of a tree map to distinct files |
| `Scripts.Write` | src/main/java/alexh/ci/model/Script.java:37-46 | the write constructor: it writes the ok subtree, then the error subtree, then the node's own file; the directories stay the same and the files and result are those of the specification |
| `Scripts.WriteSpecSucceeds` | src/main/java/alexh/ci/model/Script.java:37-46 | when every node has code and every node's file can be opened, the write adds exactly the placed tree's files and returns that tree |
| `Scripts.WriteChildSucceeds` | src/main/java/alexh/ci/model/Script.java:40-41 | the same for an optional subtree; an absent one changes nothing |
| `Scripts.WriteSpecFails` | src/main/java/alexh/ci/model/Script.java:37-46 | a successful write implies that the tree validates and every node's file can be opened |
| `Scripts.WriteSpecOk` | src/main/java/alexh/ci/model/Script.java:37-46 | the write succeeds exactly when the tree validates and every node's file can be opened |
| `Scripts.WritableChild` | src/main/java/alexh/ci/model/Script.java:40-45 | a tree is writable exactly when its root file can be opened and each subtree is writable at its derived file |
| `Scripts.WriteSpecValid` | src/main/java/alexh/ci/model/Script.java:37-46 | a write, even one that fails part way, leaves a valid file system valid |
| `Scripts.PlaceAt` | src/main/java/alexh/ci/model/Script.java:37-42 | the returned tree has the input's shape; each node keeps its code and has its derived location |
| `Scripts.UnwrittenPlace` | src/main/java/alexh/ci/model/Script.java:37-42 | forgetting the locations of the returned tree gives back the submitted script |
| `Scripts.PositionLocation` | src/main/java/alexh/ci/model/Script.java:60-66 | every node's derived file is among the tree's locations |
| `Scripts.LocationPosition` | src/main/java/alexh/ci/model/Script.java:60-66 | every location of the tree is the derived file of some node |
| `Scripts.LayoutKeys` | src/main/java/alexh/ci/model/Script.java:40-45 | the files a successful write adds are exactly the tree's locations |
| `Scripts.LayoutAt` | src/main/java/alexh/ci/model/Script.java:43-45 | after the write, the file at each node's location holds that node's code |
| `Scripts.SameOutsideTrans` | src/main/java/alexh/ci/model/Script.java:40-45 | "changed only within a set of paths" composes over the successive steps of a write |
| `Scripts.WriteSpecFrame` | src/main/java/alexh/ci/model/Script.java:40-45 | whether it succeeds or not, a write creates or changes no file outside the tree's locations and removes none |
| `Scripts.WriteSpecOwnFile` | src/main/java/alexh/ci/model/Script.java:43-45 | the last step of a write touches at most the node's own file |
| `Scripts.ChildLonger` | src/main/java/alexh/ci/model/Script.java:53-56 | the read recursion terminates: an existing child has fewer longer-named siblings than its parent |
| `Scripts.Read` | src/main/java/alexh/ci/model/Script.java:48-58 | the read constructor: the code is the text at the location, and a child exists exactly when its derived file exists and then sits at that file; an unreadable file is an I/O failure |
| `Scripts.ReadPlaced` | src/main/java/alexh/ci/model/Script.java:48-58 | reading a stored tree with nothing stray beside it gives back the placed tree |
| `Scripts.WriteThenRead` | src/main/java/alexh/ci/model/Script.java:37-58 | round trip: writing a tree where no file exists at any derived descendant path, then reading it, gives back the written tree |
| `Scripts.StaleChildIsRead` | src/main/java/alexh/ci/model/Script.java:53-57 | without that freshness the round trip fails: a stale `so.sh` is read back as an ok child that was never written |
| `Scripts.HoldsChild` | src/main/java/alexh/ci/model/Script.java:53-57 | a stored tree with nothing stray restricts to each of its subtrees at the derived file |
| `Jobs.ValidateJobIff` | src/main/java/alexh/ci/model/Job.java:24-30 | a job validates exactly when it has a root script and every node of it has code; the error is "Missing Job#okScript" when the root is absent, else the script's error |
| `Jobs.MakeJobDirsFacts` | src/main/java/alexh/ci/model/Job.java:42-44 | creating the job directory and its scripts directory adds directories only, and on success both exist |
| `Jobs.WriteJob` | src/main/java/alexh/ci/model/Job.java:41-49 | the writing constructor on the file system, matching its specification |
| `Jobs.WriteJobSucceeds` | src/main/java/alexh/ci/model/Job.java:41-49 | on success the job validated, the id is the directory name's value, the root script is placed at scripts/script-o.sh, and exactly that tree's files are added; a non-numeric directory name fails |
| `Jobs.WrittenRoot` | src/main/java/alexh/ci/model/Job.java:48 | a successful root-script write overlays the placed tree's files and needs the scripts entry to be a directory |
| `Jobs.WriteJobSteps` | src/main/java/alexh/ci/model/Job.java:41-49 | a successful job write made the directories, parsed the id and wrote the root script, in that order |
| `Jobs.WriteJobValid` | src/main/java/alexh/ci/model/Job.java:41-49 | writing a job keeps a valid file system valid |
| `Jobs.ReadJob` | src/main/java/alexh/ci/model/Job.java:51-55 | the reading constructor: the id is the directory name's value and the root is read from scripts/script-o.sh; the failures are a bad number or an I/O failure |
| `Jobs.WriteThenReadJob` | src/main/java/alexh/ci/model/Job.java:41-55 | writing a job, then reading its directory, gives back the written job and the submitted script |
| `Jobs.RunsDirOfJob` | src/main/java/alexh/ci/model/Job.java:59 | a job's run directory is `<dir>/runs/1`, two levels above its root script |
| `Jobs.PrepareRun` | src/main/java/alexh/ci/model/Job.java:57-61 | the directory part of `run` on the file system, matching its specification |
| `Jobs.PrepareRunEmpties` | src/main/java/alexh/ci/model/Job.java:59-61 | once prepared, runs/1 exists and is empty; no file outside it is changed or removed; preparation fails exactly when the location is too short or runs/1 is neither a directory nor creatable |
| `Jobs.ChainFacts` | src/main/java/alexh/ci/model/Job.java:83-94 | every collected record has "started"; each next record is the ok child's status when present, else the error child's; the walk stops at the first record without "started" and is empty exactly when the root lacks it |
| `Jobs.ListStatuses` | src/main/java/alexh/ci/model/Job.java:83-94 | the loop collects exactly that chain |
| `Jobs.Status` | src/main/java/alexh/ci/model/Job.java:65-81 | the summary always has the root status and the run id; "started" comes from the first record, "ended" and "exitCode" from the last, each only when present; an empty chain fails with NoSuchElement and a badly typed field with a conversion failure |
| `JavaInt.ParseInt` | src/main/java/alexh/ci/model/Job.java:47 | a parsed value is a 32-bit int and the text starts with a digit or a sign |
| `JavaInt.DigitsParse` | src/main/java/alexh/ci/resource/JobResource.java:82 | the decimal digits of a natural number read back as that number |
| `JavaInt.ParseToString` | src/main/java/alexh/ci/resource/JobResource.java:82 | the directory name of an int parses back to that int |
| `JavaInt.ToStringInjective` | src/main/java/alexh/ci/resource/JobResource.java:82 | distinct numbers name distinct directories |
| `JobResource.MaxParsed` | src/main/java/alexh/ci/resource/JobResource.java:95-98 | the maximum exists exactly when some name parses; it is one of the parsed values and bounds all of them |
| `JobResource.LatestIn` | src/main/java/alexh/ci/resource/JobResource.java:95-99 | the result is the largest parsed name, or 0 when none parses, and is an int |
| `JobResource.IsLatestUnique` | src/main/java/alexh/ci/resource/JobResource.java:95-99 | that characterisation determines the result, so the latest number is independent of listing order |
| `JobResource.LatestJobNumber` | src/main/java/alexh/ci/resource/JobResource.java:91-100 | latestJobNumber on the file system, matching its specification |
| `JobResource.LatestSpecFacts` | src/main/java/alexh/ci/resource/JobResource.java:91-100 | jobs/ is created when absent and nothing else changes; it fails only when jobs/ is not a directory, and otherwise answers the latest number of its entries |
| `JobResource.NextJobNumberWraps` | src/main/java/alexh/ci/resource/JobResource.java:81 | with an entry named 2147483647, `latest + 1` as written wraps to -2147483648 |
| `JobResource.NextJobNumberAgrees` | src/main/java/alexh/ci/resource/JobResource.java:81 | below the largest int, the corrected next number equals `latest + 1` |
| `JobResource.NextJobNumberFresh` | src/main/java/alexh/ci/resource/JobResource.java:81-83 | the next number is above every numbered entry, so its name is not an entry of jobs/ |
| `JobResource.NewJob` | src/main/java/alexh/ci/resource/JobResource.java:73-89 | newJob on the file system with the corrected job number (see "## Findings"), matching its specification; an invalid job changes nothing |
| `JobResource.NewJobDirFresh` | src/main/java/alexh/ci/resource/JobResource.java:81-83 | the allocated directory does not exist, and nothing lies inside it once created |
| `JobResource.WriteIntoEmptyDir` | src/main/java/alexh/ci/resource/JobResource.java:86 | a valid job written into an empty directory with a numeric name succeeds, with no stray file beside its root script |
| `JobResource.NewJobSucceeds` | src/main/java/alexh/ci/resource/JobResource.java:75-89 | the corrected newJob succeeds exactly when the job is valid, jobs/ is not a file and the latest number is below the largest int; it then answers latest + 1, whose directory did not exist before and now holds the submitted job, read back with that id. Below the largest int this is newJob as written (`JobResource.NewJobAsWrittenAgrees`) |
| `JobResource.NewJobAsWrittenAgrees` | src/main/java/alexh/ci/resource/JobResource.java:75-88 | while the latest number is below the largest int, newJob as written, with its wrapping `latest + 1`, makes the same changes and gives the same answer as the corrected newJob |
| `JobResource.NewJobAsWrittenWraps` | src/main/java/alexh/ci/resource/JobResource.java:75-88 | when the latest number is 2147483647, newJob as written creates jobs/-2147483648 and answers -2147483648, which does not become the latest number; once that directory exists it fails with an illegal argument; the corrected newJob refuses with `Overflow` |
| `JobResource.WrapDirFresh` | src/main/java/alexh/ci/resource/JobResource.java:81-83 | when jobs/-2147483648 is absent, mkdirs can create it, empty, and its name parses back to the smallest int |
| `JobResource.WrapKeepsLatest` | src/main/java/alexh/ci/resource/JobResource.java:91-100 | a jobs/ that keeps every entry of one whose latest number is 2147483647 still has that latest number |
| `JobResource.NewJobState` | src/main/java/alexh/ci/resource/JobResource.java:81-86 | a successful newJob leaves the state of writing the job into its freshly made directory |
| `JobResource.WriteJobEntries` | src/main/java/alexh/ci/resource/JobResource.java:86 | writing a job into an existing directory adds entries only inside it |
| `JobResource.JobsChildrenAfter` | src/main/java/alexh/ci/resource/JobResource.java:83-86 | the only new name in jobs/ is the new job's |
| `JobResource.WrittenJobIsLatest` | src/main/java/alexh/ci/resource/JobResource.java:81-86 | the new job's number becomes the latest number of jobs/ |
| `JobResource.NumberedDirIsLatest` | src/main/java/alexh/ci/resource/JobResource.java:95-99 | adding only the directory of the number above the latest makes it the latest |
| `JobResource.LatestWithNewName` | src/main/java/alexh/ci/resource/JobResource.java:95-99 | the same on the entry names |
| `JobResource.NewJobBecomesLatest` | src/main/java/alexh/ci/resource/JobResource.java:73-100 | after newJob, latestJobNumber answers the number newJob returned |
| `JobResource.NewJobValid` | src/main/java/alexh/ci/resource/JobResource.java:73-89 | newJob, whatever its outcome, keeps a valid file system valid |
| `JobResource.NewJobKeeps` | src/main/java/alexh/ci/resource/JobResource.java:73-89 | a successful newJob removes no file or directory |
| `JobResource.JobByIdFacts` | src/main/java/alexh/ci/resource/JobResource.java:104-107 | NotFound exactly when the directory is missing; a job found has that id and directory |
| `JobResource.IdsCons` | src/main/java/alexh/ci/resource/JobResource.java:46-50 | the ids of a listing are its head's id and the ids of the rest |
| `JobResource.ExistingIdsStep` | src/main/java/alexh/ci/resource/JobResource.java:46-48 | the existing ids from `i` are those from `i + 1`, plus `i` when jobs/i exists |
| `JobResource.ListFromStep` | src/main/java/alexh/ci/resource/JobResource.java:46-50 | one step of the listing: skip a missing directory, otherwise read it and list the rest |
| `JobResource.ListFromHead` | src/main/java/alexh/ci/resource/JobResource.java:46-50 | a listing that starts at an existing directory starts with that job, as job(id) answers it |
| `JobResource.ListFromIds` | src/main/java/alexh/ci/resource/JobResource.java:44-51 | the listing holds exactly the ids in range whose directory exists |
| `JobResource.ListFromElement` | src/main/java/alexh/ci/resource/JobResource.java:44-51 | each listed job is what job(id) answers for its id |
| `JobResource.ListFromIdBound` | src/main/java/alexh/ci/resource/JobResource.java:46 | every listed id lies in the range listed |
| `JobResource.ListFromAscending` | src/main/java/alexh/ci/resource/JobResource.java:44-51 | the listing is in strictly ascending id order |
| `JobResource.ListFromErr` | src/main/java/alexh/ci/resource/JobResource.java:44-51 | the listing fails exactly when some existing directory in range fails to read, and with that read's error |
| `JobResource.ListJobs` | src/main/java/alexh/ci/resource/JobResource.java:44-51 | jobs() on the file system, matching its specification |
| `JobResource.JobsListsExisting` | src/main/java/alexh/ci/resource/JobResource.java:44-51 | a successful jobs() lists exactly the existing jobs 1..latest, each as job(id) answers it, in ascending order |
| `JobResource.DeleteJob` | src/main/java/alexh/ci/resource/JobResource.java:110-116 | deleteJob on the file system, matching its specification |
| `JobResource.DeletedNameDiffers` | src/main/java/alexh/ci/resource/JobResource.java:115 | the deleted name differs from the job's name, neither path contains the other, and the deleted name does not parse as a number |
| `JobResource.DeleteJobFails` | src/main/java/alexh/ci/resource/JobResource.java:112-115 | NotFound exactly when the job is missing; IllegalArgument exactly when it exists but the rename is refused; a failure changes nothing |
| `JobResource.DeleteJobMoves` | src/main/java/alexh/ci/resource/JobResource.java:112-115 | after a delete the job's directory is gone, the deleted directory exists, and job(id) answers NotFound |
| `JobResource.DeleteJobRenames` | src/main/java/alexh/ci/resource/JobResource.java:115 | in the entries of jobs/, the job's name is replaced by its deleted name |
| `JobResource.DeleteLatestLowersLatest` | src/main/java/alexh/ci/resource/JobResource.java:95-115 | deleting the latest job keeps the file system valid and lowers the latest number, to id - 1 when that job exists |
| `JobResource.LatestOfRenamed` | src/main/java/alexh/ci/resource/JobResource.java:95-99 | the latest number over the renamed entries of jobs/ is below id, and is id - 1 when that name is present |
| `JobResource.LatestAfterRemoval` | src/main/java/alexh/ci/resource/JobResource.java:95-99 | the same on the entry names |
| `JobResource.DeleteLatestReusesNumber` | src/main/java/alexh/ci/resource/JobResource.java:81-115 | after deleting the latest job, the next new job gets the deleted job's number |
| `JobResource.NextNewJob` | src/main/java/alexh/ci/resource/JobResource.java:75-88 | a valid job submitted when the latest number is `n` gets `n + 1` |
| `JobResource.DeletedDirNonEmpty` | src/main/java/alexh/ci/resource/JobResource.java:115 | the deleted directory of a job holds an entry |
| `JobResource.DeleteAgainFails` | src/main/java/alexh/ci/resource/JobResource.java:110-116 | deleting the latest job, reusing its number, then deleting that new job fails with IllegalArgument and changes nothing |
| `JobResource.FirstLine` | src/main/java/alexh/ci/ScriptRunner.java:19-20 | the script's first line is null exactly for an empty script; otherwise it is the prefix before the first line terminator |
| `JobResource.StripShebangFacts` | src/main/java/alexh/ci/ScriptRunner.java:21 | a leading "#!" is removed once, and a header without one is kept whole |
| `JobResource.FirstLineOfLine` | src/main/java/alexh/ci/ScriptRunner.java:20 | the first line of a text is everything before its first line terminator |
| `JobResource.RunnerCommand` | src/main/java/alexh/ci/ScriptRunner.java:18-22 | an unreadable script is an I/O failure and an empty one a null dereference; otherwise the interpreter is the script's first line, without its leading "#!", and holds no line terminator |
| `JobResource.ShebangNamesInterpreter` | src/main/java/alexh/ci/ScriptRunner.java:18-22 | a script starting with "#!" and a program name runs under that program |
| `JobResource.StatusRecord.constructor` | src/main/java/alexh/ci/resource/JobResource.java:133 | a new status map is empty |
| `JobResource.StatusRecord.Append` | src/main/java/alexh/ci/resource/JobResource.java:133 | append sets one key in place and keeps the others |
| `JobResource.SaveAndRunSingleScript` | src/main/java/alexh/ci/resource/JobResource.java:118-147 | the request on the file system, matching its specification; on success it hands back the status map, holding only "started" |
| `JobResource.CompleteSingleScript` | src/main/java/alexh/ci/resource/JobResource.java:141-144 | on completion the status map gains "ended" and "exitCode", and the status file is rewritten from it |
| `JobResource.SinglePaths` | src/main/java/alexh/ci/resource/JobResource.java:121-159 | how the single-job files sit under jobs/single-job |
| `JobResource.SaveAndRunSteps` | src/main/java/alexh/ci/resource/JobResource.java:121-134 | a request that reaches the runner created the directories, stored the script and then wrote the status file |
| `JobResource.SaveAndRunStores` | src/main/java/alexh/ci/resource/JobResource.java:120-136 | whenever the request reaches the runner, the script reads back unchanged and the status file holds only "started"; the request fails there with a null dereference exactly for an empty script, and otherwise runs the first line's interpreter |
| `JobResource.SaveAndRunKeepsStatus` | src/main/java/alexh/ci/resource/JobResource.java:120-134 | the request keeps the file system valid, fails only with IllegalArgument, an I/O failure or a null dereference, and a failure before the status write leaves the previous status file as it was |
| `JobResource.SaveAndRunFromReady` | src/main/java/alexh/ci/resource/JobResource.java:120-136 | where the scripts directory exists and neither the script's nor the status file's location is a directory, the request succeeds exactly for a non-empty script |
| `JobResource.SaveAndRunFirstTime` | src/main/java/alexh/ci/resource/JobResource.java:120-136 | the first request, with nothing under jobs/single-job, succeeds exactly for a non-empty script |
| `JobResource.CompleteFacts` | src/main/java/alexh/ci/resource/JobResource.java:142-154 | completion rewrites the status file with "ended" and "exitCode" added, keeps the log, and a failed write changes nothing |
| `JobResource.SingleScript` | src/main/java/alexh/ci/resource/JobResource.java:166-172 | singleScript answers exactly when the script file holds text, with that text as its only entry "script"; otherwise it is an I/O failure |
| `JobResource.SingleJobOutputEmpty` | src/main/java/alexh/ci/resource/JobResource.java:158-165 | singleJobOutput is the empty map exactly while no status file exists |
| `JobResource.TwoPhaseOutput` | src/main/java/alexh/ci/resource/JobResource.java:133-164 | while the script runs, the output is "started" plus the log; once completed, it is "started", "ended", "exitCode" (the exit code) and the log |

## Left out

- Process execution: the spawning of the script, the reading of its output into
  `out.log`, and the asynchronous completion. The exit code, the log text and the
  file-system state when the script exits are parameters of the completion lemmas.
- The `synchronized` blocks: each request is one atomic step. Interleavings of
  concurrent requests are not modelled.
- Timestamps from `Instant.now()` are opaque strings supplied by the caller.
- JSON encoding: a file written by the object mapper holds a `Document` value. A status
  file that holds plain text is reported as an I/O failure rather than parsed.
- `Scripts.Read`: a script path holding a `Document` value reads as an I/O failure,
  whereas `Files.toString` would return that document's JSON text, because the
  encoding of documents as text is not modelled.
- Character encodings of `PrintWriter` and `Files.toString`: file contents are strings.
- Path normalisation of `java.io.File`, and absolute paths: paths are lists of names
  relative to the working directory.
- The HTTP mapping of exceptions to response codes: each exception kind is a constructor
  of `Base.Error`.
- The HTTP layer itself, the application wiring and the version resource.
- `WrittenScript.run` and `WrittenScript.status` are not part of this model: they are
  called from Job.java, but Script.java does not define them. `Jobs.Status` takes the
  root status map as input, and `Jobs.PrepareRun` stops where the script would run.
- `Jobs.Status`: the exit code's `convert().intoInteger()` is approximated by
  `Jobs.IntoInteger`, which accepts an int or a string that parses as one. The weakly
  typed converter is not part of this model: any other shape it would accept is
  reported as a conversion failure.
- `JobResource.NewJob`, `JobResource.NewJobSucceeds`: state the corrected newJob, which
  refuses with `Overflow` when the latest number is 2147483647. The program as written
  wraps to -2147483648 there; `JobResource.NewJobSpecAsWritten`,
  `JobResource.NewJobAsWrittenAgrees` and `JobResource.NewJobAsWrittenWraps` state that
  behaviour.
- `JobResource.SingleJobOutput`: `out.log` holding a JSON document is reported as an
  I/O failure, because the text the runner would have written is not modelled.
- `JobResource.DeleteLatestLowersLatest`, `JobResource.DeleteLatestReusesNumber`,
  `JobResource.DeleteAgainFails`, `JobResource.LatestOfRenamed` and
  `JobResource.LatestAfterRemoval` assume that the only entry of jobs/ that parses to the
  deleted number is its canonical name. `Integer.valueOf` also accepts names such as
  "05" or "+5", which would keep the number counted after the rename.
- `JavaInt.ParseInt`: accepts ASCII digits only. `Integer.valueOf` also accepts other
  Unicode decimal digits.
- `JavaInt.ParseInt`: models "parses as an int" for both `Integer.valueOf` and the
  name filter of latestJobNumber. The weakly typed converter used by that filter is not
  part of this model.

## Findings

| source | as written | input that shows it | evidently intended | confidence | as-written member | corrected member |
|---|---|---|---|---|---|---|
| src/main/java/alexh/ci/resource/JobResource.java:81 | the new job number is `latestJobNumber() + 1` in `int` arithmetic, which wraps around | a `jobs/` directory with an entry named `2147483647`: the next number is -2147483648, which is below every existing number | a number above every existing job, or an error when none fits in an int | not executed | `JobResource.NextJobNumberAsWritten`, `JobResource.NextJobNumberWraps`, `JobResource.NewJobAsWrittenWraps` | `JobResource.NextJobNumber`, `JobResource.NextJobNumberFresh` |
