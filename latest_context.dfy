/**
  `GET /latest-context`: resolve "context.txt" under the base directory, then
  answer 400 when that fails, 404 when the target is missing or not a regular
  file, 500 when reading it fails, and `{"context": text}` otherwise.

  The file system is a map from canonical paths to what lies there; reading a
  regular file either yields its text or fails with a message (an I/O or
  UTF-8 decoding error of the host).
 */
module LatestContext {
  import opened Paths
  import opened Resolver

  /** What `read_text(encoding="utf-8")` yields for a regular file. */
  datatype ReadOutcome = Text(text: string) | ReadFailed(message: string)

  /** What lies at a path: a regular file, or something else (a directory, a device, ...). */
  datatype Node = RegularFile(read: ReadOutcome) | NotRegular

  /** Paths that exist, and what they are. */
  type FileSystem = map<Path, Node>

  /** The JSON body `{"context": text}`, or an `HTTPException` with its status and detail. */
  datatype Response = Context(context: string) | HttpError(status: nat, detail: string)

  const ContextFileName: string := "context.txt"

  const FilesDirName: string := "files"

  /** The data directory's name is a plain name. */
  lemma FilesDirNameIsName()
    ensures IsName(FilesDirName)
  {
  }

  /** The fixed filename is a plain name. */
  lemma ContextFileNameIsName()
    ensures IsName(ContextFileName)
  {
  }

  /** `Path(__file__).resolve().parent.parent / "files"`. */
  function BaseDir(mainFile: Path, cwd: Path): (r: Path)
    requires WellFormed(mainFile) && Canonical(cwd)
    ensures Canonical(r)
    ensures r.parts != [] && r.parts[|r.parts| - 1] == FilesDirName
    ensures var m := Resolve(mainFile, cwd).parts;
      r == Path(true, m[..if |m| >= 2 then |m| - 2 else 0] + [FilesDirName])
  {
    var dir := Parent(Parent(Resolve(mainFile, cwd)));
    assert Canonical(dir);
    FilesDirNameIsName();
    ParseName(FilesDirName);
    var r := Join(dir, Parse(FilesDirName));
    assert r.parts == dir.parts + [FilesDirName];
    r
  }

  /** What the endpoint answers once resolution has produced `target`. */
  function Respond(target: Result<Path, ResolveError>, fs: FileSystem): (resp: Response)
    ensures resp.HttpError? ==> resp.status in {400, 404, 500}
    ensures resp == HttpError(400, "Invalid filename") <==> target.Err?
    ensures resp == HttpError(404, "File not found") <==> target.Ok? && (target.value !in fs || fs[target.value] == NotRegular)
    ensures resp.HttpError? && resp.status == 500 ==> target.Ok? && target.value in fs && fs[target.value].RegularFile? && fs[target.value].read.ReadFailed?
    ensures resp.Context? ==> target.Ok? && target.value in fs && fs[target.value] == RegularFile(Text(resp.context))
  {
    match target
    case Err(_) => HttpError(400, "Invalid filename")
    case Ok(path) =>
      if path !in fs || !fs[path].RegularFile? then HttpError(404, "File not found")
      else
        match fs[path].read
        case ReadFailed(e) => HttpError(500, "Failed to read file: " + e)
        case Text(t) => Context(t)
  }

  /** `get_latest_context()` with the base directory, working directory and a host file system. */
  function GetLatestContext(baseDir: Path, cwd: Path, baseResolves: bool, fs: FileSystem): (resp: Response)
    requires WellFormed(baseDir) && Canonical(cwd)
    ensures resp.HttpError? ==> resp.status in {400, 404, 500}
    ensures resp == HttpError(400, "Invalid filename") <==> SafeResolve(baseDir, ContextFileName, cwd, baseResolves).Err?
    ensures resp.Context? ==>
      var target := SafeResolve(baseDir, ContextFileName, cwd, baseResolves);
      target.Ok? && target.value in fs && fs[target.value] == RegularFile(Text(resp.context))
  {
    var target := SafeResolve(baseDir, ContextFileName, cwd, baseResolves);
    Respond(target, fs)
  }

  /**
    The endpoint looks only at the path that `_safe_resolve` returned: when
    resolution fails, the file system plays no part at all, and otherwise two
    file systems that agree at the resolved path give the same response.
   */
  lemma ReadsOnlyResolvedPath(baseDir: Path, cwd: Path, baseResolves: bool, fs1: FileSystem, fs2: FileSystem)
    requires WellFormed(baseDir) && Canonical(cwd)
    requires var target := SafeResolve(baseDir, ContextFileName, cwd, baseResolves);
      target.Ok? ==> ((target.value in fs1 <==> target.value in fs2)
        && (target.value in fs1 ==> fs1[target.value] == fs2[target.value]))
    ensures GetLatestContext(baseDir, cwd, baseResolves, fs1) == GetLatestContext(baseDir, cwd, baseResolves, fs2)
  {
    RespondReadsOnlyTarget(SafeResolve(baseDir, ContextFileName, cwd, baseResolves), fs1, fs2);
  }

  /** The response depends on the file system only at an accepted target. */
  lemma RespondReadsOnlyTarget(target: Result<Path, ResolveError>, fs1: FileSystem, fs2: FileSystem)
    requires target.Ok? ==> ((target.value in fs1 <==> target.value in fs2)
      && (target.value in fs1 ==> fs1[target.value] == fs2[target.value]))
    ensures Respond(target, fs1) == Respond(target, fs2)
  {
  }

  /**
    The four outcomes, each by its condition on the file kept at
    `base / "context.txt"`, for any base whose resolution succeeds or that is
    already canonical (so "context.txt" is accepted).
   */
  lemma Outcomes(baseDir: Path, cwd: Path, baseResolves: bool, fs: FileSystem)
    requires WellFormed(baseDir) && Canonical(cwd)
    requires baseResolves || Canonical(baseDir)
    ensures var target := Path(true, Resolve(baseDir, cwd).parts + [ContextFileName]);
      var resp := GetLatestContext(baseDir, cwd, baseResolves, fs);
      && (resp == HttpError(404, "File not found") <==> target !in fs || fs[target] == NotRegular)
      && (forall e :: resp == HttpError(500, "Failed to read file: " + e) <==> target in fs && fs[target] == RegularFile(ReadFailed(e)))
      && (forall t :: resp == Context(t) <==> target in fs && fs[target] == RegularFile(Text(t)))
  {
    ContextFileNameIsName();
    PlainNameAccepted(baseDir, ContextFileName, cwd, baseResolves);
    var target := Path(true, Resolve(baseDir, cwd).parts + [ContextFileName]);
    RespondOutcomes(target, fs);
  }

  /** Once "context.txt" is accepted as `target`, the response by what lies there. */
  lemma RespondOutcomes(target: Path, fs: FileSystem)
    ensures var resp := Respond(Ok(target), fs);
      && (forall e :: resp == HttpError(500, "Failed to read file: " + e) <==> target in fs && fs[target] == RegularFile(ReadFailed(e)))
      && (forall t :: resp == Context(t) <==> target in fs && fs[target] == RegularFile(Text(t)))
  {
    var resp := Respond(Ok(target), fs);
    var prefix := "Failed to read file: ";
    forall e ensures resp == HttpError(500, prefix + e) <==> target in fs && fs[target] == RegularFile(ReadFailed(e)) {
      if resp == HttpError(500, prefix + e) {
        var m := fs[target].read.message;
        assert prefix + m == prefix + e;
        assert m == (prefix + m)[|prefix|..];
        assert e == (prefix + e)[|prefix|..];
      }
    }
  }

  /**
    With the configured base directory (which is canonical), "context.txt"
    is always accepted, whether or not `base.resolve()` raised, so the
    endpoint never answers 400 and always consults `files/context.txt`.
   */
  lemma ConfiguredBaseNeverInvalid(mainFile: Path, cwd: Path, baseResolves: bool, fs: FileSystem)
    requires WellFormed(mainFile) && Canonical(cwd)
    ensures var b := BaseDir(mainFile, cwd);
      && SafeResolve(b, ContextFileName, cwd, baseResolves) == Ok(Path(true, b.parts + [ContextFileName]))
      && GetLatestContext(b, cwd, baseResolves, fs) != HttpError(400, "Invalid filename")
  {
    var b := BaseDir(mainFile, cwd);
    ContextFileNameIsName();
    PlainNameAccepted(b, ContextFileName, cwd, baseResolves);
  }
}
