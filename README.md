# reachy-mini-server: path-containment check and latest-context endpoint

This project models the read side of the reachy-mini-server web service,
in `app/main.py`:

- `_safe_resolve(base, filename)` joins a filename onto a base directory and
  canonicalises the result. It returns that path only when the path is the
  canonical base or lies beneath it. In every other case it raises
  `ValueError("invalid filename")`.
- `GET /latest-context` resolves `"context.txt"` under the configured `files`
  directory. It answers 400 when resolution fails, 404 when the target is
  missing or is not a regular file, 500 when reading it fails, and
  `{"context": text}` otherwise.

Modules:

- `Paths` (`paths.dfy`): POSIX `pathlib` paths as values. A `Path` is a root
  flag plus its component list. The module covers parsing a string (empty and
  `"."` components vanish, `".."` is kept), the string form, the `/` operator
  (an absolute right operand replaces the left one) and `parent`.
- `Resolver` (`resolver.dfy`): lexical canonicalisation. A relative path is
  made absolute against a working directory. Then `"."` and `""` are dropped,
  and `".."` pops the last component but stops at the root. The module also
  models `parents` and `_safe_resolve` itself.
- `LatestContext` (`latest_context.dfy`): the endpoint, as a pure function over
  an abstract file system. The file system maps canonical paths to a regular
  file (whose read gives text or fails with a message) or to something that is
  not a regular file.

Inputs that stand for the host:

- `cwd` is `os.getcwd()`, used when a relative path is resolved.
- `baseResolves` says whether `base.resolve()` returned or raised. When it
  raised, the source compares against the unresolved base, and so does the
  model.
- `mainFile` is `Path(__file__)`, from which `BASE_DIR` is derived.
- `fs` is the file system.

When `files/context.txt` is absent, the endpoint answers 404
`"File not found"` (app/main.py:39-40). In that case it does not fall back
to an empty context. An existing empty `context.txt` still gives
`{"context": ""}`.

## Model

| member | source | states |
|---|---|---|
| `Paths.Parse` | app/main.py:15 | Parsing a filename gives a well-formed path: every component is non-empty, not `"."` and free of `/`. The path is absolute exactly when the string starts with `/`. |
| `Paths.ParseFormat` | app/main.py:15 | Parsing the string form of any well-formed path gives back that path (`"/"` and `"."` included). |
| `Paths.JoinSplit` | app/main.py:15 | Joining the pieces of `s.split("/")` with `/` gives back `s`. |
| `Paths.SplitJoin` | app/main.py:15 | Splitting a `/`-join of separator-free pieces gives back the pieces. |
| `Paths.ParseName` | app/main.py:35 | A plain name such as `"context.txt"` parses to a relative path with that one component. |
| `Paths.ParseParentName` | app/main.py:11-13 | `"../" + x` parses to the two components `".."` and `x`. |
| `Paths.Join` | app/main.py:15 | `base / name` keeps well-formedness. An absolute `name` replaces `base`. Otherwise the result has `base`'s root, begins with `base`'s components and ends with `name`'s. |
| `Paths.Parent` | app/main.py:7 | `parent` keeps the root and drops exactly the last component. `"/"` and `"."` are their own parents. |
| `Resolver.Normalize` | app/main.py:15 | Normalisation never lengthens the list. Every component it keeps is plain (not `""`, `"."` or `".."`) and comes from the input. |
| `Resolver.NormalizePlain` | app/main.py:15 | A list of plain components is left unchanged. |
| `Resolver.NormalizeIdempotent` | app/main.py:15 | Normalising twice is the same as normalising once. |
| `Resolver.Resolve` | app/main.py:15-17 | `resolve()` always yields a canonical path: absolute, with no `"."` or `".."`. A path that is already canonical resolves to itself. |
| `Resolver.ResolveIdempotent` | app/main.py:17 | Resolving a resolved path changes nothing. |
| `Resolver.Parents` | app/main.py:20 | `parents` has one entry per component. Entry `k` is the path with its last `k + 1` components dropped, keeping the root. |
| `Resolver.InParents` | app/main.py:20 | `b in c.parents` holds exactly when `b` has `c`'s root and its components are a strict prefix of `c`'s (both directions). |
| `Resolver.SafeResolve` | app/main.py:10-22 | The result is `Ok` exactly when the resolved base equals the canonical join or is a proper ancestor of it (both directions). What is returned is the canonical join, not the raw one. Otherwise the result is `InvalidFilename`. |
| `Resolver.SafeResolveContained` | app/main.py:20-21 | An accepted path is absolute. It is the resolved base followed by plain names only, so nothing accepted escapes the base. |
| `Resolver.PlainNameAccepted` | app/main.py:15-21 | A plain name is always accepted and resolves to the resolved base followed by that name. This holds whenever base resolution succeeds or the base is already canonical. |
| `Resolver.DotIsBase` | app/main.py:20 | When `base.resolve()` succeeds, `"."` (and `""`) resolve to the base itself and are accepted through the equality branch. |
| `Resolver.ParentTraversal` | app/main.py:11-22 | When `base.resolve()` succeeds, `"../" + x` is accepted exactly when the resolved base is `/` or its last component is `x`, so that climbing out lands back inside (both directions). |
| `Resolver.TraversalRejected` | tests/test_read_file.py:21-24 | When `base.resolve()` succeeds, `"../requirements.txt"` and every other `"../" + x` is rejected from a base that is not `/` and whose last component is not `x`. |
| `Resolver.ParentRejected` | app/main.py:20-22 | When `base.resolve()` succeeds, `".."` is accepted exactly when the resolved base is `/`. |
| `Resolver.AbsoluteFilename` | app/main.py:15-21 | For an absolute filename the candidate does not depend on the base. It is accepted exactly when it lies under the resolved base. |
| `Resolver.UnresolvedRelativeBaseRejects` | app/main.py:16-22 | If resolving a relative base raised, every filename is rejected, because an absolute candidate never equals, or lies under, a relative path. |
| `Resolver.CanonicalBaseFallback` | app/main.py:16-19 | For a canonical base, the fallback after a failed `base.resolve()` gives the same result as a successful resolution. |
| `Resolver.RelativeCandidate` | app/main.py:15 | For a relative filename, the candidate is the normalised absolute base followed by the filename's components. |
| `Resolver.CandidateParentName` | app/main.py:15 | The candidate for `"../" + x` is the resolved base without its last component, followed by `x`. |
| `Resolver.Candidate` | app/main.py:15 | `(base / filename).resolve()` is always a canonical path. |
| `Resolver.BaseResolved` | app/main.py:16-19 | The compared base is `base` itself when `base.resolve()` raised. It is canonical when resolution succeeded, or when the base was canonical already, and a canonical base is compared as it is in either branch. |
| `LatestContext.BaseDir` | app/main.py:7 | `BASE_DIR` is the resolved main file with its last two components dropped (fewer near the root), followed by `files`. It is canonical and ends in `files`. |
| `LatestContext.GetLatestContext` | app/main.py:25-47 | The only error statuses are 400, 404 and 500. 400 `"Invalid filename"` comes exactly when `_safe_resolve` rejected `"context.txt"`. `{"context": t}` means the resolved path is a regular file that reads as `t`. The per-outcome conditions are in `Outcomes`, and the file-system independence is in `ReadsOnlyResolvedPath`. |
| `LatestContext.Respond` | app/main.py:36-47 | The only error statuses are 400, 404 and 500; the `{"context": t}` answer is a 200. 400 is returned exactly when resolution failed. 404 is returned exactly when the target is absent or not a regular file. A 500 means the read failed. `{"context": t}` means the target is a regular file whose contents read as exactly `t`. |
| `LatestContext.RespondReadsOnlyTarget` | app/main.py:34-47 | The response depends on the file system only at an accepted target. |
| `LatestContext.ReadsOnlyResolvedPath` | app/main.py:34-47 | The endpoint never reads a path `_safe_resolve` rejected. After a rejection the file system plays no part. Otherwise two file systems that agree at the resolved path give the same response. |
| `LatestContext.RespondOutcomes` | app/main.py:42-47 | For an accepted target: a 500 carries exactly the read error's message, and `{"context": t}` comes exactly from a file reading as `t` (both directions). |
| `LatestContext.Outcomes` | app/main.py:34-47 | For a base that resolves (or is canonical), the response is decided entirely by the file at `base/context.txt`: 404, 500 with the error message, or exactly what reading it yields (both directions). |
| `LatestContext.ConfiguredBaseNeverInvalid` | app/main.py:7-37 | With `BASE_DIR` as configured, `"context.txt"` is always accepted as `files/context.txt`, whether or not `base.resolve()` raised. So, absent symbolic links, the endpoint never answers 400. |

## Left out

- Symbolic links: `Path.resolve()` follows them on the host. The model canonicalises lexically, and says nothing about a link that points out of the base.
- The contents of `base.resolve()`'s exception fallback are host behaviour. The model keeps only the outcome, as the input `baseResolves`.
- POSIX's special double leading slash (`//x`, which `pathlib` keeps as a root of its own) is parsed as a single root.
- Filenames with an embedded NUL byte: `resolve()` raises `ValueError("embedded null byte")` at app/main.py:15. A caller cannot tell that from the rejection at line 22, so the endpoint's `except ValueError` would answer 400. The model does not represent this and accepts such a name like any other. The endpoint itself only ever passes `"context.txt"`.
- Reading and UTF-8 decoding are lookups in the abstract file system. A read outcome carries the text or the error message.
- `exists()` and `is_file()` are read off the same map, as "present" and "a regular file". An OS error raised by either call (which the framework would turn into a 500) is not modelled. Races between these checks and the read are not modelled either.
- Resolving the candidate, `(base / filename).resolve()`, is modelled as total. In the source it can raise first. A symlink loop (on Python versions that raise for loops) or a failing `os.getcwd()` for a relative base gives an `OSError`, not a `ValueError`, so the framework answers 500. A NUL byte gives a `ValueError` instead (see above). The fallback lemmas (`UnresolvedRelativeBaseRejects`, `CanonicalBaseFallback`) cover only the case where the candidate resolves but the base does not.
- In the source, a 400 from the endpoint needs `files/context.txt` itself to be a symbolic link whose target lies outside the directory that `files` resolves to. A link at `files` is followed by `base.resolve()` at line 17 as well, so the candidate stays beneath it. Anything that makes line 17 raise on `files` makes line 15 raise first, which gives a 500. Because symbolic links are left out, `ConfiguredBaseNeverInvalid` rules out 400 altogether.
- `Text(t)` is what `read_text` yields, including its newline translation. It is not the raw bytes.
- FastAPI routing, the `HTTPException` plumbing beyond status and detail, and the `uvicorn` startup block are framework glue.
- The `/files/{name}` endpoint that tests/test_read_file.py exercises does not exist in app/main.py. Only its traversal case is used, as the intent behind `TraversalRejected`.
- The webhook receiver, text cleaning, payload-shape extraction, attachment ingestion and the context write path are not part of this model: their code is not among the source files.
