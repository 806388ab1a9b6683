/**
  `_safe_resolve(base, filename)`: join the filename onto the base directory,
  canonicalise the result, and accept it only when it is the canonical base or
  lies beneath it; otherwise fail with `ValueError("invalid filename")`.

  Canonicalisation is lexical: a relative path is made absolute against the
  working directory `cwd`, and "." and ".." are removed, ".." stopping at the
  root. Whether `base.resolve()` itself succeeds is the input `baseResolves`;
  when it does not, the unresolved base is compared.
 */
module Resolver {
  import opened Paths

  datatype Result<T, E> = Ok(value: T) | Err(error: E)

  /** The only failure of `_safe_resolve`: `ValueError("invalid filename")`. */
  datatype ResolveError = InvalidFilename

  /**
    Neither empty, nor ".", nor "..": a component normalisation keeps as it is.
    This is `IsName` without "no separator": normalisation only looks at the
    special components, and `Resolve` adds the separator condition from the
    well-formedness of its input.
   */
  predicate Plain(s: string) {
    s != "" && s != "." && s != ".."
  }

  /**
    Lexical normalisation of the components after the root, left to right:
    "" and "." vanish, ".." removes the previous kept component or, at the
    root, nothing, and every other component is kept.
   */
  function Normalize(parts: seq<string>): (r: seq<string>)
    ensures |r| <= |parts|
    ensures forall i :: 0 <= i < |r| ==> Plain(r[i]) && r[i] in parts
    decreases |parts|
  {
    if parts == [] then []
    else
      var init := Normalize(parts[..|parts| - 1]);
      var last := parts[|parts| - 1];
      assert forall x :: x in parts[..|parts| - 1] ==> x in parts;
      if last == "" || last == "." then init
      else if last == ".." then (if init == [] then [] else init[..|init| - 1])
      else init + [last]
  }

  /** Normalisation leaves a sequence of plain components unchanged. */
  lemma {:induction false} NormalizePlain(parts: seq<string>)
    requires forall i :: 0 <= i < |parts| ==> Plain(parts[i])
    ensures Normalize(parts) == parts
    decreases |parts|
  {
    if parts != [] {
      NormalizePlain(parts[..|parts| - 1]);
      assert parts == parts[..|parts| - 1] + [parts[|parts| - 1]];
    }
  }

  /** Normalisation is idempotent. */
  lemma NormalizeIdempotent(parts: seq<string>)
    ensures Normalize(Normalize(parts)) == Normalize(parts)
  {
    NormalizePlain(Normalize(parts));
  }

  /** A plain component appended after normalisation stays at the end. */
  lemma NormalizeAppendPlain(a: seq<string>, x: string)
    requires Plain(x)
    ensures Normalize(a + [x]) == Normalize(a) + [x]
  {
  }

  /** An appended ".." drops the last normalised component, if any. */
  lemma NormalizeAppendParent(a: seq<string>)
    ensures var n := Normalize(a);
      Normalize(a + [".."]) == if n == [] then [] else n[..|n| - 1]
  {
  }

  /** A relative path made absolute against the working directory. */
  function Absolute(p: Path, cwd: Path): (r: Path)
    ensures r.absolute == (p.absolute || cwd.absolute)
  {
    if p.absolute then p else Join(cwd, p)
  }

  /**
    `p.resolve()` without symbolic links: an absolute path without "." or
    "..", and a path that is already canonical is its own resolution.
   */
  function Resolve(p: Path, cwd: Path): (r: Path)
    requires WellFormed(p) && Canonical(cwd)
    ensures Canonical(r)
    ensures Canonical(p) ==> r == p
  {
    var a := Absolute(p, cwd);
    var n := Normalize(a.parts);
    assert forall i :: 0 <= i < |n| ==> IsName(n[i]) by {
      forall i | 0 <= i < |n| ensures IsName(n[i]) {
        assert n[i] in a.parts;
      }
    }
    assert Canonical(p) ==> n == p.parts by {
      if Canonical(p) { NormalizePlain(p.parts); }
    }
    Path(true, n)
  }

  /** Resolving twice is resolving once. */
  lemma ResolveIdempotent(p: Path, cwd: Path)
    requires WellFormed(p) && Canonical(cwd)
    ensures Resolve(Resolve(p, cwd), cwd) == Resolve(p, cwd)
  {
  }

  /**
    `p.parents`: entry `k` is `p` with its last `k + 1` components dropped,
    nearest ancestor first, keeping the root (or its absence).
   */
  function Parents(p: Path): (r: seq<Path>)
    ensures |r| == |p.parts|
    ensures forall k :: 0 <= k < |r| ==> r[k] == Path(p.absolute, p.parts[..|p.parts| - 1 - k])
    decreases |p.parts|
  {
    if p.parts == [] then []
    else
      var q := Parent(p);
      var rest := Parents(q);
      [q] + rest
  }

  /** `b` is `c` itself or one of its ancestors: `b`'s components begin `c`'s. */
  predicate Within(b: Path, c: Path) {
    b.absolute == c.absolute && |b.parts| <= |c.parts| && c.parts[..|b.parts|] == b.parts
  }

  /** Membership in `parents` is being a strict prefix with the same root. */
  lemma InParents(b: Path, c: Path)
    ensures b in Parents(c) <==> b.absolute == c.absolute && |b.parts| < |c.parts| && c.parts[..|b.parts|] == b.parts
  {
    var ps := Parents(c);
    if b.absolute == c.absolute && |b.parts| < |c.parts| && c.parts[..|b.parts|] == b.parts {
      var k := |c.parts| - 1 - |b.parts|;
      assert ps[k] == b;
    }
  }

  /** `(base / filename).resolve()`. */
  function Candidate(base: Path, filename: string, cwd: Path): (r: Path)
    requires WellFormed(base) && Canonical(cwd)
    ensures Canonical(r)
  {
    Resolve(Join(base, Parse(filename)), cwd)
  }

  /** `base.resolve()`, or `base` itself when resolving it raised. */
  function BaseResolved(base: Path, cwd: Path, baseResolves: bool): (r: Path)
    requires WellFormed(base) && Canonical(cwd)
    ensures baseResolves || Canonical(base) ==> Canonical(r)
    ensures Canonical(base) ==> r == base
    ensures !baseResolves ==> r == base
  {
    if baseResolves then Resolve(base, cwd) else base
  }

  /**
    `_safe_resolve`: the canonical join when it is the resolved base or lies
    beneath it, `InvalidFilename` otherwise.
   */
  function SafeResolve(base: Path, filename: string, cwd: Path, baseResolves: bool): (r: Result<Path, ResolveError>)
    requires WellFormed(base) && Canonical(cwd)
    ensures r.Ok? <==> Within(BaseResolved(base, cwd, baseResolves), Candidate(base, filename, cwd))
    ensures r.Ok? ==> r.value == Candidate(base, filename, cwd)
    ensures r.Ok? ==> Canonical(r.value)
  {
    var candidate := Candidate(base, filename, cwd);
    var baseResolved := BaseResolved(base, cwd, baseResolves);
    InParents(baseResolved, candidate);
    if baseResolved == candidate || baseResolved in Parents(candidate) then Ok(candidate)
    else Err(InvalidFilename)
  }

  /**
    Nothing accepted escapes the base: an accepted path is the resolved base
    followed by plain names only.
   */
  lemma SafeResolveContained(base: Path, filename: string, cwd: Path, baseResolves: bool)
    requires WellFormed(base) && Canonical(cwd)
    requires SafeResolve(base, filename, cwd, baseResolves).Ok?
    ensures var b := BaseResolved(base, cwd, baseResolves);
      var p := SafeResolve(base, filename, cwd, baseResolves).value;
      p.absolute && |b.parts| <= |p.parts| && p.parts == b.parts + p.parts[|b.parts|..]
      && forall i :: |b.parts| <= i < |p.parts| ==> IsName(p.parts[i])
  {
  }

  /** A plain name is always accepted and lands directly beneath the base. */
  lemma PlainNameAccepted(base: Path, name: string, cwd: Path, baseResolves: bool)
    requires WellFormed(base) && Canonical(cwd) && IsName(name)
    requires baseResolves || Canonical(base)
    ensures SafeResolve(base, name, cwd, baseResolves) == Ok(Path(true, Resolve(base, cwd).parts + [name]))
  {
    ParseName(name);
    var b := Resolve(base, cwd).parts;
    RelativeCandidate(base, name, [name], cwd);
    NormalizeAppendPlain(Absolute(base, cwd).parts, name);
    assert (b + [name])[..|b|] == b;
  }

  /** "." (and the empty name) resolve to the base itself, by the equality branch. */
  lemma DotIsBase(base: Path, filename: string, cwd: Path)
    requires WellFormed(base) && Canonical(cwd)
    requires filename == "." || filename == ""
    ensures SafeResolve(base, filename, cwd, true) == Ok(Resolve(base, cwd))
    ensures Candidate(base, filename, cwd) == BaseResolved(base, cwd, true)
  {
    if filename == "." { SplitNoSep("."); }
    assert Parse(filename) == Path(false, []);
    assert Join(base, Path(false, [])) == base;
  }

  /**
    `"../" + x` leaves any base other than "/" unless it climbs back into the
    base itself (the base's last component is `x`); from "/" it stays at "/".
   */
  lemma ParentTraversal(base: Path, x: string, cwd: Path)
    requires WellFormed(base) && Canonical(cwd) && IsName(x)
    ensures var n := Resolve(base, cwd).parts;
      SafeResolve(base, "../" + x, cwd, true).Ok? <==> n == [] || n[|n| - 1] == x
  {
    var b := Resolve(base, cwd);
    var n := b.parts;
    var c := Candidate(base, "../" + x, cwd);
    CandidateParentName(base, x, cwd);
    assert SafeResolve(base, "../" + x, cwd, true).Ok? <==> Within(b, c);
    assert c.absolute && b.absolute;
    if n == [] {
      assert Within(b, c);
    } else {
      assert |c.parts| == |n|;
      assert Within(b, c) <==> c.parts == n;
      ReplaceLast(n, x);
    }
  }

  /** The candidate for `"../" + x`: the resolved base without its last component, then `x`. */
  lemma CandidateParentName(base: Path, x: string, cwd: Path)
    requires WellFormed(base) && Canonical(cwd) && IsName(x)
    ensures var n := Resolve(base, cwd).parts;
      Candidate(base, "../" + x, cwd).parts == (if n == [] then [] else n[..|n| - 1]) + [x]
  {
    ParseParentName(x);
    var a := Absolute(base, cwd).parts;
    RelativeCandidate(base, "../" + x, ["..", x], cwd);
    assert a + ["..", x] == (a + [".."]) + [x];
    NormalizeAppendPlain(a + [".."], x);
    NormalizeAppendParent(a);
  }

  /** For a relative filename the candidate normalises the absolute base followed by its components. */
  lemma RelativeCandidate(base: Path, filename: string, rel: seq<string>, cwd: Path)
    requires WellFormed(base) && Canonical(cwd)
    requires Parse(filename) == Path(false, rel)
    ensures Candidate(base, filename, cwd).parts == Normalize(Absolute(base, cwd).parts + rel)
  {
    var j := Join(base, Path(false, rel));
    assert j == Path(base.absolute, base.parts + rel);
    var a := Absolute(j, cwd);
    assert a.parts == Absolute(base, cwd).parts + rel by {
      if !base.absolute {
        assert a.parts == cwd.parts + (base.parts + rel);
      }
    }
    assert Candidate(base, filename, cwd) == Resolve(j, cwd);
  }

  /** ".." is accepted only from the root, where it stays; from any other base it escapes. */
  lemma ParentRejected(base: Path, cwd: Path)
    requires WellFormed(base) && Canonical(cwd)
    ensures SafeResolve(base, "..", cwd, true).Ok? <==> Resolve(base, cwd).parts == []
  {
    SplitNoSep("..");
    RelativeCandidate(base, "..", [".."], cwd);
    NormalizeAppendParent(Absolute(base, cwd).parts);
  }

  /** Replacing the last element of a non-empty sequence leaves it unchanged exactly when the new element is the old one. */
  lemma ReplaceLast<T>(s: seq<T>, x: T)
    requires |s| > 0
    ensures s[..|s| - 1] + [x] == s <==> s[|s| - 1] == x
  {
  }

  /** "../x" from a base directory that is not named "x" is rejected. */
  lemma TraversalRejected(base: Path, x: string, cwd: Path)
    requires WellFormed(base) && Canonical(cwd) && IsName(x)
    requires var n := Resolve(base, cwd).parts; n != [] && n[|n| - 1] != x
    ensures SafeResolve(base, "../" + x, cwd, true) == Err(InvalidFilename)
  {
    ParentTraversal(base, x, cwd);
  }

  /**
    An absolute filename replaces the base in the join: the candidate does
    not depend on the base, and it is accepted exactly when it lies beneath
    the resolved base.
   */
  lemma AbsoluteFilename(base: Path, other: Path, filename: string, cwd: Path, baseResolves: bool)
    requires WellFormed(base) && WellFormed(other) && Canonical(cwd)
    requires |filename| > 0 && filename[0] == '/'
    ensures Candidate(base, filename, cwd) == Candidate(other, filename, cwd) == Resolve(Parse(filename), cwd)
    ensures SafeResolve(base, filename, cwd, baseResolves).Ok? <==> Within(BaseResolved(base, cwd, baseResolves), Resolve(Parse(filename), cwd))
  {
  }

  /**
    When resolving a relative base fails, the unresolved relative base never
    equals nor contains an absolute candidate, so every filename is rejected.
   */
  lemma UnresolvedRelativeBaseRejects(base: Path, filename: string, cwd: Path)
    requires WellFormed(base) && Canonical(cwd) && !base.absolute
    ensures SafeResolve(base, filename, cwd, false) == Err(InvalidFilename)
  {
  }

  /** For a base that is already canonical the fallback changes nothing. */
  lemma CanonicalBaseFallback(base: Path, filename: string, cwd: Path)
    requires Canonical(base) && Canonical(cwd)
    ensures SafeResolve(base, filename, cwd, false) == SafeResolve(base, filename, cwd, true)
  {
  }
}
