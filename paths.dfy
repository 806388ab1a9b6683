/**
  A lexical model of POSIX `pathlib` paths, as far as `_safe_resolve` uses them:
  parsing a string into a path, the `/` join operator, `parent`, and the
  string form of a path (the inverse of parsing).
 */
module Paths {

  /** True iff `s` contains no path separator. */
  predicate NoSep(s: string) {
    forall i :: 0 <= i < |s| ==> s[i] != '/'
  }

  /** A component that survives pathlib's parsing: not empty, not ".", no separator. */
  predicate IsPart(s: string) {
    s != "" && s != "." && NoSep(s)
  }

  /** A plain name: a part that is not the parent reference "..". */
  predicate IsName(s: string) {
    IsPart(s) && s != ".."
  }

  /**
    A parsed path: rooted or relative, and its components after the root.
    `Path(false, [])` is pathlib's ".", `Path(true, [])` is "/".
   */
  datatype Path = Path(absolute: bool, parts: seq<string>)

  /** Every value pathlib can build: each component is a part. */
  predicate WellFormed(p: Path) {
    forall i :: 0 <= i < |p.parts| ==> IsPart(p.parts[i])
  }

  /** An absolute path free of "." and "..": what `resolve()` produces. */
  predicate Canonical(p: Path) {
    p.absolute && forall i :: 0 <= i < |p.parts| ==> IsName(p.parts[i])
  }

  /** `s.split("/")`: the pieces between separators, always at least one. */
  function Split(s: string): (r: seq<string>)
    ensures |r| >= 1
    ensures forall i :: 0 <= i < |r| ==> NoSep(r[i])
    decreases |s|
  {
    if s == [] then [""]
    else
      var rest := Split(s[1..]);
      if s[0] == '/' then [""] + rest
      else [[s[0]] + rest[0]] + rest[1..]
  }

  /** `"/".join(r)`. */
  function JoinSep(r: seq<string>): string
    requires |r| >= 1
  {
    if |r| == 1 then r[0] else r[0] + "/" + JoinSep(r[1..])
  }

  /** Joining the pieces of a split gives back the string. */
  lemma {:induction false} JoinSplit(s: string)
    ensures JoinSep(Split(s)) == s
    decreases |s|
  {
    if s != [] {
      var rest := Split(s[1..]);
      JoinSplit(s[1..]);
      if s[0] == '/' {
        assert Split(s) == [""] + rest;
        assert ([""] + rest)[1..] == rest;
        assert s == [s[0]] + s[1..];
      } else if |rest| == 1 {
        assert s == [s[0]] + s[1..];
      } else {
        var r := Split(s);
        assert r[1..] == rest[1..];
        assert JoinSep(rest) == rest[0] + "/" + JoinSep(rest[1..]);
        assert s == [s[0]] + s[1..];
        assert JoinSep(r) == ([s[0]] + rest[0]) + "/" + JoinSep(rest[1..]);
      }
    }
  }

  /** A string without separators splits into itself alone. */
  lemma {:induction false} SplitNoSep(a: string)
    requires NoSep(a)
    ensures Split(a) == [a]
    decreases |a|
  {
    if a != [] {
      SplitNoSep(a[1..]);
      assert a == [a[0]] + a[1..];
    }
  }

  /** A separator-free prefix followed by "/" is split off as the first piece. */
  lemma {:induction false} SplitPrefix(a: string, t: string)
    requires NoSep(a)
    ensures Split(a + "/" + t) == [a] + Split(t)
    decreases |a|
  {
    if a == [] {
      assert a + "/" + t == ['/'] + t;
      assert (['/'] + t)[1..] == t;
    } else {
      var s := a + "/" + t;
      assert s[0] == a[0];
      assert s[1..] == a[1..] + "/" + t;
      SplitPrefix(a[1..], t);
      assert a == [a[0]] + a[1..];
    }
  }

  /** Splitting a join of separator-free pieces gives back the pieces. */
  lemma {:induction false} SplitJoin(r: seq<string>)
    requires |r| >= 1
    requires forall i :: 0 <= i < |r| ==> NoSep(r[i])
    ensures Split(JoinSep(r)) == r
    decreases |r|
  {
    if |r| == 1 {
      SplitNoSep(r[0]);
    } else {
      SplitJoin(r[1..]);
      SplitPrefix(r[0], JoinSep(r[1..]));
      assert r == [r[0]] + r[1..];
    }
  }

  /** Drops the pieces pathlib ignores when it parses: empty ones and ".". */
  function Keep(xs: seq<string>): (r: seq<string>)
    ensures |r| <= |xs|
    ensures (forall i :: 0 <= i < |xs| ==> NoSep(xs[i])) ==> forall i :: 0 <= i < |r| ==> IsPart(r[i])
  {
    if xs == [] then []
    else (if xs[0] == "" || xs[0] == "." then [] else [xs[0]]) + Keep(xs[1..])
  }

  /** Keep leaves a sequence of parts as it is. */
  lemma {:induction false} KeepParts(xs: seq<string>)
    requires forall i :: 0 <= i < |xs| ==> IsPart(xs[i])
    ensures Keep(xs) == xs
  {
    if xs != [] {
      KeepParts(xs[1..]);
      assert xs == [xs[0]] + xs[1..];
    }
  }

  /** `Path(s)`: a leading "/" roots the path; empty and "." components vanish. */
  function Parse(s: string): (p: Path)
    ensures WellFormed(p)
    ensures p.absolute <==> |s| > 0 && s[0] == '/'
  {
    Path(|s| > 0 && s[0] == '/', Keep(Split(s)))
  }

  /** `str(p)`: "/" or "." for the empty paths, components joined by "/" otherwise. */
  function Format(p: Path): string {
    if p.parts == [] then (if p.absolute then "/" else ".")
    else (if p.absolute then "/" else "") + JoinSep(p.parts)
  }

  /** Parsing is the inverse of the string form. */
  lemma ParseFormat(p: Path)
    requires WellFormed(p)
    ensures Parse(Format(p)) == p
  {
    if p.parts == [] {
      if p.absolute {
        assert Split("/") == ["", ""] by {
          assert "/"[1..] == "";
        }
      } else {
        SplitNoSep(".");
      }
    } else if p.absolute {
      ParseRootedJoin(p.parts);
    } else {
      assert Format(p) == JoinSep(p.parts);
      ParseRelativeJoin(p.parts);
    }
  }

  /** "/" followed by the join of some parts parses to the absolute path of those parts. */
  lemma ParseRootedJoin(parts: seq<string>)
    requires |parts| >= 1 && forall i :: 0 <= i < |parts| ==> IsPart(parts[i])
    ensures Parse("/" + JoinSep(parts)) == Path(true, parts)
  {
    var t := JoinSep(parts);
    var s := "/" + t;
    SplitJoin(parts);
    KeepParts(parts);
    assert s[0] == '/' && s[1..] == t;
    var xs := [""] + parts;
    assert Split(s) == xs;
    assert xs[1..] == parts;
    assert Keep(xs) == Keep(parts);
  }

  /** The join of some parts parses to the relative path of those parts. */
  lemma ParseRelativeJoin(parts: seq<string>)
    requires |parts| >= 1 && forall i :: 0 <= i < |parts| ==> IsPart(parts[i])
    ensures Parse(JoinSep(parts)) == Path(false, parts)
  {
    var t := JoinSep(parts);
    SplitJoin(parts);
    KeepParts(parts);
    assert |parts| == 1 ==> t == parts[0];
    assert |parts| > 1 ==> t == parts[0] + "/" + JoinSep(parts[1..]);
    assert t[0] == parts[0][0];
  }

  /** A plain name parses to a relative path of that one component. */
  lemma ParseName(s: string)
    requires IsName(s)
    ensures Parse(s) == Path(false, [s])
  {
    SplitNoSep(s);
  }

  /** `"../" + x` for a plain name `x` parses to the two components ".." and `x`. */
  lemma ParseParentName(x: string)
    requires IsName(x)
    ensures Parse("../" + x) == Path(false, ["..", x])
  {
    assert ".." + "/" + x == "../" + x;
    SplitPrefix("..", x);
    SplitNoSep(x);
    assert Keep(["..", x]) == [".."] + Keep([x]);
    assert ["..", x][1..] == [x];
  }

  /** The `/` operator: an absolute right operand replaces the left one. */
  function Join(base: Path, name: Path): (r: Path)
    ensures WellFormed(base) && WellFormed(name) ==> WellFormed(r)
    ensures name.absolute ==> r == name
    ensures !name.absolute ==> r.absolute == base.absolute && |base.parts| <= |r.parts|
    ensures !name.absolute ==> r.parts[..|base.parts|] == base.parts && r.parts[|base.parts|..] == name.parts
  {
    if name.absolute then name else Path(base.absolute, base.parts + name.parts)
  }

  /** `p.parent`: the last component dropped; "/" and "." are their own parents. */
  function Parent(p: Path): (r: Path)
    ensures r.absolute == p.absolute
    ensures |r.parts| == if p.parts == [] then 0 else |p.parts| - 1
    ensures r.parts == p.parts[..|r.parts|]
  {
    if p.parts == [] then p else Path(p.absolute, p.parts[..|p.parts| - 1])
  }
}
