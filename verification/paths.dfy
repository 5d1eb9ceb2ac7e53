/** Paths as sequences of name segments: parsing an argument, resolving it against the
    working directory (`Path.resolve`), lexical normalisation (`Path.normalize`) and
    rendering (`Path.toString`). */
module Paths {
  import opened Text

  type Name = string

  /** An absolute path, one name per segment; the root directory is `[]`. */
  type Path = seq<Name>

  predicate IsDot(s: Name) {
    s == "." || s == ".."
  }

  /** What the parser can produce: a non-empty name without a separator. */
  predicate IsSegment(s: Name) {
    s != "" && '/' !in s
  }

  /** A segment that names an entry (neither "." nor ".."). */
  predicate ValidName(s: Name) {
    IsSegment(s) && !IsDot(s)
  }

  predicate Segmented(p: Path) {
    forall i :: 0 <= i < |p| ==> IsSegment(p[i])
  }

  /** A path free of "." and ".." segments, as every normalised path is. */
  predicate Plain(p: Path) {
    forall i :: 0 <= i < |p| ==> ValidName(p[i])
  }

  predicate IsPrefix(a: Path, b: Path) {
    |a| <= |b| && b[..|a|] == a
  }

  predicate EndsInDot(p: Path) {
    p != [] && IsDot(p[|p| - 1])
  }

  function Parent(p: Path): Path
    requires p != []
  {
    p[..|p| - 1]
  }

  /** The segments of a path string: the separator '/' splits it and repeated or trailing
      separators produce no empty segment. */
  function Segments(s: string): (p: Path)
    ensures Segmented(p)
    decreases |s|
  {
    if s == [] then []
    else if s[0] == '/' then Segments(s[1..])
    else
      var n := FirstIndex(s, '/');
      assert IsSegment(s[..n]);
      [s[..n]] + Segments(s[n..])
  }

  /** `currentDirectory.resolve(argument)`: an absolute argument replaces the working
      directory, a relative one is appended to it; no segment is interpreted. */
  function Resolve(cwd: Path, argument: string): (p: Path)
    ensures Segmented(cwd) ==> Segmented(p)
  {
    if |argument| > 0 && argument[0] == '/' then Segments(argument) else cwd + Segments(argument)
  }

  /** One segment of lexical normalisation: "." stays, ".." goes up (never above the root). */
  function StepInto(cur: Path, segment: Name): Path {
    if segment == "." then cur
    else if segment == ".." then (if cur == [] then [] else Parent(cur))
    else cur + [segment]
  }

  /** `Path.normalize` on an absolute path: "." and ".." collapsed segment by segment. */
  function Normalize(p: Path): (r: Path)
    ensures |r| <= |p|
    ensures Segmented(p) ==> Plain(r)
    decreases |p|
  {
    if p == [] then [] else StepInto(Normalize(Parent(p)), p[|p| - 1])
  }

  /** Normalising a path that has no "." or ".." leaves it as it is. */
  lemma {:induction false} NormalizePlain(p: Path)
    requires Plain(p)
    ensures Normalize(p) == p
    decreases |p|
  {
    if p != [] {
      NormalizePlain(Parent(p));
      assert Parent(p) + [p[|p| - 1]] == p;
    }
  }

  /** A path without "." or ".." segments is already normal, whatever its names. */
  lemma {:induction false} NormalizeWithoutDots(p: Path)
    requires forall i :: 0 <= i < |p| ==> !IsDot(p[i])
    ensures Normalize(p) == p
    decreases |p|
  {
    if p != [] {
      NormalizeWithoutDots(Parent(p));
      assert Parent(p) + [p[|p| - 1]] == p;
    }
  }

  /** Whatever its names, a normalised path has no "." or ".." segment left. */
  lemma {:induction false} NormalizeRemovesDots(p: Path)
    ensures forall i :: 0 <= i < |Normalize(p)| ==> !IsDot(Normalize(p)[i])
    decreases |p|
  {
    if p != [] {
      NormalizeRemovesDots(Parent(p));
    }
  }

  /** Normalisation is idempotent. */
  lemma NormalizeIdempotent(p: Path)
    ensures Normalize(Normalize(p)) == Normalize(p)
  {
    NormalizeRemovesDots(p);
    NormalizeWithoutDots(Normalize(p));
  }

  /** Normalising a prefix first does not change the result: the segments that follow act
      on the normalised prefix as they act on the prefix itself. */
  lemma {:induction false} NormalizeCompose(p: Path, q: Path)
    ensures Normalize(p + q) == Normalize(Normalize(p) + q)
    decreases |q|
  {
    if q == [] {
      assert p + q == p && Normalize(p) + q == Normalize(p);
      NormalizeIdempotent(p);
    } else {
      NormalizeCompose(p, Parent(q));
      assert Parent(p + q) == p + Parent(q);
      assert Parent(Normalize(p) + q) == Normalize(p) + Parent(q);
    }
  }

  /** Plain segments appended to a path survive normalisation unchanged. */
  lemma {:induction false} NormalizeAppend(p: Path, rel: Path)
    requires Plain(rel)
    ensures Normalize(p + rel) == Normalize(p) + rel
    decreases |rel|
  {
    if rel == [] {
      assert p + rel == p;
    } else {
      var last := rel[|rel| - 1];
      NormalizeAppend(p, Parent(rel));
      assert Parent(p + rel) == p + Parent(rel);
      assert (p + rel)[|p + rel| - 1] == last;
      assert Normalize(p) + Parent(rel) + [last] == Normalize(p) + rel;
    }
  }

  /** The text of a path without the root: "/a/b" for [a, b]. */
  function Render(p: Path): string {
    if p == [] then "" else "/" + p[0] + Render(p[1..])
  }

  /** `Path.toString` of an absolute path; the root is "/". */
  function PathString(p: Path): string {
    if p == [] then "/" else Render(p)
  }

  lemma {:induction false} FirstSlashAfterName(name: string, rest: string)
    requires '/' !in name
    requires rest == [] || rest[0] == '/'
    ensures FirstIndex(name + rest, '/') == |name|
    decreases |name|
  {
    if name != [] {
      FirstSlashAfterName(name[1..], rest);
      assert (name + rest)[1..] == name[1..] + rest;
    }
  }

  lemma {:induction false} SegmentsOfRender(p: Path)
    requires Segmented(p)
    ensures Segments(Render(p)) == p
    decreases |p|
  {
    if p != [] {
      var rest := Render(p[1..]);
      var s := "/" + p[0] + rest;
      assert s[1..] == p[0] + rest;
      assert rest == [] || rest[0] == '/';
      FirstSlashAfterName(p[0], rest);
      var t := p[0] + rest;
      assert t[0] == p[0][0];
      assert t[..|p[0]|] == p[0] && t[|p[0]|..] == rest;
      SegmentsOfRender(p[1..]);
      assert [p[0]] + p[1..] == p;
    }
  }

  /** Parsing the text of a path gives the path back. */
  lemma PathStringRoundTrip(p: Path)
    requires Segmented(p)
    ensures Segments(PathString(p)) == p
  {
    if p == [] {
      assert Segments("/") == Segments("");
    } else {
      SegmentsOfRender(p);
    }
  }

  /** A leading separator adds no segment. */
  lemma SegmentsAfterSlash(s: string)
    ensures Segments("/" + s) == Segments(s)
  {
    assert ("/" + s)[1..] == s;
  }

  /** A name followed by text that starts at a separator: the name is the first segment. */
  lemma SegmentsOfName(name: Name, rest: string)
    requires IsSegment(name) && rest != [] && rest[0] == '/'
    ensures Segments(name + rest) == [name] + Segments(rest)
  {
    var t := name + rest;
    FirstSlashAfterName(name, rest);
    assert t[0] == name[0];
    assert t[..|name|] == name && t[|name|..] == rest;
  }

  /** The text of a path, a separator and more text: the path's segments, then those of the text. */
  lemma {:induction false} RenderJoin(p: Path, a: string)
    requires Segmented(p)
    ensures Segments(Render(p) + "/" + a) == p + Segments(a)
    decreases |p|
  {
    if p == [] {
      assert Render(p) + "/" + a == "/" + a;
      SegmentsAfterSlash(a);
    } else {
      var rest := Render(p[1..]) + "/" + a;
      var t := p[0] + rest;
      assert Render(p) + "/" + a == "/" + t;
      assert Segments("/" + t) == Segments(t) by {
        SegmentsAfterSlash(t);
      }
      assert Segments(t) == [p[0]] + Segments(rest) by {
        assert rest[0] == '/' by {
          if p[1..] != [] { assert Render(p[1..])[0] == '/'; }
        }
        SegmentsOfName(p[0], rest);
      }
      assert Segments(rest) == p[1..] + Segments(a) by {
        RenderJoin(p[1..], a);
      }
      assert [p[0]] + p[1..] == p;
    }
  }

  /** On Unix, `resolve` of a relative argument is the path whose text is the working
      directory's text, a separator and the argument. */
  lemma ResolveJoins(cwd: Path, a: string)
    requires Segmented(cwd) && !StartsWith(a, "/")
    ensures Resolve(cwd, a) == Segments(PathString(cwd) + "/" + a)
  {
    if cwd == [] {
      assert PathString(cwd) + "/" + a == "/" + ("/" + a);
      SegmentsAfterSlash("/" + a);
      SegmentsAfterSlash(a);
    } else {
      RenderJoin(cwd, a);
    }
  }

  /** ".." after a name cancels the name. */
  lemma DotDotCancelsName(p: Path, n: Name)
    requires ValidName(n)
    ensures Normalize(p + [n, ".."]) == Normalize(p)
  {
    assert Parent(p + [n, ".."]) == p + [n];
    assert Parent(p + [n]) == p;
  }

  /** ".." after a directory other than the root leads to its parent. */
  lemma DotDotGoesUp(p: Path)
    requires Plain(p) && p != []
    ensures Normalize(p + [".."]) == Parent(p)
  {
    assert Parent(p + [".."]) == p;
    NormalizePlain(p);
  }

  /** ".." at the root stays at the root, and "." stays where it is. */
  lemma DotStays(p: Path)
    ensures Normalize([".."]) == []
    ensures Normalize(p + ["."]) == Normalize(p)
  {
    assert Parent([".."]) == [];
    assert Parent(p + ["."]) == p;
  }

  /** `cd ../..` climbs two levels. */
  lemma ClimbTwice(p: Path)
    requires Plain(p) && |p| >= 2
    ensures Normalize(p + ["..", ".."]) == Parent(Parent(p))
  {
    var up := p + [".."];
    assert p + ["..", ".."] == up + [".."];
    assert Normalize(up) == Parent(p) by { DotDotGoesUp(p); }
    assert Normalize(up + [".."]) == Normalize(Parent(p) + [".."]) by {
      NormalizeCompose(up, [".."]);
    }
    DotDotGoesUp(Parent(p));
  }

  /** `cd ./..` climbs one level: the "." is skipped. */
  lemma DotThenUp(p: Path)
    requires Plain(p) && p != []
    ensures Normalize(p + [".", ".."]) == Parent(p)
  {
    var here := p + ["."];
    assert p + [".", ".."] == here + [".."];
    assert Normalize(here) == p by { DotStays(p); NormalizePlain(p); }
    assert Normalize(here + [".."]) == Normalize(p + [".."]) by {
      NormalizeCompose(here, [".."]);
    }
    DotDotGoesUp(p);
  }
}
