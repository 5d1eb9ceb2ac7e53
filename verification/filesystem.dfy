/** The filesystem as the terminal sees it through `java.nio.file.Files`: a map from
    absolute paths to entries, and the primitive operations the commands call. A path
    handed to a primitive is the un-normalised result of `resolve`; the operating system
    walks it segment by segment, so every prefix must name a directory, and the call then
    acts on the entry the normalised path names. */
module FileSystem {
  import opened Paths

  datatype Entry = File(content: string) | Dir

  /** Keys are the entries other than the root, which is always a directory. */
  type FileSystem = map<Path, Entry>

  /** The exceptions of the primitives, each carrying the path it was raised for. */
  datatype FsError =
    | NoSuchFile(path: Path)
    | FileAlreadyExists(path: Path)
    | DirectoryNotEmpty(path: Path)
    | NotDirectory(path: Path)
    | IsDirectory(path: Path)
    | Refused(path: Path)

  datatype Result<T> = Ok(value: T) | Err(error: FsError)

  /** The exception's message, `e.getMessage()`: the path it was raised for. */
  function Message(e: FsError): string {
    PathString(e.path)
  }

  predicate IsDir(fs: FileSystem, q: Path) {
    q == [] || (q in fs && fs[q].Dir?)
  }

  predicate Present(fs: FileSystem, q: Path) {
    q == [] || q in fs
  }

  /** Every entry has a plain name and lives in a directory. */
  ghost predicate WellFormed(fs: FileSystem) {
    && (forall q :: q in fs ==> q != [] && Plain(q))
    && (forall d, n {:trigger d + [n] in fs} :: d + [n] in fs ==> IsDir(fs, d))
  }

  /** The parent of an entry is a directory. */
  lemma ParentIsDir(fs: FileSystem, c: Path)
    requires WellFormed(fs) && c in fs
    ensures c != [] && IsDir(fs, Parent(c))
  {
    assert Parent(c) + [c[|c| - 1]] == c;
  }

  predicate IsChild(c: Path, q: Path) {
    |c| == |q| + 1 && c[..|q|] == q
  }

  /** The names in directory `q`. */
  function Children(fs: FileSystem, q: Path): set<Name> {
    set c | c in fs && IsChild(c, q) :: c[|q|]
  }

  /** The operating system can walk `p`: each prefix of it names a directory. */
  predicate Reachable(fs: FileSystem, p: Path) {
    forall k :: 0 <= k < |p| ==> IsDir(fs, Normalize(p[..k]))
  }

  /** `Files.exists`. */
  predicate Exists(fs: FileSystem, p: Path) {
    Reachable(fs, p) && Present(fs, Normalize(p))
  }

  /** `Files.isDirectory`. */
  predicate IsDirectoryAt(fs: FileSystem, p: Path) {
    Reachable(fs, p) && IsDir(fs, Normalize(p))
  }

  lemma {:induction false} AncestorsAreDirs(fs: FileSystem, q: Path, k: nat)
    requires WellFormed(fs) && q in fs && k < |q|
    ensures IsDir(fs, q[..k])
    decreases |q|
  {
    ParentIsDir(fs, q);
    if k < |q| - 1 {
      AncestorsAreDirs(fs, Parent(q), k);
      assert Parent(q)[..k] == q[..k];
    }
  }

  lemma PlainReachable(fs: FileSystem, p: Path)
    requires WellFormed(fs) && Plain(p) && p != [] && IsDir(fs, Parent(p))
    ensures Reachable(fs, p)
  {
    forall k | 0 <= k < |p| ensures IsDir(fs, Normalize(p[..k])) {
      NormalizePlain(p[..k]);
      if k < |p| - 1 {
        assert Parent(p) in fs;
        AncestorsAreDirs(fs, Parent(p), k);
        assert Parent(p)[..k] == p[..k];
      } else {
        assert p[..k] == Parent(p);
      }
    }
  }

  /** On a plain path the operating system's view agrees with the map: `Files.exists` is
      membership and `Files.isDirectory` is being a directory entry. */
  lemma PlainPathQueries(fs: FileSystem, p: Path)
    requires WellFormed(fs) && Plain(p)
    ensures Exists(fs, p) <==> Present(fs, p)
    ensures IsDirectoryAt(fs, p) <==> IsDir(fs, p)
  {
    NormalizePlain(p);
    if p != [] && p in fs {
      PlainReachable(fs, p);
    }
  }

  /** When a reachable path names something other than the root, its parent is a directory,
      or the path ends in a name whose parent directory is the normalised prefix. */
  lemma TargetParentIsDir(fs: FileSystem, p: Path)
    requires WellFormed(fs) && Reachable(fs, p) && p != []
    ensures Normalize(p) != [] ==> IsDir(fs, Parent(Normalize(p)))
    ensures !EndsInDot(p) ==> Normalize(p) == Normalize(Parent(p)) + [p[|p| - 1]]
    ensures EndsInDot(p) ==> IsDir(fs, Normalize(p))
  {
    var pre := Parent(p);
    assert p[..|p| - 1] == pre;
    var d := Normalize(pre);
    assert IsDir(fs, d);
    var last := p[|p| - 1];
    assert Normalize(p) == StepInto(d, last);
    if last == "." {
      if d != [] { ParentIsDir(fs, d); }
    } else if last == ".." {
      if d != [] {
        ParentIsDir(fs, d);
        var up := Parent(d);
        if up != [] { ParentIsDir(fs, up); }
      }
    } else {
      assert Parent(d + [last]) == d;
    }
  }

  /** `Files.createFile` (with `entry == File("")`) and `Files.createDirectory` (with
      `entry == Dir`): fails if the path is not reachable or already exists; otherwise adds
      exactly the one entry. */
  function Create(fs: FileSystem, p: Path, entry: Entry): (r: Result<FileSystem>)
    requires WellFormed(fs) && Segmented(p)
    requires entry == File("") || entry == Dir
    ensures r.Ok? <==> Reachable(fs, p) && !Present(fs, Normalize(p))
    ensures !Reachable(fs, p) ==> r == Err(NoSuchFile(p))
    ensures Reachable(fs, p) && Present(fs, Normalize(p)) ==> r == Err(FileAlreadyExists(p))
    ensures r.Ok? ==> WellFormed(r.value)
    ensures r.Ok? ==> Normalize(p) !in fs && r.value.Keys == fs.Keys + {Normalize(p)}
    ensures r.Ok? ==> r.value[Normalize(p)] == entry && forall q :: q in fs ==> r.value[q] == fs[q]
  {
    if !Reachable(fs, p) then Err(NoSuchFile(p))
    else if Present(fs, Normalize(p)) then Err(FileAlreadyExists(p))
    else
      AddTarget(fs, p, entry);
      Ok(fs[Normalize(p) := entry])
  }

  /** A new entry at a reachable free path lands inside an existing directory. */
  lemma AddTarget(fs: FileSystem, p: Path, entry: Entry)
    requires WellFormed(fs) && Segmented(p) && Reachable(fs, p) && !Present(fs, Normalize(p))
    ensures WellFormed(fs[Normalize(p) := entry])
    ensures fs[Normalize(p) := entry].Keys == fs.Keys + {Normalize(p)}
  {
    var q := Normalize(p);
    assert q != [] && IsDir(fs, Parent(q)) by {
      TargetParentIsDir(fs, p);
    }
    AddLeaf(fs, q, entry);
  }


  /** Adding a new entry inside an existing directory keeps the filesystem well formed. */
  lemma AddLeaf(fs: FileSystem, q: Path, entry: Entry)
    requires WellFormed(fs) && q != [] && Plain(q) && q !in fs && IsDir(fs, Parent(q))
    ensures WellFormed(fs[q := entry])
  {
    forall d, n | d + [n] in fs[q := entry] ensures IsDir(fs[q := entry], d) {
      if d + [n] == q {
        assert Parent(d + [n]) == d;
      } else {
        assert IsDir(fs, d);
      }
    }
  }

  /** `Files.readString`: the content of a reachable existing file. */
  function ReadString(fs: FileSystem, p: Path): (r: Result<string>)
    ensures r.Ok? <==> Exists(fs, p) && !IsDir(fs, Normalize(p))
    ensures r.Ok? ==> fs[Normalize(p)] == File(r.value)
    ensures !Exists(fs, p) ==> r == Err(NoSuchFile(p))
  {
    if !Reachable(fs, p) then Err(NoSuchFile(p))
    else
      var q := Normalize(p);
      if !Present(fs, q) then Err(NoSuchFile(p))
      else if IsDir(fs, q) then Err(IsDirectory(p))
      else Ok(fs[q].content)
  }

  /** `Files.list`: the names of the entries of a directory. */
  function List(fs: FileSystem, p: Path): (r: Result<set<Name>>)
    ensures r.Ok? <==> IsDirectoryAt(fs, p)
    ensures r.Ok? ==> forall n :: n in r.value <==> Normalize(p) + [n] in fs
  {
    if !Reachable(fs, p) then Err(NoSuchFile(p))
    else
      var q := Normalize(p);
      if !Present(fs, q) then Err(NoSuchFile(p))
      else if !IsDir(fs, q) then Err(NotDirectory(p))
      else
        ChildrenMembers(fs, q);
        Ok(Children(fs, q))
  }

  /** What `Files.list` yields for a directory is exactly its children. */
  lemma ListIsChildren(fs: FileSystem, p: Path)
    requires IsDirectoryAt(fs, p)
    ensures List(fs, p).value == Children(fs, Normalize(p))
  {
    ChildrenMembers(fs, Normalize(p));
  }

  lemma ChildrenMembers(fs: FileSystem, q: Path)
    ensures forall n :: n in Children(fs, q) <==> q + [n] in fs
  {
    forall n ensures n in Children(fs, q) <==> q + [n] in fs {
      if q + [n] in fs {
        var c := q + [n];
        assert IsChild(c, q) && c[|q|] == n;
      }
      if n in Children(fs, q) {
        var c :| c in fs && IsChild(c, q) && c[|q|] == n;
        assert c == q + [n];
      }
    }
  }

  /** A file has no entries below it. */
  lemma FileHasNoChildren(fs: FileSystem, q: Path)
    requires WellFormed(fs) && q in fs && fs[q].File?
    ensures Children(fs, q) == {}
  {
    ChildrenMembers(fs, q);
    forall n ensures q + [n] !in fs {
      assert Parent(q + [n]) == q;
    }
  }

  /** `Files.delete`: removes one entry, which must exist, must not be the root or be named
      through a trailing "." or "..", must be empty if it is a directory, and must not be
      one the operating system refuses to remove (`refused`). */
  function Delete(fs: FileSystem, p: Path, refused: set<Path>): (r: Result<FileSystem>)
    requires WellFormed(fs)
    ensures r.Ok? <==>
              && Reachable(fs, p) && !EndsInDot(p) && Normalize(p) in fs
              && Children(fs, Normalize(p)) == {} && Normalize(p) !in refused
    ensures r.Ok? ==> WellFormed(r.value)
    ensures r.Ok? ==> r.value.Keys == fs.Keys - {Normalize(p)} && forall q :: q in r.value ==> r.value[q] == fs[q]
    ensures !Exists(fs, p) ==> r == Err(NoSuchFile(p))
  {
    if !Reachable(fs, p) then Err(NoSuchFile(p))
    else
      var q := Normalize(p);
      if !Present(fs, q) then Err(NoSuchFile(p))
      else if q == [] || EndsInDot(p) then Err(Refused(p))
      else if Children(fs, q) != {} then Err(DirectoryNotEmpty(p))
      else if q in refused then Err(Refused(p))
      else
        RemoveLeaf(fs, q);
        Ok(fs - {q})
  }

  /** Deleting through a reachable path that does not end in "." or "..", when the entry it
      names has no children and is not refused, succeeds and removes that entry. */
  lemma DeleteLeaf(fs: FileSystem, w: Path, refused: set<Path>)
    requires WellFormed(fs) && Normalize(w) in fs && !EndsInDot(w) && Reachable(fs, w)
    requires Children(fs, Normalize(w)) == {} && Normalize(w) !in refused
    ensures Delete(fs, w, refused) == Ok(fs - {Normalize(w)})
  {
  }

  /** `rm f` followed by `ls` in its directory: the listing has lost exactly the deleted name. */
  lemma DeleteShrinksListing(fs: FileSystem, p: Path, refused: set<Path>)
    requires WellFormed(fs) && Delete(fs, p, refused).Ok?
    ensures var q := Normalize(p);
            && q != [] && List(fs, Parent(q)).Ok?
            && List(Delete(fs, p, refused).value, Parent(q)) == Ok(List(fs, Parent(q)).value - {q[|q| - 1]})
  {
    var q := Normalize(p);
    var d := Parent(q);
    var fs' := Delete(fs, p, refused).value;
    assert Plain(d) && IsDir(fs, d) by { ParentIsDir(fs, q); }
    assert IsDir(fs', d);
    assert IsDirectoryAt(fs, d) by { PlainPathQueries(fs, d); }
    assert IsDirectoryAt(fs', d) by { PlainPathQueries(fs', d); }
    NormalizePlain(d);
    assert d + [q[|q| - 1]] == q;
    assert List(fs', d).value == List(fs, d).value - {q[|q| - 1]};
  }

  /** Removing an entry with no children keeps the filesystem well formed. */
  lemma RemoveLeaf(fs: FileSystem, q: Path)
    requires WellFormed(fs) && q in fs && Children(fs, q) == {}
    ensures WellFormed(fs - {q})
  {
    forall d, n | d + [n] in fs - {q} ensures IsDir(fs - {q}, d) {
      var c := d + [n];
      assert IsDir(fs, d);
      assert IsChild(c, d) && c[|d|] == n;
      assert n in Children(fs, d);
    }
  }

  /** `Files.writeString`: creates the file or replaces its content; fails on a directory
      or an unreachable path. */
  function WriteString(fs: FileSystem, p: Path, text: string): (r: Result<FileSystem>)
    requires WellFormed(fs) && Segmented(p)
    ensures r.Ok? <==> Reachable(fs, p) && !IsDir(fs, Normalize(p))
    ensures r.Ok? ==> WellFormed(r.value)
    ensures r.Ok? ==> r.value.Keys == fs.Keys + {Normalize(p)} && r.value[Normalize(p)] == File(text)
    ensures r.Ok? ==> forall q :: q in fs && q != Normalize(p) ==> r.value[q] == fs[q]
  {
    if !Reachable(fs, p) then Err(NoSuchFile(p))
    else
      var q := Normalize(p);
      if IsDir(fs, q) then Err(IsDirectory(p))
      else
        TargetParentIsDir(fs, p);
        Ok(fs[q := File(text)])
  }

  /** Adding entries that are not directories keeps every path reachable that was. */
  lemma ReachableKept(fs: FileSystem, fs': FileSystem, p: Path)
    requires forall q :: q in fs ==> q in fs' && fs'[q] == fs[q]
    requires Reachable(fs, p)
    ensures Reachable(fs', p)
  {
  }

  /** `touch f` followed by `cat f`: the new file reads back empty. */
  lemma CreatedFileReadsEmpty(fs: FileSystem, p: Path)
    requires WellFormed(fs) && Segmented(p) && Create(fs, p, File("")).Ok?
    ensures ReadString(Create(fs, p, File("")).value, p) == Ok("")
  {
    ReachableKept(fs, Create(fs, p, File("")).value, p);
  }

  /** `mkdir d`: the new directory is a directory at its normalised path, the one `cd d`
      moves to. */
  lemma CreatedDirIsDirectory(fs: FileSystem, p: Path)
    requires WellFormed(fs) && Segmented(p) && Create(fs, p, Dir).Ok?
    ensures IsDirectoryAt(Create(fs, p, Dir).value, Normalize(p))
  {
    var fs' := Create(fs, p, Dir).value;
    PlainPathQueries(fs', Normalize(p));
  }

  /** Creating an entry adds exactly its name to the listing of its directory. */
  lemma CreateAddsChild(fs: FileSystem, p: Path, entry: Entry)
    requires WellFormed(fs) && Segmented(p) && (entry == File("") || entry == Dir)
    requires Create(fs, p, entry).Ok?
    ensures var q := Normalize(p);
            q != [] && Children(Create(fs, p, entry).value, Parent(q)) == Children(fs, Parent(q)) + {q[|q| - 1]}
  {
    var q := Normalize(p);
    var fs' := Create(fs, p, entry).value;
    ChildrenMembers(fs, Parent(q));
    ChildrenMembers(fs', Parent(q));
    assert Parent(q) + [q[|q| - 1]] == q;
    forall n ensures n in Children(fs', Parent(q)) <==> n in Children(fs, Parent(q)) + {q[|q| - 1]} {
      if Parent(q) + [n] == q { assert n == q[|q| - 1]; }
    }
  }

  /** Saving what was read leaves the filesystem as it was. */
  lemma WriteBackUnchanged(fs: FileSystem, p: Path)
    requires WellFormed(fs) && Segmented(p) && ReadString(fs, p).Ok?
    ensures WriteString(fs, p, ReadString(fs, p).value) == Ok(fs)
  {
    var c := ReadString(fs, p).value;
    assert fs[Normalize(p) := File(c)] == fs;
  }

  /** What was written is what is read back. */
  lemma WrittenReadsBack(fs: FileSystem, p: Path, text: string)
    requires WellFormed(fs) && Segmented(p) && WriteString(fs, p, text).Ok?
    ensures ReadString(WriteString(fs, p, text).value, p) == Ok(text)
  {
    var fs' := WriteString(fs, p, text).value;
    forall q | q in fs ensures q in fs' && fs'[q].Dir? == fs[q].Dir? {
    }
    assert Reachable(fs', p) by {
      forall k | 0 <= k < |p| ensures IsDir(fs', Normalize(p[..k])) {
        assert IsDir(fs, Normalize(p[..k]));
      }
    }
  }
}
