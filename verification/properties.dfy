/** What the interpreter guarantees, command by command, stated on `Step`. */
module TerminalProperties {
  import opened Text
  import opened Paths
  import opened FileSystem
  import opened RecursiveDelete
  import opened Terminal

  const KnownCommands := {"help", "clear", "exit", "touch", "mkdir", "rm", "cat", "nano", "cd", "ls", "skibidi"}

  /** No command but `cd` moves the working directory. */
  lemma OnlyCdMoves(s: Snapshot, t: Snapshot, command: string, confirm: bool, refused: set<Path>, reply: string)
    requires Sound(s) && Step(s, t, command, confirm, refused, reply)
    requires SplitCommand(command).name != "cd"
    ensures t.cwd == s.cwd
  {
  }

  /** `cd` moves to the normalised target exactly when that is a directory, and reports it. */
  lemma CdMovesToDirectory(s: Snapshot, t: Snapshot, command: string, confirm: bool, refused: set<Path>, reply: string)
    requires Sound(s) && Step(s, t, command, confirm, refused, reply)
    requires SplitCommand(command).name == "cd" && SplitCommand(command).argument != ""
    ensures t.fs == s.fs && t.editors == s.editors
    ensures var d := Normalize(Resolve(s.cwd, SplitCommand(command).argument));
            if IsDir(s.fs, d) then t.cwd == d && reply == "Current directory: " + PathString(d) + "\n"
            else t.cwd == s.cwd && reply == "Error: Directory not found.\n"
  {
    var d := Normalize(Resolve(s.cwd, SplitCommand(command).argument));
    PlainPathQueries(s.fs, d);
  }

  /** Only `touch`, `mkdir` and `rm` change the filesystem. */
  lemma OnlyWritersChangeFiles(s: Snapshot, t: Snapshot, command: string, confirm: bool, refused: set<Path>, reply: string)
    requires Sound(s) && Step(s, t, command, confirm, refused, reply)
    requires SplitCommand(command).name !in {"touch", "mkdir", "rm"}
    ensures t.fs == s.fs
  {
  }

  /** A command that needs an argument and has none reports it and changes nothing. */
  lemma MissingArgumentChangesNothing(s: Snapshot, t: Snapshot, command: string, confirm: bool, refused: set<Path>, reply: string)
    requires Sound(s) && Step(s, t, command, confirm, refused, reply)
    requires SplitCommand(command).name in {"touch", "mkdir", "rm", "cat", "nano", "cd"}
    requires SplitCommand(command).argument == ""
    ensures t == s
    ensures SplitCommand(command).name in {"touch", "cat", "nano"} ==> reply == "Error: Missing filename.\n"
    ensures SplitCommand(command).name == "mkdir" ==> reply == "Error: Missing directory name.\n"
    ensures SplitCommand(command).name == "rm" ==> reply == "Error: Missing file or directory name.\n"
    ensures SplitCommand(command).name == "cd" ==> reply == "Error: Missing directory.\n"
  {
  }

  /** Any other command name echoes the whole line and changes nothing. */
  lemma UnknownCommandEchoes(s: Snapshot, t: Snapshot, command: string, confirm: bool, refused: set<Path>, reply: string)
    requires Sound(s) && Step(s, t, command, confirm, refused, reply)
    requires SplitCommand(command).name !in KnownCommands
    ensures t == s && reply == "Unknown command: " + command + "\n"
  {
  }

  /** `touch` and `mkdir` add exactly one empty entry at a new reachable path, and change
      nothing when the path exists or cannot be reached. */
  lemma CreateAddsOneEntry(s: Snapshot, t: Snapshot, command: string, confirm: bool, refused: set<Path>, reply: string)
    requires Sound(s) && Step(s, t, command, confirm, refused, reply)
    requires SplitCommand(command).name in {"touch", "mkdir"} && SplitCommand(command).argument != ""
    ensures t.cwd == s.cwd && t.editors == s.editors
    ensures var c := SplitCommand(command);
            var p := Resolve(s.cwd, c.argument);
            var entry := if c.name == "touch" then File("") else Dir;
            var created := if c.name == "touch" then "File created: " else "Directory created: ";
            && (Reachable(s.fs, p) && !Present(s.fs, Normalize(p)) ==>
                  Normalize(p) !in s.fs && t.fs == s.fs[Normalize(p) := entry] && reply == created + c.argument + "\n")
            && (Reachable(s.fs, p) && Present(s.fs, Normalize(p)) ==>
                  t.fs == s.fs && reply == "Error: " + PathString(p) + "\n")
            && (!Reachable(s.fs, p) ==> t.fs == s.fs && reply == "Error: " + PathString(p) + "\n")
  {
    var c := SplitCommand(command);
    var p := Resolve(s.cwd, c.argument);
    var entry := if c.name == "touch" then File("") else Dir;
    var r := Create(s.fs, p, entry);
    if r.Ok? {
      assert r.value == s.fs[Normalize(p) := entry];
    }
  }

  /** `cat` shows a file's content, and reports a missing file or a directory. */
  lemma CatShowsContent(s: Snapshot, t: Snapshot, command: string, confirm: bool, refused: set<Path>, reply: string, content: string)
    requires Sound(s) && Step(s, t, command, confirm, refused, reply)
    requires SplitCommand(command).name == "cat" && SplitCommand(command).argument != ""
    ensures t == s
    ensures var p := Resolve(s.cwd, SplitCommand(command).argument);
            && (Exists(s.fs, p) && Normalize(p) in s.fs && s.fs[Normalize(p)] == File(content) ==> reply == content + "\n")
            && (IsDirectoryAt(s.fs, p) ==> reply == "Error: " + PathString(p) + "\n")
            && (!Exists(s.fs, p) ==> reply == "Error: File not found.\n")
  {
  }

  /** `ls` prints every name in the working directory once, one per line; once the working
      directory is gone it reports an error. */
  lemma LsListsWorkingDirectory(s: Snapshot, t: Snapshot, command: string, confirm: bool, refused: set<Path>, reply: string)
    requires Sound(s) && Step(s, t, command, confirm, refused, reply)
    requires SplitCommand(command).name == "ls"
    ensures t == s
    ensures IsDir(s.fs, s.cwd) ==> ListingOf(Children(s.fs, s.cwd), reply)
    ensures !IsDir(s.fs, s.cwd) ==> StartsWith(reply, "Error: ")
  {
    PlainPathQueries(s.fs, s.cwd);
    NormalizePlain(s.cwd);
    if IsDir(s.fs, s.cwd) {
      ListIsChildren(s.fs, s.cwd);
    } else {
      var e := List(s.fs, s.cwd).error;
      assert reply == "Error: " + (Message(e) + "\n");
    }
  }

  /** Bare `rm` on a path that does not exist reports it and changes nothing. */
  lemma RmMissingTarget(s: Snapshot, t: Snapshot, command: string, confirm: bool, refused: set<Path>, reply: string)
    requires Sound(s) && Step(s, t, command, confirm, refused, reply)
    requires var c := SplitCommand(command); c.name == "rm" && c.argument != "" && ParseRm(c.argument).Single?
    requires !Exists(s.fs, Resolve(s.cwd, SplitCommand(command).argument))
    ensures t == s && reply == "Error: File or directory not found.\n"
  {
  }

  /** Bare `rm` on a file removes that file and nothing else, unless the system refuses. */
  lemma RmRemovesFile(s: Snapshot, t: Snapshot, command: string, confirm: bool, refused: set<Path>, reply: string)
    requires Sound(s) && Step(s, t, command, confirm, refused, reply)
    requires var c := SplitCommand(command); c.name == "rm" && c.argument != "" && ParseRm(c.argument).Single?
    requires var p := Resolve(s.cwd, SplitCommand(command).argument);
             Exists(s.fs, p) && !IsDirectoryAt(s.fs, p)
    ensures var argument := SplitCommand(command).argument;
            var q := Normalize(Resolve(s.cwd, argument));
            && q in s.fs && s.fs[q].File?
            && (q !in refused ==> t.fs == s.fs - {q} && reply == "File deleted: " + argument + "\n")
            && (q in refused ==> t.fs == s.fs)
  {
    var p := Resolve(s.cwd, SplitCommand(command).argument);
    var q := Normalize(p);
    TargetParentIsDir(s.fs, p);
    FileHasNoChildren(s.fs, q);
    var r := Delete(s.fs, p, refused);
    if r.Ok? {
      assert r.value == s.fs - {q};
    }
  }

  /** Bare `rm` on an empty directory removes that directory and nothing else, unless it is
      the root, is named through "." or "..", or the system refuses. */
  lemma RmRemovesEmptyDirectory(s: Snapshot, t: Snapshot, command: string, confirm: bool, refused: set<Path>, reply: string)
    requires Sound(s) && Step(s, t, command, confirm, refused, reply)
    requires var c := SplitCommand(command); c.name == "rm" && c.argument != "" && ParseRm(c.argument).Single?
    requires var p := Resolve(s.cwd, SplitCommand(command).argument);
             IsDirectoryAt(s.fs, p) && Children(s.fs, Normalize(p)) == {}
    ensures var argument := SplitCommand(command).argument;
            var p := Resolve(s.cwd, argument);
            var q := Normalize(p);
            && (q != [] && !EndsInDot(p) && q !in refused ==>
                  t.fs == s.fs - {q} && reply == "Directory deleted: " + argument + "\n")
            && (q == [] || EndsInDot(p) || q in refused ==> t.fs == s.fs && StartsWith(reply, "Error: "))
  {
    var argument := SplitCommand(command).argument;
    var p := Resolve(s.cwd, argument);
    var q := Normalize(p);
    ListIsChildren(s.fs, p);
    var r := Delete(s.fs, p, refused);
    if r.Ok? {
      assert r.value == s.fs - {q};
    } else {
      assert reply == "Error: " + (Message(r.error) + "\n");
    }
  }

  /** Bare `rm` on a non-empty directory asks first: declined, nothing changes. */
  lemma RmCancelled(s: Snapshot, t: Snapshot, command: string, refused: set<Path>, reply: string)
    requires Sound(s) && Step(s, t, command, false, refused, reply)
    requires var c := SplitCommand(command); c.name == "rm" && c.argument != "" && ParseRm(c.argument).Single?
    requires var p := Resolve(s.cwd, SplitCommand(command).argument);
             IsDirectoryAt(s.fs, p) && Children(s.fs, Normalize(p)) != {}
    ensures t == s && reply == "Deletion cancelled.\n"
  {
    ListIsChildren(s.fs, Resolve(s.cwd, SplitCommand(command).argument));
  }

  /** Bare `rm` on a non-empty directory, confirmed, removes its whole subtree when the path
      names it directly and the system refuses none of it. */
  lemma RmConfirmedRemovesSubtree(s: Snapshot, t: Snapshot, command: string, refused: set<Path>, reply: string)
    requires Sound(s) && Step(s, t, command, true, refused, reply)
    requires var c := SplitCommand(command); c.name == "rm" && c.argument != "" && ParseRm(c.argument).Single?
    requires var p := Resolve(s.cwd, SplitCommand(command).argument);
             && IsDirectoryAt(s.fs, p) && DirectPath(p) && Normalize(p) != []
             && Children(s.fs, Normalize(p)) != {} && refused !! Subtree(s.fs, Normalize(p))
    ensures var argument := SplitCommand(command).argument;
            var p := Resolve(s.cwd, argument);
            t.fs == s.fs - Subtree(s.fs, Normalize(p)) && reply == "Directory deleted: " + argument + "\n"
  {
    var p := Resolve(s.cwd, SplitCommand(command).argument);
    ListIsChildren(s.fs, p);
    SweptRemovesSubtree(s.fs, t.fs, p, refused);
  }

  /** `rm -r` on a directory removes its whole subtree, without asking, when the path names
      it directly and the system refuses none of it. */
  lemma RmRecursiveRemovesSubtree(s: Snapshot, t: Snapshot, command: string, confirm: bool, refused: set<Path>, reply: string)
    requires Sound(s) && Step(s, t, command, confirm, refused, reply)
    requires var c := SplitCommand(command); c.name == "rm" && ParseRm(c.argument).Recursive?
    requires var p := Resolve(s.cwd, ParseRm(SplitCommand(command).argument).dirName);
             && IsDirectoryAt(s.fs, p) && DirectPath(p) && Normalize(p) != []
             && refused !! Subtree(s.fs, Normalize(p))
    ensures var dirName := ParseRm(SplitCommand(command).argument).dirName;
            var p := Resolve(s.cwd, dirName);
            t.fs == s.fs - Subtree(s.fs, Normalize(p)) && reply == "Directory and contents deleted: " + dirName + "\n"
  {
    var p := Resolve(s.cwd, ParseRm(SplitCommand(command).argument).dirName);
    SweptRemovesSubtree(s.fs, t.fs, p, refused);
  }

  /** `rm -r` on anything but a directory reports it and changes nothing. */
  lemma RmRecursiveNeedsDirectory(s: Snapshot, t: Snapshot, command: string, confirm: bool, refused: set<Path>, reply: string)
    requires Sound(s) && Step(s, t, command, confirm, refused, reply)
    requires var c := SplitCommand(command); c.name == "rm" && ParseRm(c.argument).Recursive?
    requires !IsDirectoryAt(s.fs, Resolve(s.cwd, ParseRm(SplitCommand(command).argument).dirName))
    ensures var dirName := ParseRm(SplitCommand(command).argument).dirName;
            t == s && reply == "Error: " + dirName + " is not a directory.\n"
  {
  }

  /** Whatever the form, `rm` only removes entries, and only entries at or below the path it
      names; the working directory is not protected. */
  lemma RmStaysInsideTarget(s: Snapshot, t: Snapshot, command: string, confirm: bool, refused: set<Path>, reply: string)
    requires Sound(s) && Step(s, t, command, confirm, refused, reply)
    requires SplitCommand(command).name == "rm"
    ensures t.cwd == s.cwd && t.editors == s.editors
    ensures forall q :: q in t.fs ==> q in s.fs && t.fs[q] == s.fs[q]
    ensures var target := Normalize(RmTarget(s.cwd, SplitCommand(command).argument));
            forall q :: q in s.fs && !IsPrefix(target, q) ==> q in t.fs
  {
    var argument := SplitCommand(command).argument;
    var raw := RmTarget(s.cwd, argument);
    if argument != "" {
      if Swept(s.fs, t.fs, raw, refused) {
        SweptStaysInside(s.fs, t.fs, raw, refused);
      } else {
        var r := Delete(s.fs, raw, refused);
        if r.Ok? {
          forall q | q in s.fs && !IsPrefix(Normalize(raw), q) ensures q in t.fs {
            assert q != Normalize(raw);
          }
        }
      }
    }
  }

  /** nano opens a file with its content, and a new file empty. */
  lemma NanoLoadsContent(fs: FileSystem, p: Path, content: string)
    requires WellFormed(fs)
    ensures !Exists(fs, p) ==> LoadBuffer(fs, p) == ""
    ensures Exists(fs, p) && Normalize(p) in fs && fs[Normalize(p)] == File(content) ==> LoadBuffer(fs, p) == content
    ensures IsDirectoryAt(fs, p) ==> StartsWith(LoadBuffer(fs, p), "Error loading file: ")
  {
    var r := ReadString(fs, p);
    if Exists(fs, p) {
      if IsDir(fs, Normalize(p)) {
        assert LoadBuffer(fs, p) == "Error loading file: " + Message(r.error);
      } else {
        assert LoadBuffer(fs, p) == r.value;
      }
    }
  }

  /** Saving a buffer that was loaded from a file and left unedited changes nothing. */
  lemma SaveUneditedKeepsFiles(fs: FileSystem, p: Path)
    requires WellFormed(fs) && Segmented(p) && ReadString(fs, p).Ok?
    ensures WriteString(fs, p, LoadBuffer(fs, p)) == Ok(fs)
  {
    WriteBackUnchanged(fs, p);
  }

  /** Reopening a saved file shows the text that was saved. */
  lemma SavedTextReopens(fs: FileSystem, p: Path, text: string)
    requires WellFormed(fs) && Segmented(p) && WriteString(fs, p, text).Ok?
    ensures LoadBuffer(WriteString(fs, p, text).value, p) == text
  {
    WrittenReadsBack(fs, p, text);
  }
}
