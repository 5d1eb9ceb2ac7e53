/** The terminal session: the working directory, the filesystem, the open nano editors and
    the display text, and the command interpreter that updates them. The effect of one
    command is stated by `Step`, a relation between the session before and after it;
    the class methods are proved to perform exactly that step. */
module Terminal {
  import opened Text
  import opened Paths
  import opened FileSystem
  import opened RecursiveDelete

  /** An open nano window: the file it saves to and the text in it. */
  datatype Editor = Editor(path: Path, buffer: string)

  /** The parts of the session a command reads and changes. */
  datatype Snapshot = Snapshot(cwd: Path, fs: FileSystem, editors: seq<Editor>)

  ghost predicate Sound(s: Snapshot) {
    && Plain(s.cwd)
    && WellFormed(s.fs)
    && forall i :: 0 <= i < |s.editors| ==> Segmented(s.editors[i].path)
  }

  const Welcome := "Welcome to the Custom Terminal!\n"
  const HelpHint := "Type 'help' for a list of commands.\n"
  const Prompt := "> "

  const HelpText :=
    "Available commands:\n"
    + " - help: Show this help message\n"
    + " - clear: Clear the terminal\n"
    + " - exit: Close the terminal\n"
    + " - touch <filename>: Create a new file\n"
    + " - cat <filename>: Show the contents of a file\n"
    + " - nano <filename>: Open a new terminal to edit a file\n"
    + " - cd <directory>: Change directory\n"
    + " - ls: List contents of the current directory\n"
    + " - mkdir <directory>: Create a new directory\n"
    + " - rm <filename>: Remove a file\n"
    + " - rm -r <directory>: Remove a directory and its contents without confirmation\n"

  const MissingFilename := "Error: Missing filename.\n"
  const MissingDirectoryName := "Error: Missing directory name.\n"
  const MissingTarget := "Error: Missing file or directory name.\n"
  const MissingDirectory := "Error: Missing directory.\n"

  /** The handler of every `IOException` a command raises. */
  function ErrorLine(e: FsError): string {
    "Error: " + Message(e) + "\n"
  }

  /** What nano shows when it opens `p`: the file's content, an error text when it cannot be
      read, and nothing when there is no such file. */
  function LoadBuffer(fs: FileSystem, p: Path): string {
    if !Exists(fs, p) then ""
    else match ReadString(fs, p)
      case Ok(content) => content
      case Err(e) => "Error loading file: " + Message(e)
  }

  /** The paths `rm` acts on: the trimmed directory name of `rm -r`, else the argument. */
  function RmTarget(cwd: Path, argument: string): Path {
    match ParseRm(argument)
    case Recursive(dirName) => Resolve(cwd, dirName)
    case Single(_) => Resolve(cwd, argument)
  }

  /** `touch` (`entry == File("")`) and `mkdir` (`entry == Dir`). */
  ghost predicate CreateStep(s: Snapshot, t: Snapshot, argument: string, entry: Entry,
                             missing: string, created: string, reply: string)
    requires Sound(s) && (entry == File("") || entry == Dir)
  {
    && t.cwd == s.cwd && t.editors == s.editors
    && if argument == "" then t.fs == s.fs && reply == missing
       else match Create(s.fs, Resolve(s.cwd, argument), entry)
         case Ok(fs') => t.fs == fs' && reply == created + argument + "\n"
         case Err(e) => t.fs == s.fs && reply == ErrorLine(e)
  }

  /** One `Files.delete` whose success is reported by `done`. */
  ghost predicate DeleteStep(fs0: FileSystem, fs1: FileSystem, p: Path, refused: set<Path>,
                             done: string, reply: string)
    requires WellFormed(fs0)
  {
    match Delete(fs0, p, refused)
    case Ok(fs') => fs1 == fs' && reply == done
    case Err(e) => fs1 == fs0 && reply == ErrorLine(e)
  }

  /** `rm`: the recursive form, or the four-way policy of the bare form. */
  ghost predicate RmStep(s: Snapshot, t: Snapshot, argument: string, confirm: bool,
                         refused: set<Path>, reply: string)
    requires Sound(s)
  {
    && t.cwd == s.cwd && t.editors == s.editors
    && if argument == "" then t.fs == s.fs && reply == MissingTarget
       else match ParseRm(argument)
         case Recursive(dirName) =>
           var p := Resolve(s.cwd, dirName);
           if IsDirectoryAt(s.fs, p) then
             Swept(s.fs, t.fs, p, refused) && reply == "Directory and contents deleted: " + dirName + "\n"
           else
             t.fs == s.fs && reply == "Error: " + dirName + " is not a directory.\n"
         case Single(_) =>
           var p := Resolve(s.cwd, argument);
           if IsDirectoryAt(s.fs, p) then
             if List(s.fs, p).value != {} then
               if confirm then Swept(s.fs, t.fs, p, refused) && reply == "Directory deleted: " + argument + "\n"
               else t.fs == s.fs && reply == "Deletion cancelled.\n"
             else DeleteStep(s.fs, t.fs, p, refused, "Directory deleted: " + argument + "\n", reply)
           else if Exists(s.fs, p) then
             DeleteStep(s.fs, t.fs, p, refused, "File deleted: " + argument + "\n", reply)
           else
             t.fs == s.fs && reply == "Error: File or directory not found.\n"
  }

  ghost predicate CatStep(s: Snapshot, t: Snapshot, argument: string, reply: string)
    requires Sound(s)
  {
    && t == s
    && if argument == "" then reply == MissingFilename
       else
         var p := Resolve(s.cwd, argument);
         if !Exists(s.fs, p) then reply == "Error: File not found.\n"
         else match ReadString(s.fs, p)
           case Ok(content) => reply == content + "\n"
           case Err(e) => reply == ErrorLine(e)
  }

  ghost predicate NanoStep(s: Snapshot, t: Snapshot, argument: string, reply: string)
    requires Sound(s)
  {
    && t.cwd == s.cwd && t.fs == s.fs
    && if argument == "" then t.editors == s.editors && reply == MissingFilename
       else
         var p := Resolve(s.cwd, argument);
         t.editors == s.editors + [Editor(p, LoadBuffer(s.fs, p))] && reply == ""
  }

  ghost predicate CdStep(s: Snapshot, t: Snapshot, argument: string, reply: string)
    requires Sound(s)
  {
    && t.fs == s.fs && t.editors == s.editors
    && if argument == "" then t.cwd == s.cwd && reply == MissingDirectory
       else
         var d := Normalize(Resolve(s.cwd, argument));
         if IsDirectoryAt(s.fs, d) then t.cwd == d && reply == "Current directory: " + PathString(d) + "\n"
         else t.cwd == s.cwd && reply == "Error: Directory not found.\n"
  }

  /** The names of the working directory, one per line, in the order the directory
      yields them. */
  ghost predicate ListingOf(names: set<Name>, reply: string) {
    exists listing :: ListsExactly(listing, names) && reply == JoinLines(listing) + "\n"
  }

  ghost predicate LsStep(s: Snapshot, t: Snapshot, reply: string)
    requires Sound(s)
  {
    && t == s
    && match List(s.fs, s.cwd)
       case Ok(names) => ListingOf(names, reply)
       case Err(e) => reply == ErrorLine(e)
  }

  /** One non-empty command line: the command name selects the branch, the rest of the
      line is its argument, and `reply` is everything the branch prints. */
  ghost predicate Step(s: Snapshot, t: Snapshot, command: string, confirm: bool,
                       refused: set<Path>, reply: string)
    requires Sound(s)
  {
    var c := SplitCommand(command);
    if c.name == "help" then t == s && reply == HelpText
    else if c.name == "clear" then t == s && reply == Welcome + HelpHint
    else if c.name == "exit" then t == s && reply == "Goodbye!\n"
    else if c.name == "touch" then CreateStep(s, t, c.argument, File(""), MissingFilename, "File created: ", reply)
    else if c.name == "mkdir" then CreateStep(s, t, c.argument, Dir, MissingDirectoryName, "Directory created: ", reply)
    else if c.name == "rm" then RmStep(s, t, c.argument, confirm, refused, reply)
    else if c.name == "cat" then CatStep(s, t, c.argument, reply)
    else if c.name == "nano" then NanoStep(s, t, c.argument, reply)
    else if c.name == "cd" then CdStep(s, t, c.argument, reply)
    else if c.name == "ls" then LsStep(s, t, reply)
    else if c.name == "skibidi" then t == s && reply == ""
    else t == s && reply == "Unknown command: " + command + "\n"
  }

  /** The display after a command: `clear` wipes it, `exit` leaves no prompt, every other
      command adds a blank line, its reply and a new prompt. */
  function Shown(before: string, name: string, reply: string): string {
    if name == "clear" then reply + Prompt
    else if name == "exit" then before + "\n" + reply
    else before + "\n" + reply + Prompt
  }

  /** `processCommand`: an empty line is ignored; any other line makes one `Step`. */
  ghost predicate Processed(s: Snapshot, t: Snapshot, before: string, after: string, exited: bool,
                            command: string, confirm: bool, refused: set<Path>, reply: string)
    requires Sound(s)
  {
    if command == "" then t == s && after == before && !exited && reply == ""
    else
      && Step(s, t, command, confirm, refused, reply)
      && after == Shown(before, SplitCommand(command).name, reply)
      && (exited <==> SplitCommand(command).name == "exit")
  }

  /** The display ends with the prompt and the text typed after it. */
  ghost predicate AtPrompt(text: string, typed: string) {
    '\n' !in typed && EndsWith(text, "\n" + Prompt + typed)
  }

  predicate EndsLine(reply: string) {
    reply == "" || reply[|reply| - 1] == '\n'
  }

  lemma NewlineEndsLine(a: string)
    ensures EndsLine(a + "\n")
  {
  }

  lemma DeleteStepEndsLine(fs0: FileSystem, fs1: FileSystem, p: Path, refused: set<Path>, done: string, reply: string)
    requires WellFormed(fs0) && DeleteStep(fs0, fs1, p, refused, done, reply) && EndsLine(done)
    ensures EndsLine(reply)
  {
    if Delete(fs0, p, refused).Err? {
      NewlineEndsLine("Error: " + Message(Delete(fs0, p, refused).error));
    }
  }

  lemma RmStepEndsLine(s: Snapshot, t: Snapshot, argument: string, confirm: bool, refused: set<Path>, reply: string)
    requires Sound(s) && RmStep(s, t, argument, confirm, refused, reply)
    ensures EndsLine(reply)
  {
    if argument == "" {
      NewlineEndsLine("Error: Missing file or directory name.");
    } else {
      match ParseRm(argument)
      case Recursive(dirName) =>
        if IsDirectoryAt(s.fs, Resolve(s.cwd, dirName)) {
          NewlineEndsLine("Directory and contents deleted: " + dirName);
        } else {
          NewlineEndsLine("Error: " + dirName + " is not a directory.");
        }
      case Single(_) =>
        var p := Resolve(s.cwd, argument);
        NewlineEndsLine("Directory deleted: " + argument);
        NewlineEndsLine("File deleted: " + argument);
        if IsDirectoryAt(s.fs, p) {
          if List(s.fs, p).value != {} {
            NewlineEndsLine("Deletion cancelled.");
          } else {
            DeleteStepEndsLine(s.fs, t.fs, p, refused, "Directory deleted: " + argument + "\n", reply);
          }
        } else if Exists(s.fs, p) {
          DeleteStepEndsLine(s.fs, t.fs, p, refused, "File deleted: " + argument + "\n", reply);
        } else {
          NewlineEndsLine("Error: File or directory not found.");
        }
    }
  }

  lemma ErrorLineEndsLine(e: FsError)
    ensures EndsLine(ErrorLine(e))
  {
    NewlineEndsLine("Error: " + Message(e));
  }

  lemma CreateStepEndsLine(s: Snapshot, t: Snapshot, argument: string, entry: Entry,
                           missing: string, created: string, reply: string)
    requires Sound(s) && (entry == File("") || entry == Dir) && EndsLine(missing)
    requires CreateStep(s, t, argument, entry, missing, created, reply)
    ensures EndsLine(reply)
  {
    NewlineEndsLine(created + argument);
    if argument != "" && Create(s.fs, Resolve(s.cwd, argument), entry).Err? {
      ErrorLineEndsLine(Create(s.fs, Resolve(s.cwd, argument), entry).error);
    }
  }

  lemma CatStepEndsLine(s: Snapshot, t: Snapshot, argument: string, reply: string)
    requires Sound(s) && CatStep(s, t, argument, reply)
    ensures EndsLine(reply)
  {
    NewlineEndsLine("Error: Missing filename.");
    NewlineEndsLine("Error: File not found.");
    var p := Resolve(s.cwd, argument);
    if argument != "" && Exists(s.fs, p) {
      match ReadString(s.fs, p)
      case Ok(content) => NewlineEndsLine(content);
      case Err(e) => ErrorLineEndsLine(e);
    }
  }

  lemma CdStepEndsLine(s: Snapshot, t: Snapshot, argument: string, reply: string)
    requires Sound(s) && CdStep(s, t, argument, reply)
    ensures EndsLine(reply)
  {
    NewlineEndsLine("Error: Missing directory.");
    NewlineEndsLine("Error: Directory not found.");
    NewlineEndsLine("Current directory: " + PathString(Normalize(Resolve(s.cwd, argument))));
  }

  lemma LsStepEndsLine(s: Snapshot, t: Snapshot, reply: string)
    requires Sound(s) && LsStep(s, t, reply)
    ensures EndsLine(reply)
  {
    match List(s.fs, s.cwd)
    case Ok(names) =>
      var listing :| ListsExactly(listing, names) && reply == JoinLines(listing) + "\n";
      NewlineEndsLine(JoinLines(listing));
    case Err(e) => ErrorLineEndsLine(e);
  }

  /** Every reply is empty or ends its last line, so the next prompt starts a line of its own. */
  lemma StepEndsLine(s: Snapshot, t: Snapshot, command: string, confirm: bool, refused: set<Path>, reply: string)
    requires Sound(s) && Step(s, t, command, confirm, refused, reply)
    ensures EndsLine(reply)
  {
    var c := SplitCommand(command);
    var name, argument := c.name, c.argument;
    if name == "help" {
      NewlineEndsLine(HelpText[..|HelpText| - 1]);
      assert HelpText[..|HelpText| - 1] + "\n" == HelpText;
    } else if name == "clear" {
      NewlineEndsLine(Welcome + "Type 'help' for a list of commands.");
    } else if name == "exit" {
      NewlineEndsLine("Goodbye!");
    } else if name == "touch" {
      NewlineEndsLine("Error: Missing filename.");
      CreateStepEndsLine(s, t, argument, File(""), MissingFilename, "File created: ", reply);
    } else if name == "mkdir" {
      NewlineEndsLine("Error: Missing directory name.");
      CreateStepEndsLine(s, t, argument, Dir, MissingDirectoryName, "Directory created: ", reply);
    } else if name == "rm" {
      RmStepEndsLine(s, t, argument, confirm, refused, reply);
    } else if name == "cat" {
      CatStepEndsLine(s, t, argument, reply);
    } else if name == "nano" {
      NewlineEndsLine("Error: Missing filename.");
    } else if name == "cd" {
      CdStepEndsLine(s, t, argument, reply);
    } else if name == "ls" {
      LsStepEndsLine(s, t, reply);
    } else if name != "skibidi" {
      NewlineEndsLine("Unknown command: " + command);
    }
  }

  /** After a reply that ends its line, the display is at a fresh prompt. */
  lemma PromptAfterReply(before: string, reply: string)
    requires EndsLine(reply)
    ensures AtPrompt(before + "\n" + reply + Prompt, "")
  {
    var text := before + "\n" + reply + Prompt;
    assert text[|text| - 3..] == "\n" + Prompt + "";
  }

  /** The banner ends at a fresh prompt. */
  lemma InitialPrompt()
    ensures AtPrompt(Welcome + HelpHint + Prompt, "")
  {
    var banner := Welcome + "Type 'help' for a list of commands.";
    PromptAfterReply(banner, "");
    assert banner + "\n" + "" + Prompt == Welcome + HelpHint + Prompt;
  }

  /** A listing of `S` in some order: `Files.list` and `Files.walk` yield each entry once,
      in an order the filesystem chooses. */
  method Enumerate<T(==, !new)>(S: set<T>) returns (s: seq<T>)
    ensures ListsExactly(s, S)
  {
    s := [];
    var rest := S;
    while rest != {}
      invariant rest <= S
      invariant forall x :: multiset(s)[x] == if x in S - rest then 1 else 0
      decreases |rest|
    {
      var x :| x in rest;
      s := s + [x];
      rest := rest - {x};
    }
  }

  class Session {
    var cwd: Path
    var fs: FileSystem
    var editors: seq<Editor>
    var text: string
    var exited: bool
    /** What has been typed since the last prompt. */
    ghost var pending: string

    function Snap(): Snapshot
      reads this
    {
      Snapshot(cwd, fs, editors)
    }

    ghost predicate Valid()
      reads this
    {
      Sound(Snap()) && (!exited ==> AtPrompt(text, pending))
    }

    /** The window opens in `home` and shows the welcome banner and the first prompt. */
    constructor (home: Path, disk: FileSystem)
      requires Plain(home) && WellFormed(disk)
      ensures Valid() && !exited
      ensures Snap() == Snapshot(home, disk, [])
      ensures text == Welcome + HelpHint + Prompt && pending == ""
    {
      cwd := home;
      fs := disk;
      editors := [];
      text := Welcome + HelpHint + Prompt;
      exited := false;
      pending := "";
      InitialPrompt();
    }

    /** Typing at the end of the display. */
    method Type(s: string)
      requires Valid() && !exited && '\n' !in s
      modifies this`text, this`pending
      ensures Valid()
      ensures text == old(text) + s && pending == old(pending) + s
    {
      text := text + s;
      pending := pending + s;
      assert "\n" + Prompt + pending == "\n" + Prompt + old(pending) + s;
    }

    /** Enter: the typed line, trimmed, goes to `ProcessCommand`. */
    method PressEnter(confirm: bool, refused: set<Path>) returns (command: string, reply: string)
      requires Valid() && !exited
      modifies this
      ensures Valid()
      ensures command == Trim(old(pending))
      ensures Processed(old(Snap()), Snap(), old(text), text, exited, command, confirm, refused, reply)
      ensures pending == if command == "" then old(pending) else ""
    {
      ExtractAtPrompt(text, pending);
      var line := ExtractLine(text);
      command := line.value;
      reply := ProcessCommand(command, confirm, refused);
    }

    /** `processCommand`. */
    method ProcessCommand(command: string, confirm: bool, refused: set<Path>) returns (reply: string)
      requires Valid() && !exited
      modifies this
      ensures Valid()
      ensures Processed(old(Snap()), Snap(), old(text), text, exited, command, confirm, refused, reply)
      ensures pending == if command == "" then old(pending) else ""
    {
      if command == "" {
        return "";
      }
      ghost var before := Snap();
      reply := Dispatch(command, confirm, refused);
      StepEndsLine(before, Snap(), command, confirm, refused, reply);
      var name := SplitCommand(command).name;
      pending := "";
      if name == "clear" {
        InitialPrompt();
        text := reply + Prompt;
      } else if name == "exit" {
        text := text + "\n" + reply;
        exited := true;
      } else {
        PromptAfterReply(text, reply);
        text := text + "\n" + reply + Prompt;
      }
    }

    /** The `switch` of `processCommand` and its `IOException` handler. */
    method Dispatch(command: string, confirm: bool, refused: set<Path>) returns (reply: string)
      requires Sound(Snap())
      modifies this`cwd, this`fs, this`editors
      ensures Sound(Snap())
      ensures Step(old(Snap()), Snap(), command, confirm, refused, reply)
    {
      var c := SplitCommand(command);
      var name, argument := c.name, c.argument;
      if name == "help" {
        reply := HelpText;
      } else if name == "clear" {
        reply := Welcome + HelpHint;
      } else if name == "exit" {
        reply := "Goodbye!\n";
      } else if name == "touch" {
        reply := CreateEntry(argument, File(""), MissingFilename, "File created: ");
      } else if name == "mkdir" {
        reply := CreateEntry(argument, Dir, MissingDirectoryName, "Directory created: ");
      } else if name == "rm" {
        reply := Remove(argument, confirm, refused);
      } else if name == "cat" {
        reply := Cat(argument);
      } else if name == "nano" {
        reply := OpenNano(argument);
      } else if name == "cd" {
        reply := ChangeDirectory(argument);
      } else if name == "ls" {
        reply := ListDirectory();
      } else if name == "skibidi" {
        reply := "";
      } else {
        reply := "Unknown command: " + command + "\n";
      }
    }

    /** `touch` and `mkdir`. */
    method CreateEntry(argument: string, entry: Entry, missing: string, created: string) returns (reply: string)
      requires Sound(Snap()) && (entry == File("") || entry == Dir)
      modifies this`fs
      ensures Sound(Snap())
      ensures CreateStep(old(Snap()), Snap(), argument, entry, missing, created, reply)
    {
      if argument == "" {
        reply := missing;
      } else {
        match Create(fs, Resolve(cwd, argument), entry)
        case Ok(fs') =>
          fs := fs';
          reply := created + argument + "\n";
        case Err(e) =>
          reply := ErrorLine(e);
      }
    }

    /** `rm`. */
    method Remove(argument: string, confirm: bool, refused: set<Path>) returns (reply: string)
      requires Sound(Snap())
      modifies this`fs
      ensures Sound(Snap())
      ensures RmStep(old(Snap()), Snap(), argument, confirm, refused, reply)
    {
      if argument == "" {
        reply := MissingTarget;
        return;
      }
      match ParseRm(argument)
      case Recursive(dirName) =>
        var p := Resolve(cwd, dirName);
        if IsDirectoryAt(fs, p) {
          var _, _ := DeleteDirectory(p, refused);
          reply := "Directory and contents deleted: " + dirName + "\n";
        } else {
          reply := "Error: " + dirName + " is not a directory.\n";
        }
      case Single(_) =>
        var p := Resolve(cwd, argument);
        if IsDirectoryAt(fs, p) {
          if List(fs, p).value != {} {
            if confirm {
              var _, _ := DeleteDirectory(p, refused);
              reply := "Directory deleted: " + argument + "\n";
            } else {
              reply := "Deletion cancelled.\n";
            }
          } else {
            reply := DeleteOne(p, refused, "Directory deleted: " + argument + "\n");
          }
        } else if Exists(fs, p) {
          reply := DeleteOne(p, refused, "File deleted: " + argument + "\n");
        } else {
          reply := "Error: File or directory not found.\n";
        }
    }

    /** `Files.delete` inside the `try` of `processCommand`. */
    method DeleteOne(p: Path, refused: set<Path>, done: string) returns (reply: string)
      requires Sound(Snap())
      modifies this`fs
      ensures Sound(Snap())
      ensures DeleteStep(old(fs), fs, p, refused, done, reply)
    {
      match Delete(fs, p, refused)
      case Ok(fs') =>
        fs := fs';
        reply := done;
      case Err(e) =>
        reply := ErrorLine(e);
    }

    /** `deleteDirectory`: walk the target, sort the walk deepest first, and delete entry by
        entry; a failure is logged (returned in `failed`) and the loop goes on. */
    method DeleteDirectory(raw: Path, refused: set<Path>) returns (order: seq<Path>, failed: seq<Path>)
      requires Sound(Snap())
      modifies this`fs
      ensures Sound(Snap())
      ensures WalkOrder(old(fs), raw, order)
      ensures DeleteAll(old(fs), order, refused) == Sweep(fs, failed)
      ensures Swept(old(fs), fs, raw, refused)
    {
      ghost var fs0 := fs;
      var walk := Enumerate(WalkSet(fs, raw));
      order := SortByDepth(walk);
      failed := [];
      // The sweep runs on `cur`; no other command can observe the filesystem before it ends.
      var cur := fs;
      var i := 0;
      while i < |order|
        invariant 0 <= i <= |order|
        invariant WellFormed(cur)
        invariant DeleteAll(fs0, order[..i], refused) == Sweep(cur, failed)
      {
        SweepExtends(fs0, order, refused, i);
        match Delete(cur, order[i], refused) {
          case Ok(fs') =>
            cur := fs';
          case Err(_) =>
            failed := failed + [order[i]];
        }
        i := i + 1;
      }
      fs := cur;
      assert order[..i] == order;
      assert WalkOrder(fs0, raw, order) by { SortedWalk(fs0, raw, walk); }
      SweptBy(fs0, raw, order, refused);
    }

    /** `cat`. */
    method Cat(argument: string) returns (reply: string)
      requires Sound(Snap())
      ensures CatStep(Snap(), Snap(), argument, reply)
    {
      if argument == "" {
        reply := MissingFilename;
      } else {
        var p := Resolve(cwd, argument);
        if !Exists(fs, p) {
          reply := "Error: File not found.\n";
        } else {
          match ReadString(fs, p)
          case Ok(content) =>
            reply := content + "\n";
          case Err(e) =>
            reply := ErrorLine(e);
        }
      }
    }

    /** `nano`: opens an editor on the resolved path, loaded with what is there. */
    method OpenNano(argument: string) returns (reply: string)
      requires Sound(Snap())
      modifies this`editors
      ensures Sound(Snap())
      ensures NanoStep(old(Snap()), Snap(), argument, reply)
    {
      if argument == "" {
        reply := MissingFilename;
      } else {
        var p := Resolve(cwd, argument);
        editors := editors + [Editor(p, LoadBuffer(fs, p))];
        reply := "";
      }
    }

    /** `cd`: the only command that moves the working directory. */
    method ChangeDirectory(argument: string) returns (reply: string)
      requires Sound(Snap())
      modifies this`cwd
      ensures Sound(Snap())
      ensures CdStep(old(Snap()), Snap(), argument, reply)
    {
      if argument == "" {
        reply := MissingDirectory;
      } else {
        var d := Normalize(Resolve(cwd, argument));
        if IsDirectoryAt(fs, d) {
          cwd := d;
          reply := "Current directory: " + PathString(d) + "\n";
        } else {
          reply := "Error: Directory not found.\n";
        }
      }
    }

    /** `ls`. */
    method ListDirectory() returns (reply: string)
      requires Sound(Snap())
      ensures LsStep(Snap(), Snap(), reply)
    {
      match List(fs, cwd)
      case Ok(names) =>
        var listing := Enumerate(names);
        reply := JoinLines(listing) + "\n";
      case Err(e) =>
        reply := ErrorLine(e);
    }

    /** "Save and Exit" in nano window `i`: the window's text replaces the file, and the
        window closes; when the write fails the window stays open with that text. The windows
        go away with the program, so there is none to use after `exit`. */
    method SaveEditor(i: nat, content: string)
      requires Valid() && !exited && i < |editors|
      modifies this`fs, this`editors
      ensures Valid()
      ensures match WriteString(old(fs), old(editors[i].path), content)
              case Ok(fs') => fs == fs' && editors == old(editors[..i] + editors[i + 1..])
              case Err(_) => fs == old(fs) && editors == old(editors[i := Editor(editors[i].path, content)])
    {
      var path := editors[i].path;
      match WriteString(fs, path, content)
      case Ok(fs') =>
        fs := fs';
        editors := editors[..i] + editors[i + 1..];
      case Err(_) =>
        editors := editors[i := Editor(path, content)];
    }

    /** Closing nano window `i` without saving; like saving, only while the program runs. */
    method CloseEditor(i: nat)
      requires Valid() && !exited && i < |editors|
      modifies this`editors
      ensures Valid()
      ensures editors == old(editors[..i] + editors[i + 1..])
    {
      editors := editors[..i] + editors[i + 1..];
    }
  }
}
