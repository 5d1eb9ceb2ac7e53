# Borne-Again-Terminal: the command interpreter

Borne-Again-Terminal is a small Swing "terminal" (`src/TerminalApp.java`). The user types a
line after the `> ` prompt and presses Enter. The line is handed to `processCommand`, which
splits it into a command name and an argument and runs one of these commands:

- `help`, `clear`, `exit`
- `touch`, `mkdir`, `rm`, `rm -r`
- `cat`, `nano`, `cd`, `ls`
- `skibidi`

Each command works on the real filesystem through `java.nio.file` and prints its result into
the window.

This project models that interpreter in Dafny:

- **`text.dfy` (module `Text`)** holds the string handling:
  - the split at the first space;
  - Java's `String.trim`;
  - the `-r ` prefix of `rm`;
  - the extraction of the typed line from the display text on Enter.
- **`paths.dfy` (module `Paths`)** models paths as sequences of name segments:
  - `resolve` against the working directory;
  - the lexical `normalize`;
  - the printed form.
- **`filesystem.dfy` (module `FileSystem`)** models the filesystem as a map from paths to
  files and directories, where every entry's parent is a directory. The primitives are
  `createFile`, `createDirectory`, `readString`, `list`, `delete` and `writeString`.
  - A primitive receives the resolved path *without* normalisation, as the program passes it.
  - The operating system walks that path, so every prefix must name a directory. Only then
    does the primitive act on the normalised path.
  - Only `cd` normalises before checking.
- **`sweep.dfy` (module `RecursiveDelete`)** models `deleteDirectory`:
  1. It walks the target.
  2. It sorts the walk by non-increasing depth, with a stable sort.
  3. It deletes entry by entry, records each failure and goes on.

  It also proves what such a sweep removes.
- **`terminal.dfy` (module `Terminal`)** holds the session as a class. Its fields are the
  working directory, the filesystem, the open nano editors, the display text and whether the
  program has exited.
  - The effect of one command line is the relation `Step` between the session before and
    after it. Every command method is proved to perform exactly that step.
  - The display is proved to stay at a fresh prompt, so Enter always reads back what was
    typed.
- **`properties.dfy` (module `TerminalProperties`)** states what the interpreter guarantees,
  command by command, as lemmas over `Step`.

Behaviours the model keeps from the code:

- Commands other than `cd` use the un-normalised resolved path. So `cat a/../f` needs `a` to
  exist, while `cd a/../d` does not.
- `rm` does not protect the working directory or its ancestors. For example, `rm -r ../d`
  typed inside `d` names the working directory directly and removes it. After that, `ls`
  reports an error.
- `rm -r` removes exactly the target's subtree only when the path names the target
  directly. A path such as `x/y/../../x` passes through `x/y`. Once the sweep has deleted
  `x/y`, the entries it names later through that path can no longer be reached.
- A bare `-r` (without the trailing space) is not the recursive form. It names a file called
  `-r`.

## Model

| member | source | states |
|---|---|---|
| `Text.SplitCommand` | src/TerminalApp.java:70-72 | the command name is the text before the first space and contains no space; the argument is everything after that space, untrimmed, or "" when the line has no space |
| `Text.TrimRemovesPadding` | src/TerminalApp.java:124 | trimming removes exactly the blank padding (characters up to U+0020) around a text, whatever the text is |
| `Text.ParseRm` | src/TerminalApp.java:123-124 | the recursive form is chosen exactly when the argument starts with "-r "; otherwise the target is the argument itself |
| `Text.RecursiveTargetIsTrimmed` | src/TerminalApp.java:123-124 | after "-r " the target is the rest of the argument with its blank padding removed |
| `Text.BareDashRIsSingle` | src/TerminalApp.java:123 | "-r" with nothing after it is not the recursive form but a target named "-r" |
| `Text.ExtractLine` | src/TerminalApp.java:52-54 | the extracted line has no blank at either end |
| `Text.ExtractTypedLine` | src/TerminalApp.java:52-54 | when the display ends with a newline, the prompt and a typed text without newline, Enter extracts the typed text, trimmed |
| `Text.ExtractAtPrompt` | src/TerminalApp.java:52-55 | the same, for any display that ends with the prompt followed by the typed text |
| `Paths.ResolveJoins` | src/TerminalApp.java:106 | a relative argument resolves to the path whose text is the working directory's text, a separator and the argument, as `resolve` joins them on Unix |
| `Paths.Normalize` | src/TerminalApp.java:185 | a normalised path is no longer than the path and contains no "." or ".." segment |
| `Paths.DotDotCancelsName` | src/TerminalApp.java:185 | ".." after a name cancels that name |
| `Paths.DotDotGoesUp` | src/TerminalApp.java:185 | ".." after a directory other than the root leads to its parent, so `cd ..` moves up one level |
| `Paths.DotStays` | src/TerminalApp.java:185 | "." leaves the path where it is, and ".." at the root stays at the root |
| `Paths.NormalizePlain` | src/TerminalApp.java:185 | normalising a path without "." or ".." leaves it unchanged |
| `Paths.NormalizeIdempotent` | src/TerminalApp.java:185 | normalising twice is normalising once, for every path |
| `Paths.NormalizeWithoutDots` | src/TerminalApp.java:185 | a path with no "." or ".." segment is already normal |
| `Paths.NormalizeCompose` | src/TerminalApp.java:185 | normalising a prefix first does not change the result, so "." and ".." act on whatever the segments before them normalise to |
| `Paths.ClimbTwice` | src/TerminalApp.java:185 | `cd ../..` climbs two levels |
| `Paths.DotThenUp` | src/TerminalApp.java:185 | `cd ./..` climbs one level: the "." is skipped |
| `Paths.NormalizeAppend` | src/TerminalApp.java:241 | plain segments appended to any path come through normalisation unchanged |
| `Paths.PathStringRoundTrip` | src/TerminalApp.java:188 | parsing the printed form of a path gives the path back |
| `FileSystem.Create` | src/TerminalApp.java:106 | creation succeeds exactly when the path is reachable and nothing is there; it then adds exactly one entry and keeps every other entry; otherwise the error says whether the path is missing or taken |
| `FileSystem.ReadString` | src/TerminalApp.java:165 | reading succeeds exactly on an existing file and yields its content; a missing path gives the not-found error |
| `FileSystem.List` | src/TerminalApp.java:196 | listing succeeds exactly on a directory and yields exactly the names of its entries |
| `FileSystem.Delete` | src/TerminalApp.java:147 | deletion succeeds exactly on an existing, reachable, empty, unrefused entry other than the root and not named through "." or ".."; it then removes exactly that entry; a missing path gives the not-found error |
| `FileSystem.WriteString` | src/TerminalApp.java:281 | writing succeeds exactly when the path is reachable and not a directory; the file then holds the text and every other entry is kept |
| `FileSystem.PlainPathQueries` | src/TerminalApp.java:126 | on a path without "." or "..", `exists` is being in the map and `isDirectory` is being a directory entry |
| `FileSystem.DeleteShrinksListing` | src/TerminalApp.java:146-152 | after a successful deletion, the listing of the entry's directory is the old listing without the deleted name |
| `FileSystem.CreatedFileReadsEmpty` | src/TerminalApp.java:106 | a file just created reads back empty |
| `FileSystem.CreatedDirIsDirectory` | src/TerminalApp.java:115 | a directory just created is a directory at its normalised path |
| `FileSystem.CreateAddsChild` | src/TerminalApp.java:115 | creating an entry adds exactly its name to the listing of its parent |
| `FileSystem.WriteBackUnchanged` | src/TerminalApp.java:281 | writing back what was read leaves the filesystem as it was |
| `FileSystem.WrittenReadsBack` | src/TerminalApp.java:281 | what was written is what is read back |
| `RecursiveDelete.SortByDepth` | src/TerminalApp.java:242 | the sorted walk is a permutation of the walk, in non-increasing depth |
| `RecursiveDelete.DeleteAll` | src/TerminalApp.java:243-249 | a sweep keeps the filesystem well formed, only removes entries, and reports as failed only entries it was given |
| `RecursiveDelete.SweepContinues` | src/TerminalApp.java:243-248 | best effort: after any prefix of the walk, whatever failed, the sweep carries on with every remaining entry |
| `RecursiveDelete.SweepStaysInside` | src/TerminalApp.java:241-249 | a sweep over entries inside a subtree removes nothing outside it |
| `RecursiveDelete.SweepWithoutFailuresClears` | src/TerminalApp.java:243-249 | a sweep in which nothing failed has removed every entry it was given |
| `RecursiveDelete.WalkInside` | src/TerminalApp.java:241 | every entry of the walk names the target or something below it |
| `RecursiveDelete.WalkOfPlain` | src/TerminalApp.java:241 | for a target without "." or "..", the walk is exactly the target and everything below it |
| `RecursiveDelete.AncestorsRemain` | src/TerminalApp.java:242 | in a deepest-first walk of a target without "." or "..", every ancestor of an entry is still present when the entry's turn comes |
| `RecursiveDelete.ChildrenGone` | src/TerminalApp.java:242 | in a deepest-first walk of a target without "." or "..", every entry is empty when its turn comes: all its children were attempted before it |
| `RecursiveDelete.PlainIsDirect` | src/TerminalApp.java:125 | a path without "." or ".." names its target directly |
| `RecursiveDelete.ParentRefIsDirect` | src/TerminalApp.java:125 | `../d` typed inside the directory `d` names that directory directly |
| `RecursiveDelete.RelocatedWalk` | src/TerminalApp.java:241 | each walk entry of a path extends it by a plain relative path; normalised, the entries list the subtree of the normalised target, every entry once and deepest first |
| `RecursiveDelete.EntryReachable` | src/TerminalApp.java:241-245 | for a directly named target, the path of each walk entry can still be walked when its turn comes |
| `RecursiveDelete.StepSucceeds` | src/TerminalApp.java:245 | for a directly named target with nothing refused, what remains before each deletion of the sorted walk is well formed, and the deletion succeeds and removes exactly the entry its path names |
| `RecursiveDelete.DoneKeepsWellFormed` | src/TerminalApp.java:242 | deepest first, what remains after any number of deletions is still a well-formed tree: no entry outlives its parent |
| `RecursiveDelete.SweepPrefixSucceeds` | src/TerminalApp.java:241-249 | for a directly named target with nothing refused, after any number of steps exactly the entries named so far are gone and nothing failed |
| `RecursiveDelete.SweepRemovesSubtree` | src/TerminalApp.java:240-250 | for a directly named target other than the root, with nothing refused, the sweep removes exactly the subtree of the normalised target, target included, and reports no failure |
| `RecursiveDelete.SweptStaysInside` | src/TerminalApp.java:240-250 | a recursive delete, in any walk order, only removes entries, and none outside the normalised target |
| `RecursiveDelete.SweptRemovesSubtree` | src/TerminalApp.java:240-250 | a recursive delete of a directly named target other than the root, none of whose entries is refused, removes exactly its subtree, whatever the walk order |
| `Terminal.StepEndsLine` | src/TerminalApp.java:74-236 | every reply is empty or ends with a newline, so the prompt always starts a new line |
| `Terminal.InitialPrompt` | src/TerminalApp.java:41-42 | the welcome banner ends at a fresh prompt |
| `Terminal.PromptAfterReply` | src/TerminalApp.java:237 | after a reply that ends its line, the display ends at a fresh prompt |
| `Terminal.Enumerate` | src/TerminalApp.java:196 | the listing contains every element of the set exactly once and nothing else |
| `Terminal.Session.constructor` | src/TerminalApp.java:41-42 | the session starts in the given directory with no editor open, showing the banner and a prompt |
| `Terminal.Session.Type` | src/TerminalApp.java:44 | typed text is appended to the display and to the pending line |
| `Terminal.Session.PressEnter` | src/TerminalApp.java:50-56 | Enter processes exactly the typed text, trimmed |
| `Terminal.Session.ProcessCommand` | src/TerminalApp.java:66-238 | an empty line changes nothing; any other line makes one `Step`, shows a blank line, the reply and a new prompt (`clear` wipes the display first; `exit` ends the session without a prompt) |
| `Terminal.Session.Dispatch` | src/TerminalApp.java:74-236 | the command name selects the branch and the session changes as that branch's step says |
| `Terminal.Session.CreateEntry` | src/TerminalApp.java:102-118 | `touch`/`mkdir`: a missing argument is reported; otherwise the outcome of the creation is applied and reported |
| `Terminal.Session.Remove` | src/TerminalApp.java:120-157 | `rm` follows the recursive form or the four-way policy of the bare form, with the confirmation gate |
| `Terminal.Session.DeleteOne` | src/TerminalApp.java:147-152 | one deletion: success is reported, a failure becomes an error line and changes nothing |
| `Terminal.Session.DeleteDirectory` | src/TerminalApp.java:240-250 | the entries are attempted in a deepest-first walk order, and the new filesystem and the failures are those of the sweep over that order |
| `Terminal.Session.Cat` | src/TerminalApp.java:159-171 | `cat` prints the content of an existing file, and reports a missing argument, a missing file or a read error |
| `Terminal.Session.OpenNano` | src/TerminalApp.java:173-179 | `nano` opens an editor on the resolved path, loaded with what is there, and prints nothing |
| `Terminal.Session.ChangeDirectory` | src/TerminalApp.java:181-193 | `cd` moves to the normalised target only when it is a directory |
| `Terminal.Session.ListDirectory` | src/TerminalApp.java:195-201 | `ls` prints the names in the working directory one per line, each exactly once |
| `Terminal.Session.SaveEditor` | src/TerminalApp.java:279-286 | while the program runs, saving writes the editor's text to its file and closes the editor; a failed write changes no file and leaves the editor open with that text |
| `Terminal.Session.CloseEditor` | src/TerminalApp.java:254 | while the program runs, closing an editor without saving changes no file |
| `TerminalProperties.OnlyCdMoves` | src/TerminalApp.java:187 | no command other than `cd` changes the working directory |
| `TerminalProperties.CdMovesToDirectory` | src/TerminalApp.java:185-191 | `cd` sets the working directory to the normalised target exactly when that is a directory and reports it; otherwise it reports "Directory not found" and stays |
| `TerminalProperties.OnlyWritersChangeFiles` | src/TerminalApp.java:74-233 | only `touch`, `mkdir` and `rm` change the filesystem |
| `TerminalProperties.MissingArgumentChangesNothing` | src/TerminalApp.java:102-183 | `touch`, `mkdir`, `rm`, `cat`, `nano` and `cd` without an argument print their own "Missing" error and change nothing |
| `TerminalProperties.UnknownCommandEchoes` | src/TerminalApp.java:230-232 | an unknown command name echoes the whole line and changes nothing |
| `TerminalProperties.CreateAddsOneEntry` | src/TerminalApp.java:102-118 | `touch`/`mkdir` on a new reachable path add exactly one empty file or directory; on a taken or unreachable path they print the error and change nothing |
| `TerminalProperties.CatShowsContent` | src/TerminalApp.java:159-171 | `cat` prints a file's content, an error for a directory and "File not found" for a missing path, and changes nothing |
| `TerminalProperties.LsListsWorkingDirectory` | src/TerminalApp.java:195-201 | `ls` prints each name in the working directory once; once the working directory is gone it prints an error |
| `TerminalProperties.RmMissingTarget` | src/TerminalApp.java:153-155 | bare `rm` on a missing path reports it and changes nothing |
| `TerminalProperties.RmRemovesFile` | src/TerminalApp.java:150-152 | bare `rm` on a file removes exactly that file, unless the system refuses it |
| `TerminalProperties.RmRemovesEmptyDirectory` | src/TerminalApp.java:146-149 | bare `rm` on an empty directory removes exactly it, unless it is the root, is named through "." or "..", or is refused, in which case an error is printed and nothing changes |
| `TerminalProperties.RmCancelled` | src/TerminalApp.java:135-145 | a declined confirmation changes nothing and prints "Deletion cancelled." |
| `TerminalProperties.RmConfirmedRemovesSubtree` | src/TerminalApp.java:135-142 | a confirmed `rm` of a non-empty directory other than the root, named directly, removes its whole subtree when none of it is refused |
| `TerminalProperties.RmRecursiveRemovesSubtree` | src/TerminalApp.java:123-128 | `rm -r` of a directory other than the root, named directly, removes its whole subtree without asking, when none of it is refused |
| `TerminalProperties.RmRecursiveNeedsDirectory` | src/TerminalApp.java:129-131 | `rm -r` of anything but a directory prints "is not a directory" and changes nothing |
| `TerminalProperties.RmStaysInsideTarget` | src/TerminalApp.java:120-157 | every form of `rm` only removes entries, and only ones at or below the path it names |
| `TerminalProperties.NanoLoadsContent` | src/TerminalApp.java:265-273 | nano opens a file with its content, a missing file empty, and a directory with the loading error |
| `TerminalProperties.SaveUneditedKeepsFiles` | src/TerminalApp.java:281 | saving a loaded, unedited buffer leaves the filesystem as it was |
| `TerminalProperties.SavedTextReopens` | src/TerminalApp.java:265-281 | reopening a saved file shows exactly the text that was saved |

## Left out

- The Swing window is not modelled: the frame, scroll pane, caret handling, fonts and the wiring of the key listener and the buttons.
  - The display is a string.
  - Typing is modelled as appending a line without a newline at the end of the display. Editing elsewhere in the text area, deleting the prompt and pasting newlines are not modelled.
- The `skibidi` image window (loading, scaling, showing) is presentation only. `skibidi` is modelled as printing nothing and changing nothing. Its "Unable to load image" error is not modelled.
- `System.exit(0)` after `exit` is modelled as a terminal state of the session (`exited`). After it no command is processed, and no nano window can be saved or closed.
- The confirmation dialog of `rm` is a boolean input, `confirm`.
- Permissions, locks and other operating-system reasons for a failed deletion are not modelled individually. A `refused` set of paths stands for all of them.
- Other I/O failures are not modelled: failures of `readString` on undecodable bytes, of `list` and `walk` on unreadable directories, and of `writeString` beyond the listed cases. Symbolic links are not modelled either.
- The text of JDK exception messages is not modelled. A message is the printed path the exception was raised for.
- Java's character-level path parsing is not modelled. This includes the `InvalidPathException` a NUL character raises, which `processCommand` does not catch. Paths are split at '/' into non-empty segments.
- The stack traces printed for failed deletions and failed saves are not modelled. `DeleteDirectory` returns the failed entries instead.
- The order in which `list` and `walk` yield entries is unspecified. `Enumerate` may choose any order, so the `ls` reply and the `rm -r` result are stated for every order the filesystem might use.
- The starting directory (`user.dir`) is a constructor parameter.
- `TerminalProperties.RmConfirmedRemovesSubtree` is stated only for directly named targets other than the root, with no refused entry. A path that walks through the subtree makes the result depend on the order of entries of equal depth. Deleting the root always fails at the last step. A refused entry leaves its ancestors in place. In those cases only `RmStaysInsideTarget` applies.
- `TerminalProperties.RmRecursiveRemovesSubtree` is stated only for directly named targets other than the root, with no refused entry, for the same reasons. In other cases only `RmStaysInsideTarget` applies.
- `RecursiveDelete.SweepRemovesSubtree` and `RecursiveDelete.SweptRemovesSubtree` carry the same restrictions, for the same reasons. `SweepStaysInside` and `SweptStaysInside` hold for every target.
