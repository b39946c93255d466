# A minimal interactive shell, modelled in Dafny

The shell reads a line, splits it on whitespace, looks the first token up
in a registry of three built-in commands (`exit`, `print`, `ls`) and runs
the command on the remaining tokens. An unknown name prints
`<name>: command not found`. A failing command's error message is printed
as is. A read of zero bytes ends the loop.

`ls [args]` lists a directory. The flags come from every argument that
starts with `-`: one containing `a` shows hidden entries (file names
starting with `.`), and one containing `r` recurses into subdirectories.
The listed path is the first argument that does not start with `-`, and
`.` when there is none. Each directory prints one line. Its subdirectories'
lines come first, because the line is printed only after the loop over the
entries ends. Each item on the line is the entry's path joined to the listed
path, with one leading `./` removed (so `ls foo` shows `foo/sub`, and `ls`
shows `sub`). The items of directories are decorated blue and bold with ANSI
Select Graphic Rendition controls (ECMA-48, section 8.3.117).

Modules, one per file:

- `Wrappers` (wrappers.dfy): `Option` and `Result`.
- `Strings` (strings.dfy): prefix and suffix tests, and `join(" ")`.
- `Color` (color.dfy): the colour codes, the `ColoredString` value, its
  builder methods and its rendering. It also holds a decoder that reads a
  rendering back.
- `Command` (command.dfy): `print`, the argument handling of `ls`, and the
  listing walk over an abstract directory tree. The walk appears twice: as
  the loop as written (`ListEntries`), and re-expressed as recursion over the
  entries (`ListDir`, with `Descend` for the loop's recursive calls). The two
  are proved equal, and the properties in `Listing` are stated about
  `ListDir`.
- `Listing` (listing.dfy): properties of the walk.
- `Shell` (shell.dfy): the tokeniser, the registry, one loop step, and the
  loop over a sequence of reads.

The file system is a parameter. Reading a directory yields either its
entries, in the order the OS returns them, or the I/O error message. Each
entry has a name, `is_dir`, and what reading it as a directory yields. The
read of the top-level path is a function `open: string -> Directory`.

Two behaviours of the code are easy to miss:

- A space follows a shown entry when its raw index is below the raw entry
  count minus one, and hidden entries count too. So when the last raw entry
  is hidden, the last shown entry keeps a trailing space
  (`Listing.LineShape`, `Listing.HiddenLastKeepsSpace`).
- The flags are not limited to `-a` and `-r`: any argument starting with `-`
  that contains the letter sets the flag (`--all`, `-xa`, `-ra`).

## Model

| member | source | states |
|---|---|---|
| Color.ForegroundDisplay | src/color.rs:6-18 | a foreground colour renders as `ESC [ code m` with Red 31, Green 32, Blue 34 |
| Color.BackgroundDisplay | src/color.rs:20-32 | a background colour renders as `ESC [ code m` with Red 41, Green 42, Blue 44 |
| Color.AttributeDisplay | src/color.rs:34-44 | bold renders exactly `ESC [1m` |
| Color.Decimal | src/color.rs:16 | the `u8` code is written in decimal: digits only, never empty, no leading zero |
| Color.SgrParts | src/color.rs:16 | `Sgr`: a control is `ESC [`, then the decimal code, which reads back as the code, then `m` |
| Color.DecimalRoundTrip | src/color.rs:16 | the decimal form of a code reads back as the code |
| Color.SetFg | src/color.rs:55-58 | `fg` sets the foreground and leaves text, background and attribute unchanged |
| Color.SetBg | src/color.rs:60-63 | `bg` sets the background and leaves text, foreground and attribute unchanged |
| Color.SetAttr | src/color.rs:65-68 | `attr` sets the attribute and leaves text and colours unchanged |
| Color.SetFgRed | src/color.rs:70-73 | `fg_red` is `fg(Red)` |
| Color.SetFgGreen | src/color.rs:75-78 | `fg_green` is `fg(Green)` |
| Color.SetFgBlue | src/color.rs:80-83 | `fg_blue` is `fg(Blue)` |
| Color.SetBold | src/color.rs:85-88 | `bold` is `attr(Bold)` |
| Color.SettersIdempotentAndCommute | src/color.rs:55-88 | applying a setter twice equals applying it once; a later setter of the same field wins; setters of different fields commute |
| Color.Render | src/color.rs:91-104 | an undecorated value renders to its bare text with no reset; a decorated one renders as fg? ++ bg? ++ attr? ++ text ++ `ESC [0m`, always in that order |
| Color.DecodeRender | src/color.rs:91-104 | when the text holds no ESC, the value can be read back from its rendering, so no field is lost or reordered |
| Color.RenderInjective | src/color.rs:91-104 | two values whose texts hold no ESC render alike only if they are equal |
| Color.Colored | src/color.rs:107-115 | `color()` has no foreground, background or attribute, and its text is the display string |
| Color.ColoredRendersText | src/color.rs:107-115 | `x.color()` renders to `x.to_string()` |
| Color.BlueBoldRendering | src/color.rs:80-97 | `fg_blue().bold()` on a plain value renders `ESC [34m ESC [1m` + text + `ESC [0m` |
| Strings.JoinSpaced | src/command.rs:24 | `join(" ")`: empty for no pieces, the piece itself for one, and otherwise starts with the first piece and ends with the last (the separators are fixed by `JoinSpacedCons`) |
| Strings.JoinSpacedCons | src/command.rs:24 | joining splits as the first piece, one space, then the join of the rest; with `JoinSpaced`'s ends this fixes the join exactly |
| Command.PrintLine | src/command.rs:21-27 | `print` with no arguments prints the empty line; with one it prints that argument; with more it prints the first argument, one space, then the line for the rest |
| Command.AnyOptionWith | src/command.rs:33-38 | holds iff some argument starts with `-` and contains the letter |
| Command.ParseFlags | src/command.rs:33-38 | `show_hidden` iff some `-` argument contains `a`; `recursive` iff some `-` argument contains `r` |
| Command.CombinedOptionSetsBoth | src/command.rs:33-38 | `-ra` sets both flags |
| Command.ListedPath | src/command.rs:77-78 | the path is the first argument not starting with `-`, or `.` when every argument starts with `-` |
| Command.JoinPathParts | src/command.rs:44 | `JoinPath`, modelling `entry.path()`, starts with the directory path and ends with the file name, with one `/` between them unless the path is empty or already ends in `/` |
| Command.StripCurrentDirRemovesPrefix | src/command.rs:56-57 | `StripCurrentDir`: a single leading `./` is removed; an item without one is unchanged |
| Command.CurrentDirItem | src/command.rs:56-57 | entries of the default path `.` are shown by their bare names |
| Command.EntryPiece | src/command.rs:56-67 | the loop body for a shown entry, with the item rendered by `color().fg_blue().bold()` for a directory, appends `Decorate` of the displayed item plus the separator |
| Command.DecorateIsBlueBold | src/command.rs:59-63 | `Decorate`: a directory's item is the rendering of the item made blue and then bold; any other item is shown unchanged |
| Command.ListEntries | src/command.rs:32-75 | the loop as written (skip hidden, strip `./`, render directories with `color().fg_blue().bold()`, raw-index separator, recursion with the same flags, early return on error) prints exactly the lines and returns exactly the error of the walk `ListDir` |
| Command.DescendStopsAtError | src/command.rs:70 | once a recursive call fails, the remaining iterations change nothing |
| Command.ListCommand | src/command.rs:77-80 | `ls` lists the chosen path with the flags of all arguments; the lines printed are kept, and the command fails exactly when the walk meets an I/O error, with that message |
| Command.Execute | src/command.rs:14-27 | `exit`, and only `exit`, ends the process; `print` prints its arguments joined by single spaces and succeeds |
| Listing.ShownEntriesMembers | src/command.rs:46-54 | `ShownEntries`: the shown entries are exactly the entries that are visible under the flags |
| Listing.NoHiddenEntryShown | src/command.rs:46-54 | without `-a`, an entry is shown iff its name does not start with `.` |
| Listing.ShownItemsOfShownEntries | src/command.rs:56-63 | the items are those of the shown entries, one each, in directory order |
| Listing.LineBeforeLast | src/command.rs:52-67 | `Line` and `Piece`: before the last raw entry, every shown item is followed by exactly one space |
| Listing.LineShape | src/command.rs:41-67 | `Line`: a directory's line is its shown items joined by single spaces, plus one trailing space exactly when something is shown and the last raw entry is hidden |
| Listing.LineWithHidden | src/command.rs:52-67 | with `-a` every entry is shown and the line has no trailing space |
| Listing.HiddenLastKeepsSpace | src/command.rs:65-67 | entries `a`, `.b` listed without `-a` give the single line `"a "` |
| Listing.NonRecursiveSingleLine | src/command.rs:69-73 | without `-r`, `ls` on a readable directory prints exactly its own line and cannot fail |
| Listing.HiddenNeverEntered | src/command.rs:52-71 | without `-a`, the contents of a hidden directory, even an unreadable one, do not affect the listing |
| Listing.WalkOrder | src/command.rs:32-75 | `ListDir` and `Descend`: a successful listing prints the listings of the entered subdirectories, each once and in entry order, then the directory's own line, and nothing else |
| Listing.FirstFailure | src/command.rs:42-73 | `ListDir` and `Descend` on failure: the walk stops at the first entered subdirectory whose listing fails, having printed the listings of the entered subdirectories before it, in order, and that subdirectory's lines; it returns that subdirectory's error and never prints its own line |
| Listing.ChildBeforeParent | src/command.rs:69-73 | in a successful listing, every entered subdirectory's lines appear as one block before the parent's line, which comes last |
| Listing.ErrorIffChildFails | src/command.rs:69-71 | a readable directory's listing fails iff the listing of some entered subdirectory fails |
| Shell.TokenizeGivesTokens | src/main.rs:55 | every token is non-empty and holds no whitespace |
| Shell.TokensKeepText | src/main.rs:55 | the tokens, concatenated, are the input with its whitespace removed |
| Shell.TokenizeJoined | src/main.rs:55 | splitting tokens joined by single spaces gives the same tokens back |
| Shell.TokenizeToken | src/main.rs:55 | `Tokenize`: a token followed by whitespace or the end is split off whole |
| Shell.LeadingWhitespaceIgnored | src/main.rs:55 | `Tokenize`: leading whitespace of any kind adds no token and splits none; with `TokenizeToken` and the empty input this fixes the split on every input |
| Shell.TrailingWhitespaceIgnored | src/main.rs:55 | trailing whitespace, such as the newline `read_line` keeps, adds no token |
| Shell.Lookup | src/main.rs:37-45 | only `exit`, `print` and `ls` resolve, each to its own command |
| Shell.Step | src/main.rs:55-65 | a line leaves the loop iff its first token is `exit`; a line without a token is outside the domain |
| Shell.StepOutcome | src/main.rs:55-65 | the first token names the command and the rest are its arguments; an unknown name prints exactly `<name>: command not found`; success adds no output; an error message is printed verbatim after the command's lines |
| Shell.UnknownExample | src/main.rs:58-61 | `foo` prints `foo: command not found` and the loop continues |
| Shell.PrintEchoes | src/main.rs:55-65 | a `print` line made of tokens prints its arguments joined by spaces, and that line splits back into the same arguments |
| Shell.RunEnd | src/main.rs:47-66 | `Run`: the loop waits for more input iff no read so far was empty or requested `exit`; it stops at end of input only after an empty read, and on `exit` only after a read requesting it |
| Shell.LoopEnd | src/main.rs:47-66 | `Loop`: whatever a read leads to, the loop waits for more input iff no read was empty and none led to leaving; an empty read or a leaving read is behind every other ending |
| Shell.LoopConcat | src/main.rs:47-66 | `Loop`: whatever a read leads to, the loop is a left fold over the reads: two batches run in turn print what they print together, while the first leaves the loop waiting |
| Shell.HandlerIsStep | src/main.rs:55-65 | `Handler`: the handler of a non-empty read leaves the loop iff the read's first token is `exit`, and on a read with a token it is one step |
| Shell.RunConcat | src/main.rs:47-66 | the loop is a fold over the reads: two batches of reads processed in turn give the same output as processed together, provided the first batch neither ends input nor exits |
| Shell.ExitStops | src/main.rs:55-62 | `Run`: a read whose first token is `exit` ends the loop with nothing printed, whatever reads would follow |
| Shell.EndOfInputStops | src/main.rs:51-54 | a read of zero bytes ends the loop with nothing printed, whatever reads would follow |

## Left out

- The SIGINT handler and the `signal` foreign call (src/main.rs:9-18, 23-35). They are an asynchronous OS facility, not sequential logic.
- The prompt and its green colouring (src/main.rs:48), and the stdout flush. This is presentation only. Rendering a `fg_green()` value is covered by `Color.Render`.
- Real I/O. `println!` is modelled as returned lines and `read_line` as a given sequence of reads. The `unwrap` panics of flush and read (an I/O error, or input that is not UTF-8) are not modelled.
- `process::exit(0)` in `Exit` is an outcome (`Exited`, `Quit`, `ExitRequested`), not termination.
- `fs::read_dir` and `is_dir` are an abstract tree whose entry order is given: the OS does not specify one. The two `read_dir` calls (src/command.rs:40-41) are treated as one snapshot, so `total` is the entry count. Per-entry errors (`entry?`) are folded into an unreadable directory's error message. This loses one behaviour: with `-r`, a directory whose entry fails partway has already printed the lines of the subdirectories before that entry, and the model cannot represent those lines.
- File names are Dafny strings. Names that are not UTF-8 (counted as not hidden by `unwrap_or(false)`) are not modelled. `Path::join` is modelled only for plain file names, which is all `read_dir` yields.
- The flags are computed once and passed down. The source recomputes them from the same arguments at every depth, with the same result.
- Shell.Step: a read that is not empty but holds no token (a blank line) makes `parts[0]` panic. It is outside the modelled domain and excluded by the precondition (`Handled` for the loop, whose handler gives such a read an unused placeholder outcome).
