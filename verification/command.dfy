/** The built-in commands (src/command.rs): `exit`, `print` and `ls`.

    The file system is abstract. A directory read yields either the
    snapshot of its entries in the order the OS returns them, or the
    message of the I/O error; an entry has a file name, whether it is a
    directory (`is_dir`), and what reading it as a directory yields. */
module Command {
  import opened Wrappers
  import opened Strings
  import Color

  datatype Entry = Entry(name: string, isDir: bool, contents: Directory)

  datatype Directory = Readable(entries: seq<Entry>) | Unreadable(error: string)

  /** What `list_entries` leaves behind: the lines it printed, in order,
      and the error it returned, if any. */
  datatype Report = Report(lines: seq<string>, error: Option<string>)

  datatype Flags = Flags(showHidden: bool, recursive: bool)

  /** The three registered commands. */
  datatype Cmd = Exit | Print | List

  /** Running a command either ends the process (`process::exit(0)`) or
      completes with the lines it printed and its `CommandResult`. */
  datatype Execution = Exited | Completed(lines: seq<string>, result: Result<(), string>)

  // ---------------------------------------------------------------- print

  /** `Print::execute`: the one line it prints. */
  function PrintLine(args: seq<string>): (line: string)
    ensures |args| == 0 ==> line == ""
    ensures 0 < |args| ==> StartsWith(line, args[0]) && EndsWith(line, args[|args| - 1])
    ensures |args| == 1 ==> line == args[0]
    ensures 1 < |args| ==> line == args[0] + " " + PrintLine(args[1..])
  {
    if 1 < |args| then
      JoinSpacedCons(args[0], args[1..]);
      assert [args[0]] + args[1..] == args;
      JoinSpaced(args)
    else JoinSpaced(args)
  }

  // ------------------------------------------------------ ls: arguments

  /** An option is an argument that starts with `-`. */
  predicate IsOption(arg: string) {
    StartsWith(arg, "-")
  }

  /** Whether some argument is an option that contains the letter `c`. */
  function AnyOptionWith(args: seq<string>, c: char): (b: bool)
    ensures b <==> exists i :: 0 <= i < |args| && IsOption(args[i]) && c in args[i]
  {
    if |args| == 0 then false
    else (IsOption(args[0]) && c in args[0]) || AnyOptionWith(args[1..], c)
  }

  /** `show_hidden` looks for an `a`, `recursive` for an `r`, in any option. */
  function ParseFlags(args: seq<string>): (f: Flags)
    ensures f.showHidden <==> exists i :: 0 <= i < |args| && IsOption(args[i]) && 'a' in args[i]
    ensures f.recursive <==> exists i :: 0 <= i < |args| && IsOption(args[i]) && 'r' in args[i]
  {
    Flags(AnyOptionWith(args, 'a'), AnyOptionWith(args, 'r'))
  }

  lemma CombinedOptionSetsBoth(args: seq<string>)
    requires "-ra" in args
    ensures ParseFlags(args) == Flags(true, true)
  {
    var i :| 0 <= i < |args| && args[i] == "-ra";
    assert IsOption(args[i]) && 'a' in args[i] && 'r' in args[i];
  }

  /** The first argument that is not an option, or the current directory
      `.` when every argument is one. */
  function ListedPath(args: seq<string>): (p: string)
    ensures (forall i :: 0 <= i < |args| ==> IsOption(args[i])) ==> p == "."
    ensures forall i :: (0 <= i < |args| && !IsOption(args[i]) &&
                         (forall j :: 0 <= j < i ==> IsOption(args[j]))) ==> p == args[i]
  {
    if |args| == 0 then "."
    else if !IsOption(args[0]) then args[0]
    else
      var p := ListedPath(args[1..]);
      assert forall i :: 1 <= i < |args| ==> args[i] == args[1..][i - 1];
      p
  }

  // --------------------------------------------------- ls: one entry

  /** Rust's `Path::join` for a plain file name, as `read_dir` builds
      `entry.path()`: a `/` is inserted unless the directory path is empty
      or already ends in one. */
  function JoinPath(dir: string, name: string): string {
    if |dir| == 0 || dir[|dir| - 1] == '/' then dir + name else dir + "/" + name
  }

  /** The joined path starts with the directory and ends with the name,
      with exactly one separator between them unless there already is one. */
  lemma JoinPathParts(dir: string, name: string)
    ensures var p := JoinPath(dir, name);
      && StartsWith(p, dir) && EndsWith(p, name)
      && |p| == |dir| + |name| + (if |dir| == 0 || dir[|dir| - 1] == '/' then 0 else 1)
      && (0 < |dir| && dir[|dir| - 1] != '/' ==> p[|dir|] == '/')
  {
    var p := JoinPath(dir, name);
    assert p[..|dir|] == dir;
  }

  /** The displayed item: the path with one leading `./` removed, if it
      has one. */
  function StripCurrentDir(item: string): string {
    if StartsWith(item, "./") then item[2..] else item
  }

  /** Exactly one leading `./` is removed, and nothing else changes. */
  lemma StripCurrentDirRemovesPrefix(item: string)
    ensures StartsWith(item, "./") ==> "./" + StripCurrentDir(item) == item
    ensures !StartsWith(item, "./") ==> StripCurrentDir(item) == item
  {
    if StartsWith(item, "./") {
      assert item == item[..2] + item[2..];
    }
  }

  /** Listing the default path shows bare file names. */
  lemma CurrentDirItem(name: string)
    ensures StripCurrentDir(JoinPath(".", name)) == name
  {
    assert JoinPath(".", name) == "./" + name;
  }

  /** Directories are shown with a blue foreground and bold, other entries
      as the value itself. The controls are written out here so that the
      listing proofs need not unfold the renderer; `DecorateIsBlueBold`
      shows they are the renderer's. */
  function Decorate(value: string, isDir: bool): string {
    if isDir then
      "\U{1B}[34m\U{1B}[1m" + value + "\U{1B}[0m"
    else value
  }

  /** The decoration is the rendering of the value made blue and then bold. */
  lemma DecorateIsBlueBold(value: string, isDir: bool)
    ensures isDir ==> Decorate(value, isDir) == Color.Render(Color.SetBold(Color.SetFgBlue(Color.Colored(value))))
    ensures !isDir ==> Decorate(value, isDir) == value
  {
    Color.BlueBoldRendering(value);
  }

  /** A file name starting with `.` is hidden. */
  predicate IsHidden(name: string) {
    StartsWith(name, ".")
  }

  predicate Shown(flags: Flags, e: Entry) {
    flags.showHidden || !IsHidden(e.name)
  }

  /** The walk enters a shown directory when it is recursing. */
  predicate Descends(flags: Flags, e: Entry) {
    flags.recursive && Shown(flags, e) && e.isDir
  }

  /** What a shown entry of directory `path` contributes to the line. */
  function Item(path: string, e: Entry): string {
    Decorate(StripCurrentDir(JoinPath(path, e.name)), e.isDir)
  }

  // --------------------------------------------- ls: the directory line

  /** The text loop iteration `i` appends to `output`: nothing for a
      skipped entry; otherwise the item, then a space when the raw index
      `i` is below `total - 1`, where `total` counts hidden entries too. */
  function Piece(path: string, flags: Flags, es: seq<Entry>, i: nat): string
    requires i < |es|
  {
    if !Shown(flags, es[i]) then ""
    else Item(path, es[i]) + (if i < |es| - 1 then " " else "")
  }

  /** `output` after the first `k` loop iterations. */
  function Line(path: string, flags: Flags, es: seq<Entry>, k: nat): string
    requires k <= |es|
  {
    if k == 0 then "" else Line(path, flags, es, k - 1) + Piece(path, flags, es, k - 1)
  }

  // ------------------------------------------------ ls: the whole walk

  function Width(d: Directory): nat {
    if d.Readable? then |d.entries| + 1 else 0
  }

  /** The lines printed and the error met by the recursive calls of the
      first `k` loop iterations over `d`'s entries. */
  function Descend(path: string, flags: Flags, d: Directory, k: nat): (r: Report)
    requires d.Readable? && k <= |d.entries|
    decreases d, k
  {
    if k == 0 then Report([], None)
    else
      var prev := Descend(path, flags, d, k - 1);
      var e := d.entries[k - 1];
      if prev.error.Some? || !Descends(flags, e) then prev
      else
        var sub := ListDir(JoinPath(path, e.name), flags, e.contents);
        Report(prev.lines + sub.lines, sub.error)
  }

  /** `list_entries(path, args)`: every descended subdirectory's lines,
      then this directory's line; an error stops the walk where it occurs
      and this directory's line is then never printed. */
  function ListDir(path: string, flags: Flags, d: Directory): (r: Report)
    decreases d, Width(d)
  {
    match d
    case Unreadable(e) => Report([], Some(e))
    case Readable(es) =>
      var sub := Descend(path, flags, d, |es|);
      if sub.error.Some? then sub
      else Report(sub.lines + [Line(path, flags, es, |es|)], None)
  }

  /** The loop of `list_entries`, with `println!` collected into `lines`. */
  method ListEntries(path: string, flags: Flags, d: Directory)
    returns (lines: seq<string>, error: Option<string>)
    ensures Report(lines, error) == ListDir(path, flags, d)
    decreases d
  {
    if d.Unreadable? {
      return [], Some(d.error);
    }
    var es := d.entries;
    var total := |es|;
    var output := "";
    lines := [];
    for i := 0 to |es|
      invariant output == Line(path, flags, es, i)
      invariant Descend(path, flags, d, i).lines == lines
      invariant Descend(path, flags, d, i).error == None
    {
      var e := es[i];
      DescendStep(path, flags, d, i);
      if !flags.showHidden && IsHidden(e.name) {
        continue;
      }
      var entryPath := JoinPath(path, e.name);
      var piece := EntryPiece(entryPath, e.isDir, i < total - 1);
      assert piece == Piece(path, flags, es, i);
      output := output + piece;
      if flags.recursive && e.isDir {
        var sub, err := ListEntries(entryPath, flags, e.contents);
        lines := lines + sub;
        if err.Some? {
          DescendStopsAtError(path, flags, d, i + 1, total);
          return lines, err;
        }
      }
    }
    lines := lines + [output];
    error := None;
  }

  /** The body of the loop for a shown entry, up to the recursive call:
      the text it appends to `output`. */
  method EntryPiece(entryPath: string, isDir: bool, separated: bool) returns (piece: string)
    ensures piece == Decorate(StripCurrentDir(entryPath), isDir) + (if separated then " " else "")
  {
    var value := StripCurrentDir(entryPath);
    if isDir {
      piece := Color.Render(Color.SetBold(Color.SetFgBlue(Color.Colored(value))));
      DecorateIsBlueBold(value, true);
    } else {
      piece := value;
    }
    if separated {
      piece := piece + " ";
    }
  }

  /** One loop iteration: the piece it appends, and the recursive call it
      makes exactly when the entry is descended into. */
  lemma DescendStep(path: string, flags: Flags, d: Directory, i: nat)
    requires d.Readable? && i < |d.entries|
    requires Descend(path, flags, d, i).error == None
    ensures Line(path, flags, d.entries, i + 1) == Line(path, flags, d.entries, i) + Piece(path, flags, d.entries, i)
    ensures !Descends(flags, d.entries[i]) ==> Descend(path, flags, d, i + 1) == Descend(path, flags, d, i)
    ensures Descends(flags, d.entries[i]) ==>
      var e := d.entries[i];
      var sub := ListDir(JoinPath(path, e.name), flags, e.contents);
      Descend(path, flags, d, i + 1) == Report(Descend(path, flags, d, i).lines + sub.lines, sub.error)
  {
  }

  /** Once a recursive call has failed, later iterations change nothing. */
  lemma {:induction false} DescendStopsAtError(path: string, flags: Flags, d: Directory, k: nat, m: nat)
    requires d.Readable? && k <= m <= |d.entries|
    requires Descend(path, flags, d, k).error.Some?
    ensures Descend(path, flags, d, m) == Descend(path, flags, d, k)
    decreases m
  {
    if k < m {
      DescendStopsAtError(path, flags, d, k, m - 1);
    }
  }

  /** `List::execute`: list the chosen path with the flags of all arguments;
      an I/O error becomes the command's error message. */
  function ListCommand(args: seq<string>, open: string -> Directory): (r: (seq<string>, Result<(), string>))
    ensures var rep := ListDir(ListedPath(args), ParseFlags(args), open(ListedPath(args)));
            r.0 == rep.lines && (r.1.Err? <==> rep.error.Some?) &&
            (rep.error.Some? ==> r.1.error == rep.error.value)
  {
    var path := ListedPath(args);
    var rep := ListDir(path, ParseFlags(args), open(path));
    match rep.error
    case None => (rep.lines, Ok(()))
    case Some(message) => (rep.lines, Err(message))
  }

  /** `Command::execute` for each registered command. */
  function Execute(cmd: Cmd, args: seq<string>, open: string -> Directory): (x: Execution)
    ensures cmd == Exit <==> x == Exited
    ensures cmd == Print ==> x == Completed([JoinSpaced(args)], Ok(()))
  {
    match cmd
    case Exit => Exited
    case Print => Completed([PrintLine(args)], Ok(()))
    case List =>
      var (lines, result) := ListCommand(args, open);
      Completed(lines, result)
  }
}
