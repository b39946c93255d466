/** Properties of the `ls` walk modelled in module Command: what a
    directory's line is made of, which entries are shown and entered,
    and how the printed lines of a recursive listing are ordered. */
module Listing {
  import opened Wrappers
  import opened Strings
  import opened Command

  /** The entries `ls` shows, in directory order. */
  function ShownEntries(flags: Flags, es: seq<Entry>): seq<Entry> {
    if |es| == 0 then []
    else ShownEntries(flags, es[..|es| - 1]) + (if Shown(flags, es[|es| - 1]) then [es[|es| - 1]] else [])
  }

  /** The shown entries are exactly the entries visible under the flags. */
  lemma {:induction false} ShownEntriesMembers(flags: Flags, es: seq<Entry>)
    ensures |ShownEntries(flags, es)| <= |es|
    ensures forall e :: e in ShownEntries(flags, es) <==> e in es && Shown(flags, e)
  {
    if 0 < |es| {
      var init, last := es[..|es| - 1], es[|es| - 1];
      ShownEntriesMembers(flags, init);
      assert es == init + [last];
    }
  }

  /** The items of the shown entries among the first `k`, in directory order. */
  function ShownItems(path: string, flags: Flags, es: seq<Entry>, k: nat): seq<string>
    requires k <= |es|
  {
    if k == 0 then []
    else ShownItems(path, flags, es, k - 1) + (if Shown(flags, es[k - 1]) then [Item(path, es[k - 1])] else [])
  }

  lemma {:induction false} ShownItemsPrefix(path: string, flags: Flags, es: seq<Entry>, k: nat)
    requires k <= |es|
    ensures |ShownItems(path, flags, es, k)| == |ShownEntries(flags, es[..k])|
    ensures forall j :: 0 <= j < |ShownItems(path, flags, es, k)| ==>
              ShownItems(path, flags, es, k)[j] == Item(path, ShownEntries(flags, es[..k])[j])
  {
    if k == 0 {
      assert es[..0] == [];
    } else {
      var pre, e := es[..k], es[k - 1];
      ShownItemsPrefix(path, flags, es, k - 1);
      var items := ShownItems(path, flags, es, k - 1);
      var ents := ShownEntries(flags, es[..k - 1]);
      assert pre[..k - 1] == es[..k - 1] && pre[k - 1] == e;
      assert ShownEntries(flags, pre) == ents + (if Shown(flags, e) then [e] else []);
      assert ShownItems(path, flags, es, k) == items + (if Shown(flags, e) then [Item(path, e)] else []);
    }
  }

  /** The items are those of the shown entries, one each, in order. */
  lemma ShownItemsOfShownEntries(path: string, flags: Flags, es: seq<Entry>)
    ensures |ShownItems(path, flags, es, |es|)| == |ShownEntries(flags, es)|
    ensures forall j :: 0 <= j < |ShownItems(path, flags, es, |es|)| ==>
              ShownItems(path, flags, es, |es|)[j] == Item(path, ShownEntries(flags, es)[j])
  {
    ShownItemsPrefix(path, flags, es, |es|);
    assert es[..|es|] == es;
  }

  /** Without `-a`, no shown entry is hidden, and every entry that is not
      hidden is shown. */
  lemma NoHiddenEntryShown(flags: Flags, es: seq<Entry>)
    requires !flags.showHidden
    ensures forall e :: e in ShownEntries(flags, es) <==> e in es && !IsHidden(e.name)
  {
    ShownEntriesMembers(flags, es);
  }

  /** Every piece followed by a space. */
  function Spaced(xs: seq<string>): string {
    if |xs| == 0 then "" else Spaced(xs[..|xs| - 1]) + xs[|xs| - 1] + " "
  }

  lemma {:induction false} SpacedIsJoinedPlusSpace(xs: seq<string>)
    requires 0 < |xs|
    ensures Spaced(xs) == JoinSpaced(xs) + " "
  {
    if 1 < |xs| {
      SpacedIsJoinedPlusSpace(xs[..|xs| - 1]);
    } else {
      assert xs[..0] == [];
    }
  }

  lemma SpacedThenLast(xs: seq<string>, y: string)
    ensures Spaced(xs) + y == JoinSpaced(xs + [y])
  {
    var ys := xs + [y];
    assert ys[..|ys| - 1] == xs;
    if 0 < |xs| {
      SpacedIsJoinedPlusSpace(xs);
    }
  }

  lemma AppendLast(xs: seq<string>, y: string)
    ensures Spaced(xs + [y]) == Spaced(xs) + y + " "
  {
    assert (xs + [y])[..|xs|] == xs;
  }

  /** Before the last raw entry every shown item is followed by a space. */
  lemma {:induction false} LineBeforeLast(path: string, flags: Flags, es: seq<Entry>, k: nat)
    requires k < |es|
    ensures Line(path, flags, es, k) == Spaced(ShownItems(path, flags, es, k))
  {
    if 0 < k {
      LineBeforeLast(path, flags, es, k - 1);
      var items := ShownItems(path, flags, es, k - 1);
      var e := es[k - 1];
      assert Line(path, flags, es, k) == Spaced(items) + Piece(path, flags, es, k - 1);
      if Shown(flags, e) {
        var it := Item(path, e);
        assert Piece(path, flags, es, k - 1) == it + " ";
        assert ShownItems(path, flags, es, k) == items + [it];
        AppendLast(items, it);
        assert Spaced(items) + (it + " ") == Spaced(items) + it + " ";
      } else {
        assert Piece(path, flags, es, k - 1) == "";
        assert ShownItems(path, flags, es, k) == items;
        assert Spaced(items) + "" == Spaced(items);
      }
    }
  }

  /** The line of a directory: its shown items joined by single spaces,
      plus one trailing space exactly when some entry is shown and the
      last raw entry is a hidden one that was skipped (the separator test
      compares the raw index with the raw count). */
  lemma LineShape(path: string, flags: Flags, es: seq<Entry>)
    ensures var items := ShownItems(path, flags, es, |es|);
      Line(path, flags, es, |es|) ==
      JoinSpaced(items) + (if 0 < |items| && !Shown(flags, es[|es| - 1]) then " " else "")
  {
    if 0 < |es| {
      var n := |es|;
      var e := es[n - 1];
      LineBeforeLast(path, flags, es, n - 1);
      var items := ShownItems(path, flags, es, n - 1);
      assert Line(path, flags, es, n) == Spaced(items) + Piece(path, flags, es, n - 1);
      if Shown(flags, e) {
        var it := Item(path, e);
        assert Piece(path, flags, es, n - 1) == it;
        assert ShownItems(path, flags, es, n) == items + [it];
        SpacedThenLast(items, it);
      } else {
        assert Piece(path, flags, es, n - 1) == "";
        assert ShownItems(path, flags, es, n) == items;
        if items != [] {
          SpacedIsJoinedPlusSpace(items);
        }
      }
    }
  }

  /** With `-a` nothing is skipped, and the line is the items joined with
      single spaces, with no trailing space. */
  lemma LineWithHidden(path: string, flags: Flags, es: seq<Entry>)
    requires flags.showHidden
    ensures ShownEntries(flags, es) == es
    ensures Line(path, flags, es, |es|) == JoinSpaced(ShownItems(path, flags, es, |es|))
  {
    ShownEntriesAll(flags, es);
    LineShape(path, flags, es);
  }

  lemma {:induction false} ShownEntriesAll(flags: Flags, es: seq<Entry>)
    requires flags.showHidden
    ensures ShownEntries(flags, es) == es
  {
    if 0 < |es| {
      var init, last := es[..|es| - 1], es[|es| - 1];
      ShownEntriesAll(flags, init);
      assert ShownEntries(flags, es) == ShownEntries(flags, init) + [last];
      assert init + [last] == es;
    }
  }

  /** A hidden last entry leaves a space after the last shown one. */
  lemma HiddenLastKeepsSpace()
    ensures var es := [Entry("a", false, Readable([])), Entry(".b", false, Readable([]))];
            ListDir(".", Flags(false, false), Readable(es)) == Report(["a "], None)
  {
    var flags := Flags(false, false);
    var es := [Entry("a", false, Readable([])), Entry(".b", false, Readable([]))];
    CurrentDirItem("a");
    assert !IsHidden("a") && IsHidden(".b");
    assert Item(".", es[0]) == "a";
    assert Piece(".", flags, es, 0) == "a ";
    assert Piece(".", flags, es, 1) == "";
    assert Line(".", flags, es, 2) == "a ";
    NonRecursiveSingleLine(".", flags, es);
  }

  /** Without `-r`, `ls` prints exactly one line and cannot fail below
      the listed directory. */
  lemma NonRecursiveSingleLine(path: string, flags: Flags, es: seq<Entry>)
    requires !flags.recursive
    ensures ListDir(path, flags, Readable(es)) == Report([Line(path, flags, es, |es|)], None)
  {
    NonRecursiveNoDescent(path, flags, Readable(es), |es|);
  }

  lemma {:induction false} NonRecursiveNoDescent(path: string, flags: Flags, d: Directory, k: nat)
    requires !flags.recursive && d.Readable? && k <= |d.entries|
    ensures Descend(path, flags, d, k) == Report([], None)
  {
    if 0 < k {
      NonRecursiveNoDescent(path, flags, d, k - 1);
    }
  }

  /** Without `-a`, what lies inside a hidden directory (even an unreadable
      one) makes no difference: it is never entered. */
  lemma HiddenNeverEntered(path: string, flags: Flags, es: seq<Entry>, i: nat, c: Directory)
    requires i < |es| && !flags.showHidden && IsHidden(es[i].name)
    ensures ListDir(path, flags, Readable(es[i := es[i].(contents := c)])) == ListDir(path, flags, Readable(es))
  {
    var es' := es[i := es[i].(contents := c)];
    SameWalk(path, flags, es, es', |es|);
  }

  lemma {:induction false} SameWalk(path: string, flags: Flags, es: seq<Entry>, es': seq<Entry>, k: nat)
    requires |es| == |es'| && k <= |es|
    requires forall j :: 0 <= j < |es| ==> es'[j].name == es[j].name && es'[j].isDir == es[j].isDir
    requires forall j :: 0 <= j < |es| && es'[j] != es[j] ==> !Shown(flags, es[j])
    ensures Line(path, flags, es', k) == Line(path, flags, es, k)
    ensures Descend(path, flags, Readable(es'), k) == Descend(path, flags, Readable(es), k)
  {
    if 0 < k {
      SameWalk(path, flags, es, es', k - 1);
      assert Piece(path, flags, es', k - 1) == Piece(path, flags, es, k - 1);
    }
  }

  /** The recursive calls made so far printed a prefix of what the loop
      prints in the end, and had not failed, if the loop does not fail. */
  lemma {:induction false} DescendPrefix(path: string, flags: Flags, d: Directory, k: nat, m: nat)
    requires d.Readable? && k <= m <= |d.entries|
    requires Descend(path, flags, d, m).error == None
    ensures Descend(path, flags, d, k).error == None
    ensures Descend(path, flags, d, k).lines <= Descend(path, flags, d, m).lines
    decreases m
  {
    if k < m {
      var prev := Descend(path, flags, d, m - 1);
      assert prev.error == None;
      assert prev.lines <= Descend(path, flags, d, m).lines;
      DescendPrefix(path, flags, d, k, m - 1);
    }
  }

  /** The listing of the subdirectory behind entry `i`. */
  function Child(path: string, flags: Flags, es: seq<Entry>, i: nat): Report
    requires i < |es|
  {
    ListDir(JoinPath(path, es[i].name), flags, es[i].contents)
  }

  /** `block` occurs in `lines` at position `p`, and something follows it. */
  predicate BlockBefore(block: seq<string>, lines: seq<string>, p: nat) {
    p + |block| < |lines| && lines[p..p + |block|] == block
  }

  /** What follows a prefix `a` of `all` in a longer prefix `a + b`. */
  lemma BlockAfterPrefix<T>(a: seq<T>, b: seq<T>, all: seq<T>)
    requires a + b <= all
    ensures |a| + |b| <= |all| && all[|a|..|a| + |b|] == b
  {
    assert all[|a|..|a| + |b|] == (a + b)[|a|..];
  }

  /** In a walk that does not fail, the recursive call of iteration `i`
      succeeded, and its lines follow those of the earlier iterations. */
  lemma ChildInDescend(path: string, flags: Flags, es: seq<Entry>, i: nat)
    requires i < |es| && Descends(flags, es[i])
    requires Descend(path, flags, Readable(es), |es|).error == None
    ensures Child(path, flags, es, i).error == None
    ensures Descend(path, flags, Readable(es), i).lines + Child(path, flags, es, i).lines <= Descend(path, flags, Readable(es), |es|).lines
  {
    var d := Readable(es);
    DescendPrefix(path, flags, d, i, |es|);
    DescendPrefix(path, flags, d, i + 1, |es|);
    DescendStep(path, flags, d, i);
  }

  /** In a successful recursive listing, each entered subdirectory's lines
      appear as one block, before the directory's own line, which comes last. */
  lemma ChildBeforeParent(path: string, flags: Flags, es: seq<Entry>, i: nat)
    requires i < |es| && Descends(flags, es[i])
    requires ListDir(path, flags, Readable(es)).error == None
    ensures var lines := ListDir(path, flags, Readable(es)).lines;
            var child := Child(path, flags, es, i);
            && child.error == None
            && lines[|lines| - 1] == Line(path, flags, es, |es|)
            && exists p :: BlockBefore(child.lines, lines, p)
  {
    var d := Readable(es);
    var all := Descend(path, flags, d, |es|).lines;
    var lines := all + [Line(path, flags, es, |es|)];
    assert ListDir(path, flags, d) == Report(lines, None);
    ChildInDescend(path, flags, es, i);
    var before := Descend(path, flags, d, i).lines;
    var child := Child(path, flags, es, i).lines;
    BlockAfterPrefix(before, child, lines);
    assert BlockBefore(child, lines, |before|);
  }

  /** The lines of the entered subdirectories among the first `k` entries,
      each subdirectory's listing whole and in entry order. */
  function Blocks(path: string, flags: Flags, es: seq<Entry>, k: nat): seq<string>
    requires k <= |es|
  {
    if k == 0 then []
    else Blocks(path, flags, es, k - 1) + (if Descends(flags, es[k - 1]) then Child(path, flags, es, k - 1).lines else [])
  }

  lemma {:induction false} DescendIsBlocks(path: string, flags: Flags, es: seq<Entry>, k: nat)
    requires k <= |es|
    requires Descend(path, flags, Readable(es), k).error == None
    ensures Descend(path, flags, Readable(es), k).lines == Blocks(path, flags, es, k)
  {
    if 0 < k {
      var d := Readable(es);
      assert Descend(path, flags, d, k - 1).error == None;
      DescendIsBlocks(path, flags, es, k - 1);
      DescendStep(path, flags, d, k - 1);
    }
  }

  /** A successful listing prints the listings of the entered
      subdirectories, each exactly once and in entry order, and then the
      directory's own line, and nothing else. */
  lemma WalkOrder(path: string, flags: Flags, es: seq<Entry>)
    requires ListDir(path, flags, Readable(es)).error == None
    ensures ListDir(path, flags, Readable(es)).lines == Blocks(path, flags, es, |es|) + [Line(path, flags, es, |es|)]
  {
    DescendIsBlocks(path, flags, es, |es|);
  }

  predicate ChildFails(path: string, flags: Flags, es: seq<Entry>, i: nat)
    requires i < |es|
  {
    Descends(flags, es[i]) && Child(path, flags, es, i).error.Some?
  }

  /** A failing listing stops at the first entered subdirectory whose
      listing fails: it has printed the listings of the entered
      subdirectories before it, in order, then that subdirectory's lines,
      and it returns that subdirectory's error; its own line is never
      printed. */
  lemma FirstFailure(path: string, flags: Flags, es: seq<Entry>, i: nat)
    requires i < |es| && ChildFails(path, flags, es, i)
    requires forall j :: 0 <= j < i ==> !ChildFails(path, flags, es, j)
    ensures ListDir(path, flags, Readable(es)) ==
      Report(Blocks(path, flags, es, i) + Child(path, flags, es, i).lines, Child(path, flags, es, i).error)
  {
    var d := Readable(es);
    var child := Child(path, flags, es, i);
    DescendErrorIffChildFails(path, flags, es, i);
    DescendIsBlocks(path, flags, es, i);
    DescendStep(path, flags, d, i);
    assert Descend(path, flags, d, i + 1) == Report(Blocks(path, flags, es, i) + child.lines, child.error);
    DescendStopsAtError(path, flags, d, i + 1, |es|);
  }

  /** `ls` on a readable directory fails exactly when some entered
      subdirectory's listing fails. */
  lemma ErrorIffChildFails(path: string, flags: Flags, es: seq<Entry>)
    ensures ListDir(path, flags, Readable(es)).error.Some? <==>
            exists i :: 0 <= i < |es| && ChildFails(path, flags, es, i)
  {
    DescendErrorIffChildFails(path, flags, es, |es|);
  }

  lemma {:induction false} DescendErrorIffChildFails(path: string, flags: Flags, es: seq<Entry>, k: nat)
    requires k <= |es|
    ensures Descend(path, flags, Readable(es), k).error.Some? <==>
            exists i :: 0 <= i < k && ChildFails(path, flags, es, i)
  {
    if 0 < k {
      DescendErrorIffChildFails(path, flags, es, k - 1);
      var d := Readable(es);
      var prev := Descend(path, flags, d, k - 1);
      var e := es[k - 1];
      var cur := Descend(path, flags, d, k);
      if prev.error.Some? {
        assert cur == prev;
        var i :| 0 <= i < k - 1 && ChildFails(path, flags, es, i);
        assert 0 <= i < k && ChildFails(path, flags, es, i);
      } else if !Descends(flags, e) {
        assert cur == prev;
        assert !ChildFails(path, flags, es, k - 1);
      } else {
        var c := Child(path, flags, es, k - 1);
        assert cur.error == c.error;
        if c.error.Some? {
          assert ChildFails(path, flags, es, k - 1);
        } else {
          assert !ChildFails(path, flags, es, k - 1);
        }
      }
    }
  }
}
