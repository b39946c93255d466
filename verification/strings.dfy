/** String helpers shared by the colour, command and shell modules. */
module Strings {

  predicate StartsWith(s: string, p: string) {
    |p| <= |s| && s[..|p|] == p
  }

  predicate EndsWith(s: string, p: string) {
    |p| <= |s| && s[|s| - |p|..] == p
  }

  /** The pieces joined with one space between neighbours. */
  function JoinSpaced(xs: seq<string>): (r: string)
    ensures |xs| == 0 ==> r == ""
    ensures |xs| == 1 ==> r == xs[0]
    ensures 0 < |xs| ==> StartsWith(r, xs[0]) && EndsWith(r, xs[|xs| - 1])
  {
    if |xs| == 0 then ""
    else if |xs| == 1 then xs[0]
    else
      var init := JoinSpaced(xs[..|xs| - 1]);
      assert init[..|xs[0]|] == xs[0];
      assert (init + " " + xs[|xs| - 1])[..|xs[0]|] == init[..|xs[0]|];
      init + " " + xs[|xs| - 1]
  }

  /** Joining with the first piece split off: that piece, a space, then the
      join of the rest. */
  lemma {:induction false} JoinSpacedCons(x: string, xs: seq<string>)
    requires 0 < |xs|
    ensures JoinSpaced([x] + xs) == x + " " + JoinSpaced(xs)
  {
    var ys := [x] + xs;
    if |xs| == 1 {
      assert ys[..1] == [x];
    } else {
      assert ys[..|ys| - 1] == [x] + xs[..|xs| - 1];
      JoinSpacedCons(x, xs[..|xs| - 1]);
    }
  }
}
