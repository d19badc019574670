/**
 * What the traversals of every container in the library produce, as values: the calls a
 * `Do` makes to its procedures, and the text a `String` method builds from the stored
 * values' texts. A value's text (fmt's %v) is a function parameter `show`.
 */
module Traversal {
  /** One value handed to each of `procs` procedures in turn, as (procedure index, value) calls. */
  function EachProcedure<T>(v: T, procs: nat): seq<(nat, T)> {
    seq(procs, i => (i, v))
  }

  /** The calls `Do` makes for one value: `v` handed to each of the `procs` procedures in turn. */
  method Visit<T>(calls: seq<(nat, T)>, v: T, procs: nat) returns (calls': seq<(nat, T)>)
    ensures calls' == calls + EachProcedure(v, procs)
  {
    calls' := calls;
    var p := 0;
    while p < procs
      invariant 0 <= p <= procs && calls' == calls + EachProcedure(v, p)
    {
      calls' := calls' + [(p, v)];
      p := p + 1;
    }
  }

  /** The calls that visiting `vs` in order with `procs` procedures makes. */
  function Calls<T>(vs: seq<T>, procs: nat): seq<(nat, T)> {
    if vs == [] then [] else EachProcedure(vs[0], procs) + Calls(vs[1..], procs)
  }

  lemma {:induction false} CallsAppend<T>(a: seq<T>, b: seq<T>, procs: nat)
    ensures Calls(a + b, procs) == Calls(a, procs) + Calls(b, procs)
  {
    if a == [] {
      assert a + b == b;
    } else {
      assert (a + b)[0] == a[0];
      assert (a + b)[1..] == a[1..] + b;
      CallsAppend(a[1..], b, procs);
    }
  }

  /** Visiting one more value adds its calls at the end. */
  lemma CallsSnoc<T>(vs: seq<T>, v: T, procs: nat)
    ensures Calls(vs + [v], procs) == Calls(vs, procs) + EachProcedure(v, procs)
  {
    CallsAppend(vs, [v], procs);
    assert Calls([v], procs) == EachProcedure(v, procs) + Calls([v][1..], procs);
  }

  /** strings.TrimRight(s, " "): drop every trailing space. */
  function TrimRight(s: string): (r: string)
    ensures |r| <= |s| && r == s[..|r|]
    ensures r == [] || r[|r| - 1] != ' '
    ensures forall i :: |r| <= i < |s| ==> s[i] == ' '
  {
    if s != [] && s[|s| - 1] == ' ' then TrimRight(s[..|s| - 1]) else s
  }

  /** Each value's text followed by one space, in order. */
  function Spaced<T>(vs: seq<T>, show: T -> string): string {
    if vs == [] then "" else show(vs[0]) + " " + Spaced(vs[1..], show)
  }

  /** The values' texts separated by single spaces. */
  function Joined<T>(vs: seq<T>, show: T -> string): string {
    if vs == [] then ""
    else if |vs| == 1 then show(vs[0])
    else show(vs[0]) + " " + Joined(vs[1..], show)
  }

  lemma {:induction false} SpacedAppend<T>(a: seq<T>, b: seq<T>, show: T -> string)
    ensures Spaced(a + b, show) == Spaced(a, show) + Spaced(b, show)
  {
    if a == [] {
      assert a + b == b;
    } else {
      assert (a + b)[0] == a[0];
      assert (a + b)[1..] == a[1..] + b;
      SpacedAppend(a[1..], b, show);
    }
  }

  /** One more value adds its text and a space at the end. */
  lemma SpacedSnoc<T>(vs: seq<T>, v: T, show: T -> string)
    ensures Spaced(vs + [v], show) == Spaced(vs, show) + show(v) + " "
  {
    SpacedAppend(vs, [v], show);
    assert Spaced([v], show) == show(v) + " " + Spaced([v][1..], show);
  }

  /** The spaced texts of all values but the last, then the last one's text, are the joined texts. */
  lemma {:induction false} SpacedThenLast<T>(vs: seq<T>, show: T -> string)
    requires vs != []
    ensures Spaced(vs[..|vs| - 1], show) + show(vs[|vs| - 1]) == Joined(vs, show)
    decreases |vs|
  {
    if |vs| > 1 {
      var n := |vs| - 1;
      assert vs[..n][0] == vs[0] && vs[..n][1..] == vs[1..][..n - 1];
      assert vs[1..][n - 1] == vs[n];
      SpacedThenLast(vs[1..], show);
    } else {
      assert vs[..0] == [];
    }
  }

  lemma {:induction false} SpacedIsJoinedPlusSpace<T>(vs: seq<T>, show: T -> string)
    requires vs != []
    ensures Spaced(vs, show) == Joined(vs, show) + " "
  {
    if |vs| > 1 {
      SpacedIsJoinedPlusSpace(vs[1..], show);
    }
  }

  lemma {:induction false} JoinedEndsWithLast<T>(vs: seq<T>, show: T -> string)
    requires vs != [] && show(vs[|vs| - 1]) != []
    ensures var j, last := Joined(vs, show), show(vs[|vs| - 1]);
      j != [] && j[|j| - 1] == last[|last| - 1]
  {
    if |vs| > 1 {
      assert vs[1..][|vs| - 2] == vs[|vs| - 1];
      JoinedEndsWithLast(vs[1..], show);
    }
  }

  lemma TrimRightOneSpace(s: string)
    ensures TrimRight(s + " ") == TrimRight(s)
  {
    assert (s + " ")[..|s|] == s;
  }

  /**
   * The longest prefix of `s` whose values all meet `cond`: what the GetIf of a stack or
   * a queue takes, from the top or the front, stopping at the first value that fails.
   */
  function LeadingRun<T>(s: seq<T>, cond: T -> bool): (r: seq<T>)
    ensures |r| <= |s| && r == s[..|r|]
    ensures forall k :: 0 <= k < |r| ==> cond(r[k])
    ensures |r| < |s| ==> !cond(s[|r|])
  {
    if s == [] || !cond(s[0]) then [] else [s[0]] + LeadingRun(s[1..], cond)
  }
}
