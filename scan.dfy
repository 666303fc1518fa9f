/** Left-to-right scanning with a pattern anchored at a position: the shape
    shared by `re.finditer` and `re.sub` for patterns that never match the
    empty string. */
module Scan {
  import opened Wrappers

  /** A pattern tried at position `i` of `u`: where its match ends and what
      it captured (for `re.sub`, the replacement text). */
  type Matcher<T> = (string, nat) -> Option<(nat, T)>

  /** Every match is non-empty and stays inside the text. */
  ghost predicate Advances<T>(m: Matcher<T>)
  {
    forall u: string, i: nat :: m(u, i).Some? ==> i < m(u, i).value.0 <= |u|
  }

  /** One match: where it starts, where it ends, what it captured. */
  datatype Match<T> = Match(start: nat, end: nat, groups: T)

  /** The leftmost match at or after `i`. */
  function Next<T>(m: Matcher<T>, u: string, i: nat): (r: Option<Match<T>>)
    requires Advances(m) && i <= |u|
    ensures r.Some? ==> i <= r.value.start < r.value.end <= |u|
    decreases |u| - i
  {
    var here := m(u, i);
    if here.Some? then Some(Match(i, here.value.0, here.value.1))
    else if i == |u| then None
    else Next(m, u, i + 1)
  }

  /** `re.finditer`: the matches found scanning from `i`, each search
      resuming where the previous match ended. */
  function FindAll<T>(m: Matcher<T>, u: string, i: nat): seq<Match<T>>
    requires Advances(m) && i <= |u|
    decreases |u| - i
  {
    match Next(m, u, i)
    case None => []
    case Some(x) => [x] + FindAll(m, u, x.end)
  }

  /** `re.sub`: every match found scanning from `i` replaced by what it
      captured. */
  function Sub(m: Matcher<string>, u: string, i: nat): string
    requires Advances(m) && i <= |u|
    decreases |u| - i
  {
    match Next(m, u, i)
    case None => u[i..]
    case Some(x) => u[i..x.start] + x.groups + Sub(m, u, x.end)
  }

  /** The match found is the leftmost one. */
  lemma {:induction false} NextLeftmost<T>(m: Matcher<T>, u: string, i: nat)
    requires Advances(m) && i <= |u| && Next(m, u, i).Some?
    ensures m(u, Next(m, u, i).value.start) == Some((Next(m, u, i).value.end, Next(m, u, i).value.groups))
    ensures forall k :: i <= k < Next(m, u, i).value.start ==> m(u, k).None?
    decreases |u| - i
  {
    if m(u, i).None? {
      NextLeftmost(m, u, i + 1);
    }
  }

  /** Nothing found: nothing matches anywhere from `i` on. */
  lemma {:induction false} NextNone<T>(m: Matcher<T>, u: string, i: nat)
    requires Advances(m) && i <= |u| && Next(m, u, i).None?
    ensures forall k :: i <= k <= |u| ==> m(u, k).None?
    decreases |u| - i
  {
    if i < |u| {
      NextNone(m, u, i + 1);
    }
  }

  /** Nothing matches from `i` on: nothing is found. */
  lemma {:induction false} NextAbsent<T>(m: Matcher<T>, u: string, i: nat)
    requires Advances(m) && i <= |u|
    requires forall k :: i <= k <= |u| ==> m(u, k).None?
    ensures Next(m, u, i).None?
    decreases |u| - i
  {
    if i < |u| {
      NextAbsent(m, u, i + 1);
    }
  }

  /** Every match reported is a match of the pattern, the matches come in
      order and do not overlap. */
  lemma {:induction false} FindAllSound<T>(m: Matcher<T>, u: string, i: nat)
    requires Advances(m) && i <= |u|
    ensures forall x :: x in FindAll(m, u, i) ==> i <= x.start && m(u, x.start) == Some((x.end, x.groups))
    ensures forall a, b :: 0 <= a < b < |FindAll(m, u, i)| ==> FindAll(m, u, i)[a].end <= FindAll(m, u, i)[b].start
    decreases |u| - i
  {
    match Next(m, u, i)
    case None =>
    case Some(x) =>
      NextLeftmost(m, u, i);
      FindAllSound(m, u, x.end);
      var xs := FindAll(m, u, i);
      assert xs == [x] + FindAll(m, u, x.end);
      forall a, b | 0 <= a < b < |xs|
        ensures xs[a].end <= xs[b].start
      {
        if a > 0 {
          assert xs[a] == FindAll(m, u, x.end)[a - 1];
        }
        assert xs[b] == FindAll(m, u, x.end)[b - 1];
        assert xs[b] in FindAll(m, u, x.end);
      }
  }

  /** Every match of the pattern at or after `i` is either reported or lies
      strictly inside a reported match: `finditer` misses only matches that
      overlap an earlier one. */
  lemma {:induction false} FindAllComplete<T>(m: Matcher<T>, u: string, i: nat, j: nat)
    requires Advances(m) && i <= j <= |u| && m(u, j).Some?
    ensures exists x :: (x in FindAll(m, u, i)
      && ((x.start == j && x.groups == m(u, j).value.1) || x.start < j < x.end))
    decreases |u| - i
  {
    NextNoneOrFound(m, u, i, j);
    var x := Next(m, u, i).value;
    NextLeftmost(m, u, i);
    assert FindAll(m, u, i) == [x] + FindAll(m, u, x.end);
    if j >= x.end {
      FindAllComplete(m, u, x.end, j);
      var y :| y in FindAll(m, u, x.end)
        && ((y.start == j && y.groups == m(u, j).value.1) || y.start < j < y.end);
      assert y in FindAll(m, u, i);
    } else {
      assert x in FindAll(m, u, i);
    }
  }

  /** A match at `j` means the search from `i <= j` finds one. */
  lemma NextNoneOrFound<T>(m: Matcher<T>, u: string, i: nat, j: nat)
    requires Advances(m) && i <= j <= |u| && m(u, j).Some?
    ensures Next(m, u, i).Some? && Next(m, u, i).value.start <= j
  {
    if Next(m, u, i).None? {
      NextNone(m, u, i);
    } else {
      NextLeftmost(m, u, i);
    }
  }

  /** The search from `i` finds the first position from which the pattern
      matches. */
  lemma {:induction false} NextAt<T>(m: Matcher<T>, u: string, i: nat, j: nat)
    requires Advances(m) && i <= j <= |u| && m(u, j).Some?
    requires forall k :: i <= k < j ==> m(u, k).None?
    ensures Next(m, u, i) == Some(Match(j, m(u, j).value.0, m(u, j).value.1))
    decreases j - i
  {
    if i < j {
      NextAt(m, u, i + 1, j);
    }
  }

  /** `re.sub` copies the text before the first match, puts the match's
      replacement in its place and goes on after it. */
  lemma SubFirst(m: Matcher<string>, u: string, i: nat, j: nat)
    requires Advances(m) && i <= j <= |u| && m(u, j).Some?
    requires forall k :: i <= k < j ==> m(u, k).None?
    ensures Sub(m, u, i) == u[i..j] + m(u, j).value.1 + Sub(m, u, m(u, j).value.0)
  {
    NextAt(m, u, i, j);
  }

  /** A match found in `y`, moved `n` characters on. */
  function ShiftBy<T>(r: Option<(nat, T)>, n: nat): Option<(nat, T)>
  {
    if r.Some? then Some((r.value.0 + n, r.value.1)) else None
  }

  /** The pattern looks only forward: tried in `x + y` at a position of
      `y`, it finds what it finds in `y` alone. */
  ghost predicate LooksForward<T>(m: Matcher<T>, x: string, y: string)
  {
    forall k: nat :: k <= |y| ==> m(x + y, |x| + k) == ShiftBy(m(y, k), |x|)
  }

  lemma {:induction false} NextSuffix<T>(m: Matcher<T>, x: string, y: string, k: nat)
    requires Advances(m) && LooksForward(m, x, y) && k <= |y|
    ensures Next(m, x + y, |x| + k)
      == (if Next(m, y, k).Some?
          then Some(Match(Next(m, y, k).value.start + |x|, Next(m, y, k).value.end + |x|, Next(m, y, k).value.groups))
          else None)
    decreases |y| - k
  {
    assert m(x + y, |x| + k) == ShiftBy(m(y, k), |x|);
    if m(y, k).None? && k < |y| {
      NextSuffix(m, x, y, k + 1);
    }
  }

  /** `re.sub` from a position of `y` inside `x + y` is `re.sub` on `y`
      alone, for a pattern that looks only forward. */
  lemma {:induction false} SubSuffix(m: Matcher<string>, x: string, y: string, k: nat)
    requires Advances(m) && LooksForward(m, x, y) && k <= |y|
    ensures Sub(m, x + y, |x| + k) == Sub(m, y, k)
    decreases |y| - k
  {
    NextSuffix(m, x, y, k);
    var u := x + y;
    match Next(m, y, k)
    case None =>
      assert u[|x| + k..] == y[k..];
    case Some(t) =>
      SubSuffix(m, x, y, t.end);
      assert u[|x| + k..|x| + t.start] == y[k..t.start];
  }

  /** The first match in `x + y` starts at `j` and ends where `x` does:
      `re.sub` copies the text before it, puts the replacement in its
      place and goes on as on `y` alone, for a pattern that looks only
      forward. */
  lemma SubThrough(m: Matcher<string>, x: string, y: string, j: nat)
    requires Advances(m) && LooksForward(m, x, y) && j <= |x|
    requires m(x + y, j).Some? && m(x + y, j).value.0 == |x|
    requires forall k :: 0 <= k < j ==> m(x + y, k).None?
    ensures Sub(m, x + y, 0) == x[..j] + m(x + y, j).value.1 + Sub(m, y, 0)
  {
    SubFirst(m, x + y, 0, j);
    SubSuffix(m, x, y, 0);
    assert (x + y)[0..j] == x[..j];
  }

  /** The same where the match is `h`, after `a`, and is dropped. */
  lemma SubDropped(m: Matcher<string>, a: string, h: string, y: string)
    requires Advances(m) && LooksForward(m, a + h, y)
    requires m(a + h + y, |a|) == Some((|a| + |h|, ""))
    requires forall k :: 0 <= k < |a| ==> m(a + h + y, k).None?
    ensures Sub(m, a + h + y, 0) == a + Sub(m, y, 0)
  {
    var x := a + h;
    SubThrough(m, x, y, |a|);
    assert x[..|a|] + m(x + y, |a|).value.1 == a;
  }

  /** `re.sub` with no match leaves the text alone. */
  lemma SubNoMatch(m: Matcher<string>, u: string, i: nat)
    requires Advances(m) && i <= |u|
    requires forall k :: i <= k <= |u| ==> m(u, k).None?
    ensures Sub(m, u, i) == u[i..]
  {
    NextAbsent(m, u, i);
  }

  /** `re.sub` whose every match is replaced by its own text leaves the
      text alone. */
  lemma {:induction false} SubIdentity(m: Matcher<string>, u: string, i: nat)
    requires Advances(m) && i <= |u|
    requires forall k :: i <= k <= |u| && m(u, k).Some? ==> m(u, k).value.1 == u[k..m(u, k).value.0]
    ensures Sub(m, u, i) == u[i..]
    decreases |u| - i
  {
    match Next(m, u, i)
    case None =>
    case Some(x) =>
      NextLeftmost(m, u, i);
      SubIdentity(m, u, x.end);
      assert u[i..] == u[i..x.start] + u[x.start..x.end] + u[x.end..];
  }

  /** A match at `i` that runs to the end of the text is replaced whole. */
  lemma SubTail(m: Matcher<string>, u: string, i: nat)
    requires Advances(m) && i <= |u| && m(u, i).Some? && m(u, i).value.0 == |u|
    ensures Sub(m, u, i) == m(u, i).value.1
  {
    assert Next(m, u, i) == Some(Match(i, |u|, m(u, i).value.1));
    assert Next(m, u, |u|).None?;
    assert u[i..i] == [] && u[|u|..] == [];
  }
}
