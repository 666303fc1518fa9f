/** The `--problems` option: comma-separated groups, each a problem number
    or an inclusive range `a-b`, expanded in order. */
module ProblemIds {
  import opened Wrappers
  import opened StringUtil

  // ---------------------------------------------------------------------
  // `int(s)`

  /** Decimal digits, single underscores allowed between them. */
  predicate DigitRun(d: string)
  {
    && d != [] && IsDigit(d[0]) && IsDigit(d[|d| - 1])
    && (forall k :: 0 <= k < |d| ==> IsDigit(d[k]) || d[k] == '_')
    && (forall k :: 0 <= k < |d| - 1 ==> d[k] == '_' ==> d[k + 1] != '_')
  }

  function DigitsOnly(d: string): (r: string)
    ensures forall k :: 0 <= k < |r| ==> r[k] != '_'
  {
    if d == [] then [] else (if d[0] == '_' then [] else [d[0]]) + DigitsOnly(d[1..])
  }

  /** The value of a string of decimal digits, most significant first. */
  function DigitsValue(ds: string): nat
  {
    if ds == [] then 0
    else
      var c := ds[|ds| - 1];
      DigitsValue(ds[..|ds| - 1]) * 10 + (if 48 <= c as int <= 57 then c as int - 48 else 0)
  }

  /** `int(s)` for a base-ten literal: whitespace around it, an optional
      sign, then digits; `None` where Python raises `ValueError`. */
  function ParseInt(s: string): (r: Option<int>)
    ensures r.Some? ==> Strip(s) != []
  {
    var t := Strip(s);
    if t != [] && (t[0] == '+' || t[0] == '-') then
      var d := t[1..];
      var v: int := DigitsValue(DigitsOnly(d));
      if DigitRun(d) then Some(if t[0] == '-' then -v else v) else None
    else if DigitRun(t) then Some(DigitsValue(DigitsOnly(t)))
    else None
  }

  /** The digits of a natural number read back as that number. */
  lemma {:induction false} NatDigitsValue(n: nat)
    ensures DigitsValue(NatToString(n)) == n
  {
    var s := NatToString(n);
    if n < 10 {
      assert s[..0] == [];
    } else {
      assert s[..|s| - 1] == NatToString(n / 10);
      NatDigitsValue(n / 10);
    }
  }

  lemma {:induction false} DigitsOnlyPlain(d: string)
    requires forall k :: 0 <= k < |d| ==> d[k] != '_'
    ensures DigitsOnly(d) == d
  {
    if d != [] {
      DigitsOnlyPlain(d[1..]);
      assert [d[0]] + d[1..] == d;
    }
  }


  /** `int` reads back what `str` writes. */
  lemma ParseIntNat(n: nat)
    ensures ParseInt(NatToString(n)) == Some(n)
  {
    var s := NatToString(n);
    StripTrimmed(s);
    DigitsOnlyPlain(s);
    NatDigitsValue(n);
  }

  /** Whitespace around a number is ignored. */
  lemma ParseIntPadded(before: string, n: nat, after: string)
    requires forall k :: 0 <= k < |before| ==> IsSpace(before[k])
    requires forall k :: 0 <= k < |after| ==> IsSpace(after[k])
    ensures ParseInt(before + NatToString(n) + after) == Some(n)
  {
    var d := NatToString(n);
    assert IsDigit(d[0]) && IsDigit(d[|d| - 1]);
    StripPadded(before, d, after);
    ParseIntSameStrip(before + d + after, d);
    ParseIntNat(n);
  }

  lemma ParseIntSameStrip(a: string, b: string)
    requires Strip(a) == Strip(b)
    ensures ParseInt(a) == ParseInt(b)
  {
  }



  // ---------------------------------------------------------------------
  // Groups and the whole option

  /** `range(a, b + 1)`. */
  function Range(a: int, b: int): (r: seq<int>)
    ensures |r| == if a <= b then b - a + 1 else 0
    ensures forall k :: 0 <= k < |r| ==> r[k] == a + k
    decreases b - a
  {
    if a > b then [] else [a] + Range(a + 1, b)
  }

  /** One comma-separated group: a range when it holds a `-`, which must
      then split into exactly two numbers, or else a single number. */
  function Group(g: string): Result<seq<int>>
  {
    if '-' in g then
      var parts := Split(g, '-');
      var first := ParseInt(parts[0]);
      if first.None? then Err("invalid literal for int()")
      else if |parts| < 2 then Err("not enough values to unpack")
      else
        var last := ParseInt(parts[1]);
        if last.None? then Err("invalid literal for int()")
        else if |parts| > 2 then Err("too many values to unpack")
        else Ok(Range(first.value, last.value))
    else
      match ParseInt(g)
      case None => Err("invalid literal for int()")
      case Some(n) => Ok([n])
  }

  /** The groups expanded left to right; the first bad group fails the
      whole list, as `list(...)` of the generator raises. */
  function Expand(groups: seq<string>): Result<seq<int>>
  {
    Combine(GroupResults(groups))
  }

  function GroupResults(groups: seq<string>): (r: seq<Result<seq<int>>>)
    ensures |r| == |groups|
    ensures forall k :: 0 <= k < |groups| ==> r[k] == Group(groups[k])
  {
    if groups == [] then [] else [Group(groups[0])] + GroupResults(groups[1..])
  }

  /** The results concatenated, or the first error. */
  function Combine(rs: seq<Result<seq<int>>>): Result<seq<int>>
  {
    if rs == [] then Ok([])
    else match rs[0]
      case Err(e) => Err(e)
      case Ok(xs) =>
        match Combine(rs[1..])
        case Err(e) => Err(e)
        case Ok(ys) => Ok(xs + ys)
  }

  /** `iterate_problem_ids`: nothing for a missing or empty option. */
  function ProblemIdList(problems: Option<string>): Result<seq<int>>
  {
    if problems.None? || problems.value == [] then Ok([])
    else Expand(Split(problems.value, ','))
  }

  /** Without a minus sign, `int` reads no negative number. */
  lemma UnsignedParse(s: string)
    requires '-' !in s && ParseInt(s).Some?
    ensures ParseInt(s).value >= 0
  {
  }

  /** A group reads no negative number. */
  lemma GroupNonNegative(g: string)
    requires Group(g).Ok?
    ensures forall x :: x in Group(g).value ==> x >= 0
  {
    if '-' in g {
      var parts := Split(g, '-');
      UnsignedParse(parts[0]);
      UnsignedParse(parts[1]);
    } else {
      UnsignedParse(g);
    }
  }

  /** Every problem number the option names is non-negative: a minus sign
      always separates a range, so no number is read with one. */
  lemma ExpandNonNegative(groups: seq<string>)
    requires Expand(groups).Ok?
    ensures forall x :: x in Expand(groups).value ==> x >= 0
  {
    var rs := GroupResults(groups);
    forall k | 0 <= k < |rs| && rs[k].Ok?
      ensures forall x :: x in rs[k].value ==> x >= 0
    {
      GroupNonNegative(groups[k]);
    }
    CombineNonNegative(rs);
  }

  /** The problem numbers of any accepted option are natural numbers. */
  lemma ProblemIdsNatural(problems: Option<string>)
    requires ProblemIdList(problems).Ok?
    ensures forall x :: x in ProblemIdList(problems).value ==> x >= 0
  {
    if problems.Some? && problems.value != [] {
      ExpandNonNegative(Split(problems.value, ','));
    }
  }

  lemma {:induction false} CombineNonNegative(rs: seq<Result<seq<int>>>)
    requires forall k :: 0 <= k < |rs| && rs[k].Ok? ==> forall x :: x in rs[k].value ==> x >= 0
    requires Combine(rs).Ok?
    ensures forall x :: x in Combine(rs).value ==> x >= 0
  {
    if rs != [] {
      assert forall k :: 0 <= k < |rs| - 1 ==> rs[1..][k] == rs[k + 1];
      CombineNonNegative(rs[1..]);
    }
  }

  // ---------------------------------------------------------------------
  // What the option means

  /** A group as a user writes it. */
  datatype Selection = Single(n: nat) | Span(lo: nat, hi: nat)

  function SelectionText(s: Selection): string
  {
    match s
    case Single(n) => NatToString(n)
    case Span(lo, hi) => NatToString(lo) + "-" + NatToString(hi)
  }

  function SelectionIds(s: Selection): seq<int>
  {
    match s
    case Single(n) => [n]
    case Span(lo, hi) => Range(lo, hi)
  }

  function SelectionsText(ss: seq<Selection>): seq<string>
  {
    if ss == [] then [] else [SelectionText(ss[0])] + SelectionsText(ss[1..])
  }

  function SelectionsIds(ss: seq<Selection>): seq<int>
  {
    if ss == [] then [] else SelectionIds(ss[0]) + SelectionsIds(ss[1..])
  }

  lemma DigitsHaveNoSign(n: nat, c: char)
    requires !IsDigit(c)
    ensures c !in NatToString(n)
  {
  }

  /** Each group as written expands to the numbers it names. */
  lemma SelectionRoundTrip(s: Selection)
    ensures Group(SelectionText(s)) == Ok(SelectionIds(s))
  {
    match s
    case Single(n) =>
      DigitsHaveNoSign(n, '-');
      ParseIntNat(n);
    case Span(lo, hi) =>
      var a, b := NatToString(lo), NatToString(hi);
      DigitsHaveNoSign(lo, '-');
      DigitsHaveNoSign(hi, '-');
      assert SelectionText(s) == a + ['-'] + b;
      assert (a + ['-'] + b)[|a|] == '-';
      SplitAfterFree(a, '-', b);
      SplitFree(b, '-');
      ParseIntNat(lo);
      ParseIntNat(hi);
  }

  /** The option written from a list of groups gives back every number
      they name, group after group, in order. */
  lemma OptionRoundTrip(ss: seq<Selection>)
    requires ss != []
    ensures ProblemIdList(Some(Join(SelectionsText(ss), ','))) == Ok(SelectionsIds(ss))
  {
    var parts := SelectionsText(ss);
    SelectionsTextShape(ss);
    SplitJoin(parts, ',');
    JoinNonEmpty(parts, ',');
    ExpandSelections(ss);
  }

  lemma {:induction false} SelectionsTextShape(ss: seq<Selection>)
    ensures |SelectionsText(ss)| == |ss|
    ensures forall k :: 0 <= k < |ss| ==> SelectionsText(ss)[k] == SelectionText(ss[k])
    ensures forall k :: 0 <= k < |ss| ==> ',' !in SelectionsText(ss)[k]
  {
    if ss != [] {
      SelectionsTextShape(ss[1..]);
      forall k | 0 <= k < |ss|
        ensures ',' !in SelectionText(ss[k])
      {
        match ss[k]
        case Single(n) => DigitsHaveNoSign(n, ',');
        case Span(lo, hi) =>
          DigitsHaveNoSign(lo, ',');
          DigitsHaveNoSign(hi, ',');
      }
    }
  }

  lemma JoinNonEmpty(parts: seq<string>, c: char)
    requires |parts| >= 1 && parts[0] != []
    ensures Join(parts, c) != []
  {
  }

  lemma {:induction false} ExpandSelections(ss: seq<Selection>)
    ensures Expand(SelectionsText(ss)) == Ok(SelectionsIds(ss))
  {
    if ss != [] {
      var rs := GroupResults(SelectionsText(ss));
      SelectionRoundTrip(ss[0]);
      ExpandSelections(ss[1..]);
      assert SelectionsText(ss)[1..] == SelectionsText(ss[1..]);
      assert rs[1..] == GroupResults(SelectionsText(ss[1..]));
    }
  }

  /** A bad group anywhere fails the whole option. */
  lemma ExpandFails(groups: seq<string>, k: int)
    requires 0 <= k < |groups| && Group(groups[k]).Err?
    ensures Expand(groups).Err?
  {
    CombineFails(GroupResults(groups), k);
  }

  lemma {:induction false} CombineFails(rs: seq<Result<seq<int>>>, k: int)
    requires 0 <= k < |rs| && rs[k].Err?
    ensures Combine(rs).Err?
  {
    if k > 0 {
      assert rs[1..][k - 1] == rs[k];
      CombineFails(rs[1..], k - 1);
    }
  }

  /** A range with two dashes fails, as the two-value unpack does. */
  lemma TwoDashesFail(a: nat, b: nat, c: nat)
    ensures ProblemIdList(Some(NatToString(a) + "-" + NatToString(b) + "-" + NatToString(c))).Err?
  {
    var x, y, z := NatToString(a), NatToString(b), NatToString(c);
    var g := x + "-" + y + "-" + z;
    DigitsHaveNoSign(a, ','); DigitsHaveNoSign(b, ','); DigitsHaveNoSign(c, ',');
    NoCommaIn(x, y, z);
    SplitFree(g, ',');
    TwoDashesGroup(a, b, c);
    ExpandFails([g], 0);
  }

  lemma NoCommaIn(x: string, y: string, z: string)
    requires ',' !in x && ',' !in y && ',' !in z
    ensures ',' !in x + "-" + y + "-" + z
  {
  }

  lemma TwoDashesGroup(a: nat, b: nat, c: nat)
    ensures Group(NatToString(a) + "-" + NatToString(b) + "-" + NatToString(c)).Err?
  {
    var x, y, z := NatToString(a), NatToString(b), NatToString(c);
    var g := x + "-" + y + "-" + z;
    DigitsHaveNoSign(a, '-'); DigitsHaveNoSign(b, '-'); DigitsHaveNoSign(c, '-');
    ThreePieces(x, y, z);
    DashIn(x, y, z);
    ParseIntNat(a);
    ParseIntNat(b);
    TooManyParts(g, x, y, z);
  }

  lemma DashIn(x: string, y: string, z: string)
    ensures '-' in x + "-" + y + "-" + z
  {
    assert (x + "-" + y + "-" + z)[|x|] == '-';
  }

  /** Three parts fail once the first two have been read. */
  lemma TooManyParts(g: string, x: string, y: string, z: string)
    requires '-' in g && Split(g, '-') == [x, y, z]
    requires ParseInt(x).Some? && ParseInt(y).Some?
    ensures Group(g).Err?
  {
  }

  lemma ThreePieces(x: string, y: string, z: string)
    requires '-' !in x && '-' !in y && '-' !in z
    ensures Split(x + "-" + y + "-" + z, '-') == [x, y, z]
  {
    assert x + "-" + y + "-" + z == x + ['-'] + (y + ['-'] + z);
    SplitAfterFree(x, '-', y + ['-'] + z);
    SplitAfterFree(y, '-', z);
    SplitFree(z, '-');
  }

  /** An empty group, as after a trailing comma, fails. */
  lemma TrailingCommaFails(s: string)
    requires s != []
    ensures ProblemIdList(Some(s + ",")).Err?
  {
    var parts := Split(s + ",", ',');
    SplitEndsEmpty(s, ',');
    assert Group([]).Err?;
    ExpandFails(parts, |parts| - 1);
  }

  lemma {:induction false} SplitEndsEmpty(s: string, c: char)
    ensures Split(s + [c], c)[|Split(s + [c], c)| - 1] == []
  {
    if s == [] {
      assert [c][1..] == [];
    } else {
      assert (s + [c])[1..] == s[1..] + [c];
      SplitEndsEmpty(s[1..], c);
    }
  }
}
