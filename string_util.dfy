/** String helpers: occurrence tests, Python's `str.replace`, decimal
    rendering of integers and the whitespace class of `re`'s `\s`. */
module StringUtil {

  /** `w` occurs in `s` starting at position `p`. */
  predicate OccursAt(s: string, p: int, w: string)
  {
    0 <= p && p + |w| <= |s| && s[p..p + |w|] == w
  }

  predicate StartsWith(s: string, w: string)
  {
    OccursAt(s, 0, w)
  }

  predicate EndsWith(s: string, w: string)
  {
    |w| <= |s| && s[|s| - |w|..] == w
  }

  /** No occurrence of `w` anywhere in `s`. */
  predicate Absent(s: string, w: string)
  {
    forall p {:trigger OccursAt(s, p, w)} :: 0 <= p <= |s| ==> !OccursAt(s, p, w)
  }

  /** Whitespace as `str.isspace` and the `\s` of a text pattern see it:
      the ASCII controls tab to carriage return and the four separators
      0x1c-0x1f, the space, and the Unicode spaces and line and paragraph
      separators. */
  predicate IsSpace(c: char)
  {
    ('\t' <= c <= '\r') || ('\U{1c}' <= c <= ' ') || c == '\U{85}' || c == '\U{a0}' || c == '\U{1680}'
      || ('\U{2000}' <= c <= '\U{200a}') || c == '\U{2028}' || c == '\U{2029}' || c == '\U{202f}'
      || c == '\U{205f}' || c == '\U{3000}'
  }

  predicate IsDigit(c: char)
  {
    '0' <= c <= '9'
  }

  /** The index just after the run of whitespace that starts at `i`. */
  function SkipSpaces(s: string, i: nat): (j: nat)
    requires i <= |s|
    ensures i <= j <= |s|
    ensures j == |s| || !IsSpace(s[j])
    decreases |s| - i
  {
    if i < |s| && IsSpace(s[i]) then SkipSpaces(s, i + 1) else i
  }

  /** Everything `SkipSpaces` steps over is whitespace. */
  lemma {:induction false} SkipSpacesBlank(s: string, i: nat)
    requires i <= |s|
    ensures forall k :: i <= k < SkipSpaces(s, i) ==> IsSpace(s[k])
    decreases |s| - i
  {
    if i < |s| && IsSpace(s[i]) {
      SkipSpacesBlank(s, i + 1);
    }
  }

  /** A run of `n` spaces ending before a non-space stops `SkipSpaces`. */
  lemma {:induction false} SkipSpacesStops(s: string, i: nat, n: nat)
    requires i + n <= |s|
    requires forall k :: i <= k < i + n ==> IsSpace(s[k])
    requires i + n == |s| || !IsSpace(s[i + n])
    ensures SkipSpaces(s, i) == i + n
    decreases n
  {
    if n > 0 {
      SkipSpacesStops(s, i + 1, n - 1);
    }
  }

  /** The first index at or after `i` holding `c`, or `|s|`. */
  function FindChar(s: string, i: nat, c: char): (j: nat)
    requires i <= |s|
    ensures i <= j <= |s|
    ensures forall k :: i <= k < j ==> s[k] != c
    ensures j < |s| ==> s[j] == c
    decreases |s| - i
  {
    if i == |s| || s[i] == c then i else FindChar(s, i + 1, c)
  }

  /** ASCII lower-casing, standing in for `str.lower`. */
  function Lower(s: string): (r: string)
    ensures |r| == |s|
    ensures forall k :: 0 <= k < |s| ==> r[k] == LowerChar(s[k])
  {
    if s == [] then [] else [LowerChar(s[0])] + Lower(s[1..])
  }

  function LowerChar(c: char): char
  {
    if 'A' <= c <= 'Z' then (c as int - 'A' as int + 'a' as int) as char else c
  }

  /** Python's `str.replace(pat, rep)`: every non-overlapping occurrence of
      `pat`, found left to right, is replaced by `rep`. */
  function Replace(s: string, pat: string, rep: string): string
    requires pat != []
    decreases |s|
  {
    if |s| < |pat| then s
    else if s[..|pat|] == pat then rep + Replace(s[|pat|..], pat, rep)
    else [s[0]] + Replace(s[1..], pat, rep)
  }

  /** A text without the pattern is returned unchanged. */
  lemma {:induction false} ReplaceAbsent(s: string, pat: string, rep: string)
    requires pat != [] && Absent(s, pat)
    ensures Replace(s, pat, rep) == s
    decreases |s|
  {
    if |s| >= |pat| {
      assert !OccursAt(s, 0, pat);
      assert Absent(s[1..], pat) by {
        forall p | 0 <= p <= |s[1..]| ensures !OccursAt(s[1..], p, pat) {
          if OccursAt(s[1..], p, pat) {
            assert s[1..][p..p + |pat|] == s[p + 1..p + 1 + |pat|];
            assert OccursAt(s, p + 1, pat);
          }
        }
      }
      ReplaceAbsent(s[1..], pat, rep);
    }
  }

  /** Text before the first occurrence is copied unchanged. */
  lemma {:induction false} ReplaceSkip(a: string, b: string, pat: string, rep: string)
    requires pat != []
    requires forall p :: 0 <= p < |a| ==> !OccursAt(a + b, p, pat)
    ensures Replace(a + b, pat, rep) == a + Replace(b, pat, rep)
    decreases |a|
  {
    if a != [] {
      var s := a + b;
      var t := a[1..] + b;
      assert s[1..] == t;
      forall p | 0 <= p < |a[1..]| ensures !OccursAt(t, p, pat) {
        assert !OccursAt(s, p + 1, pat);
        if p + |pat| <= |t| {
          assert s[p + 1..p + 1 + |pat|] == t[p..p + |pat|];
        }
      }
      ReplaceSkip(a[1..], b, pat, rep);
      if |s| < |pat| {
        assert |b| < |pat|;
        assert Replace(b, pat, rep) == b;
      } else {
        assert !OccursAt(s, 0, pat);
        assert Replace(s, pat, rep) == [s[0]] + Replace(t, pat, rep);
        assert a + Replace(b, pat, rep) == [a[0]] + (a[1..] + Replace(b, pat, rep));
      }
    } else {
      assert a + b == b;
    }
  }

  /** An occurrence that is the only one up to its end is replaced, and the
      rest of the text is then handled on its own. */
  lemma ReplaceFirst(a: string, b: string, pat: string, rep: string)
    requires pat != []
    requires forall p :: 0 <= p < |a| ==> !OccursAt(a + pat + b, p, pat)
    ensures Replace(a + pat + b, pat, rep) == a + rep + Replace(b, pat, rep)
  {
    assert a + pat + b == a + (pat + b);
    ReplaceSkip(a, pat + b, pat, rep);
    assert (pat + b)[..|pat|] == pat && (pat + b)[|pat|..] == b;
  }

  /** Replacing a single character distributes over concatenation. */
  lemma {:induction false} ReplaceCharConcat(a: string, b: string, c: char, rep: string)
    ensures Replace(a + b, [c], rep) == Replace(a, [c], rep) + Replace(b, [c], rep)
    decreases |a|
  {
    if a != [] {
      var s := a + b;
      assert s[1..] == a[1..] + b;
      assert s[..1] == a[..1];
      ReplaceCharConcat(a[1..], b, c, rep);
      if a[..1] == [c] {
        assert Replace(a, [c], rep) == rep + Replace(a[1..], [c], rep);
        assert Replace(s, [c], rep) == rep + Replace(a[1..] + b, [c], rep);
      } else {
        assert Replace(a, [c], rep) == [a[0]] + Replace(a[1..], [c], rep);
        assert Replace(s, [c], rep) == [s[0]] + Replace(a[1..] + b, [c], rep);
      }
    } else {
      assert a + b == b;
    }
  }

  function DigitChar(d: nat): (c: char)
    requires d < 10
    ensures IsDigit(c)
  {
    ['0', '1', '2', '3', '4', '5', '6', '7', '8', '9'][d]
  }

  /** `str(n)` for a natural number. */
  function NatToString(n: nat): (r: string)
    ensures r != []
    ensures forall k :: 0 <= k < |r| ==> IsDigit(r[k])
  {
    if n < 10 then [DigitChar(n)] else NatToString(n / 10) + [DigitChar(n % 10)]
  }

  /** `str(i)` for an integer. */
  function IntToString(i: int): (r: string)
    ensures r != []
    ensures i >= 0 ==> r == NatToString(i)
  {
    if i < 0 then "-" + NatToString(-i) else NatToString(i)
  }

  lemma DigitCharInjective(a: nat, b: nat)
    requires a < 10 && b < 10 && DigitChar(a) == DigitChar(b)
    ensures a == b
  {
  }

  /** Distinct numbers are written differently. */
  lemma {:induction false} NatToStringInjective(a: nat, b: nat)
    requires NatToString(a) == NatToString(b)
    ensures a == b
  {
    var sa, sb := NatToString(a), NatToString(b);
    if a < 10 && b < 10 {
      DigitCharInjective(a, b);
    } else if a >= 10 && b >= 10 {
      assert sa[|sa| - 1] == DigitChar(a % 10) && sb[|sb| - 1] == DigitChar(b % 10);
      DigitCharInjective(a % 10, b % 10);
      assert sa[..|sa| - 1] == NatToString(a / 10);
      assert sb[..|sb| - 1] == NatToString(b / 10);
      NatToStringInjective(a / 10, b / 10);
    }
  }

  /** The first position at or after `i` where `w` occurs; when there is
      none, a position where it does not occur. */
  function FindFrom(s: string, w: string, i: nat): (r: nat)
    ensures i <= r
    ensures forall k :: i <= k < r ==> !OccursAt(s, k, w)
    ensures !OccursAt(s, r, w) ==> forall k :: i <= k ==> !OccursAt(s, k, w)
    decreases |s| - i
  {
    if i + |w| > |s| then i
    else if OccursAt(s, i, w) then i
    else FindFrom(s, w, i + 1)
  }

  /** An occurrence in a concatenation lies in one part or straddles the
      joint. */
  lemma AbsentConcat(a: string, b: string, w: string)
    requires Absent(a, w) && Absent(b, w)
    requires forall p :: 0 <= p < |a| < p + |w| ==> !OccursAt(a + b, p, w)
    ensures Absent(a + b, w)
  {
    forall p | 0 <= p <= |a + b| ensures !OccursAt(a + b, p, w) {
      if OccursAt(a + b, p, w) {
        if p + |w| <= |a| {
          assert (a + b)[p..p + |w|] == a[p..p + |w|];
          assert OccursAt(a, p, w);
        } else if p >= |a| {
          assert (a + b)[p..p + |w|] == b[p - |a|..p - |a| + |w|];
          assert OccursAt(b, p - |a|, w);
        }
      }
    }
  }

  /** `str.replace` works on the two parts of a concatenation separately
      when no occurrence straddles the joint. */
  lemma {:induction false} ReplaceSplit(a: string, b: string, pat: string, rep: string)
    requires pat != []
    requires forall p :: 0 <= p < |a| < p + |pat| ==> !OccursAt(a + b, p, pat)
    ensures Replace(a + b, pat, rep) == Replace(a, pat, rep) + Replace(b, pat, rep)
    decreases |a|
  {
    var s := a + b;
    if a == [] {
      assert s == b;
    } else if |a| < |pat| {
      forall p | 0 <= p < |a| ensures !OccursAt(s, p, pat) {
      }
      ReplaceSkip(a, b, pat, rep);
    } else if a[..|pat|] == pat {
      assert s[..|pat|] == pat;
      assert s[|pat|..] == a[|pat|..] + b;
      var a' := a[|pat|..];
      forall p | 0 <= p < |a'| < p + |pat| ensures !OccursAt(a' + b, p, pat) {
        assert !OccursAt(s, p + |pat|, pat);
        if p + |pat| <= |a' + b| {
          assert s[p + |pat|..p + |pat| + |pat|] == (a' + b)[p..p + |pat|];
        }
      }
      ReplaceSplit(a', b, pat, rep);
    } else {
      assert s[..|pat|] == a[..|pat|];
      assert s[1..] == a[1..] + b;
      var a' := a[1..];
      forall p | 0 <= p < |a'| < p + |pat| ensures !OccursAt(a' + b, p, pat) {
        assert !OccursAt(s, p + 1, pat);
        if p + |pat| <= |a' + b| {
          assert s[1..][p..p + |pat|] == s[p + 1..p + 1 + |pat|];
          assert s[p + 1..p + 1 + |pat|] == (a' + b)[p..p + |pat|];
        }
      }
      ReplaceSplit(a', b, pat, rep);
    }
  }

  /** A piece of an occurrence is found at the same offset in the text. */
  lemma OccursPiece(s: string, p: nat, w: string, x: nat, y: nat)
    requires OccursAt(s, p, w) && x <= y <= |w|
    ensures s[p + x..p + y] == w[x..y]
  {
    var inner, outer := s[p + x..p + y], w[x..y];
    forall q | 0 <= q < y - x
      ensures inner[q] == outer[q]
    {
      assert inner[q] == s[p + x + q] == s[p..p + |w|][x + q];
    }
  }

  /** One character of an occurrence. */
  lemma OccursChar(s: string, p: nat, w: string, x: nat)
    requires OccursAt(s, p, w) && x < |w|
    ensures s[p + x] == w[x]
  {
    assert s[p + x] == s[p..p + |w|][x];
  }

  /** A piece of an occurrence is itself an occurrence. */
  lemma OccursWithin(s: string, p: nat, w: string, x: nat, v: string)
    requires OccursAt(s, p, w) && OccursAt(w, x, v)
    ensures OccursAt(s, p + x, v)
  {
    OccursPiece(s, p, w, x, x + |v|);
  }

  lemma OccursMiddle(a: string, w: string, rest: string)
    ensures OccursAt(a + w + rest, |a|, w)
  {
    assert (a + w + rest)[|a|..|a| + |w|] == w;
  }

  /** `str.rfind` for one character: the last index holding `c`, or -1. */
  function RFind(s: string, c: char): (r: int)
    ensures -1 <= r < |s|
    ensures r >= 0 ==> s[r] == c
    ensures forall k :: r < k < |s| ==> s[k] != c
  {
    if s == [] then -1
    else if s[|s| - 1] == c then |s| - 1
    else RFind(s[..|s| - 1], c)
  }

  /** The index just after the run of ASCII digits that starts at `i`. */
  function DigitsEnd(s: string, i: nat): (j: nat)
    requires i <= |s|
    ensures i <= j <= |s|
    ensures forall k :: i <= k < j ==> IsDigit(s[k])
    ensures j == |s| || !IsDigit(s[j])
    decreases |s| - i
  {
    if i < |s| && IsDigit(s[i]) then DigitsEnd(s, i + 1) else i
  }

  /** A run of `n` digits ending before a non-digit stops `DigitsEnd`. */
  lemma {:induction false} DigitsEndStops(s: string, i: nat, n: nat)
    requires i + n <= |s|
    requires forall k :: i <= k < i + n ==> IsDigit(s[k])
    requires i + n == |s| || !IsDigit(s[i + n])
    ensures DigitsEnd(s, i) == i + n
    decreases n
  {
    if n > 0 {
      DigitsEndStops(s, i + 1, n - 1);
    }
  }

  // ---------------------------------------------------------------------
  // `str.split` and `str.strip`

  /** `s.split(c)`: the pieces between the separators, always at least
      one. */
  function Split(s: string, c: char): (r: seq<string>)
    ensures |r| >= 1
    ensures forall k :: 0 <= k < |r| ==> c !in r[k]
  {
    if s == [] then [[]]
    else
      var rest := Split(s[1..], c);
      if s[0] == c then [[]] + rest
      else [[s[0]] + rest[0]] + rest[1..]
  }

  /** The pieces joined back with the separator between them. */
  function Join(parts: seq<string>, c: char): string
    requires |parts| >= 1
  {
    if |parts| == 1 then parts[0] else parts[0] + [c] + Join(parts[1..], c)
  }

  /** Splitting undoes joining pieces free of the separator. */
  lemma {:induction false} SplitJoin(parts: seq<string>, c: char)
    requires |parts| >= 1
    requires forall k :: 0 <= k < |parts| ==> c !in parts[k]
    ensures Split(Join(parts, c), c) == parts
    decreases |parts|
  {
    if |parts| == 1 {
      SplitFree(parts[0], c);
    } else {
      SplitJoin(parts[1..], c);
      SplitAfterFree(parts[0], c, Join(parts[1..], c));
      assert [parts[0]] + parts[1..] == parts;
    }
  }

  /** A text without the separator is one piece. */
  lemma {:induction false} SplitFree(s: string, c: char)
    requires c !in s
    ensures Split(s, c) == [s]
  {
    if s != [] {
      assert s[0] in s;
      assert c !in s[1..] by {
        forall k | 0 <= k < |s| - 1
          ensures s[1..][k] != c
        {
          assert s[1..][k] == s[k + 1] && s[k + 1] in s;
        }
      }
      SplitFree(s[1..], c);
      assert [s[0]] + s[1..] == s;
    }
  }

  /** A separator-free piece, the separator, then the rest: the piece
      comes first and the rest is split on its own. */
  lemma {:induction false} SplitAfterFree(a: string, c: char, rest: string)
    requires c !in a
    ensures Split(a + [c] + rest, c) == [a] + Split(rest, c)
  {
    if a == [] {
      assert a + [c] + rest == [c] + rest;
      assert ([c] + rest)[1..] == rest;
    } else {
      assert a[0] in a;
      assert c !in a[1..] by {
        forall k | 0 <= k < |a| - 1
          ensures a[1..][k] != c
        {
          assert a[1..][k] == a[k + 1] && a[k + 1] in a;
        }
      }
      SplitAfterFree(a[1..], c, rest);
      assert (a + [c] + rest)[1..] == a[1..] + [c] + rest;
      assert [a[0]] + a[1..] == a;
    }
  }

  /** `str.strip()`: leading and trailing whitespace removed. */
  function Strip(s: string): (r: string)
    ensures |r| <= |s|
    ensures forall k :: 0 <= k < |r| ==> r[k] in s
    ensures r != [] ==> !IsSpace(r[0]) && !IsSpace(r[|r| - 1])
  {
    StripEnd(s[SkipSpaces(s, 0)..])
  }

  function StripEnd(s: string): (r: string)
    ensures |r| <= |s| && r == s[..|r|]
    ensures r != [] ==> !IsSpace(r[|r| - 1])
  {
    if s != [] && IsSpace(s[|s| - 1]) then StripEnd(s[..|s| - 1]) else s
  }


  /** Stripping a text whose ends are not whitespace keeps it whole. */
  lemma StripTrimmed(s: string)
    requires s != [] && !IsSpace(s[0]) && !IsSpace(s[|s| - 1])
    ensures Strip(s) == s
  {
    assert s[0..] == s;
  }

  lemma StripPadded(before: string, d: string, after: string)
    requires forall k :: 0 <= k < |before| ==> IsSpace(before[k])
    requires forall k :: 0 <= k < |after| ==> IsSpace(after[k])
    requires d != [] && !IsSpace(d[0]) && !IsSpace(d[|d| - 1])
    ensures Strip(before + d + after) == Strip(d)
  {
    var s := before + d + after;
    SkipSpacesStops(s, 0, |before|);
    assert s[|before|..] == d + after;
    StripEndPadded(d, after);
    StripTrimmed(d);
  }

  lemma {:induction false} StripEndPadded(d: string, after: string)
    requires d != [] && !IsSpace(d[|d| - 1])
    requires forall k :: 0 <= k < |after| ==> IsSpace(after[k])
    ensures StripEnd(d + after) == d
    decreases |after|
  {
    if after == [] {
      assert d + after == d;
    } else {
      var s := d + after;
      assert s[..|s| - 1] == d + after[..|after| - 1];
      StripEndPadded(d, after[..|after| - 1]);
    }
  }
}
