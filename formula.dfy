/** Formula protection around the HTML to LaTeX round trip: numbered
    markers stand in for `$$...$$`, `$...$` and `\[...\]` spans while the
    rest of the text goes through pandoc, and are put back afterwards. */
module Formula {
  import opened Wrappers
  import opened StringUtil
  import opened Scan

  // ---------------------------------------------------------------------
  // Markers.

  const MarkerHead := "LATEX-"
  const MarkerTail := "-SUBSTITUTION"

  /** `f"LATEX-{k}-SUBSTITUTION"`. */
  function Marker(k: nat): (m: string)
    ensures |m| > |MarkerHead| + |MarkerTail|
    ensures m[..|MarkerHead|] == MarkerHead
  {
    MarkerHead + NatToString(k) + MarkerTail
  }

  /** The letter `L` opens a marker and appears nowhere else in it. */
  lemma LOnlyAtStart(k: nat, o: int)
    requires 0 < o < |Marker(k)|
    ensures Marker(k)[o] != 'L'
  {
    var d := NatToString(k);
    var m := Marker(k);
    if o < 6 {
      assert m[o] == MarkerHead[o];
    } else if o < 6 + |d| {
      assert m[o] == d[o - 6];
    } else {
      assert m[o] == MarkerTail[o - 6 - |d|];
    }
  }

  /** A marker that begins another marker is that marker. */
  lemma MarkerPrefix(j: nat, k: nat)
    ensures |Marker(j)| <= |Marker(k)| && Marker(k)[..|Marker(j)|] == Marker(j) ==> j == k
  {
    var dj, dk := NatToString(j), NatToString(k);
    var mj, mk := Marker(j), Marker(k);
    assert forall o :: 0 <= o < |dj| ==> mj[6 + o] == dj[o];
    assert forall o :: 0 <= o < |dk| ==> mk[6 + o] == dk[o];
    assert mj[6 + |dj|] == '-' && mk[6 + |dk|] == '-';
    if |mj| <= |mk| && mk[..|mj|] == mj {
      assert forall o :: 0 <= o < |mj| ==> mk[o] == mj[o];
      if |dj| == |dk| {
        assert dj == mj[6..6 + |dj|] && dk == mk[6..6 + |dk|];
        NatToStringInjective(j, k);
      } else {
        assert false;
      }
    }
  }

  /** Markers are pairwise distinct and none is a substring of another. */
  lemma MarkerInMarker(j: nat, k: nat, p: int)
    ensures OccursAt(Marker(j), p, Marker(k)) ==> j == k && p == 0
  {
    if 0 < p < |Marker(j)| {
      LOnlyAtStart(j, p);
      var c, c' := Marker(j)[p], Marker(k)[0];
      assert OccursAt(Marker(j), p, Marker(k)) ==> c == c';
    } else if p == 0 {
      MarkerPrefix(k, j);
    }
  }

  lemma MarkersDistinct(j: nat, k: nat)
    requires j != k
    ensures Absent(Marker(j), Marker(k))
  {
    forall p | 0 <= p <= |Marker(j)| ensures !OccursAt(Marker(j), p, Marker(k)) {
      MarkerInMarker(j, k, p);
    }
  }

  /** A mismatch at offset `o` rules out an occurrence at `p`. */
  lemma CharDiffers(s: string, p: nat, w: string, o: nat)
    requires o < |w| && p + o < |s| && s[p + o] != w[o]
    ensures !OccursAt(s, p, w)
  {
    if p + |w| <= |s| {
      assert s[p..p + |w|][o] == s[p + o];
    }
  }

  /** So does a mismatch in the first `n` characters. */
  lemma PrefixDiffers(s: string, p: nat, w: string, n: nat)
    requires n <= |w| && p + n <= |s| && s[p..p + n] != w[..n]
    ensures !OccursAt(s, p, w)
  {
    if p + |w| <= |s| {
      assert s[p..p + n] == s[p..p + |w|][..n];
    }
  }

  /** No occurrence of a marker starts before a marker and runs into it. */
  lemma NoStraddleBefore(a: string, j: nat, b: string, k: nat)
    ensures forall p :: 0 <= p < |a| < p + |Marker(k)| ==> !OccursAt(a + Marker(j) + b, p, Marker(k))
  {
    var s := a + Marker(j) + b;
    forall p | 0 <= p < |a| < p + |Marker(k)| ensures !OccursAt(s, p, Marker(k)) {
      assert s[|a|] == Marker(j)[0] == 'L';
      LOnlyAtStart(k, |a| - p);
      CharDiffers(s, p, Marker(k), |a| - p);
    }
  }

  /** No occurrence of a marker starts inside or at a marker and runs past
      its end. */
  lemma NoStraddleAfter(a: string, j: nat, b: string, k: nat)
    ensures forall p :: 0 <= p < |a| + |Marker(j)| < p + |Marker(k)| ==> !OccursAt(a + Marker(j) + b, p, Marker(k))
  {
    var s := a + Marker(j) + b;
    var mj, mk := Marker(j), Marker(k);
    forall p | 0 <= p < |a| + |mj| < p + |mk| ensures !OccursAt(s, p, mk) {
      if p < |a| {
        assert s[|a|] == mj[0] == 'L';
        LOnlyAtStart(k, |a| - p);
        CharDiffers(s, p, mk, |a| - p);
      } else if p == |a| {
        assert s[|a|..|a| + |mj|] == mj;
        MarkerPrefix(j, k);
        PrefixDiffers(s, p, mk, |mj|);
      } else {
        assert s[p] == mj[p - |a|] && mk[0] == 'L';
        LOnlyAtStart(j, p - |a|);
        CharDiffers(s, p, mk, 0);
      }
    }
  }

  /** Replacing one marker leaves a different marker, and the text around
      it, to be handled part by part. */
  lemma ReplaceAroundMarker(x: string, n: nat, y: string, m: nat, rep: string)
    requires m != n
    ensures Replace(x + Marker(n) + y, Marker(m), rep)
         == Replace(x, Marker(m), rep) + Marker(n) + Replace(y, Marker(m), rep)
  {
    SplitAtMarker(x, n, y, m, rep);
    MarkersDistinct(n, m);
    ReplaceAbsent(Marker(n), Marker(m), rep);
  }

  /** Replacing marker `m` works on the parts around marker `n`
      separately. */
  lemma SplitAtMarker(x: string, n: nat, y: string, m: nat, rep: string)
    ensures Replace(x + Marker(n) + y, Marker(m), rep)
         == Replace(x, Marker(m), rep) + Replace(Marker(n), Marker(m), rep) + Replace(y, Marker(m), rep)
  {
    SplitBeforeMarker(x, n, y, m, rep);
    SplitAfterMarker(n, y, m, rep);
  }

  lemma SplitBeforeMarker(x: string, n: nat, y: string, m: nat, rep: string)
    ensures Replace(x + Marker(n) + y, Marker(m), rep) == Replace(x, Marker(m), rep) + Replace(Marker(n) + y, Marker(m), rep)
  {
    assert x + Marker(n) + y == x + (Marker(n) + y);
    NoStraddleBefore(x, n, y, m);
    ReplaceSplit(x, Marker(n) + y, Marker(m), rep);
  }

  lemma SplitAfterMarker(n: nat, y: string, m: nat, rep: string)
    ensures Replace(Marker(n) + y, Marker(m), rep) == Replace(Marker(n), Marker(m), rep) + Replace(y, Marker(m), rep)
  {
    assert [] + Marker(n) + y == Marker(n) + y;
    NoStraddleAfter([], n, y, m);
    ReplaceSplit(Marker(n), y, Marker(m), rep);
  }

  /** A marker that occurs once, between texts free of it, is replaced. */
  lemma ReplaceOwnMarker(x: string, n: nat, y: string, rep: string)
    requires Absent(x, Marker(n)) && Absent(y, Marker(n))
    ensures Replace(x + Marker(n) + y, Marker(n), rep) == x + rep + y
  {
    var mn := Marker(n);
    SplitAtMarker(x, n, y, n, rep);
    ReplaceAbsent(x, mn, rep);
    ReplaceAbsent(y, mn, rep);
    assert mn[..|mn|] == mn && mn[|mn|..] == [];
    assert Replace(mn, mn, rep) == rep + Replace([], mn, rep);
  }

  /** `s` holds no marker numbered `n` or above. */
  ghost predicate NoMarkersFrom(s: string, n: nat)
  {
    forall k: nat, p :: n <= k ==> !OccursAt(s, p, Marker(k))
  }

  /** A text without `LATEX-` holds no marker at all. */
  lemma NoHeadNoMarkers(s: string)
    requires Absent(s, MarkerHead)
    ensures NoMarkersFrom(s, 0)
  {
    forall k: nat, p ensures !OccursAt(s, p, Marker(k)) {
      if 0 <= p && p + |Marker(k)| <= |s| {
        assert s[p..p + 6] == s[p..p + |Marker(k)|][..6];
        assert !OccursAt(s, p, MarkerHead);
      }
    }
  }

  lemma NoMarkersSlice(s: string, n: nat, i: int, j: int)
    requires NoMarkersFrom(s, n) && 0 <= i <= j <= |s|
    ensures NoMarkersFrom(s[i..j], n)
  {
    forall k: nat, p | n <= k ensures !OccursAt(s[i..j], p, Marker(k)) {
      var m := Marker(k);
      if 0 <= p && p + |m| <= j - i {
        var t := s[i..j];
        assert !OccursAt(s, i + p, m);
        assert forall q :: p <= q < p + |m| ==> t[q] == s[i + q];
        assert t[p..p + |m|] == s[i + p..i + p + |m|];
      }
    }
  }

  // ---------------------------------------------------------------------
  // The three protection passes, each a left-to-right `re.sub`.

  /** The three span patterns, in the order they are applied. */
  datatype Delimiter = DoubleDollar | SingleDollar | Bracket

  /** The end of the span of `d` that starts at `i`, if one does.
      `\$\$[^$]+?\$\$`: at least one non-`$`, up to the first `$`, which must
      be doubled. `\$[^$]+?\$`: at least one non-`$` up to the next `$`.
      `\\\[.*?\\\]` (any character): up to the first `\]` after the `\[`. */
  function SpanEnd(d: Delimiter, u: string, i: nat): (r: Option<nat>)
    requires i <= |u|
    ensures r.Some? ==> i < r.value <= |u|
  {
    match d
    case DoubleDollar =>
      if !OccursAt(u, i, "$$") then None
      else
        var j := FindChar(u, i + 2, '$');
        if i + 2 < j && j + 1 < |u| && u[j + 1] == '$' then Some(j + 2) else None
    case SingleDollar =>
      if i == |u| || u[i] != '$' then None
      else
        var j := FindChar(u, i + 1, '$');
        if i + 1 < j < |u| then Some(j + 1) else None
    case Bracket =>
      if !OccursAt(u, i, @"\[") then None
      else
        var e := FindFrom(u, @"\]", i + 2);
        if OccursAt(u, e, @"\]") then Some(e + 2) else None
  }

  /** The leftmost span at or after `i`: its start and its end. */
  function NextSpan(d: Delimiter, u: string, i: nat): (r: Option<(nat, nat)>)
    requires i <= |u|
    ensures r.Some? ==> i <= r.value.0 < r.value.1 <= |u|
    decreases |u| - i
  {
    match SpanEnd(d, u, i)
    case Some(e) => Some((i, e))
    case None => if i == |u| then None else NextSpan(d, u, i + 1)
  }

  /** `NextSpan` finds the leftmost span, and there is none when it finds
      nothing. */
  lemma {:induction false} NextSpanLeftmost(d: Delimiter, u: string, i: nat)
    requires i <= |u|
    ensures NextSpan(d, u, i).Some? ==>
      var (j, e) := NextSpan(d, u, i).value;
      SpanEnd(d, u, j) == Some(e) && forall k :: i <= k < j ==> SpanEnd(d, u, k).None?
    ensures NextSpan(d, u, i).None? ==> forall k :: i <= k <= |u| ==> SpanEnd(d, u, k).None?
    decreases |u| - i
  {
    if NextSpan(d, u, i).Some? {
      NextSpanFound(d, u, i);
    } else {
      NextSpanNone(d, u, i);
    }
  }

  lemma {:induction false} NextSpanFound(d: Delimiter, u: string, i: nat)
    requires i <= |u| && NextSpan(d, u, i).Some?
    ensures SpanEnd(d, u, NextSpan(d, u, i).value.0) == Some(NextSpan(d, u, i).value.1)
    ensures forall k :: i <= k < NextSpan(d, u, i).value.0 ==> SpanEnd(d, u, k).None?
    decreases |u| - i
  {
    if SpanEnd(d, u, i).None? {
      NextSpanFound(d, u, i + 1);
    }
  }

  lemma {:induction false} NextSpanNone(d: Delimiter, u: string, i: nat)
    requires i <= |u| && NextSpan(d, u, i).None?
    ensures forall k :: i <= k <= |u| ==> SpanEnd(d, u, k).None?
    decreases |u| - i
  {
    if i < |u| {
      NextSpanNone(d, u, i + 1);
    }
  }

  /** `re.sub(pattern, replace_with_marker, u[i..])`: each span is recorded
      in `subs` and replaced by the marker numbered by the count of spans
      recorded so far, across all passes. */
  function Protect(d: Delimiter, u: string, i: nat, subs: seq<string>): (r: (string, seq<string>))
    requires i <= |u|
    ensures |subs| <= |r.1| && r.1[..|subs|] == subs
    decreases |u| - i
  {
    match NextSpan(d, u, i)
    case None => (u[i..], subs)
    case Some((j, e)) =>
      var (rest, all) := Protect(d, u, e, subs + [u[j..e]]);
      assert all[..|subs|] == all[..|subs| + 1][..|subs|];
      (u[i..j] + Marker(|subs|) + rest, all)
  }

  lemma ProtectNone(d: Delimiter, u: string, i: nat, subs: seq<string>)
    requires i <= |u| && NextSpan(d, u, i).None?
    ensures Protect(d, u, i, subs) == (u[i..], subs)
  {
  }

  lemma ProtectSome(d: Delimiter, u: string, i: nat, subs: seq<string>, j: nat, e: nat)
    requires i <= |u| && NextSpan(d, u, i) == Some((j, e))
    ensures Protect(d, u, i, subs)
         == (u[i..j] + Marker(|subs|) + Protect(d, u, e, subs + [u[j..e]]).0, Protect(d, u, e, subs + [u[j..e]]).1)
  {
  }

  /** The three passes in order, numbering from 0. */
  function ProtectAll(s: string): (r: (string, seq<string>))
  {
    var p1 := Protect(DoubleDollar, s, 0, []);
    var p2 := Protect(SingleDollar, p1.0, 0, p1.1);
    Protect(Bracket, p2.0, 0, p2.1)
  }

  // ---------------------------------------------------------------------
  // Restoration.

  /** The entity unescaping applied to a span before it is put back:
      `&amp;`, then `&lt;`, then `&gt;`. */
  function Unescape(s: string): string
  {
    Replace(Replace(Replace(s, "&amp;", "&"), "&lt;", "<"), "&gt;", ">")
  }

  predicate NoAmpersand(s: string)
  {
    forall k :: 0 <= k < |s| ==> s[k] != '&'
  }

  lemma UnescapePlain(s: string)
    requires NoAmpersand(s)
    ensures Unescape(s) == s
  {
    forall w: string | w != [] && w[0] == '&' ensures Absent(s, w) {
      forall p | 0 <= p < |s| ensures !OccursAt(s, p, w) {
        var c, c' := s[p], w[0];
        assert OccursAt(s, p, w) ==> c == c';
      }
    }
    ReplaceAbsent(s, "&amp;", "&");
    ReplaceAbsent(s, "&lt;", "<");
    ReplaceAbsent(s, "&gt;", ">");
  }

  /** Puts back markers `lo` .. `hi - 1`, the highest number first. */
  function RestoreRange(doc: string, subs: seq<string>, lo: nat, hi: nat): string
    requires lo <= hi <= |subs|
    decreases hi - lo
  {
    if lo == hi then doc
    else Replace(RestoreRange(doc, subs, lo + 1, hi), Marker(lo), Unescape(subs[lo]))
  }

  /** Restoration in reverse order of creation: a span recorded by a later
      pass may hold markers of earlier ones, and those are then put back
      after it. */
  function Restore(doc: string, subs: seq<string>): string
  {
    RestoreRange(doc, subs, 0, |subs|)
  }

  /** Restoration as the loop over the substitution dictionary does it: in
      order of creation, marker 0 first. */
  function RestoreInCreationOrder(doc: string, subs: seq<string>): string
    decreases |subs|
  {
    if subs == [] then doc
    else
      var n := |subs| - 1;
      Replace(RestoreInCreationOrder(doc, subs[..n]), Marker(n), Unescape(subs[n]))
  }

  lemma {:induction false} RestoreRangeSplit(doc: string, subs: seq<string>, lo: nat, mid: nat, hi: nat)
    requires lo <= mid <= hi <= |subs|
    ensures RestoreRange(doc, subs, lo, hi) == RestoreRange(RestoreRange(doc, subs, mid, hi), subs, lo, mid)
    decreases mid - lo
  {
    if lo < mid {
      RestoreRangeSplit(doc, subs, lo + 1, mid, hi);
    }
  }

  lemma {:induction false} RestoreRangePrefix(doc: string, subs: seq<string>, more: seq<string>, lo: nat, hi: nat)
    requires lo <= hi <= |subs| <= |more| && more[..|subs|] == subs
    ensures RestoreRange(doc, subs, lo, hi) == RestoreRange(doc, more, lo, hi)
    decreases hi - lo
  {
    if lo < hi {
      assert more[lo] == more[..|subs|][lo];
      RestoreRangePrefix(doc, subs, more, lo + 1, hi);
    }
  }

  /** Putting back higher markers leaves a lower one in place, and the
      text before it, holding none of them, as it is. */
  lemma {:induction false} RestoreRangeAround(x: string, n: nat, y: string, subs: seq<string>, lo: nat, hi: nat)
    requires n < lo <= hi <= |subs| && NoMarkersFrom(x, lo)
    ensures RestoreRange(x + Marker(n) + y, subs, lo, hi) == x + Marker(n) + RestoreRange(y, subs, lo, hi)
    decreases hi - lo
  {
    if lo < hi {
      NoMarkersAbove(x, lo);
      RestoreRangeAround(x, n, y, subs, lo + 1, hi);
      var rep := Unescape(subs[lo]);
      ReplaceAroundMarker(x, n, RestoreRange(y, subs, lo + 1, hi), lo, rep);
      NoMarkersAbsent(x, lo);
      ReplaceAbsent(x, Marker(lo), rep);
    }
  }

  /** The markers of one pass are pushed no further than the count of spans
      it recorded. */
  lemma {:induction false} ProtectNoLaterMarkers(d: Delimiter, u: string, i: nat, subs: seq<string>)
    requires i <= |u| && NoMarkersFrom(u, |subs|)
    ensures NoMarkersFrom(Protect(d, u, i, subs).0, |Protect(d, u, i, subs).1|)
    decreases |u| - i
  {
    var (out, all) := Protect(d, u, i, subs);
    match NextSpan(d, u, i)
    case None =>
      NoMarkersSlice(u, |subs|, i, |u|);
      assert u[i..|u|] == u[i..];
    case Some((j, e)) =>
      var n := |subs|;
      var (rest, _) := Protect(d, u, e, subs + [u[j..e]]);
      ProtectNoLaterMarkers(d, u, e, subs + [u[j..e]]);
      NoMarkersSlice(u, n, i, j);
      var x := u[i..j];
      forall k: nat | |all| <= k ensures Absent(out, Marker(k)) {
        NoStraddleBefore(x, n, [], k);
        assert x + Marker(n) + [] == x + Marker(n);
        NoStraddleAfter(x, n, rest, k);
        MarkersDistinct(n, k);
        assert Absent(x, Marker(k));
        assert Absent(rest, Marker(k));
        AbsentConcat(x, Marker(n), Marker(k));
        AbsentConcat(x + Marker(n), rest, Marker(k));
      }
  }

  /** The characters a marker is made of. */
  predicate IsMarkerChar(c: char)
  {
    'A' <= c <= 'Z' || c == '-' || IsDigit(c)
  }

  lemma MarkerCharacters(k: nat)
    ensures forall o :: 0 <= o < |Marker(k)| ==> IsMarkerChar(Marker(k)[o])
  {
    var m, dg := Marker(k), NatToString(k);
    forall o | 0 <= o < |m| ensures IsMarkerChar(m[o]) {
      if o < 6 {
        assert m[o] == MarkerHead[o];
      } else if o < 6 + |dg| {
        assert m[o] == dg[o - 6];
      } else {
        assert m[o] == MarkerTail[o - 6 - |dg|];
      }
    }
  }

  /** A word made only of characters a marker can hold. */
  predicate MarkerWord(w: string)
  {
    forall o :: 0 <= o < |w| ==> IsMarkerChar(w[o])
  }

  /** Replacing by a character no marker holds creates no word of marker
      characters at the start of the text. */
  lemma {:induction false} ReplaceNoNewPrefix(s: string, pat: string, c: char, v: string)
    requires pat != [] && !IsMarkerChar(c) && v != [] && MarkerWord(v)
    requires !OccursAt(s, 0, v)
    ensures !OccursAt(Replace(s, pat, [c]), 0, v)
    decreases |s|
  {
    var t := Replace(s, pat, [c]);
    if |s| < |pat| {
    } else if s[..|pat|] == pat {
      assert t == [c] + Replace(s[|pat|..], pat, [c]);
      CharDiffers(t, 0, v, 0);
    } else if s[0] != v[0] {
      assert t == [s[0]] + Replace(s[1..], pat, [c]);
      CharDiffers(t, 0, v, 0);
    } else {
      var t' := Replace(s[1..], pat, [c]);
      assert t == [s[0]] + t';
      assert |v| >= 2;
      assert !OccursAt(s[1..], 0, v[1..]) by {
        if |v| <= |s| {
          assert s[..|v|] == [s[0]] + s[1..][..|v| - 1];
          assert v == [v[0]] + v[1..];
        }
      }
      ReplaceNoNewPrefix(s[1..], pat, c, v[1..]);
      ConsNoOccurrence(s[0], t', v);
    }
  }

  /** A word whose tail does not start `t` does not start `[a] + t`. */
  lemma ConsNoOccurrence(a: char, t: string, v: string)
    requires v != [] && !OccursAt(t, 0, v[1..])
    ensures !OccursAt([a] + t, 0, v)
  {
    if |v| <= 1 + |t| {
      assert ([a] + t)[..|v|][1..] == t[..|v| - 1];
    }
  }

  /** An occurrence-free text keeps that property past its first `k`
      characters. */
  lemma AbsentSuffix(s: string, k: nat, w: string)
    requires k <= |s| && Absent(s, w)
    ensures Absent(s[k..], w)
  {
    forall p | 0 <= p <= |s[k..]| ensures !OccursAt(s[k..], p, w) {
      if p + |w| <= |s| - k {
        assert s[k..][p..p + |w|] == s[k + p..k + p + |w|];
        assert !OccursAt(s, k + p, w);
      }
    }
  }

  /** A text that does not start with `w` and whose tail is free of `w` is
      free of `w`. */
  lemma AbsentAfterHead(t: string, x: char, t': string, w: string)
    requires t == [x] + t' && !OccursAt(t, 0, w) && Absent(t', w)
    ensures Absent(t, w)
  {
    forall p | 1 <= p <= |t| ensures !OccursAt(t, p, w) {
      if p + |w| <= |t| {
        assert t[p..p + |w|] == t'[p - 1..p - 1 + |w|];
        assert !OccursAt(t', p - 1, w);
      }
    }
  }

  /** Replacing by a character no marker holds creates no word of marker
      characters anywhere. */
  lemma {:induction false} ReplaceKeepsAbsent(s: string, pat: string, c: char, w: string)
    requires pat != [] && !IsMarkerChar(c) && w != [] && MarkerWord(w) && Absent(s, w)
    ensures Absent(Replace(s, pat, [c]), w)
    decreases |s|
  {
    if |s| >= |pat| {
      var t := Replace(s, pat, [c]);
      var k := if s[..|pat|] == pat then |pat| else 1;
      var x := if s[..|pat|] == pat then c else s[0];
      AbsentSuffix(s, k, w);
      ReplaceKeepsAbsent(s[k..], pat, c, w);
      assert t == [x] + Replace(s[k..], pat, [c]);
      assert !OccursAt(s, 0, w);
      ReplaceNoNewPrefix(s, pat, c, w);
      AbsentAfterHead(t, x, Replace(s[k..], pat, [c]), w);
    }
  }

  /** Unescaping creates no marker. */
  lemma UnescapeNoMarkers(s: string, n: nat)
    requires NoMarkersFrom(s, n)
    ensures NoMarkersFrom(Unescape(s), n)
  {
    var s1 := Replace(s, "&amp;", "&");
    var s2 := Replace(s1, "&lt;", "<");
    forall k: nat | n <= k ensures Absent(Unescape(s), Marker(k)) {
      MarkerCharacters(k);
      ReplaceKeepsAbsent(s, "&amp;", '&', Marker(k));
      ReplaceKeepsAbsent(s1, "&lt;", '<', Marker(k));
      ReplaceKeepsAbsent(s2, "&gt;", '>', Marker(k));
    }
  }

  /** Replacing a pattern that does not start with the first character
      keeps that character first. */
  lemma ReplaceKeepsFirst(s: string, pat: string, rep: string)
    requires pat != [] && s != [] && s[0] != pat[0]
    ensures Replace(s, pat, rep) != [] && Replace(s, pat, rep)[0] == s[0]
  {
    if |s| >= |pat| {
      assert s[..|pat|][0] == s[0];
    }
  }

  /** Replacing a pattern that does not hold the last character keeps that
      character last. */
  lemma {:induction false} ReplaceKeepsLast(s: string, pat: string, rep: string)
    requires pat != [] && s != [] && s[|s| - 1] !in pat
    ensures Replace(s, pat, rep) != [] && Replace(s, pat, rep)[|Replace(s, pat, rep)| - 1] == s[|s| - 1]
    decreases |s|
  {
    if |s| >= |pat| {
      if s[..|pat|] == pat {
        assert s[|pat| - 1] == s[..|pat|][|pat| - 1] == pat[|pat| - 1];
        ReplaceKeepsLast(s[|pat|..], pat, rep);
      } else if |s| > 1 {
        ReplaceKeepsLast(s[1..], pat, rep);
      }
    }
  }

  /** Unescaping keeps a first character other than `&` and a last one
      that no entity holds. */
  lemma UnescapeEdges(s: string)
    requires s != [] && s[0] != '&' && s[|s| - 1] !in "&amp;lt;gt;"
    ensures Unescape(s) != [] && Unescape(s)[0] == s[0]
    ensures Unescape(s)[|Unescape(s)| - 1] == s[|s| - 1]
  {
    var s1 := Replace(s, "&amp;", "&");
    var s2 := Replace(s1, "&lt;", "<");
    ReplaceKeepsFirst(s, "&amp;", "&");
    ReplaceKeepsLast(s, "&amp;", "&");
    ReplaceKeepsFirst(s1, "&lt;", "<");
    ReplaceKeepsLast(s1, "&lt;", "<");
    ReplaceKeepsFirst(s2, "&gt;", ">");
    ReplaceKeepsLast(s2, "&gt;", ">");
  }

  /** A span opens with `$` or `\` and closes with `$` or `]`. */
  lemma SpanEdges(d: Delimiter, u: string, i: nat, e: nat)
    requires i <= |u| && SpanEnd(d, u, i) == Some(e)
    ensures u[i] in "$\\" && u[e - 1] in "$]"
  {
    match d
    case DoubleDollar =>
      OccursChar(u, i, "$$", 0);
    case SingleDollar =>
    case Bracket =>
      OccursChar(u, i, @"\[", 0);
      OccursChar(u, e - 2, @"\]", 1);
  }

  /** Two texts without markers from `n` on, joined at a character no
      marker holds, give a text without them. */
  lemma NoMarkersJoin(a: string, b: string, n: nat)
    requires NoMarkersFrom(a, n) && NoMarkersFrom(b, n)
    requires (a != [] && !IsMarkerChar(a[|a| - 1])) || (b != [] && !IsMarkerChar(b[0]))
    ensures NoMarkersFrom(a + b, n)
  {
    forall k: nat | n <= k ensures Absent(a + b, Marker(k)) {
      var m := Marker(k);
      MarkerCharacters(k);
      forall p | 0 <= p < |a| < p + |m| ensures !OccursAt(a + b, p, m) {
        if a != [] && !IsMarkerChar(a[|a| - 1]) {
          CharDiffers(a + b, p, m, |a| - 1 - p);
        } else {
          CharDiffers(a + b, p, m, |a| - p);
        }
      }
      AbsentConcat(a, b, m);
    }
  }

  /** One pass with each of its spans unescaped in place and the text
      between the spans left as it is. */
  function UnescapeSpans(d: Delimiter, u: string, i: nat): string
    requires i <= |u|
    decreases |u| - i
  {
    match NextSpan(d, u, i)
    case None => u[i..]
    case Some((j, e)) => u[i..j] + Unescape(u[j..e]) + UnescapeSpans(d, u, e)
  }

  /** Unescaping the spans of a text without markers from `n` on creates
      none. */
  lemma {:induction false} UnescapeSpansNoMarkers(d: Delimiter, u: string, i: nat, n: nat)
    requires i <= |u| && NoMarkersFrom(u, n)
    ensures NoMarkersFrom(UnescapeSpans(d, u, i), n)
    decreases |u| - i
  {
    match NextSpan(d, u, i)
    case None =>
      NoMarkersSlice(u, n, i, |u|);
      assert u[i..|u|] == u[i..];
    case Some((j, e)) =>
      UnescapeSpansNoMarkers(d, u, e, n);
      SpanNoMarkers(d, u, i, n, j, e);
  }

  /** The step of `UnescapeSpansNoMarkers` for a span found at `j`. */
  lemma SpanNoMarkers(d: Delimiter, u: string, i: nat, n: nat, j: nat, e: nat)
    requires i <= |u| && NoMarkersFrom(u, n) && NextSpan(d, u, i) == Some((j, e))
    requires NoMarkersFrom(UnescapeSpans(d, u, e), n)
    ensures NoMarkersFrom(UnescapeSpans(d, u, i), n)
  {
    NextSpanFound(d, u, i);
    SpanEdges(d, u, j, e);
    NoMarkersSlice(u, n, i, j);
    NoMarkersSlice(u, n, j, e);
    UnescapedSpanNoMarkers(u[i..j], u[j..e], UnescapeSpans(d, u, e), n);
  }

  /** An unescaped span between texts without markers from `n` on leaves
      none. */
  lemma UnescapedSpanNoMarkers(x: string, span: string, rest: string, n: nat)
    requires NoMarkersFrom(x, n) && NoMarkersFrom(span, n) && NoMarkersFrom(rest, n)
    requires span != [] && span[0] in "$\\" && span[|span| - 1] in "$]"
    ensures NoMarkersFrom(x + Unescape(span) + rest, n)
  {
    UnescapeNoMarkers(span, n);
    UnescapeEdges(span);
    NoMarkersJoin(Unescape(span), rest, n);
    NoMarkersJoin(x, Unescape(span) + rest, n);
    assert x + Unescape(span) + rest == x + (Unescape(span) + rest);
  }

  /** Putting back markers `n` and above, when those above `n` are known to
      give back `tail`: marker `n` becomes its span, unescaped. */
  lemma RestoreStep(x: string, n: nat, rest: string, all: seq<string>, tail: string)
    requires n < |all| && NoMarkersFrom(x, n) && NoMarkersFrom(tail, n)
    requires RestoreRange(rest, all, n + 1, |all|) == tail
    ensures RestoreRange(x + Marker(n) + rest, all, n, |all|) == x + Unescape(all[n]) + tail
  {
    RestoreAboveMarker(x, n, rest, all, tail);
    NoMarkersAbsent(x, n);
    NoMarkersAbsent(tail, n);
    ReplaceOwnMarker(x, n, tail, Unescape(all[n]));
  }

  /** Putting back the markers above `n` leaves marker `n` between `x`
      and what `rest` gives back. */
  lemma RestoreAboveMarker(x: string, n: nat, rest: string, all: seq<string>, tail: string)
    requires n < |all| && NoMarkersFrom(x, n)
    requires RestoreRange(rest, all, n + 1, |all|) == tail
    ensures RestoreRange(x + Marker(n) + rest, all, n + 1, |all|) == x + Marker(n) + tail
  {
    NoMarkersAbove(x, n);
    RestoreRangeAround(x, n, rest, all, n + 1, |all|);
  }

  lemma NoMarkersAbove(s: string, n: nat)
    requires NoMarkersFrom(s, n)
    ensures NoMarkersFrom(s, n + 1)
  {
  }

  lemma NoMarkersAbsent(s: string, n: nat)
    requires NoMarkersFrom(s, n)
    ensures Absent(s, Marker(n))
  {
  }

  lemma SliceJoin(u: string, i: int, j: int, e: int)
    requires 0 <= i <= j <= e <= |u|
    ensures u[i..j] + u[j..e] + u[e..] == u[i..]
  {
    assert u[j..] == u[j..e] + u[e..];
    assert u[i..] == u[i..j] + u[j..];
  }

  /** One pass undone: putting back the markers it created gives back its
      input with every span it protected unescaped and the text between
      the spans untouched. */
  lemma {:induction false} ProtectRestores(d: Delimiter, u: string, i: nat, subs: seq<string>)
    requires i <= |u| && NoMarkersFrom(u, |subs|)
    ensures RestoreRange(Protect(d, u, i, subs).0, Protect(d, u, i, subs).1, |subs|, |Protect(d, u, i, subs).1|)
         == UnescapeSpans(d, u, i)
    decreases |u| - i
  {
    match NextSpan(d, u, i)
    case None =>
      ProtectNone(d, u, i, subs);
    case Some((j, e)) =>
      NoMarkersAbove(u, |subs|);
      ProtectRestores(d, u, e, subs + [u[j..e]]);
      ProtectRestoresStep(d, u, i, subs, j, e);
  }

  /** The step of `ProtectRestores` for a pass that found a span at `j`,
      from what the rest of the pass gives back. */
  lemma ProtectRestoresStep(d: Delimiter, u: string, i: nat, subs: seq<string>, j: nat, e: nat)
    requires i <= |u| && NoMarkersFrom(u, |subs|) && NextSpan(d, u, i) == Some((j, e))
    requires
      var r' := Protect(d, u, e, subs + [u[j..e]]);
      RestoreRange(r'.0, r'.1, |subs| + 1, |r'.1|) == UnescapeSpans(d, u, e)
    ensures RestoreRange(Protect(d, u, i, subs).0, Protect(d, u, i, subs).1, |subs|, |Protect(d, u, i, subs).1|)
         == UnescapeSpans(d, u, i)
  {
    var r' := Protect(d, u, e, subs + [u[j..e]]);
    ProtectSome(d, u, i, subs, j, e);
    assert r'.1[|subs|] == r'.1[..|subs| + 1][|subs|];
    UnescapeSpansNoMarkers(d, u, e, |subs|);
    SpanRestores(u, i, j, e, |subs|, Protect(d, u, i, subs).0, r'.0, r'.1, UnescapeSpans(d, u, e));
  }

  /** The step of `ProtectRestores` for a pass that found a span at `j`. */
  lemma SpanRestores(u: string, i: int, j: int, e: int, n: nat, out: string, rest: string, all: seq<string>,
                     tail: string)
    requires 0 <= i <= j <= e <= |u| && NoMarkersFrom(u, n) && NoMarkersFrom(tail, n)
    requires n < |all| && all[n] == u[j..e]
    requires out == u[i..j] + Marker(n) + rest
    requires RestoreRange(rest, all, n + 1, |all|) == tail
    ensures RestoreRange(out, all, n, |all|) == u[i..j] + Unescape(u[j..e]) + tail
  {
    NoMarkersSlice(u, n, i, j);
    RestoreStep(u[i..j], n, rest, all, tail);
  }

  /** Unescaping changes none of the recorded spans from `lo` on. */
  predicate FixedFrom(f: seq<string>, lo: nat)
  {
    forall k :: lo <= k < |f| ==> Unescape(f[k]) == f[k]
  }

  lemma FixedPrefix(f: seq<string>, g: seq<string>, lo: nat)
    requires |f| <= |g| && g[..|f|] == f && FixedFrom(g, lo)
    ensures FixedFrom(f, lo)
  {
    forall k | lo <= k < |f| ensures Unescape(f[k]) == f[k] {
      assert f[k] == g[..|f|][k];
    }
  }

  /** When unescaping changes none of the spans a pass recorded, the pass's
      spans come back as they were. */
  lemma {:induction false} UnescapeSpansFixed(d: Delimiter, u: string, i: nat, subs: seq<string>)
    requires i <= |u| && FixedFrom(Protect(d, u, i, subs).1, |subs|)
    ensures UnescapeSpans(d, u, i) == u[i..]
    decreases |u| - i
  {
    match NextSpan(d, u, i)
    case None =>
    case Some((j, e)) =>
      var all := Protect(d, u, i, subs).1;
      var more := subs + [u[j..e]];
      assert Protect(d, u, e, more).1 == all;
      assert all[|subs|] == all[..|more|][|subs|] == u[j..e];
      UnescapeSpansFixed(d, u, e, more);
      SliceJoin(u, i, j, e);
  }

  /** Round trip: with the marker text passed through unchanged, restoring
      in reverse order gives back the original content, for content that
      holds no `LATEX-` of its own and whose protected spans hold no entity
      to unescape; text outside the spans is given back as it is, entities
      included. */
  lemma ProtectThenRestore(s: string)
    requires Absent(s, MarkerHead) && FixedFrom(ProtectAll(s).1, 0)
    ensures Restore(ProtectAll(s).0, ProtectAll(s).1) == s
  {
    var (s1, f1) := Protect(DoubleDollar, s, 0, []);
    var (s2, f2) := Protect(SingleDollar, s1, 0, f1);
    var (s3, f3) := Protect(Bracket, s2, 0, f2);
    FixedPrefix(f2, f3, 0);
    FixedPrefix(f1, f2, 0);
    NoHeadNoMarkers(s);
    ProtectRestores(DoubleDollar, s, 0, []);
    UnescapeSpansFixed(DoubleDollar, s, 0, []);
    ProtectNoLaterMarkers(DoubleDollar, s, 0, []);
    ProtectRestores(SingleDollar, s1, 0, f1);
    UnescapeSpansFixed(SingleDollar, s1, 0, f1);
    ProtectNoLaterMarkers(SingleDollar, s1, 0, f1);
    ProtectRestores(Bracket, s2, 0, f2);
    UnescapeSpansFixed(Bracket, s2, 0, f2);
    RestoreRangeSplit(s3, f3, 0, |f2|, |f3|);
    RestoreRangePrefix(s2, f2, f3, 0, |f2|);
    RestoreRangeSplit(s2, f2, 0, |f1|, |f2|);
    RestoreRangePrefix(s1, f1, f2, 0, |f1|);
    assert s[0..] == s && s1[0..] == s1 && s2[0..] == s2;
  }

  // ---------------------------------------------------------------------
  // Restoring in order of creation.

  /** A display formula holding an inline one. */
  const NestedExample := @"\[$a$\]"

  /** The loop over the substitution dictionary puts back marker 0 before
      the bracket span that contains it is back in the text, so the marker
      text is left in the output; restoring in reverse gives the content
      back. */
  lemma CreationOrderLeavesMarker()
    ensures ProtectAll(NestedExample) == (Marker(1), ["$a$", @"\[" + Marker(0) + @"\]"])
    ensures RestoreInCreationOrder(ProtectAll(NestedExample).0, ProtectAll(NestedExample).1) != NestedExample
    ensures Restore(ProtectAll(NestedExample).0, ProtectAll(NestedExample).1) == NestedExample
  {
    var s := NestedExample;
    var s2 := @"\[" + Marker(0) + @"\]";
    var f := ["$a$", s2];
    ProtectNested();
    CreationOrderOnNested();
    NestedExamplePlain();
    ProtectThenRestore(s);
  }

  lemma NestedExamplePlain()
    ensures Absent(NestedExample, MarkerHead)
    ensures Unescape("$a$") == "$a$"
    ensures Unescape(@"\[" + Marker(0) + @"\]") == @"\[" + Marker(0) + @"\]"
  {
    var s := NestedExample;
    forall p | 0 <= p <= |s| ensures !OccursAt(s, p, MarkerHead) {
      if p + 6 <= |s| {
        assert s[p] != 'L';
      }
    }
    var s2 := @"\[" + Marker(0) + @"\]";
    assert NoAmpersand("$a$");
    UnescapePlain("$a$");
    MarkerCharacters(0);
    assert NoAmpersand(s2);
    UnescapePlain(s2);
  }

  lemma ProtectNested()
    ensures ProtectAll(NestedExample) == (Marker(1), ["$a$", @"\[" + Marker(0) + @"\]"])
  {
    FirstPassFindsNothing();
    SecondPassFindsInline();
    ThirdPassTakesAll();
  }

  lemma ThirdPassTakesAll()
    ensures Protect(Bracket, @"\[" + Marker(0) + @"\]", 0, ["$a$"]) == (Marker(1), ["$a$", @"\[" + Marker(0) + @"\]"])
  {
    var s2 := @"\[" + Marker(0) + @"\]";
    MarkerCharacters(0);
    BracketSpanEnd(Marker(0));
    ProtectWholeSpan(Bracket, s2, ["$a$"]);
    assert ["$a$"] + [s2] == ["$a$", s2];
  }

  lemma CreationOrderOnNested()
    ensures RestoreInCreationOrder(Marker(1), ["$a$", @"\[" + Marker(0) + @"\]"]) != NestedExample
  {
    var s := NestedExample;
    var s2 := @"\[" + Marker(0) + @"\]";
    var f := ["$a$", s2];
    MarkersDistinct(1, 0);
    ReplaceAbsent(Marker(1), Marker(0), Unescape("$a$"));
    assert RestoreInCreationOrder(Marker(1), f[..1]) == Marker(1);
    MarkerCharacters(0);
    assert NoAmpersand(s2);
    UnescapePlain(s2);
    assert Marker(1)[..|Marker(1)|] == Marker(1);
    assert Replace(Marker(1), Marker(1), s2) == s2 + Replace([], Marker(1), s2);
    assert RestoreInCreationOrder(Marker(1), f) == s2;
    assert |s2| > |s|;
  }

  lemma FirstPassFindsNothing()
    ensures Protect(DoubleDollar, NestedExample, 0, []) == (NestedExample, [])
  {
    var s := NestedExample;
    forall k | 0 <= k <= |s| ensures SpanEnd(DoubleDollar, s, k).None? {
      if k + 2 <= |s| {
        assert s[k] != '$' || s[k + 1] != '$';
        assert s[k..k + 2][0] == s[k] && s[k..k + 2][1] == s[k + 1];
      }
    }
    NextSpanLeftmost(DoubleDollar, s, 0);
    assert s[0..] == s;
  }

  lemma SecondPassFindsInline()
    ensures Protect(SingleDollar, NestedExample, 0, []) == (@"\[" + Marker(0) + @"\]", ["$a$"])
  {
    var s := NestedExample;
    assert FindChar(s, 3, '$') == 4;
    assert NextSpan(SingleDollar, s, 0) == Some((2, 5));
    assert NextSpan(SingleDollar, s, 5) == None;
    assert s[2..5] == "$a$" && s[5..] == @"\]" && s[0..2] == @"\[";
  }

  /** Content that is one span from end to end becomes one marker. */
  lemma ProtectWholeSpan(d: Delimiter, u: string, subs: seq<string>)
    requires SpanEnd(d, u, 0) == Some(|u|)
    ensures Protect(d, u, 0, subs) == (Marker(|subs|), subs + [u])
  {
    assert NextSpan(d, u, 0) == Some((0, |u|));
    assert NextSpan(d, u, |u|) == None;
    ProtectNone(d, u, |u|, subs + [u]);
    ProtectSome(d, u, 0, subs, 0, |u|);
    assert u[0..0] == [] && u[0..|u|] == u && u[|u|..] == [];
    var m := Marker(|subs|);
    var tail := Protect(d, u, |u|, subs + [u]);
    assert tail.0 == [] && tail.1 == subs + [u];
    assert Protect(d, u, 0, subs).0 == [] + m + [];
    assert [] + m + [] == m;
  }


  lemma BracketSpanEnd(m: string)
    requires forall o :: 0 <= o < |m| ==> m[o] != '\\'
    ensures SpanEnd(Bracket, @"\[" + m + @"\]", 0) == Some(|@"\[" + m + @"\]"|)
  {
    var s2 := @"\[" + m + @"\]";
    var e := |s2| - 2;
    assert s2[..2] == @"\[" && s2[e..e + 2] == @"\]";
    var r := FindFrom(s2, @"\]", 2);
    forall k | 2 <= k < e ensures !OccursAt(s2, k, @"\]") {
      assert s2[k] == m[k - 2];
      CharDiffers(s2, k, @"\]", 0);
    }
    assert OccursAt(s2, e, @"\]");
    assert r == e;
  }

  // ---------------------------------------------------------------------
  // Clean-up rewrites on the restored LaTeX.

  /** The three rewrites, in the order they are applied. */
  /** `\*?}` at `k`: the index after it. */
  function EnvClose(u: string, k: nat): (r: Option<nat>)
    ensures r.Some? ==> k < r.value <= |u|
  {
    if OccursAt(u, k, "*}") then Some(k + 2)
    else if OccursAt(u, k, "}") then Some(k + 1)
    else None
  }

  /** `((align(ed)?)|equation)\*?}` at `q`, the alternatives tried in the
      order the pattern gives them. */
  function EnvEnd(u: string, q: nat): (r: Option<nat>)
    ensures r.Some? ==> q < r.value <= |u|
  {
    if OccursAt(u, q, "aligned") && EnvClose(u, q + 7).Some? then EnvClose(u, q + 7)
    else if OccursAt(u, q, "align") && EnvClose(u, q + 5).Some? then EnvClose(u, q + 5)
    else if OccursAt(u, q, "equation") then EnvClose(u, q + 8)
    else None
  }

  /** `\\begin{((align(ed)?)|equation)\*?}` at `q`. */
  function BeginEnvEnd(u: string, q: nat): (r: Option<nat>)
    ensures r.Some? ==> q < r.value <= |u|
  {
    if OccursAt(u, q, @"\begin{") then EnvEnd(u, q + 7) else None
  }

  /** `\\end{((align(ed)?)|equation)\*?}` at `q`. */
  function EndEnvEnd(u: string, q: nat): (r: Option<nat>)
    ensures r.Some? ==> q < r.value <= |u|
  {
    if OccursAt(u, q, @"\end{") then EnvEnd(u, q + 5) else None
  }

  /** An opener of length `len` at `i`, whitespace, then a begin
      environment; the environment is what is kept. */
  function OpenerThenBegin(u: string, i: nat, len: nat): (r: Option<(nat, string)>)
    requires i + len <= |u|
    ensures r.Some? ==> i < r.value.0 <= |u|
  {
    var q := SkipSpaces(u, i + len);
    match BeginEnvEnd(u, q)
    case Some(f) => Some((f, u[q..f]))
    case None => None
  }

  /** The four environments made starred, and their starred forms. */
  const StarPatterns: seq<string> := [@"\begin{align}", @"\begin{equation}", @"\end{align}", @"\end{equation}"]

  function Starred(pat: string): string
    requires pat != []
  {
    pat[..|pat| - 1] + "*}"
  }

  /** The first of the four environments that occurs at `i`, from `k` on. */
  function StarFrom(u: string, i: nat, k: nat): (r: Option<(nat, string)>)
    requires k <= 4
    ensures r.Some? ==> i < r.value.0 <= |u|
    decreases 4 - k
  {
    if k == 4 then None
    else if OccursAt(u, i, StarPatterns[k]) then Some((i + |StarPatterns[k]|, Starred(StarPatterns[k])))
    else StarFrom(u, i, k + 1)
  }

  /** `StarFrom` finds an environment exactly when one occurs. */
  lemma {:induction false} StarFromSpec(u: string, i: nat, k: nat)
    requires k <= 4
    ensures StarFrom(u, i, k).Some? ==> exists a :: (k <= a < 4 && OccursAt(u, i, StarPatterns[a])
      && StarFrom(u, i, k).value == (i + |StarPatterns[a]|, Starred(StarPatterns[a])))
    ensures StarFrom(u, i, k).None? ==> forall a :: k <= a < 4 ==> !OccursAt(u, i, StarPatterns[a])
    decreases 4 - k
  {
    if k < 4 && !OccursAt(u, i, StarPatterns[k]) {
      StarFromSpec(u, i, k + 1);
    }
  }

  /** `((\$\$?)|(\\\[))\s*(?P<begin_env>...)` at `i`, the opener `$$`
      tried before `$`. */
  function CollapseOpenAt(u: string, i: nat): (r: Option<(nat, string)>)
    ensures r.Some? ==> i < r.value.0 <= |u|
  {
    var viaDouble := if OccursAt(u, i, "$$") then OpenerThenBegin(u, i, 2) else None;
    if viaDouble.Some? then viaDouble
    else if OccursAt(u, i, "$") then OpenerThenBegin(u, i, 1)
    else if OccursAt(u, i, @"\[") then OpenerThenBegin(u, i, 2)
    else None
  }

  /** `(?P<end_env>...)\s*((\$\$?)|(\\\]))` at `i`. */
  function CollapseCloseAt(u: string, i: nat): (r: Option<(nat, string)>)
    ensures r.Some? ==> i < r.value.0 <= |u|
  {
    match EndEnvEnd(u, i)
    case None => None
    case Some(f) =>
      var q := SkipSpaces(u, f);
      if OccursAt(u, q, "$$") then Some((q + 2, u[i..f]))
      else if OccursAt(u, q, "$") then Some((q + 1, u[i..f]))
      else if OccursAt(u, q, @"\]") then Some((q + 2, u[i..f]))
      else None
  }

  /** `\\(begin|end){(align|equation)}` at `i`: its starred form. */
  function StarAt(u: string, i: nat): (r: Option<(nat, string)>)
    ensures r.Some? ==> i < r.value.0 <= |u|
  {
    StarFrom(u, i, 0)
  }

  /** The clean-up after restoration: drop the math delimiters around
      `align`/`equation` environments, then make them starred. */
  function CleanLatex(doc: string): string
  {
    var unwrapped := Sub(CollapseOpenAt, doc, 0);
    var closed := Sub(CollapseCloseAt, unwrapped, 0);
    Sub(StarAt, closed, 0)
  }

  // ---------------------------------------------------------------------
  // Making environments starred twice changes nothing.

  /** No unstarred `align`/`equation` environment anywhere in `x`. */
  ghost predicate StarFree(x: string)
  {
    forall p, a :: 0 <= a < 4 ==> !OccursAt(x, p, StarPatterns[a])
  }

  /** A backslash only as the first character. */
  predicate BackslashFirstOnly(w: string)
  {
    w != [] && w[0] == '\\' && forall o :: 0 < o < |w| ==> w[o] != '\\'
  }

  lemma PatternShapes(a: nat)
    requires a < 4
    ensures BackslashFirstOnly(StarPatterns[a]) && BackslashFirstOnly(Starred(StarPatterns[a]))
  {
    var p := StarPatterns[a];
    var r := Starred(p);
    if a == 0 {
      assert p == @"\begin{align}" && r == @"\begin{align*}";
    } else if a == 1 {
      assert p == @"\begin{equation}" && r == @"\begin{equation*}";
    } else if a == 2 {
      assert p == @"\end{align}" && r == @"\end{align*}";
    } else {
      assert p == @"\end{equation}" && r == @"\end{equation*}";
    }
  }

  lemma DiffersAt(r: string, pat: string, o: nat, t: string)
    requires o < |r| && o < |pat| && r[o] != pat[o]
    ensures !OccursAt(r + t, 0, pat)
  {
    var s := r + t;
    if |pat| <= |s| {
      assert s[0..|pat|][o] == r[o];
    }
  }

  /** A starred environment does not begin any of the four patterns. */
  lemma StarredStartsNoPattern(a: nat, b: nat, t: string)
    requires a < 4 && b < 4
    ensures !OccursAt(Starred(StarPatterns[a]) + t, 0, StarPatterns[b])
  {
    var r, p := Starred(StarPatterns[a]), StarPatterns[b];
    var o :=
      if (a < 2) != (b < 2) then 1
      else if a == b then |p| - 1
      else if a < 2 then 7
      else 5;
    assert r[o] != p[o];
    DiffersAt(r, p, o, t);
  }

  /** An occurrence inside a slice is an occurrence in the whole. */
  lemma SliceOccurs(u: string, i: nat, j: nat, p: int, w: string)
    requires i <= j <= |u|
    ensures OccursAt(u[i..j], p, w) ==> OccursAt(u, i + p, w)
  {
    if 0 <= p && p + |w| <= j - i {
      var inner, outer := u[i..j][p..p + |w|], u[i + p..i + p + |w|];
      forall q | 0 <= q < |w|
        ensures inner[q] == outer[q]
      {
      }
      assert inner == outer;
    }
  }

  /** A stretch the search passed over holds no environment to star. */
  lemma PassedOverIsFree(u: string, i: nat, j: nat)
    requires i <= j <= |u|
    requires forall k :: i <= k < j ==> StarAt(u, k).None?
    ensures StarFree(u[i..j])
  {
    forall p, b | 0 <= b < 4
      ensures !OccursAt(u[i..j], p, StarPatterns[b])
    {
      PatternShapes(b);
      SliceOccurs(u, i, j, p, StarPatterns[b]);
      if 0 <= p < j - i {
        assert StarAt(u, i + p).None?;
        assert StarFrom(u, i + p, 0).None?;
        StarFromSpec(u, i + p, 0);
      }
    }
  }

  /** Nothing to star: the rewrite leaves the text as it is. */
  lemma StarFreeUnchanged(x: string, i: nat)
    requires i <= |x| && StarFree(x)
    ensures Sub(StarAt, x, i) == x[i..]
  {
    forall k | i <= k <= |x|
      ensures StarAt(x, k).None?
    {
      StarFromSpec(x, k, 0);
    }
    NextAbsent(StarAt, x, i);
  }

  /** An environment pattern is not found across the seams of
      `x + r + rest` when `r` is a starred environment. */
  lemma JoinNoPattern(x: string, r: string, rest: string, p: int, w: string)
    requires BackslashFirstOnly(r) && BackslashFirstOnly(w)
    requires forall q :: !OccursAt(x, q, w)
    requires forall q :: !OccursAt(rest, q, w)
    requires !OccursAt(r + rest, 0, w)
    ensures !OccursAt(x + r + rest, p, w)
  {
    var s := x + r + rest;
    if 0 <= p && p + |w| <= |s| {
      var seg := s[p..p + |w|];
      if p + |w| <= |x| {
        assert seg == x[p..p + |w|];
        assert !OccursAt(x, p, w);
      } else if p < |x| {
        var c := s[|x|];
        assert c == r[0];
        assert seg[|x| - p] == c;
      } else if p == |x| {
        assert s[p..] == r + rest;
        assert seg == (r + rest)[0..|w|];
      } else if p < |x| + |r| {
        var c := s[p];
        assert c == r[p - |x|];
        assert seg[0] == c;
      } else {
        var q := p - |x| - |r|;
        assert seg == rest[q..q + |w|];
        assert !OccursAt(rest, q, w);
      }
    }
  }

  /** A starred environment between two stretches free of environments to
      star leaves the whole free of them. */
  lemma StarFreeJoin(x: string, a: nat, rest: string)
    requires a < 4 && StarFree(x) && StarFree(rest)
    ensures StarFree(x + Starred(StarPatterns[a]) + rest)
  {
    var r := Starred(StarPatterns[a]);
    forall p, b | 0 <= b < 4
      ensures !OccursAt(x + r + rest, p, StarPatterns[b])
    {
      PatternShapes(a);
      PatternShapes(b);
      StarredStartsNoPattern(a, b, rest);
      JoinNoPattern(x, r, rest, p, StarPatterns[b]);
    }
  }

  /** The output of the rewrite has no environment left to star. */
  lemma {:induction false} StarOutputFree(u: string, i: nat)
    requires i <= |u|
    ensures StarFree(Sub(StarAt, u, i))
    decreases |u| - i
  {
    match Next(StarAt, u, i)
    case None =>
      NextNone(StarAt, u, i);
      PassedOverIsFree(u, i, |u|);
      assert u[i..] == u[i..|u|];
    case Some(Match(j, e, rep)) =>
      NextLeftmost(StarAt, u, i);
      PassedOverIsFree(u, i, j);
      StarFromSpec(u, j, 0);
      var a :| 0 <= a < 4 && OccursAt(u, j, StarPatterns[a])
        && StarFrom(u, j, 0).value == (j + |StarPatterns[a]|, Starred(StarPatterns[a]));
      StarOutputFree(u, e);
      StarFreeJoin(u[i..j], a, Sub(StarAt, u, e));
  }

  /** Starring is idempotent: already-starred environments, `aligned`
      and everything else are left alone the second time. */
  lemma StarIdempotent(u: string)
    ensures Sub(StarAt, Sub(StarAt, u, 0), 0) == Sub(StarAt, u, 0)
  {
    var x := Sub(StarAt, u, 0);
    StarOutputFree(u, 0);
    StarFreeUnchanged(x, 0);
  }

  // ---------------------------------------------------------------------
  // What the two collapsing rewrites remove.

  /** A math opener of length `len` at `i`: `$$` or `\[` (2) or `$` (1). */
  predicate OpenerAt(u: string, i: nat, len: nat)
  {
    (len == 2 && (OccursAt(u, i, "$$") || OccursAt(u, i, @"\["))) || (len == 1 && OccursAt(u, i, "$"))
  }

  /** A math closer of length `len` at `q`: `$$` or `\]` (2) or `$` (1). */
  predicate CloserAt(u: string, q: nat, len: nat)
  {
    (len == 2 && (OccursAt(u, q, "$$") || OccursAt(u, q, @"\]"))) || (len == 1 && OccursAt(u, q, "$"))
  }

  /** Every collapse of an opener is: the opener at `i`, whitespace up to
      `q`, a begin environment `u[q..e]` with `align`, `aligned` or
      `equation`; the environment alone replaces `u[i..e]`. */
  lemma CollapseOpenShape(u: string, i: nat)
    requires i <= |u| && CollapseOpenAt(u, i).Some?
    ensures exists n :: (OpenerAt(u, i, n) && i + n <= |u|
      && var q := SkipSpaces(u, i + n);
         BeginEnvEnd(u, q) == Some(CollapseOpenAt(u, i).value.0)
         && CollapseOpenAt(u, i).value.1 == u[q..CollapseOpenAt(u, i).value.0])
  {
    if OccursAt(u, i, "$$") && OpenerThenBegin(u, i, 2).Some? {
      assert OpenerAt(u, i, 2);
    } else if OccursAt(u, i, "$") {
      assert OpenerAt(u, i, 1);
    } else {
      assert OpenerAt(u, i, 2);
    }
  }

  /** An opener, whitespace and a begin environment are always collapsed. */
  lemma CollapseOpenFound(u: string, i: nat, len: nat)
    requires OpenerAt(u, i, len) && i + len <= |u|
    requires BeginEnvEnd(u, SkipSpaces(u, i + len)).Some?
    ensures CollapseOpenAt(u, i).Some?
  {
    OpenerThenBeginFound(u, i, len);
    if len == 2 && !OccursAt(u, i, "$$") {
      BracketNotDollar(u, i);
    }
  }

  lemma OpenerThenBeginFound(u: string, i: nat, len: nat)
    requires i + len <= |u| && BeginEnvEnd(u, SkipSpaces(u, i + len)).Some?
    ensures OpenerThenBegin(u, i, len).Some?
  {
  }

  lemma BracketNotDollar(u: string, i: nat)
    requires OccursAt(u, i, @"\[")
    ensures !OccursAt(u, i, "$")
  {
    assert u[i] == '\\';
  }

  /** Every collapse of a closer is: an end environment `u[i..f]`,
      whitespace up to `q`, a closer ending at `e`; the environment alone
      replaces `u[i..e]`. */
  lemma CollapseCloseShape(u: string, i: nat) returns (f: nat, n: nat)
    requires i <= |u| && CollapseCloseAt(u, i).Some?
    ensures f <= |u| && EndEnvEnd(u, i) == Some(f)
    ensures CloserAt(u, SkipSpaces(u, f), n)
    ensures CollapseCloseAt(u, i).value == (SkipSpaces(u, f) + n, u[i..f])
  {
    f := EndEnvEnd(u, i).value;
    var q := SkipSpaces(u, f);
    if OccursAt(u, q, "$$") {
      n := 2;
    } else if OccursAt(u, q, "$") {
      n := 1;
    } else {
      n := 2;
    }
  }

  /** An end environment, whitespace and a closer are always collapsed. */
  lemma CollapseCloseFound(u: string, i: nat, len: nat)
    requires i <= |u| && EndEnvEnd(u, i).Some?
    requires CloserAt(u, SkipSpaces(u, EndEnvEnd(u, i).value), len)
    ensures CollapseCloseAt(u, i).Some?
  {
  }
}
