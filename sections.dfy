/** The section heading and label the builder writes before each problem
    and each appendix page, and the titles they are made from. */
module Sections {
  import opened Wrappers
  import opened StringUtil
  import opened Scan

  // ---------------------------------------------------------------------
  // `^#(?P<problem_id>\d+)\s+(?P<problem_name>.*?) - Project Euler$`
  // applied to the page's `<title>`.

  const TitleSuffix := " - Project Euler"

  /** `$` also matches before a line break that ends the text. */
  function TitleLine(t: string): (s: string)
    ensures |s| <= |t| && s == t[..|s|]
  {
    if t != [] && t[|t| - 1] == '\n' then t[..|t| - 1] else t
  }

  /** The problem name in a page title, or `None` where `re.match` fails
      (the builder then raises). The run of whitespace after the number
      is taken greedily, giving back one character only when the name
      would otherwise have to start inside the suffix; the name cannot
      hold a line break. */
  function ParseTitle(t: string): (r: Option<string>)
    ensures r.Some? ==> '\n' !in r.value
  {
    var s := TitleLine(t);
    if s == [] || s[0] != '#' then None
    else
      var d := DigitsEnd(s, 1);
      var p := SkipSpaces(s, d);
      var q := |s| - |TitleSuffix|;
      if d == 1 || p == d || !EndsWith(s, TitleSuffix) || q < d + 1 then None
      else
        var name := s[if p <= q then p else q..q];
        if '\n' in name then None else Some(name)
  }

  /** A title written the way the site writes it gives back its name. */
  lemma ParseTitleRoundTrip(id: nat, sp: string, name: string)
    requires sp != [] && forall k :: 0 <= k < |sp| ==> IsSpace(sp[k])
    requires '\n' !in name && (name == [] || !IsSpace(name[0]))
    ensures ParseTitle("#" + NatToString(id) + sp + name + TitleSuffix) == Some(name)
  {
    var n := NatToString(id);
    var t := "#" + n + sp + name + TitleSuffix;
    TitleLayout(t, n, sp, name);
    forall k | 1 + |n| <= k < 1 + |n| + |sp| ensures IsSpace(t[k]) {
      assert t[k] == sp[k - 1 - |n|];
    }
    TitleParsed(t, |n|, |sp|, name);
  }

  /** A title laid out as `#`, `dn` digits, `m` whitespace characters, the
      name and the suffix. */
  lemma TitleParsed(t: string, dn: nat, m: nat, name: string)
    requires 0 < dn && 0 < m && |t| == 1 + dn + m + |name| + |TitleSuffix|
    requires t[0] == '#' && TitleLine(t) == t
    requires forall k :: 1 <= k < 1 + dn ==> IsDigit(t[k])
    requires forall k :: 1 + dn <= k < 1 + dn + m ==> IsSpace(t[k])
    requires t[1 + dn + m..|t| - |TitleSuffix|] == name
    requires EndsWith(t, TitleSuffix)
    requires t[|t| - |TitleSuffix|] == ' ' && t[|t| - |TitleSuffix| + 1] == '-'
    requires '\n' !in name && (name == [] || !IsSpace(name[0]))
    ensures ParseTitle(t) == Some(name)
  {
    var p := if name == [] then 1 + dn + m + 1 else 1 + dn + m;
    TitleMeasured(t, dn, m, name);
    ParseTitleFrom(t, 1 + dn, p, name);
  }

  /** Where the digits and the whitespace of such a title end: with no
      name, the whitespace run takes the space of the suffix along. */
  lemma TitleMeasured(t: string, dn: nat, m: nat, name: string)
    requires 0 < dn && 0 < m && |t| == 1 + dn + m + |name| + |TitleSuffix|
    requires forall k :: 1 <= k < 1 + dn ==> IsDigit(t[k])
    requires forall k :: 1 + dn <= k < 1 + dn + m ==> IsSpace(t[k])
    requires t[1 + dn + m..|t| - |TitleSuffix|] == name
    requires t[|t| - |TitleSuffix|] == ' ' && t[|t| - |TitleSuffix| + 1] == '-'
    requires name == [] || !IsSpace(name[0])
    ensures DigitsEnd(t, 1) == 1 + dn
    ensures SkipSpaces(t, 1 + dn) == if name == [] then 1 + dn + m + 1 else 1 + dn + m
  {
    var d := 1 + dn;
    DigitsEndStops(t, 1, dn);
    if name == [] {
      SkipSpacesStops(t, d, m + 1);
    } else {
      assert t[d + m] == name[0];
      SkipSpacesStops(t, d, m);
    }
  }

  /** `ParseTitle` once the digits and the whitespace are measured. */
  lemma ParseTitleFrom(t: string, d: nat, p: nat, name: string)
    requires TitleLine(t) == t && t != [] && t[0] == '#'
    requires DigitsEnd(t, 1) == d && 1 < d && SkipSpaces(t, d) == p && d < p
    requires EndsWith(t, TitleSuffix) && d + 1 <= |t| - |TitleSuffix|
    requires name == t[if p <= |t| - |TitleSuffix| then p else |t| - |TitleSuffix|..|t| - |TitleSuffix|]
    requires '\n' !in name
    ensures ParseTitle(t) == Some(name)
  {
  }

  /** Where the parts of a title lie. */
  lemma TitleLayout(t: string, n: string, sp: string, name: string)
    requires t == "#" + n + sp + name + TitleSuffix && sp != []
    requires forall k :: 0 <= k < |n| ==> IsDigit(n[k])
    ensures |t| == 1 + |n| + |sp| + |name| + |TitleSuffix|
    ensures t[0] == '#' && TitleLine(t) == t
    ensures forall k :: 1 <= k < 1 + |n| ==> IsDigit(t[k])
    ensures forall k :: 1 + |n| <= k < 1 + |n| + |sp| ==> t[k] == sp[k - 1 - |n|]
    ensures t[1 + |n| + |sp|..|t| - |TitleSuffix|] == name
    ensures EndsWith(t, TitleSuffix)
    ensures t[|t| - |TitleSuffix|] == ' ' && t[|t| - |TitleSuffix| + 1] == '-'
  {
    assert t == "#" + (n + sp + name) + TitleSuffix;
    forall k | 1 <= k < 1 + |n|
      ensures IsDigit(t[k])
    {
      assert t[k] == n[k - 1];
    }
  }

  // ---------------------------------------------------------------------
  // `re.sub("About...\s*(?P<about_title>.*)", r"\g<about_title>", text)`
  // applied to an appendix page's heading.

  /** The pattern at `i` and what replaces it: the rest of the line after
      `About`, three more characters and any whitespace. */
  function AboutTitleAt(u: string, i: nat): (r: Option<(nat, string)>)
    ensures r.Some? ==> i < r.value.0 <= |u|
  {
    if OccursAt(u, i, "About") && i + 8 <= |u| && u[i + 5] != '\n' && u[i + 6] != '\n' && u[i + 7] != '\n' then
      var j := SkipSpaces(u, i + 8);
      var e := FindChar(u, j, '\n');
      Some((e, u[j..e]))
    else None
  }

  function AboutTitle(heading: string): string
  {
    Sub(AboutTitleAt, heading, 0)
  }

  /** A heading `About` + three characters + whitespace + name becomes the
      name. */
  lemma AboutTitleStrips(dots: string, sp: string, name: string)
    requires |dots| == 3 && '\n' !in dots
    requires forall k :: 0 <= k < |sp| ==> IsSpace(sp[k])
    requires '\n' !in name && (name == [] || !IsSpace(name[0]))
    ensures AboutTitle("About" + dots + sp + name) == name
  {
    var u := "About" + dots + sp + name;
    assert u == "About" + dots + (sp + name);
    assert u[..5] == "About" && u[5..8] == dots;
    assert u[5] == dots[0] && u[6] == dots[1] && u[7] == dots[2];
    forall k | 8 <= k < 8 + |sp|
      ensures IsSpace(u[k])
    {
      assert u[k] == sp[k - 8];
    }
    SkipSpacesStops(u, 8, |sp|);
    assert u[8 + |sp|..] == name;
    forall k | 8 + |sp| <= k < |u|
      ensures u[k] != '\n'
    {
      assert u[k] == name[k - 8 - |sp|];
    }
    var e := FindChar(u, 8 + |sp|, '\n');
    assert e == |u|;
    assert u[8 + |sp|..e] == name;
    assert AboutTitleAt(u, 0) == Some((|u|, name));
    SubTail(AboutTitleAt, u, 0);
  }

  /** A heading without `About` is kept as it is. */
  lemma AboutTitleKeeps(heading: string)
    requires Absent(heading, "About")
    ensures AboutTitle(heading) == heading
  {
    forall k | 0 <= k <= |heading|
      ensures AboutTitleAt(heading, k).None?
    {
      assert !OccursAt(heading, k, "About");
    }
    SubNoMatch(AboutTitleAt, heading, 0);
    assert heading[0..] == heading;
  }

  // ---------------------------------------------------------------------
  // Headings and labels.

  /** The label of a problem's section, which problem links resolve to. */
  function ProblemKey(id: nat): string
  {
    "sec:problem_" + NatToString(id)
  }

  /** The label of an appendix page, keyed by its `about=` URL path. */
  function AboutKey(path: string): string
  {
    "sec:" + path
  }

  function LabelText(key: string): string
  {
    @"\label{" + key + "}"
  }

  /** `\section[Problem \#N: T]{T}`, a line break, the label, a blank
      line. */
  function ProblemHeader(id: nat, title: string): string
  {
    @"\section[Problem \#" + NatToString(id) + ": " + title + "]{" + title + "}\n"
      + LabelText(ProblemKey(id)) + "\n\n"
  }

  /** The appendix heading as the builder writes it: in a raw string the
      two `\n` stay a backslash followed by `n`. */
  function AboutHeaderAsWritten(title: string, path: string): string
  {
    @"\section[Appendix: " + title + "]{" + title + @"}\n" + LabelText(AboutKey(path)) + @"\n\n"
  }

  /** The appendix heading laid out like the problem heading. */
  function AboutHeader(title: string, path: string): string
  {
    @"\section[Appendix: " + title + "]{" + title + "}\n" + LabelText(AboutKey(path)) + "\n\n"
  }

  /** Distinct problems get distinct labels. */
  lemma ProblemKeyInjective(a: nat, b: nat)
    requires ProblemKey(a) == ProblemKey(b)
    ensures a == b
  {
    var p := "sec:problem_";
    assert NatToString(a) == ProblemKey(a)[|p|..];
    assert NatToString(b) == ProblemKey(b)[|p|..];
    NatToStringInjective(a, b);
  }

  /** A problem's heading ends with its label on a line of its own,
      followed by a blank line. */
  lemma ProblemHeaderLabelLine(id: nat, title: string)
    ensures EndsWith(ProblemHeader(id, title), "\n" + LabelText(ProblemKey(id)) + "\n\n")
  {
    var h := ProblemHeader(id, title);
    var w := "\n" + LabelText(ProblemKey(id)) + "\n\n";
    var a := @"\section[Problem \#" + NatToString(id) + ": " + title + "]{" + title + "}";
    assert h == a + w;
    assert h[|h| - |w|..] == w;
  }

  /** The corrected appendix heading ends the same way. */
  lemma AboutHeaderLabelLine(title: string, path: string)
    ensures EndsWith(AboutHeader(title, path), "\n" + LabelText(AboutKey(path)) + "\n\n")
  {
    var h := AboutHeader(title, path);
    var w := "\n" + LabelText(AboutKey(path)) + "\n\n";
    var a := @"\section[Appendix: " + title + "]{" + title + "}";
    assert h == a + w;
    assert h[|h| - |w|..] == w;
  }

  /** As written, the appendix heading holds no line break at all when its
      title and path hold none, so its label never starts a line. */
  lemma AboutHeaderAsWrittenOneLine(title: string, path: string)
    requires '\n' !in title && '\n' !in path
    ensures '\n' !in AboutHeaderAsWritten(title, path)
  {
    var h := AboutHeaderAsWritten(title, path);
    var parts := [@"\section[Appendix: ", title, "]{", title, @"}\n", @"\label{", "sec:", path, "}", @"\n\n"];
    assert h == parts[0] + parts[1] + parts[2] + parts[3] + parts[4] + parts[5] + parts[6] + parts[7] + parts[8] + parts[9];
    forall k | 0 <= k < |h|
      ensures h[k] != '\n'
    {
    }
  }
}
