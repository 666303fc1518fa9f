/** The document builder: it turns each problem and appendix page into
    LaTeX, accumulates the document, records the links it meets and writes
    the finished document. */
module Builder {
  import opened Wrappers
  import opened StringUtil
  import opened Scan
  import Doc
  import Style
  import Passes
  import Formula
  import Links
  import Animated
  import Sections
  import Rewrites
  import Template
  import Chars

  // ---------------------------------------------------------------------
  // Fixed texts

  /** What spaced mode puts before every page. */
  const PageBreak := "\n" + @"\newpage" + "\n\n"

  /** What follows every problem and appendix page. */
  const PageEnd := "\n\n"

  /** Switches the section style to the appendix's, once. */
  const AppendixHeader := @"\titleformat{\section}" + "\n"
    + @"{\Large\bfseries\sffamily\color{titleblue}}" + "\n"
    + @"{\StyledTitleBox{Appendix}}" + "\n"
    + "{0pt}\n"
    + @"{\TitleUnderline{\enspace{}#1}}" + "\n"
    + @"\appendix" + "\n"

  /** A page as `append_latex_content_page` adds it. */
  function PageText(spaced: bool, text: string): string
  {
    (if spaced then PageBreak else "") + text
  }

  // ---------------------------------------------------------------------
  // The preamble: one `\definecolor` line per palette entry.

  function DefineLine(e: Doc.ColorEntry): string
  {
    @"\definecolor{" + e.name + "}{HTML}{" + e.value + "}"
  }

  function PreambleOf(p: Doc.Palette): string
  {
    if p == [] then "" else DefineLine(p[0]) + "\n" + PreambleOf(p[1..])
  }

  function DefineLines(p: Doc.Palette): (r: seq<string>)
    ensures |r| == |p|
    ensures forall i :: 0 <= i < |p| ==> r[i] == DefineLine(p[i])
  {
    if p == [] then [] else [DefineLine(p[0])] + DefineLines(p[1..])
  }

  /** The preamble's lines are the entries' `\definecolor` lines, one per
      entry and in the palette's order, each ended by a line break. */
  lemma PreambleLines(p: Doc.Palette)
    requires forall i :: 0 <= i < |p| ==> '\n' !in p[i].name && '\n' !in p[i].value
    ensures Split(PreambleOf(p), '\n') == DefineLines(p) + [""]
  {
    PreambleJoin(p);
    LinesFree(p);
    SplitJoin(DefineLines(p) + [""], '\n');
  }

  lemma LinesFree(p: Doc.Palette)
    requires forall i :: 0 <= i < |p| ==> '\n' !in p[i].name && '\n' !in p[i].value
    ensures forall k :: 0 <= k < |DefineLines(p) + [""]| ==> '\n' !in (DefineLines(p) + [""])[k]
  {
    forall k | 0 <= k < |DefineLines(p) + [""]|
      ensures '\n' !in (DefineLines(p) + [""])[k]
    {
      if k < |p| {
        LineHasNoBreak(p[k]);
      }
    }
  }

  lemma LineHasNoBreak(e: Doc.ColorEntry)
    requires '\n' !in e.name && '\n' !in e.value
    ensures '\n' !in DefineLine(e)
  {
  }

  lemma {:induction false} PreambleJoin(p: Doc.Palette)
    ensures PreambleOf(p) == Join(DefineLines(p) + [""], '\n')
  {
    if p != [] {
      PreambleJoin(p[1..]);
      assert DefineLines(p) + [""] == [DefineLine(p[0])] + (DefineLines(p[1..]) + [""]);
      assert (DefineLines(p) + [""])[1..] == DefineLines(p[1..]) + [""];
    }
  }

  // ---------------------------------------------------------------------
  // The links recorded from every appended text

  function PiecesGraphics(pieces: seq<string>): set<string>
  {
    if pieces == [] then {}
    else PiecesGraphics(pieces[..|pieces| - 1]) + Links.GraphicsPaths(pieces[|pieces| - 1])
  }

  function PiecesHrefs(pieces: seq<string>, kind: Links.LinkKind): set<string>
  {
    if pieces == [] then {}
    else PiecesHrefs(pieces[..|pieces| - 1], kind) + Links.HrefTargets(pieces[|pieces| - 1], kind)
  }

  /** The links of appended texts are those of each text in turn. */
  lemma {:induction false} PiecesLinksConcat(a: seq<string>, b: seq<string>)
    ensures PiecesGraphics(a + b) == PiecesGraphics(a) + PiecesGraphics(b)
    ensures PiecesHrefs(a + b, Links.Embedded) == PiecesHrefs(a, Links.Embedded) + PiecesHrefs(b, Links.Embedded)
    ensures PiecesHrefs(a + b, Links.About) == PiecesHrefs(a, Links.About) + PiecesHrefs(b, Links.About)
    decreases |b|
  {
    if b == [] {
      assert a + b == a;
    } else {
      var bi := b[..|b| - 1];
      assert (a + b)[..|a + b| - 1] == a + bi && (a + b)[|a + b| - 1] == b[|b| - 1];
      PiecesLinksConcat(a, bi);
    }
  }

  /** The texts a page adds: the spaced break, if any, then the page. */
  function PagePieces(spaced: bool, text: string): seq<string>
  {
    (if spaced then [PageBreak] else []) + [text]
  }

  /** The texts a problem page adds: the page and a blank line. */
  function ProblemPieces(spaced: bool, text: string): seq<string>
  {
    PagePieces(spaced, text) + [PageEnd]
  }

  /** The texts an appendix page adds: the appendix header unless it was
      added before, the page and a blank line. */
  function AboutPieces(had: bool, spaced: bool, text: string): seq<string>
  {
    (if had then [] else [AppendixHeader]) + PagePieces(spaced, text) + [PageEnd]
  }

  lemma AboutPiecesAfter(ps: seq<string>, had: bool, spaced: bool, text: string)
    ensures ps + (if had then [] else [AppendixHeader]) + PagePieces(spaced, text) + [PageEnd]
         == ps + AboutPieces(had, spaced, text)
  {
  }

  function PathsOf(ms: seq<Match<Links.Graphics>>): set<string>
  {
    if ms == [] then {} else PathsOf(ms[..|ms| - 1]) + {ms[|ms| - 1].groups.path}
  }

  function TargetsOf(ms: seq<Match<Links.Href>>, kind: Links.LinkKind): set<string>
  {
    if ms == [] then {}
    else
      var t := ms[|ms| - 1].groups.target;
      TargetsOf(ms[..|ms| - 1], kind) + (if Links.Classify(t) == kind then {t} else {})
  }

  lemma {:induction false} PathsOfAll(ms: seq<Match<Links.Graphics>>)
    ensures PathsOf(ms) == set x | x in ms :: x.groups.path
  {
    if ms != [] {
      PathsOfAll(ms[..|ms| - 1]);
      assert forall x :: x in ms <==> x in ms[..|ms| - 1] || x == ms[|ms| - 1];
    }
  }

  lemma {:induction false} TargetsOfAll(ms: seq<Match<Links.Href>>, kind: Links.LinkKind)
    ensures TargetsOf(ms, kind) == set x | x in ms && Links.Classify(x.groups.target) == kind :: x.groups.target
  {
    if ms != [] {
      TargetsOfAll(ms[..|ms| - 1], kind);
      assert forall x :: x in ms <==> x in ms[..|ms| - 1] || x == ms[|ms| - 1];
    }
  }

  // ---------------------------------------------------------------------
  // The class-usage index: class name to the problems using it

  type ClassIndex = map<string, seq<nat>>

  function UsesOf(m: ClassIndex, c: string): seq<nat>
  {
    if c in m then m[c] else []
  }

  /** `self._classes[c].append(id)` for each class in turn. */
  function RecordUses(m: ClassIndex, cs: seq<string>, id: nat): ClassIndex
  {
    if cs == [] then m
    else
      var before := RecordUses(m, cs[..|cs| - 1], id);
      var c := cs[|cs| - 1];
      before[c := UsesOf(before, c) + [id]]
  }

  lemma RecordUsesSnoc(m: ClassIndex, cs: seq<string>, c: string, id: nat)
    ensures RecordUses(m, cs + [c], id) == RecordUses(m, cs, id)[c := UsesOf(RecordUses(m, cs, id), c) + [id]]
  {
    assert (cs + [c])[..|cs|] == cs;
  }

  function Flatten(tags: seq<seq<string>>): seq<string>
  {
    if tags == [] then [] else Flatten(tags[..|tags| - 1]) + tags[|tags| - 1]
  }

  function Count(cs: seq<string>, c: string): nat
  {
    if cs == [] then 0 else Count(cs[..|cs| - 1], c) + (if cs[|cs| - 1] == c then 1 else 0)
  }

  function Repeat(id: nat, n: nat): (r: seq<nat>)
    ensures |r| == n && forall k :: 0 <= k < n ==> r[k] == id
  {
    if n == 0 then [] else Repeat(id, n - 1) + [id]
  }

  /** Each class gains the problem once per occurrence and every other
      class keeps its list. */
  lemma {:induction false} RecordUsesCounts(m: ClassIndex, cs: seq<string>, id: nat, c: string)
    ensures UsesOf(RecordUses(m, cs, id), c) == UsesOf(m, c) + Repeat(id, Count(cs, c))
  {
    if cs == [] {
      assert UsesOf(m, c) + [] == UsesOf(m, c);
    } else {
      RecordUsesCounts(m, cs[..|cs| - 1], id, c);
      if cs[|cs| - 1] == c {
        AppendAssoc(UsesOf(m, c), Repeat(id, Count(cs[..|cs| - 1], c)), [id]);
      }
    }
  }

  lemma AppendAssoc(a: seq<nat>, b: seq<nat>, c: seq<nat>)
    ensures a + b + c == a + (b + c)
  {
  }

  /** The index gains exactly the classes met. */
  lemma {:induction false} RecordUsesKeys(m: ClassIndex, cs: seq<string>, id: nat)
    ensures forall c :: c in RecordUses(m, cs, id) <==> c in m || c in cs
  {
    if cs != [] {
      var init := cs[..|cs| - 1];
      RecordUsesKeys(m, init, id);
      assert forall c :: c in cs <==> c in init || c == cs[|cs| - 1];
    }
  }

  lemma {:induction false} FlattenSnoc(tags: seq<seq<string>>, cs: seq<string>)
    ensures Flatten(tags + [cs]) == Flatten(tags) + cs
  {
    assert (tags + [cs])[..|tags|] == tags;
  }

  lemma {:induction false} RecordUsesConcat(m: ClassIndex, a: seq<string>, b: seq<string>, id: nat)
    ensures RecordUses(m, a + b, id) == RecordUses(RecordUses(m, a, id), b, id)
    decreases |b|
  {
    if b == [] {
      assert a + b == a;
    } else {
      var bi := b[..|b| - 1];
      assert (a + b)[..|a + b| - 1] == a + bi;
      RecordUsesConcat(m, a, bi, id);
    }
  }

  /** The class lists of an element's descendants in document order, as
      `find_all()` visits them. */
  function DescendantClasses(n: Style.Html): seq<seq<string>>
  {
    match n
    case Text(_) => []
    case Element(_, _, _, ch) => ChildrenClasses(ch)
  }

  function ChildrenClasses(ch: seq<Style.Html>): seq<seq<string>>
  {
    if ch == [] then [] else ChildrenClasses(ch[..|ch| - 1]) + NodeClasses(ch[|ch| - 1])
  }

  function NodeClasses(n: Style.Html): seq<seq<string>>
  {
    match n
    case Text(_) => []
    case Element(_, cls, _, ch) => [cls] + ChildrenClasses(ch)
  }

  // ---------------------------------------------------------------------
  // HTML to LaTeX

  /** `_transform_html_to_latex` with pandoc's reader and writer given:
      formulas protected, the tree styled, the LaTeX written and stripped,
      the formulas put back and the clean-up applied; also the palette
      after styling. */
  function ConvertHtml(html: string, readHtml: string -> seq<Doc.Block>, writeLatex: seq<Doc.Block> -> string,
                       p: Doc.Palette): (string, Doc.Palette)
  {
    var (protected, subs) := Formula.ProtectAll(html);
    var (doc, q) := Passes.TransformDocument(readHtml(protected), p);
    var latex := Strip(writeLatex(doc));
    (Formula.CleanLatex(Formula.Restore(latex, subs)), q)
  }

  /** The debug record of one problem's HTML. */
  function DebugEntry(id: nat, html: string): string
  {
    "<!-- Problem " + NatToString(id) + " -->\n\n" + html + "\n\n"
  }

  lemma PreambleStep(pre: string, p: Doc.Palette, k: nat)
    requires k < |p|
    ensures pre + DefineLine(p[k]) + "\n" + PreambleOf(p[k + 1..]) == pre + PreambleOf(p[k..])
  {
    assert p[k..][1..] == p[k + 1..];
  }

  /** The first loop of `parse_latex_links`: the path of every
      `\includegraphics` found. */
  method GraphicsIn(content: string) returns (found: set<string>)
    ensures found == Links.GraphicsPaths(content)
  {
    var graphics := FindAll(Links.GraphicsAt, content, 0);
    found := {};
    var k := 0;
    while k < |graphics|
      invariant 0 <= k <= |graphics|
      invariant found == PathsOf(graphics[..k])
    {
      assert graphics[..k + 1][..k] == graphics[..k];
      found := found + {graphics[k].groups.path};
      k := k + 1;
    }
    assert graphics[..k] == graphics;
    PathsOfAll(graphics);
  }

  /** The second loop of `parse_latex_links`: every `\href` target
      ending in `.txt` is an embedded file, every other one starting with
      `about=` an appendix page. */
  method HrefsIn(content: string) returns (embedded: set<string>, about: set<string>)
    ensures embedded == Links.HrefTargets(content, Links.Embedded)
    ensures about == Links.HrefTargets(content, Links.About)
  {
    var hrefs := FindAll(Links.HrefAt, content, 0);
    embedded, about := {}, {};
    var k := 0;
    while k < |hrefs|
      invariant 0 <= k <= |hrefs|
      invariant embedded == TargetsOf(hrefs[..k], Links.Embedded)
      invariant about == TargetsOf(hrefs[..k], Links.About)
    {
      assert hrefs[..k + 1][..k] == hrefs[..k];
      var target := hrefs[k].groups.target;
      if EndsWith(target, ".txt") {
        embedded := embedded + {target};
      } else if StartsWith(target, "about=") {
        about := about + {target};
      }
      k := k + 1;
    }
    assert hrefs[..k] == hrefs;
    TargetsOfAll(hrefs, Links.Embedded);
    TargetsOfAll(hrefs, Links.About);
  }

  /** How the document grows when an optional text precedes `t`. */
  lemma OutputAfter(o: string, b: string, t: string, present: bool)
    ensures (if present then o + b else o) + t == o + ((if present then b else "") + t)
  {
  }

  lemma PiecesAfter(ps: seq<string>, t: string, spaced: bool)
    ensures (if spaced then ps + [PageBreak] else ps) + [t] == ps + PagePieces(spaced, t)
  {
  }

  /** The loops of `parse_problem_html_soup`: each class of each tag, in
      order, appends the problem to that class's list. */
  method IndexClasses(m: ClassIndex, tags: seq<seq<string>>, problemId: nat) returns (index: ClassIndex)
    ensures index == RecordUses(m, Flatten(tags), problemId)
  {
    index := m;
    var i := 0;
    while i < |tags|
      invariant 0 <= i <= |tags|
      invariant index == RecordUses(m, Flatten(tags[..i]), problemId)
    {
      var tagClasses := tags[i];
      ghost var done := Flatten(tags[..i]);
      var j := 0;
      assert done + tagClasses[..0] == done;
      while j < |tagClasses|
        invariant 0 <= j <= |tagClasses|
        invariant index == RecordUses(m, done + tagClasses[..j], problemId)
      {
        var c := tagClasses[j];
        RecordUsesSnoc(m, done + tagClasses[..j], c, problemId);
        assert done + tagClasses[..j + 1] == (done + tagClasses[..j]) + [c];
        index := index[c := UsesOf(index, c) + [problemId]];
        j := j + 1;
      }
      assert tagClasses[..j] == tagClasses;
      assert tags[..i + 1] == tags[..i] + [tagClasses];
      FlattenSnoc(tags[..i], tagClasses);
      i := i + 1;
    }
    assert tags[..i] == tags;
  }

  // ---------------------------------------------------------------------
  // The builder

  class DocumentBuilder {
    const isSpaced: bool
    var palette: Doc.Palette
    var classes: ClassIndex
    var aboutPaths: set<string>
    var embeddedPaths: set<string>
    var resourcePaths: set<string>
    var output: string
    var htmlDebug: string
    var hasAppendix: bool

    /** Every text appended, in order. */
    ghost var pieces: seq<string>
    /** How many times the appendix header was appended. */
    ghost var appendixHeaders: nat

    /** The palette is well formed, the three link sets hold exactly the
        links of the texts appended, and the appendix header was appended
        once if the flag is set and never otherwise. */
    ghost predicate Valid()
      reads this
    {
      && Doc.ValidPalette(palette)
      && resourcePaths == PiecesGraphics(pieces)
      && embeddedPaths == PiecesHrefs(pieces, Links.Embedded)
      && aboutPaths == PiecesHrefs(pieces, Links.About)
      && appendixHeaders == (if hasAppendix then 1 else 0)
    }

    /** The texts `added` were appended after `before`, and the three link
        sets grew from `paths`, `embedded` and `about` by exactly their
        links. */
    ghost predicate AppendedSince(before: seq<string>, paths: set<string>, embedded: set<string>,
                                  about: set<string>, added: seq<string>)
      reads this
    {
      && pieces == before + added
      && resourcePaths == paths + PiecesGraphics(added)
      && embeddedPaths == embedded + PiecesHrefs(added, Links.Embedded)
      && aboutPaths == about + PiecesHrefs(added, Links.About)
    }

    constructor(isSpaced: bool)
      ensures Valid()
      ensures this.isSpaced == isSpaced && palette == [] && classes == map[]
      ensures aboutPaths == {} && embeddedPaths == {} && resourcePaths == {}
      ensures output == "" && htmlDebug == "" && !hasAppendix && pieces == []
    {
      this.isSpaced := isSpaced;
      palette := [];
      classes := map[];
      aboutPaths := {};
      embeddedPaths := {};
      resourcePaths := {};
      output := "";
      htmlDebug := "";
      hasAppendix := false;
      pieces := [];
      appendixHeaders := 0;
    }

    /** `parse_latex_links`: every `\includegraphics` path goes to the
        resources, every `\href` target ending in `.txt` to the embedded
        files and every other one starting with `about=` to the appendix
        pages. */
    method ParseLatexLinks(content: string)
      modifies this
      ensures resourcePaths == old(resourcePaths) + Links.GraphicsPaths(content)
      ensures embeddedPaths == old(embeddedPaths) + Links.HrefTargets(content, Links.Embedded)
      ensures aboutPaths == old(aboutPaths) + Links.HrefTargets(content, Links.About)
      ensures palette == old(palette) && classes == old(classes) && output == old(output)
      ensures htmlDebug == old(htmlDebug) && hasAppendix == old(hasAppendix)
      ensures pieces == old(pieces) && appendixHeaders == old(appendixHeaders)
    {
      var found := GraphicsIn(content);
      var embedded, about := HrefsIn(content);
      resourcePaths := resourcePaths + found;
      embeddedPaths := embeddedPaths + embedded;
      aboutPaths := aboutPaths + about;
    }

    /** `append_latex_content`: the text's links are recorded and the text
        goes at the end of the document. */
    method AppendLatexContent(text: string)
      requires Valid()
      modifies this
      ensures Valid()
      ensures output == old(output) + text && pieces == old(pieces) + [text]
      ensures resourcePaths == old(resourcePaths) + Links.GraphicsPaths(text)
      ensures embeddedPaths == old(embeddedPaths) + Links.HrefTargets(text, Links.Embedded)
      ensures aboutPaths == old(aboutPaths) + Links.HrefTargets(text, Links.About)
      ensures palette == old(palette) && classes == old(classes) && htmlDebug == old(htmlDebug)
      ensures hasAppendix == old(hasAppendix) && appendixHeaders == old(appendixHeaders)
    {
      ParseLatexLinks(text);
      output := output + text;
      pieces := pieces + [text];
      assert pieces[..|pieces| - 1] == old(pieces);
    }

    /** `append_latex_content_page`: in spaced mode a page break comes
        first, before the first page as before every other. */
    method AppendLatexContentPage(text: string)
      requires Valid()
      modifies this
      ensures Valid()
      ensures output == old(output) + PageText(isSpaced, text)
      ensures pieces == old(pieces) + PagePieces(isSpaced, text)
      ensures palette == old(palette) && classes == old(classes) && htmlDebug == old(htmlDebug)
      ensures hasAppendix == old(hasAppendix) && appendixHeaders == old(appendixHeaders)
    {
      ghost var before, beforePieces := output, pieces;
      if isSpaced {
        AppendLatexContent(PageBreak);
      }
      AppendLatexContent(text);
      OutputAfter(before, PageBreak, text, isSpaced);
      PiecesAfter(beforePieces, text, isSpaced);
    }

    /** `append_problem_latex_content`: the page, then a blank line. */
    method AppendProblemLatexContent(text: string)
      requires Valid()
      modifies this
      ensures Valid()
      ensures output == old(output) + PageText(isSpaced, text) + PageEnd
      ensures pieces == old(pieces) + ProblemPieces(isSpaced, text)
      ensures palette == old(palette) && classes == old(classes) && htmlDebug == old(htmlDebug)
      ensures hasAppendix == old(hasAppendix) && appendixHeaders == old(appendixHeaders)
    {
      ghost var before := pieces;
      AppendLatexContentPage(text);
      AppendLatexContent(PageEnd);
      assert pieces == before + ProblemPieces(isSpaced, text);
    }

    /** `append_about_latex_content`: the appendix header before the first
        appendix page only, then the page and a blank line. */
    method AppendAboutLatexContent(text: string)
      requires Valid()
      modifies this
      ensures Valid()
      ensures hasAppendix && appendixHeaders == 1
      ensures output == old(output) + (if old(hasAppendix) then "" else AppendixHeader)
        + PageText(isSpaced, text) + PageEnd
      ensures AppendedSince(old(pieces), old(resourcePaths), old(embeddedPaths), old(aboutPaths),
                            AboutPieces(old(hasAppendix), isSpaced, text))
      ensures palette == old(palette) && classes == old(classes) && htmlDebug == old(htmlDebug)
    {
      ghost var before, beforePieces, had := output, pieces, hasAppendix;
      AppendAppendixHeaderOnce();
      AppendLatexContentPage(text);
      AppendLatexContent(PageEnd);
      OutputAfter(before, AppendixHeader, PageText(isSpaced, text) + PageEnd, !had);
      AboutPiecesAfter(beforePieces, had, isSpaced, text);
      RecordedAfter(beforePieces, AboutPieces(had, isSpaced, text));
    }

    /** The first part of `append_about_latex_content`: the appendix
        header, unless it was already appended. */
    method AppendAppendixHeaderOnce()
      requires Valid()
      modifies this
      ensures Valid()
      ensures hasAppendix && appendixHeaders == 1
      ensures output == old(output) + (if old(hasAppendix) then "" else AppendixHeader)
      ensures pieces == old(pieces) + (if old(hasAppendix) then [] else [AppendixHeader])
      ensures palette == old(palette) && classes == old(classes) && htmlDebug == old(htmlDebug)
    {
      if !hasAppendix {
        hasAppendix := true;
        appendixHeaders := appendixHeaders + 1;
        AppendLatexContent(AppendixHeader);
      }
    }

    /** The link sets hold the links of the texts appended before and
        those of the texts added since. */
    lemma RecordedAfter(before: seq<string>, added: seq<string>)
      requires Valid() && pieces == before + added
      ensures AppendedSince(before, PiecesGraphics(before), PiecesHrefs(before, Links.Embedded),
                            PiecesHrefs(before, Links.About), added)
    {
      PiecesLinksConcat(before, added);
    }

    /** `parse_problem_html_soup`: each class of each tag, in order,
        records the problem in the class index. */
    method ParseProblemHtmlSoup(tags: seq<seq<string>>, problemId: nat)
      modifies this
      ensures classes == RecordUses(old(classes), Flatten(tags), problemId)
      ensures palette == old(palette) && output == old(output) && htmlDebug == old(htmlDebug)
      ensures resourcePaths == old(resourcePaths) && embeddedPaths == old(embeddedPaths)
      ensures aboutPaths == old(aboutPaths) && hasAppendix == old(hasAppendix)
      ensures pieces == old(pieces) && appendixHeaders == old(appendixHeaders)
    {
      var index := IndexClasses(classes, tags, problemId);
      classes := index;
    }

    /** `_transform_html_to_latex`: the palette gains the colours the
        styling meets. */
    method TransformHtmlToLatex(html: string, readHtml: string -> seq<Doc.Block>,
                                writeLatex: seq<Doc.Block> -> string) returns (latex: string)
      requires Valid()
      modifies this
      ensures Valid()
      ensures (latex, palette) == ConvertHtml(html, readHtml, writeLatex, old(palette))
      ensures Doc.Extends(old(palette), palette)
      ensures classes == old(classes) && output == old(output) && htmlDebug == old(htmlDebug)
      ensures resourcePaths == old(resourcePaths) && embeddedPaths == old(embeddedPaths)
      ensures aboutPaths == old(aboutPaths) && hasAppendix == old(hasAppendix)
      ensures pieces == old(pieces) && appendixHeaders == old(appendixHeaders)
    {
      var protected := Formula.ProtectAll(html);
      var styled := Passes.TransformDocument(readHtml(protected.0), palette);
      palette := styled.1;
      var written := Strip(writeLatex(styled.0));
      latex := Formula.CleanLatex(Formula.Restore(written, protected.1));
    }

    /** `process_problem_html`: the classes are indexed first; a page title
        that does not parse stops there, as the builder raises; otherwise
        the heading and label, then the converted content, make the page. */
    method ProcessProblemHtml(problemId: nat, content: Style.Html, pageTitle: string,
                              serialise: Style.Html -> string, readHtml: string -> seq<Doc.Block>,
                              writeLatex: seq<Doc.Block> -> string) returns (ok: bool)
      requires Valid()
      modifies this
      ensures Valid()
      ensures ok <==> Sections.ParseTitle(pageTitle).Some?
      ensures classes == RecordUses(old(classes), Flatten(DescendantClasses(content)), problemId)
      ensures !ok ==> output == old(output) && palette == old(palette) && htmlDebug == old(htmlDebug)
      ensures ok ==>
        var html := serialise(Style.TransformHtmlTagClassInfo(content));
        var (latex, p) := ConvertHtml(html, readHtml, writeLatex, old(palette));
        && palette == p
        && output == old(output)
          + PageText(isSpaced, Sections.ProblemHeader(problemId, Sections.ParseTitle(pageTitle).value) + latex)
          + PageEnd
        && htmlDebug == old(htmlDebug) + DebugEntry(problemId, html)
        && AppendedSince(old(pieces), old(resourcePaths), old(embeddedPaths), old(aboutPaths),
                         ProblemPieces(isSpaced, Sections.ProblemHeader(problemId, Sections.ParseTitle(pageTitle).value) + latex))
      ensures !ok ==> AppendedSince(old(pieces), old(resourcePaths), old(embeddedPaths), old(aboutPaths), [])
      ensures hasAppendix == old(hasAppendix)
    {
      ParseProblemHtmlSoup(DescendantClasses(content), problemId);
      var normalised := Style.TransformHtmlTagClassInfo(content);
      var html := serialise(normalised);
      var title := Sections.ParseTitle(pageTitle);
      if title.None? {
        ok := false;
        assert pieces == old(pieces) + [];
        return;
      }
      ok := true;
      AppendProblemPage(problemId, title.value, html, readHtml, writeLatex);
    }

    /** The rest of `process_problem_html` once the title is known: the
        heading and label, then the converted content, make the page, and
        the HTML goes to the debug record. */
    method AppendProblemPage(problemId: nat, title: string, html: string,
                             readHtml: string -> seq<Doc.Block>, writeLatex: seq<Doc.Block> -> string)
      requires Valid()
      modifies this
      ensures Valid()
      ensures
        var (latex, p) := ConvertHtml(html, readHtml, writeLatex, old(palette));
        && palette == p
        && output == old(output) + PageText(isSpaced, Sections.ProblemHeader(problemId, title) + latex) + PageEnd
        && htmlDebug == old(htmlDebug) + DebugEntry(problemId, html)
        && AppendedSince(old(pieces), old(resourcePaths), old(embeddedPaths), old(aboutPaths),
                         ProblemPieces(isSpaced, Sections.ProblemHeader(problemId, title) + latex))
      ensures classes == old(classes) && hasAppendix == old(hasAppendix)
    {
      ghost var before := pieces;
      var latex := TransformHtmlToLatex(html, readHtml, writeLatex);
      AppendProblemLatexContent(Sections.ProblemHeader(problemId, title) + latex);
      htmlDebug := htmlDebug + DebugEntry(problemId, html);
      RecordedAfter(before, ProblemPieces(isSpaced, Sections.ProblemHeader(problemId, title) + latex));
    }

    /** `process_about_html`: the heading's title with its `About...`
        removed, the heading and label, then the converted content, make a
        page, appended without the appendix header. */
    method ProcessAboutHtml(aboutUrlPath: string, heading: string, content: Style.Html,
                            serialise: Style.Html -> string, readHtml: string -> seq<Doc.Block>,
                            writeLatex: seq<Doc.Block> -> string)
      requires Valid()
      modifies this
      ensures Valid()
      ensures
        var (latex, p) := ConvertHtml(serialise(content), readHtml, writeLatex, old(palette));
        && palette == p
        && output == old(output)
          + PageText(isSpaced, Sections.AboutHeader(Sections.AboutTitle(heading), aboutUrlPath) + latex)
        && AppendedSince(old(pieces), old(resourcePaths), old(embeddedPaths), old(aboutPaths),
                         PagePieces(isSpaced, Sections.AboutHeader(Sections.AboutTitle(heading), aboutUrlPath) + latex))
      ensures classes == old(classes) && htmlDebug == old(htmlDebug) && hasAppendix == old(hasAppendix)
    {
      ghost var before := pieces;
      var title := Sections.AboutTitle(heading);
      var latex := TransformHtmlToLatex(serialise(content), readHtml, writeLatex);
      AppendLatexContentPage(Sections.AboutHeader(title, aboutUrlPath) + latex);
      RecordedAfter(before, PagePieces(isSpaced, Sections.AboutHeader(title, aboutUrlPath) + latex));
    }

    /** `process_animated_resources`: every `\includegraphics` of a
        recorded resource rewritten in the document. */
    method ProcessAnimatedResources(resources: seq<Animated.AnimatedResource>)
      requires Valid()
      modifies this
      ensures Valid()
      ensures output == Animated.ProcessAll(resources, old(output))
      ensures palette == old(palette) && classes == old(classes) && htmlDebug == old(htmlDebug)
      ensures resourcePaths == old(resourcePaths) && embeddedPaths == old(embeddedPaths)
      ensures aboutPaths == old(aboutPaths) && hasAppendix == old(hasAppendix)
      ensures pieces == old(pieces) && appendixHeaders == old(appendixHeaders)
    {
      output := Animated.ProcessAll(resources, output);
    }

    /** `_build_latex_preamble`. */
    method BuildLatexPreamble() returns (preamble: string)
      ensures preamble == PreambleOf(palette)
    {
      var p := palette;
      preamble := "";
      var k := 0;
      assert p[0..] == p;
      while k < |p|
        invariant 0 <= k <= |p|
        invariant preamble + PreambleOf(p[k..]) == PreambleOf(p)
      {
        PreambleStep(preamble, p, k);
        preamble := preamble + DefineLine(p[k]) + "\n";
        k := k + 1;
      }
    }
    /** `write`, without the files: the links resolved, the template filled
        with the preamble and the content, the characters substituted; the
        template's error when it has a bad placeholder. */
    method Write(template: string) returns (r: Result<string>)
      ensures
        var filled := Template.Substitute(template, Slots(PreambleOf(palette), Rewrites.ResolveLinks(output)));
        && (filled.Err? ==> r == Err(filled.reason))
        && (filled.Ok? ==> r == Ok(Chars.Translate(filled.value, Chars.CharTable)))
    {
      var content := Rewrites.ResolveLinks(output);
      var preamble := BuildLatexPreamble();
      var filled := Template.Substitute(template, Slots(preamble, content));
      if filled.Err? {
        r := Err(filled.reason);
      } else {
        var document := Chars.SubstituteCharacters(filled.value);
        r := Ok(document);
      }
    }
  }

  /** The template's slot names. */
  const PreambleName := "preamble"
  const ContentName := "content"

  function Slots(preamble: string, content: string): map<string, string>
  {
    map[PreambleName := preamble, ContentName := content]
  }

  lemma SlotsFilled(preamble: string, content: string)
    ensures Template.ValidName(PreambleName) && Template.ValidName(ContentName)
    ensures PreambleName in Slots(preamble, content) && Slots(preamble, content)[PreambleName] == preamble
    ensures ContentName in Slots(preamble, content) && Slots(preamble, content)[ContentName] == content
  {
    assert |PreambleName| != |ContentName|;
  }

  /** A document template with the preamble and content slots gives the
      template's text around the preamble and the resolved content. */
  lemma WriteFillsTemplate(a: string, b: string, c: string, palette: Doc.Palette, output: string)
    ensures Template.Substitute(Template.Escaped(a) + "${" + PreambleName + "}" + Template.Escaped(b)
                                + "${" + ContentName + "}" + Template.Escaped(c),
                                Slots(PreambleOf(palette), Rewrites.ResolveLinks(output)))
      == Ok(a + PreambleOf(palette) + b + Rewrites.ResolveLinks(output) + c)
  {
    SlotsFilled(PreambleOf(palette), Rewrites.ResolveLinks(output));
    Template.FillsTwoSlots(a, PreambleName, b, ContentName, c, Slots(PreambleOf(palette), Rewrites.ResolveLinks(output)));
  }
}
