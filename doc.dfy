/** A minimal stand-in for the pandoc document tree the builder styles,
    the LaTeX wrapper tables, and the colour palette. */
module Doc {
  import opened Wrappers
  import opened StringUtil

  // ---------------------------------------------------------------------
  // The tree.

  /** Inline elements: text, raw LaTeX, a `Span` with its class list, an
      unclassed inline container (emphasis and the like), and a footnote. */
  datatype Inline =
    | Str(text: string)
    | RawInline(format: string, text: string)
    | Span(classes: seq<string>, content: seq<Inline>)
    | Emph(content: seq<Inline>)
    | Note(blocks: seq<Block>)

  /** Block elements: paragraphs, plain text, headers, `Div`s with their
      class list, block quotes and bullet lists. */
  datatype Block =
    | Para(content: seq<Inline>)
    | Plain(content: seq<Inline>)
    | Header(level: int, content: seq<Inline>)
    | Div(classes: seq<string>, blocks: seq<Block>)
    | BlockQuote(blocks: seq<Block>)
    | BulletList(items: seq<ListItem>)

  /** One item of a bullet list: a list of blocks. */
  datatype ListItem = ListItem(blocks: seq<Block>)

  /** A raw LaTeX inline. */
  function Latex(text: string): Inline
  {
    RawInline("latex", text)
  }

  predicate AllRaw(xs: seq<Inline>)
  {
    forall i :: 0 <= i < |xs| ==> xs[i].RawInline?
  }

  // ---------------------------------------------------------------------
  // The text a reader sees: every `Str`, in document order. Raw LaTeX is
  // not text.

  function InlinesText(xs: seq<Inline>): string
    decreases xs
  {
    if xs == [] then "" else InlinesText(xs[..|xs| - 1]) + InlineText(xs[|xs| - 1])
  }

  function InlineText(x: Inline): string
    decreases x
  {
    match x
    case Str(t) => t
    case RawInline(_, _) => ""
    case Span(_, c) => InlinesText(c)
    case Emph(c) => InlinesText(c)
    case Note(bs) => BlocksText(bs)
  }

  function BlocksText(bs: seq<Block>): string
    decreases bs
  {
    if bs == [] then "" else BlocksText(bs[..|bs| - 1]) + BlockText(bs[|bs| - 1])
  }

  function BlockText(b: Block): string
    decreases b
  {
    match b
    case Para(c) => InlinesText(c)
    case Plain(c) => InlinesText(c)
    case Header(_, c) => InlinesText(c)
    case Div(_, bs) => BlocksText(bs)
    case BlockQuote(bs) => BlocksText(bs)
    case BulletList(items) => ItemsText(items)
  }

  function ItemsText(items: seq<ListItem>): string
    decreases items
  {
    if items == [] then ""
    else ItemsText(items[..|items| - 1]) + BlocksText(items[|items| - 1].blocks)
  }

  lemma {:induction false} InlinesTextConcat(a: seq<Inline>, b: seq<Inline>)
    ensures InlinesText(a + b) == InlinesText(a) + InlinesText(b)
    decreases |b|
  {
    if b == [] {
      assert a + b == a;
    } else {
      assert (a + b)[..|a + b| - 1] == a + b[..|b| - 1];
      InlinesTextConcat(a, b[..|b| - 1]);
    }
  }

  lemma {:induction false} RawHasNoText(xs: seq<Inline>)
    requires AllRaw(xs)
    ensures InlinesText(xs) == ""
    decreases |xs|
  {
    if xs != [] {
      RawHasNoText(xs[..|xs| - 1]);
    }
  }

  /** Surrounding content with raw LaTeX leaves its text as it was. */
  lemma Surrounded(pre: seq<Inline>, c: seq<Inline>, post: seq<Inline>)
    requires AllRaw(pre) && AllRaw(post)
    ensures InlinesText(pre + c + post) == InlinesText(c)
  {
    InlinesTextConcat(pre + c, post);
    InlinesTextConcat(pre, c);
    RawHasNoText(pre);
    RawHasNoText(post);
  }

  // ---------------------------------------------------------------------
  // The wrapper tables.

  /** A pair of raw LaTeX strings put around styled content. */
  datatype Wrapper = Wrapper(pre: string, post: string)

  /** `LATEX_INLINE_STYLES.get(cls)`. */
  function InlineStyle(cls: string): Option<Wrapper>
  {
    match cls
    case "blue" => Some(Wrapper(@"{\color{blue}", "}"))
    case "green" => Some(Wrapper(@"{\color{green}", "}"))
    case "italic" => Some(Wrapper(@"\textit{", "}"))
    case "larger" => Some(Wrapper(@"{\large{}", "}"))
    case "largest" => Some(Wrapper(@"{\Large{}", "}"))
    case "monospace" => Some(Wrapper(@"\texttt{", "}"))
    case "orange" => Some(Wrapper(@"{\color{orange}", "}"))
    case "red" => Some(Wrapper(@"{\color{red}", "}"))
    case "smaller" => Some(Wrapper(@"{\small{}", "}"))
    case "smallest" => Some(Wrapper(@"{\footnotesize{}", "}"))
    case "strong" => Some(Wrapper(@"\textbf{", "}"))
    case "underline" => Some(Wrapper(@"\underline{", "}"))
    case _ => None
  }

  const CenterWrapper := Wrapper(@"\begin{center}", @"\end{center}")

  /** `LATEX_BLOCK_STYLES.get(cls)`: both entries centre. */
  function BlockStyle(cls: string): Option<Wrapper>
  {
    if cls == "center" || cls == "margin_left" then Some(CenterWrapper) else None
  }

  /** Prefix of the colour classes the style classifier emits. */
  const ColorPrefix := "__COLOR__"

  /** Puts `w.pre` in front of `c` and `w.post` after it. */
  function Around(w: Wrapper, c: seq<Inline>): (r: seq<Inline>)
    ensures |r| == |c| + 2
    ensures r[1..|r| - 1] == c
  {
    [Latex(w.pre)] + c + [Latex(w.post)]
  }

  // ---------------------------------------------------------------------
  // The palette: `_color_mappings`, a dictionary from colour value to
  // generated name, kept here as its list of entries in insertion order.

  datatype ColorEntry = ColorEntry(value: string, name: string)

  type Palette = seq<ColorEntry>

  /** `f"CustomColor{n}"`. */
  function CustomColorName(n: nat): string
  {
    "CustomColor" + NatToString(n)
  }

  /** Entry `i` is named `CustomColor{i}`, and no value appears twice. */
  predicate ValidPalette(p: Palette)
  {
    && (forall i :: 0 <= i < |p| ==> p[i].name == CustomColorName(i))
    && (forall i, j :: 0 <= i < j < |p| ==> p[i].value != p[j].value)
  }

  /** Distinct entries of a valid palette have distinct names. */
  lemma PaletteNamesDistinct(p: Palette, i: int, j: int)
    requires ValidPalette(p) && 0 <= i < j < |p|
    ensures p[i].name != p[j].name
  {
    if p[i].name == p[j].name {
      var a, b := NatToString(i), NatToString(j);
      assert "CustomColor" + a == "CustomColor" + b;
      assert a == ("CustomColor" + a)[11..];
      assert b == ("CustomColor" + b)[11..];
      NatToStringInjective(i, j);
    }
  }

  /** The palette has an entry for colour `v`. */
  predicate HasColor(p: Palette, v: string)
  {
    exists i :: 0 <= i < |p| && p[i].value == v
  }

  /** The index of the entry for `v`, if there is one. */
  function FindColor(p: Palette, v: string): (r: Option<nat>)
    ensures r.Some? ==> r.value < |p| && p[r.value].value == v
    ensures r.None? ==> forall i :: 0 <= i < |p| ==> p[i].value != v
  {
    if p == [] then None
    else if p[|p| - 1].value == v then Some(|p| - 1)
    else FindColor(p[..|p| - 1], v)
  }

  /** The name the palette gives colour `v`, and the palette afterwards: an
      unseen colour is appended as `CustomColor{n}`, `n` the number of
      entries already present. */
  function ColorName(p: Palette, v: string): (r: (string, Palette))
    ensures ValidPalette(p) ==> ValidPalette(r.1)
    ensures |p| <= |r.1| && r.1[..|p|] == p
    ensures exists i :: 0 <= i < |r.1| && r.1[i] == ColorEntry(v, r.0)
  {
    match FindColor(p, v)
    case Some(i) => (p[i].name, p)
    case None =>
      var name := CustomColorName(|p|);
      var q := p + [ColorEntry(v, name)];
      assert q[|p|] == ColorEntry(v, name);
      (name, q)
  }

  /** A colour already in the palette keeps its name and the palette is
      unchanged. */
  lemma ColorNameSeen(p: Palette, v: string, i: int)
    requires ValidPalette(p) && 0 <= i < |p| && p[i].value == v
    ensures ColorName(p, v) == (CustomColorName(i), p)
  {
  }

  /** An unseen colour is appended under the next number. */
  lemma ColorNameUnseen(p: Palette, v: string)
    requires !HasColor(p, v)
    ensures ColorName(p, v) == (CustomColorName(|p|), p + [ColorEntry(v, CustomColorName(|p|))])
  {
  }

  /** The `\color` wrapper for a palette name. */
  function ColorWrapper(name: string): Wrapper
  {
    Wrapper(@"{\color{" + name + "}", "}")
  }

  /** `p` is a prefix of `q`: the palette only grows. */
  predicate Extends(p: Palette, q: Palette)
  {
    |p| <= |q| && q[..|p|] == p
  }

  lemma ExtendsTrans(p: Palette, q: Palette, r: Palette)
    requires Extends(p, q) && Extends(q, r)
    ensures Extends(p, r)
  {
    assert r[..|p|] == r[..|q|][..|p|];
  }
}
