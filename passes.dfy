/** The two styling passes over the document tree: the inline pass
    (`_transform_pandoc_document_inline_elements`), which wraps classified
    spans in raw LaTeX and names their colours, and the block pass
    (`_transform_pandoc_document_block_elements`), which styles each
    paragraph with the classes of the `Div` that governs it. */
module Passes {
  import opened Wrappers
  import opened StringUtil
  import opened Doc

  // ---------------------------------------------------------------------
  // Wrapping content in the styles of a class list.

  /** Each class in turn, in list order, that `style` knows wraps the
      content built so far; later classes therefore end up outside. */
  function WrapWith(style: string -> Option<Wrapper>, classes: seq<string>, c: seq<Inline>): seq<Inline>
  {
    if classes == [] then c
    else
      var inner := WrapWith(style, classes[..|classes| - 1], c);
      match style(classes[|classes| - 1])
      case Some(w) => Around(w, inner)
      case None => inner
  }

  /** The number of classes `style` knows. */
  function CountStyled(style: string -> Option<Wrapper>, classes: seq<string>): nat
  {
    if classes == [] then 0
    else CountStyled(style, classes[..|classes| - 1]) + (if style(classes[|classes| - 1]).Some? then 1 else 0)
  }

  /** Wrapping keeps the content, untouched, between raw LaTeX openers and
      closers, one of each per known class. */
  lemma {:induction false} WrapWithShape(style: string -> Option<Wrapper>, classes: seq<string>, c: seq<Inline>)
    returns (pre: seq<Inline>, post: seq<Inline>)
    ensures WrapWith(style, classes, c) == pre + c + post
    ensures AllRaw(pre) && AllRaw(post)
    ensures |pre| == |post| == CountStyled(style, classes)
  {
    if classes == [] {
      pre, post := [], [];
      assert c == [] + c + [];
    } else {
      var pre0, post0 := WrapWithShape(style, classes[..|classes| - 1], c);
      match style(classes[|classes| - 1])
      case Some(w) =>
        pre, post := [Latex(w.pre)] + pre0, post0 + [Latex(w.post)];
        assert [Latex(w.pre)] + (pre0 + c + post0) + [Latex(w.post)] == pre + c + post;
      case None =>
        pre, post := pre0, post0;
    }
  }

  /** The styling of a paragraph: its inline styles first, then its block
      styles, so that the block environments are outermost. */
  function StyleBlockContent(classes: seq<string>, c: seq<Inline>): seq<Inline>
  {
    WrapWith(BlockStyle, classes, WrapWith(InlineStyle, classes, c))
  }

  /** A centred paragraph begins with `\begin{center}` and ends with
      `\end{center}`, whatever inline styles it also has. */
  lemma CenterOutermost(classes: seq<string>, c: seq<Inline>)
    requires "center" in classes || "margin_left" in classes
    ensures |StyleBlockContent(classes, c)| >= 2
    ensures StyleBlockContent(classes, c)[0] == Latex(@"\begin{center}")
    ensures StyleBlockContent(classes, c)[|StyleBlockContent(classes, c)| - 1] == Latex(@"\end{center}")
  {
    var k :| 0 <= k < |classes| && BlockStyle(classes[k]).Some?;
    BlockWrapOuter(classes, WrapWith(InlineStyle, classes, c), k);
  }

  lemma {:induction false} BlockWrapOuter(classes: seq<string>, c: seq<Inline>, k: int)
    requires 0 <= k < |classes| && BlockStyle(classes[k]).Some?
    ensures |WrapWith(BlockStyle, classes, c)| >= 2
    ensures WrapWith(BlockStyle, classes, c)[0] == Latex(CenterWrapper.pre)
    ensures WrapWith(BlockStyle, classes, c)[|WrapWith(BlockStyle, classes, c)| - 1] == Latex(CenterWrapper.post)
  {
    if BlockStyle(classes[|classes| - 1]).None? {
      BlockWrapOuter(classes[..|classes| - 1], c, k);
    }
  }

  /** Colour classes style no block: they name no entry of either table. */
  lemma ColorClassesIgnoredOnBlocks(classes: seq<string>, c: seq<Inline>)
    requires forall k :: k in classes ==> StartsWith(k, ColorPrefix)
    ensures StyleBlockContent(classes, c) == c
  {
    ColorClassesUnstyled(InlineStyle, classes, c);
    ColorClassesUnstyled(BlockStyle, classes, c);
  }

  lemma {:induction false} ColorClassesUnstyled(style: string -> Option<Wrapper>, classes: seq<string>, c: seq<Inline>)
    requires style == InlineStyle || style == BlockStyle
    requires forall k :: k in classes ==> StartsWith(k, ColorPrefix)
    ensures WrapWith(style, classes, c) == c
  {
    if classes != [] {
      var last := classes[|classes| - 1];
      assert last in classes;
      ColorClassNotStyled(last);
      assert forall k :: k in classes[..|classes| - 1] ==> k in classes;
      ColorClassesUnstyled(style, classes[..|classes| - 1], c);
    }
  }

  lemma ColorClassNotStyled(k: string)
    requires StartsWith(k, ColorPrefix)
    ensures InlineStyle(k).None? && BlockStyle(k).None?
  {
    assert k[0] == '_';
  }

  // ---------------------------------------------------------------------
  // The styling of one classified span.

  /** One class of a span applied to its content: a known inline style
      wraps it; a `__COLOR__v` class wraps it in `{\color{name}` … `}`,
      `name` coming from the palette; any other class does nothing. */
  function StyleSpanClass(k: string, c: seq<Inline>, p: Palette): (r: (seq<Inline>, Palette))
    ensures Extends(p, r.1)
    ensures ValidPalette(p) ==> ValidPalette(r.1)
  {
    match InlineStyle(k)
    case Some(w) => (Around(w, c), p)
    case None =>
      if StartsWith(k, ColorPrefix) then
        var (name, q) := ColorName(p, k[|ColorPrefix|..]);
        (Around(ColorWrapper(name), c), q)
      else (c, p)
  }

  /** The classes of a span applied in list order. */
  function StyleSpanClasses(classes: seq<string>, c: seq<Inline>, p: Palette): (r: (seq<Inline>, Palette))
    ensures Extends(p, r.1)
    ensures ValidPalette(p) ==> ValidPalette(r.1)
  {
    if classes == [] then (c, p)
    else
      var (inner, q) := StyleSpanClasses(classes[..|classes| - 1], c, p);
      var r := StyleSpanClass(classes[|classes| - 1], inner, q);
      ExtendsTrans(p, q, r.1);
      r
  }

  /** The colour values a class list names. */
  predicate NamesColor(classes: seq<string>, v: string)
  {
    ColorPrefix + v in classes
  }

  /** After styling a span, every colour it names is in the palette, and
      every entry added is a colour it names. */
  lemma {:induction false} SpanColorsRegistered(classes: seq<string>, c: seq<Inline>, p: Palette)
    ensures forall v :: NamesColor(classes, v) ==> HasColor(StyleSpanClasses(classes, c, p).1, v)
    ensures forall i :: |p| <= i < |StyleSpanClasses(classes, c, p).1| ==>
      NamesColor(classes, StyleSpanClasses(classes, c, p).1[i].value)
  {
    if classes != [] {
      var init, last := classes[..|classes| - 1], classes[|classes| - 1];
      assert classes == init + [last];
      SpanColorsRegistered(init, c, p);
      var (inner, q) := StyleSpanClasses(init, c, p);
      var r := StyleSpanClasses(classes, c, p).1;
      assert r == StyleSpanClass(last, inner, q).1;
      ClassColorStep(last, inner, q);
      assert Extends(q, r);
      forall v | NamesColor(classes, v) ensures HasColor(r, v) {
        if ColorPrefix + v == last {
          assert StartsWith(last, ColorPrefix) && last[|ColorPrefix|..] == v;
        } else {
          assert NamesColor(init, v);
          var i :| 0 <= i < |q| && q[i].value == v;
          assert r[i] == q[i];
        }
      }
      forall i | |p| <= i < |r| ensures NamesColor(classes, r[i].value) {
        if i < |q| {
          assert r[i] == q[i];
        } else {
          assert r[i].value == last[|ColorPrefix|..];
          assert last == ColorPrefix + last[|ColorPrefix|..];
        }
      }
    }
  }

  /** One class leaves the palette alone or, for a colour class, appends
      its colour under the next number; a colour class's colour is in the
      palette afterwards. */
  lemma ClassColorStep(k: string, c: seq<Inline>, p: Palette)
    ensures var q := StyleSpanClass(k, c, p).1;
      q == p || (StartsWith(k, ColorPrefix) && q == p + [ColorEntry(k[|ColorPrefix|..], CustomColorName(|p|))])
    ensures StartsWith(k, ColorPrefix) ==> HasColor(StyleSpanClass(k, c, p).1, k[|ColorPrefix|..])
  {
    if StartsWith(k, ColorPrefix) {
      ColorClassNotStyled(k);
      var v := k[|ColorPrefix|..];
      if !HasColor(p, v) {
        ColorNameUnseen(p, v);
      }
    }
  }

  /** Without colour classes a span is styled exactly as a block's inline
      styles would style it, and the palette is left alone. */
  lemma {:induction false} SpanWithoutColors(classes: seq<string>, c: seq<Inline>, p: Palette)
    requires forall k :: k in classes ==> !StartsWith(k, ColorPrefix)
    ensures StyleSpanClasses(classes, c, p) == (WrapWith(InlineStyle, classes, c), p)
  {
    if classes != [] {
      assert forall k :: k in classes[..|classes| - 1] ==> k in classes;
      SpanWithoutColors(classes[..|classes| - 1], c, p);
      assert classes[|classes| - 1] in classes;
    }
  }

  /** A span's styled content is its content between raw LaTeX openers and
      closers. */
  lemma {:induction false} SpanShape(classes: seq<string>, c: seq<Inline>, p: Palette)
    returns (pre: seq<Inline>, post: seq<Inline>)
    ensures StyleSpanClasses(classes, c, p).0 == pre + c + post
    ensures AllRaw(pre) && AllRaw(post) && |pre| == |post|
  {
    if classes == [] {
      pre, post := [], [];
      assert c == [] + c + [];
    } else {
      var init := classes[..|classes| - 1];
      var pre0, post0 := SpanShape(init, c, p);
      var inner := StyleSpanClasses(init, c, p);
      assert StyleSpanClasses(classes, c, p).0 == StyleSpanClass(classes[|classes| - 1], inner.0, inner.1).0;
      var w := ClassWrapper(classes[|classes| - 1], inner.0, inner.1);
      if w.Some? {
        pre, post := [Latex(w.value.pre)] + pre0, post0 + [Latex(w.value.post)];
        WrapShape(w.value, pre0, c, post0);
      } else {
        pre, post := pre0, post0;
      }
    }
  }

  /** Wrapping keeps the content between raw openers and closers. */
  lemma WrapShape(w: Wrapper, pre: seq<Inline>, c: seq<Inline>, post: seq<Inline>)
    requires AllRaw(pre) && AllRaw(post) && |pre| == |post|
    ensures Around(w, pre + c + post) == ([Latex(w.pre)] + pre) + c + (post + [Latex(w.post)])
    ensures AllRaw([Latex(w.pre)] + pre) && AllRaw(post + [Latex(w.post)])
  {
    var pre1, post1 := [Latex(w.pre)] + pre, post + [Latex(w.post)];
    forall i | 0 <= i < |pre1| ensures pre1[i].RawInline? {
      if i > 0 { assert pre1[i] == pre[i - 1]; }
    }
    forall i | 0 <= i < |post1| ensures post1[i].RawInline? {
      if i < |post| { assert post1[i] == post[i]; }
    }
  }

  /** One class either wraps the content or leaves it alone. */
  lemma ClassWrapper(k: string, c: seq<Inline>, p: Palette) returns (w: Option<Wrapper>)
    ensures StyleSpanClass(k, c, p).0 == if w.Some? then Around(w.value, c) else c
  {
    match InlineStyle(k)
    case Some(x) =>
      w := Some(x);
    case None =>
      if StartsWith(k, ColorPrefix) {
        w := Some(ColorWrapper(ColorName(p, k[|ColorPrefix|..]).0));
      } else {
        w := None;
      }
  }

  // ---------------------------------------------------------------------
  // The inline pass. The source collects every node in document order and
  // then handles the spans in reverse: a span's descendants are styled
  // before the span, and a later sibling before an earlier one. The
  // palette is threaded through in that order.

  function InlinePassInlines(xs: seq<Inline>, p: Palette): (r: (seq<Inline>, Palette))
    ensures |r.0| == |xs|
    ensures Extends(p, r.1)
    ensures ValidPalette(p) ==> ValidPalette(r.1)
    decreases xs
  {
    if xs == [] then (xs, p)
    else
      var (last, q) := InlinePassInline(xs[|xs| - 1], p);
      var (init, s) := InlinePassInlines(xs[..|xs| - 1], q);
      ExtendsTrans(p, q, s);
      (init + [last], s)
  }

  function InlinePassInline(x: Inline, p: Palette): (r: (Inline, Palette))
    ensures Extends(p, r.1)
    ensures ValidPalette(p) ==> ValidPalette(r.1)
    decreases x
  {
    match x
    case Span(classes, c) =>
      var (c', q) := InlinePassInlines(c, p);
      if classes == [] then (Span(classes, c'), q)
      else
        var (styled, s) := StyleSpanClasses(classes, c', q);
        ExtendsTrans(p, q, s);
        (Span(classes, styled), s)
    case Emph(c) =>
      var (c', q) := InlinePassInlines(c, p);
      (Emph(c'), q)
    case Note(bs) =>
      var (bs', q) := InlinePassBlocks(bs, p);
      (Note(bs'), q)
    case _ => (x, p)
  }

  function InlinePassBlocks(bs: seq<Block>, p: Palette): (r: (seq<Block>, Palette))
    ensures |r.0| == |bs|
    ensures Extends(p, r.1)
    ensures ValidPalette(p) ==> ValidPalette(r.1)
    decreases bs
  {
    if bs == [] then (bs, p)
    else
      var (last, q) := InlinePassBlock(bs[|bs| - 1], p);
      var (init, s) := InlinePassBlocks(bs[..|bs| - 1], q);
      ExtendsTrans(p, q, s);
      (init + [last], s)
  }

  function InlinePassBlock(b: Block, p: Palette): (r: (Block, Palette))
    ensures Extends(p, r.1)
    ensures ValidPalette(p) ==> ValidPalette(r.1)
    decreases b
  {
    match b
    case Para(c) =>
      var (c', q) := InlinePassInlines(c, p);
      (Para(c'), q)
    case Plain(c) =>
      var (c', q) := InlinePassInlines(c, p);
      (Plain(c'), q)
    case Header(level, c) =>
      var (c', q) := InlinePassInlines(c, p);
      (Header(level, c'), q)
    case Div(classes, bs) =>
      var (bs', q) := InlinePassBlocks(bs, p);
      (Div(classes, bs'), q)
    case BlockQuote(bs) =>
      var (bs', q) := InlinePassBlocks(bs, p);
      (BlockQuote(bs'), q)
    case BulletList(items) =>
      var (items', q) := InlinePassItems(items, p);
      (BulletList(items'), q)
  }

  function InlinePassItems(items: seq<ListItem>, p: Palette): (r: (seq<ListItem>, Palette))
    ensures |r.0| == |items|
    ensures Extends(p, r.1)
    ensures ValidPalette(p) ==> ValidPalette(r.1)
    decreases items
  {
    if items == [] then (items, p)
    else
      var (last, q) := InlinePassBlocks(items[|items| - 1].blocks, p);
      var (init, s) := InlinePassItems(items[..|items| - 1], q);
      ExtendsTrans(p, q, s);
      (init + [ListItem(last)], s)
  }

  /** The inline pass changes no text: it only adds raw LaTeX. */
  lemma {:induction false} InlinePassInlinesText(xs: seq<Inline>, p: Palette)
    ensures InlinesText(InlinePassInlines(xs, p).0) == InlinesText(xs)
    decreases xs
  {
    if xs != [] {
      var (last, q) := InlinePassInline(xs[|xs| - 1], p);
      var (init, s) := InlinePassInlines(xs[..|xs| - 1], q);
      InlinePassInlineText(xs[|xs| - 1], p);
      InlinePassInlinesText(xs[..|xs| - 1], q);
      assert (init + [last])[..|init + [last]| - 1] == init;
    }
  }

  lemma {:induction false} InlinePassInlineText(x: Inline, p: Palette)
    ensures InlineText(InlinePassInline(x, p).0) == InlineText(x)
    decreases x
  {
    match x
    case Span(classes, c) =>
      InlinePassInlinesText(c, p);
      if classes != [] {
        var (c', q) := InlinePassInlines(c, p);
        var pre, post := SpanShape(classes, c', q);
        Surrounded(pre, c', post);
      }
    case Emph(c) =>
      InlinePassInlinesText(c, p);
    case Note(bs) =>
      InlinePassBlocksText(bs, p);
    case _ =>
  }

  lemma {:induction false} InlinePassBlocksText(bs: seq<Block>, p: Palette)
    ensures BlocksText(InlinePassBlocks(bs, p).0) == BlocksText(bs)
    decreases bs
  {
    if bs != [] {
      var (last, q) := InlinePassBlock(bs[|bs| - 1], p);
      var (init, s) := InlinePassBlocks(bs[..|bs| - 1], q);
      InlinePassBlockText(bs[|bs| - 1], p);
      InlinePassBlocksText(bs[..|bs| - 1], q);
      assert (init + [last])[..|init + [last]| - 1] == init;
    }
  }

  lemma {:induction false} InlinePassBlockText(b: Block, p: Palette)
    ensures BlockText(InlinePassBlock(b, p).0) == BlockText(b)
    decreases b
  {
    match b
    case Para(c) => InlinePassInlinesText(c, p);
    case Plain(c) => InlinePassInlinesText(c, p);
    case Header(_, c) => InlinePassInlinesText(c, p);
    case Div(_, bs) => InlinePassBlocksText(bs, p);
    case BlockQuote(bs) => InlinePassBlocksText(bs, p);
    case BulletList(items) => InlinePassItemsText(items, p);
  }

  lemma {:induction false} InlinePassItemsText(items: seq<ListItem>, p: Palette)
    ensures ItemsText(InlinePassItems(items, p).0) == ItemsText(items)
    decreases items
  {
    if items != [] {
      var (last, q) := InlinePassBlocks(items[|items| - 1].blocks, p);
      var (init, s) := InlinePassItems(items[..|items| - 1], q);
      InlinePassBlocksText(items[|items| - 1].blocks, p);
      InlinePassItemsText(items[..|items| - 1], q);
      assert (init + [ListItem(last)])[..|init + [ListItem(last)]| - 1] == init;
    }
  }

  /** A span with one colour class that the palette lacks, around content
      that needs no colour of its own, appends that colour under the next
      number. */
  lemma NewColorSpan(v: string, c: seq<Inline>, p: Palette)
    requires !HasColor(p, v)
    requires InlinePassInlines(c, p) == (c, p)
    ensures InlinePassInline(Span([ColorPrefix + v], c), p).1
      == p + [ColorEntry(v, CustomColorName(|p|))]
  {
    var k := ColorPrefix + v;
    ColorClassNotStyled(k);
    assert k[|ColorPrefix|..] == v;
    var classes := [k];
    assert classes[..0] == [];
    ColorNameUnseen(p, v);
    var entry := ColorEntry(v, CustomColorName(|p|));
    assert StyleSpanClass(k, c, p).1 == p + [entry];
    assert StyleSpanClasses(classes, c, p) == StyleSpanClass(k, c, p);
  }

  /** Text needs no colour. */
  lemma TextNeedsNoColor(t: string, p: Palette)
    ensures InlinePassInlines([Str(t)], p) == ([Str(t)], p)
  {
    var xs := [Str(t)];
    assert xs[..0] == [];
    assert [] + xs == xs;
  }

  /** One step of the pass over siblings: the last one first. */
  lemma InlinesUnfold(xs: seq<Inline>, p: Palette)
    requires xs != []
    ensures InlinePassInlines(xs, p)
      == (InlinePassInlines(xs[..|xs| - 1], InlinePassInline(xs[|xs| - 1], p).1).0
            + [InlinePassInline(xs[|xs| - 1], p).0],
          InlinePassInlines(xs[..|xs| - 1], InlinePassInline(xs[|xs| - 1], p).1).1)
  {
  }

  /** The pass over a run of siblings is the pass over its later part
      followed by the pass over its earlier part, the palette the later
      part leaves being the one the earlier part starts from. */
  lemma {:induction false} InlinesConcat(xs: seq<Inline>, ys: seq<Inline>, p: Palette)
    ensures InlinePassInlines(xs + ys, p)
      == (InlinePassInlines(xs, InlinePassInlines(ys, p).1).0 + InlinePassInlines(ys, p).0,
          InlinePassInlines(xs, InlinePassInlines(ys, p).1).1)
    decreases |ys|
  {
    if ys == [] {
      assert xs + ys == xs;
      assert InlinePassInlines(ys, p) == ([], p);
      assert InlinePassInlines(xs, p).0 + [] == InlinePassInlines(xs, p).0;
    } else {
      var zs := xs + ys;
      var init := ys[..|ys| - 1];
      assert zs[|zs| - 1] == ys[|ys| - 1];
      assert zs[..|zs| - 1] == xs + init;
      InlinesUnfold(ys, p);
      InlinesUnfold(zs, p);
      var (last, q) := InlinePassInline(ys[|ys| - 1], p);
      InlinesConcat(xs, init, q);
      var (ys', t) := InlinePassInlines(init, q);
      var (xs', v) := InlinePassInlines(xs, t);
      assert (xs' + ys') + [last] == xs' + (ys' + [last]);
    }
  }

  /** Whatever precedes it, the last of a run of siblings is handled first:
      a span with a new colour there gets the next number, before any colour
      the earlier siblings add. */
  lemma LastSiblingNumberedFirst(xs: seq<Inline>, v: string, c: seq<Inline>, p: Palette)
    requires !HasColor(p, v)
    requires InlinePassInlines(c, p) == (c, p)
    ensures Extends(p + [ColorEntry(v, CustomColorName(|p|))],
      InlinePassInlines(xs + [Span([ColorPrefix + v], c)], p).1)
  {
    var y := Span([ColorPrefix + v], c);
    InlinesConcat(xs, [y], p);
    NewColorSpan(v, c, p);
    assert [y][..0] == [];
    InlinesUnfold([y], p);
  }

  /** Two spans with new colours in one paragraph: the later span is handled
      first, so it gets the lower number. */
  lemma LastSpanNumberedFirst(a: string, b: string, s: string, t: string)
    requires a != b
    ensures InlinePassInlines([Span([ColorPrefix + a], [Str(s)]), Span([ColorPrefix + b], [Str(t)])], []).1
      == [ColorEntry(b, CustomColorName(0)), ColorEntry(a, CustomColorName(1))]
  {
    var first, second := Span([ColorPrefix + a], [Str(s)]), Span([ColorPrefix + b], [Str(t)]);
    var xs := [first, second];
    TextNeedsNoColor(t, []);
    NewColorSpan(b, [Str(t)], []);
    var p1 := [ColorEntry(b, CustomColorName(0))];
    TextNeedsNoColor(s, p1);
    assert !HasColor(p1, a);
    NewColorSpan(a, [Str(s)], p1);
    var p2 := p1 + [ColorEntry(a, CustomColorName(1))];
    assert InlinePassInline(second, []).1 == p1;
    assert InlinePassInline(first, p1).1 == p2;
    assert [first][..0] == [];
    assert InlinePassInlines([first], p1).1 == p2;
    assert xs[..1] == [first];
  }

  // ---------------------------------------------------------------------
  // The block pass.

  /** What an ancestor of an element is, as the source's walk up the path
      tells them apart. Every child list of a node is a Python list of its
      own, so each step into a node passes a node and then a `PyList`. */
  datatype Ancestor = PyList | DivNode(classes: seq<string>) | ParaNode | PlainNode | BlockQuoteNode | OtherNode

  /** `match_block_classes` for a paragraph at `path`: walking from the
      nearest ancestor outwards, a `Div` yields its classes, a block quote
      or a list is passed over, and a paragraph, any other node or the root
      end the walk with nothing. */
  function GoverningClasses(path: seq<Ancestor>): Option<seq<string>>
  {
    if path == [] then None
    else
      match path[|path| - 1]
      case DivNode(classes) => Some(classes)
      case PyList => GoverningClasses(path[..|path| - 1])
      case BlockQuoteNode => GoverningClasses(path[..|path| - 1])
      case _ => None
  }

  predicate Transparent(a: Ancestor)
  {
    a == PyList || a == BlockQuoteNode
  }

  /** A paragraph is governed by `classes` exactly when its nearest `Div`
      ancestor has them and only block quotes and lists lie in between. */
  lemma {:induction false} GoverningClassesNearestDiv(path: seq<Ancestor>, classes: seq<string>)
    ensures GoverningClasses(path) == Some(classes) <==>
      exists k :: 0 <= k < |path| && path[k] == DivNode(classes) &&
        forall m :: k < m < |path| ==> Transparent(path[m])
  {
    if path != [] {
      var init, last := path[..|path| - 1], path[|path| - 1];
      GoverningClassesNearestDiv(init, classes);
      if exists k :: 0 <= k < |path| && path[k] == DivNode(classes) && forall m :: k < m < |path| ==> Transparent(path[m]) {
        var k :| 0 <= k < |path| && path[k] == DivNode(classes) && forall m :: k < m < |path| ==> Transparent(path[m]);
        if k < |path| - 1 {
          assert Transparent(last);
          assert init[k] == DivNode(classes) && forall m :: k < m < |init| ==> Transparent(init[m]);
        }
      }
      if GoverningClasses(path) == Some(classes) && !last.DivNode? {
        var k :| 0 <= k < |init| && init[k] == DivNode(classes) && forall m :: k < m < |init| ==> Transparent(init[m]);
        assert path[k] == DivNode(classes) && forall m :: k < m < |path| ==> Transparent(path[m]);
      }
    }
  }

  /** The source's loop, walking the path backwards. */
  method MatchBlockClasses(path: seq<Ancestor>) returns (r: Option<seq<string>>)
    ensures r == GoverningClasses(path)
  {
    var i := |path|;
    assert path[..i] == path;
    while i > 0
      invariant 0 <= i <= |path|
      invariant GoverningClasses(path) == GoverningClasses(path[..i])
      decreases i
    {
      assert path[..i][..i - 1] == path[..i - 1];
      match path[i - 1] {
        case DivNode(classes) =>
          return Some(classes);
        case PyList =>
        case BlockQuoteNode =>
        case _ =>
          return None;
      }
      i := i - 1;
    }
    return None;
  }

  /** The classes the block pass applies to a paragraph at `path`: the
      governing classes, when there are any. */
  function BlockClasses(path: seq<Ancestor>): seq<string>
  {
    match GoverningClasses(path)
    case Some(classes) => classes
    case None => []
  }

  function BlockPassInlines(xs: seq<Inline>, path: seq<Ancestor>): (r: seq<Inline>)
    ensures |r| == |xs|
    decreases xs
  {
    if xs == [] then xs
    else BlockPassInlines(xs[..|xs| - 1], path) + [BlockPassInline(xs[|xs| - 1], path)]
  }

  function BlockPassInline(x: Inline, path: seq<Ancestor>): Inline
    decreases x
  {
    match x
    case Span(classes, c) => Span(classes, BlockPassInlines(c, path + [OtherNode, PyList]))
    case Emph(c) => Emph(BlockPassInlines(c, path + [OtherNode, PyList]))
    case Note(bs) => Note(BlockPassBlocks(bs, path + [OtherNode, PyList]))
    case _ => x
  }

  /** `path` is the path of each block of `bs`, ending in their list. */
  function BlockPassBlocks(bs: seq<Block>, path: seq<Ancestor>): (r: seq<Block>)
    ensures |r| == |bs|
    decreases bs
  {
    if bs == [] then bs
    else BlockPassBlocks(bs[..|bs| - 1], path) + [BlockPassBlock(bs[|bs| - 1], path)]
  }

  function BlockPassBlock(b: Block, path: seq<Ancestor>): Block
    decreases b
  {
    match b
    case Para(c) => Para(StyleBlockContent(BlockClasses(path), BlockPassInlines(c, path + [ParaNode, PyList])))
    case Plain(c) => Plain(StyleBlockContent(BlockClasses(path), BlockPassInlines(c, path + [PlainNode, PyList])))
    case Header(level, c) => Header(level, BlockPassInlines(c, path + [OtherNode, PyList]))
    case Div(classes, bs) => Div(classes, BlockPassBlocks(bs, path + [DivNode(classes), PyList]))
    case BlockQuote(bs) => BlockQuote(BlockPassBlocks(bs, path + [BlockQuoteNode, PyList]))
    case BulletList(items) => BulletList(BlockPassItems(items, path + [OtherNode, PyList, PyList]))
  }

  function BlockPassItems(items: seq<ListItem>, path: seq<Ancestor>): (r: seq<ListItem>)
    ensures |r| == |items|
    decreases items
  {
    if items == [] then items
    else BlockPassItems(items[..|items| - 1], path) + [ListItem(BlockPassBlocks(items[|items| - 1].blocks, path))]
  }

  /** The document's top-level blocks sit in the list of the root. */
  const RootPath := [OtherNode, PyList]

  /** `_transform_pandoc_document`: the inline pass, then the block pass. */
  function TransformDocument(doc: seq<Block>, p: Palette): (r: (seq<Block>, Palette))
    ensures Extends(p, r.1)
    ensures ValidPalette(p) ==> ValidPalette(r.1)
  {
    var (inlined, q) := InlinePassBlocks(doc, p);
    (BlockPassBlocks(inlined, RootPath), q)
  }

  /** A paragraph directly in a classed `Div`, possibly through block
      quotes, takes the `Div`'s classes; inside a list item it takes none. */
  lemma ParagraphPlacement(path: seq<Ancestor>, classes: seq<string>)
    ensures BlockClasses(path + [DivNode(classes), PyList]) == classes
    ensures BlockClasses(path + [DivNode(classes), PyList, BlockQuoteNode, PyList]) == classes
    ensures BlockClasses(path + [DivNode(classes), PyList, OtherNode, PyList, PyList]) == []
  {
    var d := path + [DivNode(classes)];
    assert GoverningClasses(d) == Some(classes);
    var p1 := path + [DivNode(classes), PyList];
    assert p1[..|p1| - 1] == d;
    assert GoverningClasses(p1) == Some(classes);
    var q := path + [DivNode(classes), PyList, BlockQuoteNode, PyList];
    assert q[..|q| - 1] == p1 + [BlockQuoteNode];
    assert (p1 + [BlockQuoteNode])[..|p1|] == p1;
    assert GoverningClasses(p1 + [BlockQuoteNode]) == Some(classes);
    var l := path + [DivNode(classes), PyList, OtherNode, PyList, PyList];
    assert l[..|l| - 1] == p1 + [OtherNode, PyList];
    assert (p1 + [OtherNode, PyList])[..|p1| + 1] == p1 + [OtherNode];
    assert GoverningClasses(p1 + [OtherNode]) == None;
    assert GoverningClasses(p1 + [OtherNode, PyList]) == None;
    assert GoverningClasses(l) == None;
  }

  /** Top-level paragraphs are governed by nothing. */
  lemma RootGovernsNothing()
    ensures GoverningClasses(RootPath) == None
  {
    assert RootPath[..1] == [OtherNode];
  }

  /** The block pass changes no text either. */
  lemma {:induction false} BlockPassInlinesText(xs: seq<Inline>, path: seq<Ancestor>)
    ensures InlinesText(BlockPassInlines(xs, path)) == InlinesText(xs)
    decreases xs
  {
    if xs != [] {
      BlockPassInlineText(xs[|xs| - 1], path);
      BlockPassInlinesText(xs[..|xs| - 1], path);
      var r := BlockPassInlines(xs, path);
      assert r[..|r| - 1] == BlockPassInlines(xs[..|xs| - 1], path);
    }
  }

  lemma {:induction false} BlockPassInlineText(x: Inline, path: seq<Ancestor>)
    ensures InlineText(BlockPassInline(x, path)) == InlineText(x)
    decreases x
  {
    match x
    case Span(_, c) => BlockPassInlinesText(c, path + [OtherNode, PyList]);
    case Emph(c) => BlockPassInlinesText(c, path + [OtherNode, PyList]);
    case Note(bs) => BlockPassBlocksText(bs, path + [OtherNode, PyList]);
    case _ =>
  }

  lemma {:induction false} BlockPassBlocksText(bs: seq<Block>, path: seq<Ancestor>)
    ensures BlocksText(BlockPassBlocks(bs, path)) == BlocksText(bs)
    decreases bs
  {
    if bs != [] {
      BlockPassBlockText(bs[|bs| - 1], path);
      BlockPassBlocksText(bs[..|bs| - 1], path);
      var r := BlockPassBlocks(bs, path);
      assert r[..|r| - 1] == BlockPassBlocks(bs[..|bs| - 1], path);
    }
  }

  lemma {:induction false} BlockPassBlockText(b: Block, path: seq<Ancestor>)
    ensures BlockText(BlockPassBlock(b, path)) == BlockText(b)
    decreases b
  {
    match b
    case Para(c) =>
      var c' := BlockPassInlines(c, path + [ParaNode, PyList]);
      BlockPassInlinesText(c, path + [ParaNode, PyList]);
      StyledBlockText(BlockClasses(path), c');
    case Plain(c) =>
      var c' := BlockPassInlines(c, path + [PlainNode, PyList]);
      BlockPassInlinesText(c, path + [PlainNode, PyList]);
      StyledBlockText(BlockClasses(path), c');
    case Header(_, c) => BlockPassInlinesText(c, path + [OtherNode, PyList]);
    case Div(classes, bs) => BlockPassBlocksText(bs, path + [DivNode(classes), PyList]);
    case BlockQuote(bs) => BlockPassBlocksText(bs, path + [BlockQuoteNode, PyList]);
    case BulletList(items) => BlockPassItemsText(items, path + [OtherNode, PyList, PyList]);
  }

  lemma {:induction false} BlockPassItemsText(items: seq<ListItem>, path: seq<Ancestor>)
    ensures ItemsText(BlockPassItems(items, path)) == ItemsText(items)
    decreases items
  {
    if items != [] {
      BlockPassBlocksText(items[|items| - 1].blocks, path);
      BlockPassItemsText(items[..|items| - 1], path);
      var r := BlockPassItems(items, path);
      assert r[..|r| - 1] == BlockPassItems(items[..|items| - 1], path);
    }
  }

  lemma StyledBlockText(classes: seq<string>, c: seq<Inline>)
    ensures InlinesText(StyleBlockContent(classes, c)) == InlinesText(c)
  {
    var pre, post := WrapWithShape(InlineStyle, classes, c);
    Surrounded(pre, c, post);
    var inner := WrapWith(InlineStyle, classes, c);
    var pre', post' := WrapWithShape(BlockStyle, classes, inner);
    Surrounded(pre', inner, post');
  }

  /** Styling changes no text of the document. */
  lemma TransformDocumentText(doc: seq<Block>, p: Palette)
    ensures BlocksText(TransformDocument(doc, p).0) == BlocksText(doc)
  {
    InlinePassBlocksText(doc, p);
    BlockPassBlocksText(InlinePassBlocks(doc, p).0, RootPath);
  }
}
