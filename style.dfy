/** The style classifier (`_transform_style_to_classes`) and the HTML
    normaliser that hands its classes to the pandoc reader
    (`_transform_html_tag_class_info`). */
module Style {
  import opened Wrappers
  import opened StringUtil

  /** Prefix of the ad hoc colour class: `__COLOR__<value>`. */
  const ColorClassPrefix := "__COLOR__"

  /** Characters of `[^;\s]`, the colour value's character class. */
  predicate ValueChar(c: char)
  {
    c != ';' && !IsSpace(c)
  }

  /** The end of the run of value characters starting at `i`. */
  function ValueEnd(s: string, i: nat): (e: nat)
    requires i <= |s|
    ensures i <= e <= |s|
    ensures forall k :: i <= k < e ==> ValueChar(s[k])
    ensures e == |s| || !ValueChar(s[e])
    decreases |s| - i
  {
    if i < |s| && ValueChar(s[i]) then ValueEnd(s, i + 1) else i
  }

  /** The value captured by `re.match("color:\s*#?(?P<color_value>[^;\s]+)", s)`.
      The match is anchored at the start of `s`; `#?` is greedy, so a `#` is
      dropped when a value character follows it and kept as the value otherwise. */
  function ColorValue(s: string): Option<string>
  {
    if !StartsWith(s, "color:") then None
    else
      var j := SkipSpaces(s, 6);
      var k := if j + 1 < |s| && s[j] == '#' && ValueChar(s[j + 1]) then j + 1 else j;
      var e := ValueEnd(s, k);
      if e == k then None else Some(s[k..e])
  }

  /** `color:`, spaces up to `j`, an optional `#` up to `k`, and a maximal
      run of value characters from `k` to `e`: a string the anchored
      pattern accepts, written out. */
  ghost predicate ColorShape(s: string, j: int, k: int, e: int)
  {
    && StartsWith(s, "color:") && 6 <= j <= k < e <= |s|
    && (forall i :: 6 <= i < j ==> IsSpace(s[i]))
    && (k == j || (k == j + 1 && s[j] == '#'))
    && (forall i :: k <= i < e ==> ValueChar(s[i]))
    && (e == |s| || !ValueChar(s[e]))
  }

  /** What is recognised has that shape. */
  lemma ColorValueSound(s: string)
    ensures ColorValue(s).Some? <==>
      StartsWith(s, "color:") && SkipSpaces(s, 6) < |s| && ValueChar(s[SkipSpaces(s, 6)])
    ensures ColorValue(s).Some? ==>
      exists k, e :: ColorShape(s, SkipSpaces(s, 6), k, e) && ColorValue(s).value == s[k..e]
  {
    if ColorValue(s).Some? {
      var j := SkipSpaces(s, 6);
      var k := if j + 1 < |s| && s[j] == '#' && ValueChar(s[j + 1]) then j + 1 else j;
      var e := ValueEnd(s, k);
      SkipSpacesBlank(s, 6);
      assert ColorShape(s, j, k, e);
    }
  }

  /** Conversely every string of that shape yields its value; a `#` that a
      value character follows is never part of the value. */
  lemma ColorValueComplete(s: string, j: int, k: int, e: int)
    requires ColorShape(s, j, k, e)
    requires k == j + 1 || s[j] != '#' || e == j + 1
    ensures ColorValue(s) == Some(s[k..e])
  {
    SkipSpacesStops(s, 6, j - 6);
    ValueRunStops(s, k, e - k);
  }

  lemma {:induction false} ValueRunStops(s: string, i: nat, n: nat)
    requires i + n <= |s|
    requires forall k :: i <= k < i + n ==> ValueChar(s[k])
    requires i + n == |s| || !ValueChar(s[i + n])
    ensures ValueEnd(s, i) == i + n
    decreases n
  {
    if n > 0 {
      ValueRunStops(s, i + 1, n - 1);
    }
  }

  /** `key\s*val` at position `i`: the pattern of the searched rules. */
  predicate DeclAt(s: string, i: int, key: string, val: string)
  {
    OccursAt(s, i, key) && OccursAt(s, SkipSpaces(s, i + |key|), val)
  }

  /** `re.search(key + "\s*" + val, s)` at or after `from`. */
  function FindDecl(s: string, key: string, val: string, from: nat): (found: bool)
    requires from <= |s|
    ensures found <==> exists i :: from <= i <= |s| && DeclAt(s, i, key, val)
    decreases |s| - from
  {
    if from == |s| then DeclAt(s, from, key, val)
    else DeclAt(s, from, key, val) || FindDecl(s, key, val, from + 1)
  }

  predicate NoSemicolon(s: string, i: int, j: int)
    requires 0 <= i <= j <= |s|
  {
    forall k :: i <= k < j ==> s[k] != ';'
  }

  predicate MonospaceNameAt(s: string, j: int)
  {
    OccursAt(s, j, "courier new") || OccursAt(s, j, "monospace")
  }

  /** `[^;]*(courier new|monospace)` starting at `j`. */
  function FindMonospaceName(s: string, j: nat): (found: bool)
    requires j <= |s|
    ensures found <==> exists m :: j <= m <= |s| && NoSemicolon(s, j, m) && MonospaceNameAt(s, m)
    decreases |s| - j
  {
    if MonospaceNameAt(s, j) then true
    else if j == |s| || s[j] == ';' then false
    else FindMonospaceName(s, j + 1)
  }

  /** `font-family:[^;]*(courier new|monospace)` at position `i`. */
  predicate FamilyAt(s: string, i: int)
  {
    OccursAt(s, i, "font-family:") && FindMonospaceName(s, i + 12)
  }

  /** `re.search("font-family:[^;]*(courier new|monospace)", s)` at or after `from`. */
  function FindFamily(s: string, from: nat): (found: bool)
    requires from <= |s|
    ensures found <==> exists i :: from <= i <= |s| && FamilyAt(s, i)
    decreases |s| - from
  {
    if from == |s| then FamilyAt(s, from)
    else FamilyAt(s, from) || FindFamily(s, from + 1)
  }

  /** `re.search(key + "\s*" + val, l)` succeeds. */
  ghost predicate HasDecl(l: string, key: string, val: string)
  {
    exists i :: 0 <= i <= |l| && DeclAt(l, i, key, val)
  }

  /** `re.search("font-family:[^;]*(courier new|monospace)", l)` succeeds. */
  ghost predicate HasFamily(l: string)
  {
    exists i :: 0 <= i <= |l| && FamilyAt(l, i)
  }

  /** The seven fixed class names, in the order their rules are tried. */
  const FixedNames: seq<string> := ["monospace", "larger", "smaller", "italic", "strong", "center", "underline"]

  /** What the rule for a fixed class name looks for. */
  ghost predicate RuleHolds(l: string, name: string)
  {
    match name
    case "monospace" => HasFamily(l)
    case "larger" => HasDecl(l, "font-size:", "larger")
    case "smaller" => HasDecl(l, "font-size:", "smaller")
    case "italic" => HasDecl(l, "font-style:", "italic")
    case "strong" => HasDecl(l, "font-weight:", "bold")
    case "center" => HasDecl(l, "text-align:", "center")
    case "underline" => HasDecl(l, "text-decoration:", "underline")
    case _ => false
  }

  /** The same rule, run as a scan. */
  function RuleFires(l: string, name: string): (b: bool)
    ensures b <==> RuleHolds(l, name)
  {
    match name
    case "monospace" => FindFamily(l, 0)
    case "larger" => FindDecl(l, "font-size:", "larger", 0)
    case "smaller" => FindDecl(l, "font-size:", "smaller", 0)
    case "italic" => FindDecl(l, "font-style:", "italic", 0)
    case "strong" => FindDecl(l, "font-weight:", "bold", 0)
    case "center" => FindDecl(l, "text-align:", "center", 0)
    case "underline" => FindDecl(l, "text-decoration:", "underline", 0)
    case _ => false
  }

  /** What the rules of the classifier recognise in the lower-cased style. */
  ghost predicate Recognises(l: string, cls: string)
  {
    || (ColorValue(l).Some? && cls == ColorClassPrefix + ColorValue(l).value)
    || (cls in FixedNames && RuleHolds(l, cls))
  }

  predicate NoDuplicates(xs: seq<string>)
  {
    forall i, j :: 0 <= i < j < |xs| ==> xs[i] != xs[j]
  }

  /** The names whose rule fires, in table order. */
  function Firing(l: string, names: seq<string>): (r: seq<string>)
    ensures forall c :: c in r <==> c in names && RuleFires(l, c)
    ensures NoDuplicates(names) ==> NoDuplicates(r)
  {
    if names == [] then []
    else
      var init, last := names[..|names| - 1], names[|names| - 1];
      var r := Firing(l, init);
      assert names == init + [last];
      if RuleFires(l, last) then r + [last] else r
  }

  lemma FixedNamesFacts(v: string)
    ensures NoDuplicates(FixedNames)
    ensures ColorClassPrefix + v !in FixedNames
  {
    assert (ColorClassPrefix + v)[0] == '_';
  }

  /** No fixed class name looks like a colour class. */
  lemma FixedNamesNotColor(c: string)
    requires c in FixedNames
    ensures !StartsWith(c, ColorClassPrefix)
  {
    assert c[0] != '_';
  }

  /** `_transform_style_to_classes`: the classes a `style` attribute implies.
      The source builds a set; the model lists its members, once each, in
      the order the rules are tried. */
  function StyleToClasses(style: string): (r: seq<string>)
    ensures NoDuplicates(r)
    ensures ColorValue(Lower(style)).Some? ==>
      r != [] && r[0] == ColorClassPrefix + ColorValue(Lower(style)).value &&
      forall c :: c in r[1..] ==> c in FixedNames
    ensures ColorValue(Lower(style)).None? ==> forall c :: c in r ==> c in FixedNames
  {
    var l := Lower(style);
    var color := ColorValue(l);
    FixedNamesFacts(if color.Some? then color.value else "");
    var fixed := Firing(l, FixedNames);
    if color.Some? then
      assert StartsWith(ColorClassPrefix + color.value, ColorClassPrefix);
      [ColorClassPrefix + color.value] + fixed
    else fixed
  }

  /** A class is produced exactly when one of the rules recognises it. */
  lemma StyleClassMembership(style: string, c: string)
    ensures c in StyleToClasses(style) <==> Recognises(Lower(style), c)
  {
    var l := Lower(style);
    if ColorValue(l).Some? {
      FixedNamesFacts(ColorValue(l).value);
    }
  }

  /** A style none of whose rules fire yields no class. */
  lemma UnrecognisedStyle(style: string)
    requires forall c :: !Recognises(Lower(style), c)
    ensures StyleToClasses(style) == []
  {
    var r := StyleToClasses(style);
    if r != [] {
      StyleClassMembership(style, r[0]);
    }
  }

  /** `color: #RRGGBB` yields exactly one colour class, carrying the value
      lower-cased and without its `#`. */
  lemma HexColorClass(style: string, j: int, e: int)
    requires ColorShape(Lower(style), j, j + 1, e)
    ensures ColorClassPrefix + Lower(style)[j + 1..e] in StyleToClasses(style)
    ensures forall c :: c in StyleToClasses(style) && StartsWith(c, ColorClassPrefix) ==>
      c == ColorClassPrefix + Lower(style)[j + 1..e]
  {
    ColorValueComplete(Lower(style), j, j + 1, e);
    ColorClassOnly(style);
  }

  /** A recognised colour gives the only class with the colour prefix. */
  lemma ColorClassOnly(style: string)
    requires ColorValue(Lower(style)).Some?
    ensures forall c :: c in StyleToClasses(style) && StartsWith(c, ColorClassPrefix) ==>
      c == ColorClassPrefix + ColorValue(Lower(style)).value
  {
    var r := StyleToClasses(style);
    forall c | c in r && StartsWith(c, ColorClassPrefix)
      ensures c == ColorClassPrefix + ColorValue(Lower(style)).value
    {
      if c != r[0] {
        assert c in r[1..];
        FixedNamesNotColor(c);
      }
    }
  }

  // ---------------------------------------------------------------------
  // The normaliser, over a minimal HTML element tree.

  /** An HTML node as BeautifulSoup presents it: an element with its tag
      name, its `class` list and its `style` attribute (`""` when absent). */
  datatype Html =
    | Text(text: string)
    | Element(name: string, classes: seq<string>, style: string, children: seq<Html>)

  /** `set(a) | set(b)` listed without duplicates. */
  function Union(a: seq<string>, b: seq<string>): (r: seq<string>)
    ensures forall c :: c in r <==> c in a || c in b
    ensures NoDuplicates(r)
    decreases |a| + |b|
  {
    if b != [] then
      var r := Union(a, b[..|b| - 1]);
      if b[|b| - 1] in r then r else r + [b[|b| - 1]]
    else if a != [] then
      var r := Union(a[..|a| - 1], []);
      if a[|a| - 1] in r then r else r + [a[|a| - 1]]
    else []
  }

  predicate IsBlockTag(name: string)
  {
    name == "p" || name == "blockquote"
  }

  /** One node with its descendants normalised: a `p`/`blockquote` carrying
      a class or a style is wrapped in a `div` holding the merged classes
      when that union is non-empty; a styled `span` gets the merged classes
      as its own. */
  function NormaliseNode(n: Html): (r: Html)
    ensures n.Text? ==> r == n
  {
    match n
    case Text(_) => n
    case Element(name, cls, st, ch) =>
      var ch' := NormaliseChildren(ch);
      if IsBlockTag(name) && (cls != [] || st != "") then
        var merged := Union(cls, StyleToClasses(st));
        if merged != [] then Element("div", merged, "", [Element(name, cls, st, ch')])
        else Element(name, cls, st, ch')
      else if name == "span" && st != "" then
        Element(name, Union(cls, StyleToClasses(st)), st, ch')
      else Element(name, cls, st, ch')
  }

  function NormaliseChildren(ch: seq<Html>): (r: seq<Html>)
    ensures |r| == |ch|
  {
    if ch == [] then [] else NormaliseChildren(ch[..|ch| - 1]) + [NormaliseNode(ch[|ch| - 1])]
  }

  /** `_transform_html_tag_class_info(soup, tag)`: the descendants of `tag`
      are normalised, `tag` itself is left as it is. */
  function TransformHtmlTagClassInfo(tag: Html): Html
  {
    match tag
    case Text(_) => tag
    case Element(name, cls, st, ch) => Element(name, cls, st, NormaliseChildren(ch))
  }

  /** The classes a `p`/`blockquote` element would bring into the tree. */
  function DerivedClasses(n: Html): seq<string>
    requires n.Element?
  {
    Union(n.classes, StyleToClasses(n.style))
  }

  /** A wrapping `div` appears exactly for `p`/`blockquote` elements whose
      classes and derived classes are not both empty. */
  lemma WrapExactlyWhenClassified(n: Html)
    requires n.Element?
    ensures NormaliseNode(n).name != n.name <==>
      IsBlockTag(n.name) && (n.classes != [] || StyleToClasses(n.style) != [])
  {
    var derived := StyleToClasses(n.style);
    if n.style == "" {
      forall c ensures !Recognises(Lower(n.style), c) {
        NothingRecognisedInEmpty(c);
      }
      UnrecognisedStyle(n.style);
    }
    if n.classes != [] {
      assert n.classes[0] in Union(n.classes, derived);
    } else if derived != [] {
      assert derived[0] in Union(n.classes, derived);
    }
  }

  /** The wrapping `div` carries the union of both class lists and holds
      the element itself, with its own attributes. */
  lemma WrapperContents(n: Html)
    requires n.Element? && NormaliseNode(n).name != n.name
    ensures NormaliseNode(n).name == "div"
    ensures forall c :: c in NormaliseNode(n).classes <==> c in n.classes || c in StyleToClasses(n.style)
    ensures |NormaliseNode(n).children| == 1
    ensures NormaliseNode(n).children[0] == n.(children := NormaliseChildren(n.children))
  {
  }

  lemma NothingRecognisedInEmpty(c: string)
    ensures !Recognises([], c)
  {
    assert !StartsWith([], "color:");
    forall i | 0 <= i <= 0 ensures !FamilyAt([], i) && !OccursAt([], i, "font-size:") {
    }
  }

  /** A styled span keeps its tag and gains its derived classes. */
  lemma SpanClassesMerged(n: Html)
    requires n.Element? && n.name == "span" && n.style != ""
    ensures NormaliseNode(n).name == "span"
    ensures forall c :: c in NormaliseNode(n).classes <==> c in n.classes || c in StyleToClasses(n.style)
  {
  }

  /** The text of a node, in document order. */
  function TextOf(n: Html): string
  {
    match n
    case Text(t) => t
    case Element(_, _, _, ch) => TextOfAll(ch)
  }

  function TextOfAll(ch: seq<Html>): string
  {
    if ch == [] then [] else TextOfAll(ch[..|ch| - 1]) + TextOf(ch[|ch| - 1])
  }

  /** Normalising never changes the text of the document. */
  lemma {:induction false} NormalisePreservesText(n: Html)
    ensures TextOf(NormaliseNode(n)) == TextOf(n)
  {
    match n
    case Text(_) =>
    case Element(name, cls, st, ch) =>
      NormaliseChildrenPreservesText(ch);
      var inner := Element(name, cls, st, NormaliseChildren(ch));
      assert TextOfAll([inner]) == TextOfAll([]) + TextOf(inner);
  }

  lemma {:induction false} NormaliseChildrenPreservesText(ch: seq<Html>)
    ensures TextOfAll(NormaliseChildren(ch)) == TextOfAll(ch)
  {
    if ch != [] {
      var r := NormaliseChildren(ch);
      NormaliseChildrenPreservesText(ch[..|ch| - 1]);
      NormalisePreservesText(ch[|ch| - 1]);
      assert r[..|r| - 1] == NormaliseChildren(ch[..|ch| - 1]);
    }
  }
}
