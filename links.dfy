/** The link scanner of the builder: `\includegraphics` paths and `\href`
    targets found in generated LaTeX, and how a target is classified. */
module Links {
  import opened Wrappers
  import opened StringUtil
  import opened Scan

  // ---------------------------------------------------------------------
  // `{(...)[^}]+}`: a non-empty braced argument without a closing brace.

  /** A braced argument at `b`: the index after its closing brace and its
      contents. */
  function BracedAt(u: string, b: nat): (r: Option<(nat, string)>)
    ensures r.Some? ==> b < r.value.0 <= |u|
  {
    if b < |u| && u[b] == '{' then
      var c := FindChar(u, b + 1, '}');
      if b + 1 < c < |u| then Some((c + 1, u[b + 1..c])) else None
    else None
  }

  /** A string that can stand between the braces. */
  predicate BraceFree(s: string)
  {
    s != [] && '}' !in s
  }

  lemma BracedRoundTrip(a: string, s: string, rest: string)
    requires BraceFree(s)
    ensures BracedAt(a + "{" + s + "}" + rest, |a|) == Some((|a| + |s| + 2, s))
  {
    var u := a + "{" + s + "}" + rest;
    var b := |a|;
    assert u[b + 1..b + 1 + |s|] == s;
    forall k | b + 1 <= k < b + 1 + |s|
      ensures u[k] != '}'
    {
      assert u[k] == s[k - b - 1];
    }
    assert u[b + 1 + |s|] == '}';
    FindCharStops(u, b + 1, '}', b + 1 + |s|);
  }

  lemma {:induction false} FindCharStops(u: string, i: nat, c: char, j: nat)
    requires i <= j < |u| && u[j] == c
    requires forall k :: i <= k < j ==> u[k] != c
    ensures FindChar(u, i, c) == j
    decreases j - i
  {
    if i < j {
      FindCharStops(u, i + 1, c, j);
    }
  }

  lemma BracedShape(u: string, b: nat)
    requires BracedAt(u, b).Some?
    ensures BraceFree(BracedAt(u, b).value.1)
    ensures u[b..BracedAt(u, b).value.0] == "{" + BracedAt(u, b).value.1 + "}"
  {
    var c := FindChar(u, b + 1, '}');
    var s := u[b + 1..c];
    forall k | 0 <= k < |s|
      ensures s[k] != '}'
    {
      assert s[k] == u[b + 1 + k];
    }
  }

  // ---------------------------------------------------------------------
  // `\\includegraphics(\[(?P<options>[^\]]*)\])?{(?P<path>[^}]+)}`.

  const GraphicsCommand := @"\includegraphics"

  /** The options in brackets, if any, and the path. */
  datatype Graphics = Graphics(options: Option<string>, path: string)

  /** The command matched at `i`: the options bracket is tried first and,
      as the next character decides between the two, the only one that
      can apply. */
  function GraphicsAt(u: string, i: nat): (r: Option<(nat, Graphics)>)
    ensures r.Some? ==> i < r.value.0 <= |u|
  {
    if !OccursAt(u, i, GraphicsCommand) then None
    else
      var k := i + |GraphicsCommand|;
      if k < |u| && u[k] == '[' then
        var c := FindChar(u, k + 1, ']');
        var b := if c < |u| then BracedAt(u, c + 1) else None;
        if b.Some? then Some((b.value.0, Graphics(Some(u[k + 1..c]), b.value.1))) else None
      else
        var b := BracedAt(u, k);
        if b.Some? then Some((b.value.0, Graphics(None, b.value.1))) else None
  }

  /** The command as written for given options and path. */
  function GraphicsText(g: Graphics): string
  {
    GraphicsCommand + (if g.options.Some? then "[" + g.options.value + "]" else "") + "{" + g.path + "}"
  }

  /** What the pattern can capture. */
  predicate ValidGraphics(g: Graphics)
  {
    BraceFree(g.path) && (g.options.Some? ==> ']' !in g.options.value)
  }

  /** A command written out is matched whole, wherever it stands and
      whatever follows it. */
  lemma GraphicsRoundTrip(u: string, i: nat, g: Graphics)
    requires ValidGraphics(g) && OccursAt(u, i, GraphicsText(g))
    ensures GraphicsAt(u, i) == Some((i + |GraphicsText(g)|, g))
  {
    if g.options.Some? {
      GraphicsRoundTripWith(u, i, g.options.value, g.path);
    } else {
      GraphicsRoundTripWithout(u, i, g.path);
    }
  }

  lemma GraphicsRoundTripWith(u: string, i: nat, o: string, p: string)
    requires ']' !in o && BraceFree(p)
    requires OccursAt(u, i, GraphicsText(Graphics(Some(o), p)))
    ensures GraphicsAt(u, i) == Some((i + |GraphicsText(Graphics(Some(o), p))|, Graphics(Some(o), p)))
  {
    var t := GraphicsText(Graphics(Some(o), p));
    WithLayout(o, p);
    WithTransfer(u, i, t, o, p);
    GraphicsWithAt(u, i, o, p);
  }

  /** Where each part of a command with options lies in its text. */
  lemma WithLayout(o: string, p: string)
    ensures var t, n := GraphicsText(Graphics(Some(o), p)), |GraphicsCommand|;
      && |t| == n + |o| + |p| + 4
      && t[0..n] == GraphicsCommand && t[n] == '[' && t[n + 1..n + 1 + |o|] == o && t[n + 1 + |o|] == ']'
      && t[n + 2 + |o|] == '{' && t[n + 3 + |o|..n + 3 + |o| + |p|] == p && t[n + 3 + |o| + |p|] == '}'
  {
    var t, n := GraphicsText(Graphics(Some(o), p)), |GraphicsCommand|;
    assert t == GraphicsCommand + "[" + o + "]" + "{" + p + "}";
  }

  /** The parts of a command with options, found where it occurs. */
  lemma WithTransfer(u: string, i: nat, t: string, o: string, p: string)
    requires OccursAt(u, i, t)
    requires var n := |GraphicsCommand|;
      && |t| == n + |o| + |p| + 4
      && t[0..n] == GraphicsCommand && t[n] == '[' && t[n + 1..n + 1 + |o|] == o && t[n + 1 + |o|] == ']'
      && t[n + 2 + |o|] == '{' && t[n + 3 + |o|..n + 3 + |o| + |p|] == p && t[n + 3 + |o| + |p|] == '}'
    ensures var k := i + |GraphicsCommand|;
      && k + |o| + |p| + 4 <= |u|
      && OccursAt(u, i, GraphicsCommand) && u[k] == '[' && u[k + 1..k + 1 + |o|] == o && u[k + 1 + |o|] == ']'
      && u[k + 2 + |o|] == '{' && u[k + 3 + |o|..k + 3 + |o| + |p|] == p && u[k + 3 + |o| + |p|] == '}'
  {
    var n := |GraphicsCommand|;
    OccursPiece(u, i, t, 0, n);
    OccursChar(u, i, t, n);
    OccursPiece(u, i, t, n + 1, n + 1 + |o|);
    OccursChar(u, i, t, n + 1 + |o|);
    OccursChar(u, i, t, n + 2 + |o|);
    OccursPiece(u, i, t, n + 3 + |o|, n + 3 + |o| + |p|);
    OccursChar(u, i, t, n + 3 + |o| + |p|);
  }

  /** A command with options, recognised from where its parts lie. */
  lemma GraphicsWithAt(u: string, i: nat, o: string, p: string)
    requires ']' !in o && BraceFree(p)
    requires var k := i + |GraphicsCommand|;
      && k + |o| + |p| + 4 <= |u|
      && OccursAt(u, i, GraphicsCommand) && u[k] == '[' && u[k + 1..k + 1 + |o|] == o && u[k + 1 + |o|] == ']'
      && u[k + 2 + |o|] == '{' && u[k + 3 + |o|..k + 3 + |o| + |p|] == p && u[k + 3 + |o| + |p|] == '}'
    ensures GraphicsAt(u, i) == Some((i + |GraphicsCommand| + |o| + |p| + 4, Graphics(Some(o), p)))
  {
    var k := i + |GraphicsCommand|;
    ClosingBracket(u, k + 1, o);
    BracedAtSlice(u, k + 2 + |o|, p);
    GraphicsAtWith(u, i, o, k + |o| + |p| + 4, p);
  }

  lemma GraphicsAtWith(u: string, i: nat, o: string, e: nat, p: string)
    requires OccursAt(u, i, GraphicsCommand)
    requires i + |GraphicsCommand| + |o| + 1 < |u| && u[i + |GraphicsCommand|] == '['
    requires FindChar(u, i + |GraphicsCommand| + 1, ']') == i + |GraphicsCommand| + 1 + |o|
    requires u[i + |GraphicsCommand| + 1..i + |GraphicsCommand| + 1 + |o|] == o
    requires BracedAt(u, i + |GraphicsCommand| + |o| + 2) == Some((e, p))
    ensures GraphicsAt(u, i) == Some((e, Graphics(Some(o), p)))
  {
  }

  /** A braced argument found by position. */
  lemma BracedAtSlice(u: string, b: nat, s: string)
    requires BraceFree(s) && b + |s| + 1 < |u|
    requires u[b] == '{' && u[b + 1..b + 1 + |s|] == s && u[b + 1 + |s|] == '}'
    ensures BracedAt(u, b) == Some((b + |s| + 2, s))
  {
    forall q | b + 1 <= q < b + 1 + |s|
      ensures u[q] != '}'
    {
      assert u[q] == s[q - b - 1];
    }
    FindCharStops(u, b + 1, '}', b + 1 + |s|);
  }

  lemma ClosingBracket(u: string, k: nat, o: string)
    requires k + |o| < |u| && u[k..k + |o|] == o && u[k + |o|] == ']' && ']' !in o
    ensures FindChar(u, k, ']') == k + |o|
  {
    forall q | k <= q < k + |o|
      ensures u[q] != ']'
    {
      assert u[q] == o[q - k];
    }
    FindCharStops(u, k, ']', k + |o|);
  }

  lemma GraphicsRoundTripWithout(u: string, i: nat, p: string)
    requires BraceFree(p)
    requires OccursAt(u, i, GraphicsText(Graphics(None, p)))
    ensures GraphicsAt(u, i) == Some((i + |GraphicsText(Graphics(None, p))|, Graphics(None, p)))
  {
    var t := GraphicsText(Graphics(None, p));
    var n := |GraphicsCommand|;
    assert t == GraphicsCommand + "{" + p + "}";
    assert t[..n] == GraphicsCommand && t[n] == '{' && t[n + 1 + |p|] == '}';
    assert t[n + 1..n + 1 + |p|] == p;
    OccursPiece(u, i, t, 0, n);
    OccursChar(u, i, t, n);
    OccursPiece(u, i, t, n + 1, n + 1 + |p|);
    OccursChar(u, i, t, n + 1 + |p|);
    BracedAtSlice(u, i + n, p);
  }

  /** Every match is a command written out from what it captured. */
  lemma GraphicsShape(u: string, i: nat)
    requires GraphicsAt(u, i).Some?
    ensures ValidGraphics(GraphicsAt(u, i).value.1)
    ensures u[i..GraphicsAt(u, i).value.0] == GraphicsText(GraphicsAt(u, i).value.1)
  {
    GraphicsValid(u, i);
    if i + |GraphicsCommand| < |u| && u[i + |GraphicsCommand|] == '[' {
      GraphicsShapeWith(u, i);
    } else {
      GraphicsShapeWithout(u, i);
    }
  }

  lemma GraphicsValid(u: string, i: nat)
    requires GraphicsAt(u, i).Some?
    ensures ValidGraphics(GraphicsAt(u, i).value.1)
  {
    var k := i + |GraphicsCommand|;
    if k < |u| && u[k] == '[' {
      var c := FindChar(u, k + 1, ']');
      BracedShape(u, c + 1);
      OptionsShape(u, k, c);
    } else {
      BracedShape(u, k);
    }
  }

  lemma GraphicsShapeWith(u: string, i: nat)
    requires GraphicsAt(u, i).Some?
    requires i + |GraphicsCommand| < |u| && u[i + |GraphicsCommand|] == '['
    ensures u[i..GraphicsAt(u, i).value.0] == GraphicsText(GraphicsAt(u, i).value.1)
  {
    var k := i + |GraphicsCommand|;
    var e := GraphicsAt(u, i).value.0;
    var c := FindChar(u, k + 1, ']');
    BracedShape(u, c + 1);
    OptionsShape(u, k, c);
    Join3(u, i, k, c + 1, e);
  }

  lemma GraphicsShapeWithout(u: string, i: nat)
    requires GraphicsAt(u, i).Some?
    requires !(i + |GraphicsCommand| < |u| && u[i + |GraphicsCommand|] == '[')
    ensures u[i..GraphicsAt(u, i).value.0] == GraphicsText(GraphicsAt(u, i).value.1)
  {
    var k := i + |GraphicsCommand|;
    BracedShape(u, k);
    assert u[i..GraphicsAt(u, i).value.0] == u[i..k] + u[k..GraphicsAt(u, i).value.0];
  }

  /** `\[[^\]]*\]` from `k` to `c`. */
  lemma OptionsShape(u: string, k: nat, c: nat)
    requires k < c < |u| && u[k] == '[' && FindChar(u, k + 1, ']') == c
    ensures ']' !in u[k + 1..c]
    ensures u[k..c + 1] == "[" + u[k + 1..c] + "]"
  {
    var o := u[k + 1..c];
    forall q | 0 <= q < |o|
      ensures o[q] != ']'
    {
      assert o[q] == u[k + 1 + q];
    }
  }

  lemma Join3(u: string, i: nat, k: nat, j: nat, e: nat)
    requires i <= k <= j <= e <= |u|
    ensures u[i..e] == u[i..k] + u[k..j] + u[j..e]
  {
  }

  // ---------------------------------------------------------------------
  // `\\href{(?P<href_target>[^}]+)}{(?P<href_label>[^}]+)}`.

  const HrefCommand := @"\href"

  datatype Href = Href(target: string, caption: string)

  function HrefAt(u: string, i: nat): (r: Option<(nat, Href)>)
    ensures r.Some? ==> i < r.value.0 <= |u|
  {
    if !OccursAt(u, i, HrefCommand) then None
    else
      var t := BracedAt(u, i + |HrefCommand|);
      var l := if t.Some? then BracedAt(u, t.value.0) else None;
      if l.Some? then Some((l.value.0, Href(t.value.1, l.value.1))) else None
  }

  function HrefText(h: Href): string
  {
    HrefCommand + "{" + h.target + "}{" + h.caption + "}"
  }

  /** A link written out is matched whole, wherever it stands and
      whatever follows it. */
  lemma HrefRoundTrip(u: string, i: nat, h: Href)
    requires BraceFree(h.target) && BraceFree(h.caption)
    requires OccursAt(u, i, HrefText(h))
    ensures HrefAt(u, i) == Some((i + |HrefText(h)|, h))
  {
    HrefLayout(h.target, h.caption);
    HrefTransfer(u, i, HrefText(h), h.target, h.caption);
    HrefWithAt(u, i, h.target, h.caption);
  }

  /** Where each part of a link lies in its text. */
  lemma HrefLayout(p: string, l: string)
    ensures var t, n := HrefText(Href(p, l)), |HrefCommand|;
      && |t| == n + |p| + |l| + 4
      && t[0..n] == HrefCommand && t[n] == '{' && t[n + 1..n + 1 + |p|] == p && t[n + 1 + |p|] == '}'
      && t[n + 2 + |p|] == '{' && t[n + 3 + |p|..n + 3 + |p| + |l|] == l && t[n + 3 + |p| + |l|] == '}'
  {
    var t := HrefText(Href(p, l));
    assert t == HrefCommand + "{" + p + "}" + "{" + l + "}";
  }

  /** The parts of a link, found where it occurs. */
  lemma HrefTransfer(u: string, i: nat, t: string, p: string, l: string)
    requires OccursAt(u, i, t)
    requires var n := |HrefCommand|;
      && |t| == n + |p| + |l| + 4
      && t[0..n] == HrefCommand && t[n] == '{' && t[n + 1..n + 1 + |p|] == p && t[n + 1 + |p|] == '}'
      && t[n + 2 + |p|] == '{' && t[n + 3 + |p|..n + 3 + |p| + |l|] == l && t[n + 3 + |p| + |l|] == '}'
    ensures var k := i + |HrefCommand|;
      && k + |p| + |l| + 4 <= |u|
      && OccursAt(u, i, HrefCommand) && u[k] == '{' && u[k + 1..k + 1 + |p|] == p && u[k + 1 + |p|] == '}'
      && u[k + 2 + |p|] == '{' && u[k + 3 + |p|..k + 3 + |p| + |l|] == l && u[k + 3 + |p| + |l|] == '}'
  {
    var n := |HrefCommand|;
    OccursPiece(u, i, t, 0, n);
    OccursChar(u, i, t, n);
    OccursPiece(u, i, t, n + 1, n + 1 + |p|);
    OccursChar(u, i, t, n + 1 + |p|);
    OccursChar(u, i, t, n + 2 + |p|);
    OccursPiece(u, i, t, n + 3 + |p|, n + 3 + |p| + |l|);
    OccursChar(u, i, t, n + 3 + |p| + |l|);
  }

  /** A link recognised from where its parts lie. */
  lemma HrefWithAt(u: string, i: nat, p: string, l: string)
    requires BraceFree(p) && BraceFree(l)
    requires var k := i + |HrefCommand|;
      && k + |p| + |l| + 4 <= |u|
      && OccursAt(u, i, HrefCommand) && u[k] == '{' && u[k + 1..k + 1 + |p|] == p && u[k + 1 + |p|] == '}'
      && u[k + 2 + |p|] == '{' && u[k + 3 + |p|..k + 3 + |p| + |l|] == l && u[k + 3 + |p| + |l|] == '}'
    ensures HrefAt(u, i) == Some((i + |HrefCommand| + |p| + |l| + 4, Href(p, l)))
  {
    var k := i + |HrefCommand|;
    BracedAtSlice(u, k, p);
    BracedAtSlice(u, k + 2 + |p|, l);
  }

  /** Every match is a link written out from what it captured. */
  lemma HrefShape(u: string, i: nat)
    requires HrefAt(u, i).Some?
    ensures BraceFree(HrefAt(u, i).value.1.target) && BraceFree(HrefAt(u, i).value.1.caption)
    ensures u[i..HrefAt(u, i).value.0] == HrefText(HrefAt(u, i).value.1)
  {
    var k := i + |HrefCommand|;
    var e1 := BracedAt(u, k).value.0;
    var e2 := HrefAt(u, i).value.0;
    BracedShape(u, k);
    BracedShape(u, e1);
    assert u[i..e2] == u[i..k] + u[k..e1] + u[e1..e2];
  }

  // ---------------------------------------------------------------------
  // Classification and the scanner's results.

  /** Which set an `\href` target goes to. */
  datatype LinkKind = Embedded | About | Untracked

  /** `.txt` files are embedded, `about=` pages are appendix pages; the
      `.txt` test comes first. */
  function Classify(target: string): LinkKind
  {
    if EndsWith(target, ".txt") then Embedded
    else if StartsWith(target, "about=") then About
    else Untracked
  }

  /** The paths of the `\includegraphics` commands `re.finditer` finds. */
  function GraphicsPaths(u: string): set<string>
  {
    set x | x in FindAll(GraphicsAt, u, 0) :: x.groups.path
  }

  /** The targets of kind `kind` among the `\href`s `re.finditer` finds. */
  function HrefTargets(u: string, kind: LinkKind): set<string>
  {
    set x | x in FindAll(HrefAt, u, 0) && Classify(x.groups.target) == kind :: x.groups.target
  }

  /** Every path recorded is the path of an `\includegraphics` in the text. */
  lemma GraphicsPathsSound(u: string, p: string)
    requires p in GraphicsPaths(u)
    ensures exists j, o :: 0 <= j < |u| && OccursAt(u, j, GraphicsText(Graphics(o, p)))
  {
    var xs := FindAll(GraphicsAt, u, 0);
    var x :| x in xs && x.groups.path == p;
    FindAllSound(GraphicsAt, u, 0);
    GraphicsFound(u, x.start, x.end, x.groups);
  }

  lemma GraphicsFound(u: string, j: nat, e: nat, g: Graphics)
    requires GraphicsAt(u, j) == Some((e, g))
    ensures 0 <= j < |u| && OccursAt(u, j, GraphicsText(Graphics(g.options, g.path)))
  {
    GraphicsShape(u, j);
  }

  /** Every `\includegraphics` command in the text has its path recorded,
      unless it starts inside an earlier command the scanner matched. */
  lemma GraphicsPathsComplete(u: string, j: nat)
    requires j <= |u| && GraphicsAt(u, j).Some?
    ensures GraphicsAt(u, j).value.1.path in GraphicsPaths(u)
      || exists x :: x in FindAll(GraphicsAt, u, 0) && x.start < j < x.end
  {
    FindAllComplete(GraphicsAt, u, 0, j);
  }

  /** Every target recorded under `kind` is the target of an `\href` in the
      text and is classified as `kind`. */
  lemma HrefTargetsSound(u: string, kind: LinkKind, t: string)
    requires t in HrefTargets(u, kind)
    ensures Classify(t) == kind
    ensures exists j, l :: 0 <= j < |u| && OccursAt(u, j, HrefText(Href(t, l)))
  {
    var xs := FindAll(HrefAt, u, 0);
    var x :| x in xs && Classify(x.groups.target) == kind && x.groups.target == t;
    FindAllSound(HrefAt, u, 0);
    HrefFound(u, x.start, x.end, x.groups);
  }

  lemma HrefFound(u: string, j: nat, e: nat, h: Href)
    requires HrefAt(u, j) == Some((e, h))
    ensures 0 <= j < |u| && OccursAt(u, j, HrefText(h))
  {
    HrefShape(u, j);
  }

  /** Every `\href` in the text has its target recorded under its kind,
      unless it starts inside an earlier link the scanner matched. */
  lemma HrefTargetsComplete(u: string, j: nat)
    requires j <= |u| && HrefAt(u, j).Some?
    ensures var t := HrefAt(u, j).value.1.target;
      t in HrefTargets(u, Classify(t)) || exists x :: x in FindAll(HrefAt, u, 0) && x.start < j < x.end
  {
    FindAllComplete(HrefAt, u, 0, j);
  }

  /** No target is recorded in two sets. */
  lemma KindsDisjoint(u: string, k1: LinkKind, k2: LinkKind)
    requires k1 != k2
    ensures HrefTargets(u, k1) * HrefTargets(u, k2) == {}
  {
    forall t | t in HrefTargets(u, k1) && t in HrefTargets(u, k2)
      ensures false
    {
      HrefTargetsSound(u, k1, t);
      HrefTargetsSound(u, k2, t);
    }
  }
}
