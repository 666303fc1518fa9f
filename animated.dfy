/** `process_animated_resources`: every `\includegraphics` of an animated
    resource becomes an `\animategraphics` over its frames, or a still
    `.png` when it has a single frame. */
module Animated {
  import opened Wrappers
  import opened StringUtil
  import opened Scan
  import opened Links

  // ---------------------------------------------------------------------
  // The part of `pathlib.PurePath` the rewrite uses, on a textual path.

  /** The last path component. */
  function Name(p: string): string
  {
    p[RFind(p, '/') + 1..]
  }

  /** Everything up to and including the last separator. */
  function Dir(p: string): string
  {
    p[..RFind(p, '/') + 1]
  }

  /** Where the suffix of a name starts: its last dot, unless that dot is
      the first or the last character; otherwise the end of the name. */
  function SuffixStart(name: string): (r: nat)
    ensures r <= |name|
  {
    var i := RFind(name, '.');
    if 0 < i < |name| - 1 then i else |name|
  }

  function Stem(name: string): string
  {
    name[..SuffixStart(name)]
  }

  function Suffix(name: string): string
  {
    name[SuffixStart(name)..]
  }

  /** What `with_suffix` accepts as a new suffix: none, or a dot followed
      by at least one character, without a separator. */
  predicate ValidSuffix(s: string)
  {
    s == "" || (|s| >= 2 && s[0] == '.' && '/' !in s)
  }

  /** `str(path.with_suffix(s))`: the suffix of the last component
      replaced (or added, or removed when `s` is empty). `with_suffix`
      raises on a path whose last component is empty. */
  function WithSuffix(p: string, s: string): (r: string)
    requires Name(p) != [] && ValidSuffix(s)
    ensures |r| > |Dir(p)|
  {
    Dir(p) + Stem(Name(p)) + s
  }

  lemma DirName(p: string)
    ensures p == Dir(p) + Name(p)
    ensures '/' !in Name(p)
  {
    var n := Name(p);
    forall k | 0 <= k < |n|
      ensures n[k] != '/'
    {
      assert n[k] == p[RFind(p, '/') + 1 + k];
    }
  }

  /** A suffix put on with `with_suffix` is the one the new name reports,
      and the stem and the directory are kept. */
  lemma WithSuffixRoundTrip(p: string, s: string)
    requires Name(p) != [] && ValidSuffix(s) && s != "" && '.' !in s[1..]
    ensures Dir(WithSuffix(p, s)) == Dir(p)
    ensures Name(WithSuffix(p, s)) == Stem(Name(p)) + s
    ensures Stem(Name(WithSuffix(p, s))) == Stem(Name(p))
    ensures Suffix(Name(WithSuffix(p, s))) == s
  {
    var d, st := Dir(p), Stem(Name(p));
    var r := WithSuffix(p, s);
    StemShape(Name(p));
    DirName(p);
    assert r == d + (st + s);
    SlashFree(st + s, st, s);
    LastSlashOf(d, st + s);
    var n := st + s;
    assert Name(r) == n;
    LastDotOf(st, s);
  }

  /** A stem is non-empty and holds no separator when its name is such. */
  lemma StemShape(name: string)
    requires name != []
    ensures Stem(name) != []
    ensures forall k :: 0 <= k < |Stem(name)| ==> Stem(name)[k] == name[k]
  {
  }

  lemma SlashFree(n: string, a: string, b: string)
    requires n == a + b && '/' !in b
    requires forall k :: 0 <= k < |a| ==> a[k] != '/'
    ensures forall k :: 0 <= k < |n| ==> n[k] != '/'
  {
    forall k | 0 <= k < |n|
      ensures n[k] != '/'
    {
      if k >= |a| {
        assert n[k] == b[k - |a|];
      }
    }
  }

  /** The last separator of a directory followed by a name without one. */
  lemma LastSlashOf(d: string, n: string)
    requires d == [] || d[|d| - 1] == '/'
    requires forall k :: 0 <= k < |n| ==> n[k] != '/'
    ensures RFind(d + n, '/') == |d| - 1
  {
    var r := RFind(d + n, '/');
    if d != [] {
      assert (d + n)[|d| - 1] == '/';
    }
  }

  /** The dot that starts a one-dot suffix is the last dot of the name. */
  lemma LastDotOf(st: string, s: string)
    requires st != [] && |s| >= 2 && s[0] == '.' && '.' !in s[1..]
    ensures SuffixStart(st + s) == |st|
  {
    var n := st + s;
    var r := RFind(n, '.');
    assert n[|st|] == '.';
  }

  // ---------------------------------------------------------------------
  // The records and the lookup table.

  /** One entry of the list the builder is given: the URL path the
      document refers to, the local file of its frames, and how many
      frames it has. */
  datatype AnimatedResource = AnimatedResource(urlPath: string, filePath: string, frameCount: int)

  /** A record whose file path `with_suffix` accepts. */
  predicate ValidRecord(r: AnimatedResource)
  {
    Name(r.filePath) != []
  }

  /** The dict comprehension keyed by URL path: a later record replaces an
      earlier one with the same key. */
  function Lookup(rs: seq<AnimatedResource>): (m: map<string, AnimatedResource>)
    ensures m.Keys == set k | 0 <= k < |rs| :: rs[k].urlPath
    ensures forall p :: p in m ==> m[p] in rs && m[p].urlPath == p
  {
    if rs == [] then map[]
    else
      var init := rs[..|rs| - 1];
      var m := Lookup(init)[rs[|rs| - 1].urlPath := rs[|rs| - 1]];
      assert forall k :: 0 <= k < |init| ==> init[k] == rs[k];
      assert forall x :: x in init ==> x in rs;
      m
  }

  /** The record kept for a URL path is the last one listing it. */
  lemma {:induction false} LastWins(rs: seq<AnimatedResource>, k: nat)
    requires k < |rs|
    requires forall j :: k < j < |rs| ==> rs[j].urlPath != rs[k].urlPath
    ensures rs[k].urlPath in Lookup(rs) && Lookup(rs)[rs[k].urlPath] == rs[k]
  {
    if k < |rs| - 1 {
      var init := rs[..|rs| - 1];
      assert init[k] == rs[k];
      LastWins(init, k);
    }
  }

  // ---------------------------------------------------------------------
  // The replacement text.

  const AnimateCommand := @"\animategraphics"
  const AnimateOptions := @"controls=all,keepaspectratio,loop,width=\linewidth"
  /** The frame rate the builder always writes. */
  const FrameRate: nat := 1

  /** `\animategraphics[options]{rate}{base}{first}{last}`. */
  datatype Animation = Animation(options: string, frameRate: nat, base: string, first: int, last: int)

  function AnimationText(a: Animation): string
  {
    AnimateCommand + "[" + a.options + "]{" + NatToString(a.frameRate) + "}{" + a.base + "}{"
      + IntToString(a.first) + "}{" + IntToString(a.last) + "}"
  }

  /** The animation for a record, keeping the options of the command it
      replaces when there are any. */
  function AnimationOf(r: AnimatedResource, options: Option<string>): (a: Animation)
    requires ValidRecord(r)
    ensures a.first == 0 && a.last == r.frameCount - 1
    ensures a.last - a.first + 1 == r.frameCount
    ensures a.frameRate == 1
    ensures a.base == WithSuffix(r.filePath, "") + "-"
    ensures StartsWith(a.options, AnimateOptions)
    ensures options.Some? && options.value != "" ==> a.options[|AnimateOptions|..] == "," + options.value
    ensures !(options.Some? && options.value != "") ==> a.options == AnimateOptions
  {
    var opts := if options.Some? && options.value != "" then AnimateOptions + "," + options.value else AnimateOptions;
    Animation(opts, FrameRate, WithSuffix(r.filePath, "") + "-", 0, r.frameCount - 1)
  }

  /** What replaces a command for record `r`: a one-frame resource becomes
      its `.png` still, without the command's options; any other frame
      count becomes an animation. */
  function Replacement(r: AnimatedResource, g: Graphics): string
    requires ValidRecord(r)
  {
    if r.frameCount != 1 then AnimationText(AnimationOf(r, g.options))
    else GraphicsText(Graphics(None, WithSuffix(r.filePath, ".png")))
  }

  /** The pattern of the rewrite at `i`, with what replaces the match: a
      command whose path has no record is copied unchanged. A record that
      `with_suffix` would reject is also copied (the builder's callers
      never pass one; see `ProcessAll`). */
  function AnimateAt(m: map<string, AnimatedResource>, u: string, i: nat): (r: Option<(nat, string)>)
    ensures r.Some? ==> i < r.value.0 <= |u|
  {
    var g := GraphicsAt(u, i);
    if g.None? then None
    else
      var e := g.value.0;
      var path := g.value.1.path;
      if path in m && ValidRecord(m[path]) then Some((e, Replacement(m[path], g.value.1)))
      else Some((e, u[i..e]))
  }

  function Rewriter(m: map<string, AnimatedResource>): (f: Matcher<string>)
    ensures Advances(f)
  {
    (u: string, i: nat) => AnimateAt(m, u, i)
  }

  /** The whole rewrite of the accumulated document. */
  function ProcessAll(rs: seq<AnimatedResource>, u: string): string
  {
    Sub(Rewriter(Lookup(rs)), u, 0)
  }

  /** A document none of whose commands names an animated resource is left
      byte for byte unchanged. */
  lemma NoRecordUnchanged(rs: seq<AnimatedResource>, u: string)
    requires forall k :: 0 <= k <= |u| && GraphicsAt(u, k).Some? ==>
      forall j :: 0 <= j < |rs| ==> rs[j].urlPath != GraphicsAt(u, k).value.1.path
    ensures ProcessAll(rs, u) == u
  {
    var f := Rewriter(Lookup(rs));
    forall k | 0 <= k <= |u| && f(u, k).Some?
      ensures f(u, k).value.1 == u[k..f(u, k).value.0]
    {
      var path := GraphicsAt(u, k).value.1.path;
      assert path !in Lookup(rs);
    }
    SubIdentity(f, u, 0);
  }

  /** A command whose path has a record is replaced by that record's
      replacement text. */
  lemma RecordReplacedAt(m: map<string, AnimatedResource>, u: string, i: nat, e: nat, g: Graphics)
    requires GraphicsAt(u, i) == Some((e, g))
    requires g.path in m && ValidRecord(m[g.path])
    ensures AnimateAt(m, u, i) == Some((e, Replacement(m[g.path], g)))
  {
  }

  /** The first command of the document that names an animated resource is
      replaced by that resource's text, the last record listing its path
      winning, and the rewrite goes on after the command. */
  lemma FirstCommandReplaced(rs: seq<AnimatedResource>, u: string, i: nat, e: nat, g: Graphics, k: nat)
    requires i <= |u| && GraphicsAt(u, i) == Some((e, g))
    requires forall j :: 0 <= j < i ==> GraphicsAt(u, j).None?
    requires k < |rs| && rs[k].urlPath == g.path && ValidRecord(rs[k])
    requires forall j :: k < j < |rs| ==> rs[j].urlPath != rs[k].urlPath
    ensures ProcessAll(rs, u) == u[..i] + Replacement(rs[k], g) + Sub(Rewriter(Lookup(rs)), u, e)
  {
    var f := Rewriter(Lookup(rs));
    LastWins(rs, k);
    RecordReplacedAt(Lookup(rs), u, i, e, g);
    forall j | 0 <= j < i
      ensures f(u, j).None?
    {
      assert GraphicsAt(u, j).None?;
    }
    SubFirst(f, u, 0, i);
  }

  /** A one-frame resource is replaced by a command the link scanner reads
      back as a plain `\includegraphics` of the `.png` still. */
  lemma StillIsGraphics(r: AnimatedResource, g: Graphics, u: string, i: nat)
    requires ValidRecord(r) && r.frameCount == 1
    requires '}' !in WithSuffix(r.filePath, ".png")
    requires OccursAt(u, i, Replacement(r, g))
    ensures GraphicsAt(u, i) == Some((i + |Replacement(r, g)|, Graphics(None, WithSuffix(r.filePath, ".png"))))
  {
    GraphicsRoundTrip(u, i, Graphics(None, WithSuffix(r.filePath, ".png")));
  }
}
