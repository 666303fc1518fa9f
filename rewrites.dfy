/** The link rewrites `write` applies to the accumulated document before
    it goes into the template: attachments, the "right click" hint,
    problem links and appendix links, in that order. */
module Rewrites {
  import opened Wrappers
  import opened StringUtil
  import opened Scan
  import opened Links
  import opened Sections

  const HrefOpen := @"\href{"

  /** `}{(?P<href_label>[^}]*?)}` at `q`: where it ends and the caption,
      which runs to the first closing brace and may be empty. */
  function CaptionAt(u: string, q: nat): (r: Option<(nat, string)>)
    ensures r.Some? ==> q + 2 < r.value.0 <= |u|
  {
    if OccursAt(u, q, "}{") then
      var c := FindChar(u, q + 2, '}');
      if c < |u| then Some((c + 1, u[q + 2..c])) else None
    else None
  }

  lemma CaptionShape(u: string, q: nat)
    requires CaptionAt(u, q).Some?
    ensures '}' !in CaptionAt(u, q).value.1
    ensures u[q..CaptionAt(u, q).value.0] == "}{" + CaptionAt(u, q).value.1 + "}"
  {
    var c := FindChar(u, q + 2, '}');
    var l := u[q + 2..c];
    forall k | 0 <= k < |l|
      ensures l[k] != '}'
    {
      assert l[k] == u[q + 2 + k];
    }
    assert u[q..c + 1] == u[q..q + 2] + l + u[c..c + 1];
  }

  /** `\hyperref[key]{caption}`. */
  function HyperrefText(key: string, caption: string): string
  {
    @"\hyperref[" + key + "]{" + caption + "}"
  }

  // ---------------------------------------------------------------------
  // Attachments:
  // `\\href{(?P<href_url_path_base>[^\s}]*?)(?P<href_filename>[^\/}]*?.txt)}{(?P<href_label>[^}]*?)}`.
  // The `.` before `txt` is unescaped, so it matches any character; with
  // `strict` the scanner reads it as `\.`.

  /** The three groups of an attachment link. */
  datatype Attachment = Attachment(base: string, filename: string, caption: string)

  predicate DotOk(c: char, strict: bool)
  {
    !strict || c == '.'
  }

  /** The filename part, its dot tried at `d` first and then, while the
      filename can grow, one character further on each time: where the
      filename ends, where the match ends, and the caption. */
  function FileFrom(u: string, d: nat, strict: bool): (r: Option<(nat, nat, string)>)
    requires d <= |u|
    ensures r.Some? ==> d + 4 <= r.value.0 < r.value.1 <= |u|
    decreases |u| - d
  {
    var cap := if d < |u| && DotOk(u[d], strict) && OccursAt(u, d + 1, "txt") then CaptionAt(u, d + 4) else None;
    if cap.Some? then Some((d + 4, cap.value.0, cap.value.1))
    else if d < |u| && u[d] != '/' && u[d] != '}' then FileFrom(u, d + 1, strict)
    else None
  }

  /** The base part, as short as it can be: the filename is tried from
      `f` and then from each later position while the base can grow:
      where the filename starts and what `FileFrom` found. */
  function BaseFrom(u: string, f: nat, strict: bool): (r: Option<(nat, nat, nat, string)>)
    requires f <= |u|
    ensures r.Some? ==> f <= r.value.0 && r.value.0 + 4 <= r.value.1 < r.value.2 <= |u|
    decreases |u| - f
  {
    var file := FileFrom(u, f, strict);
    if file.Some? then Some((f, file.value.0, file.value.1, file.value.2))
    else if f < |u| && !IsSpace(u[f]) && u[f] != '}' then BaseFrom(u, f + 1, strict)
    else None
  }

  function AttachAt(u: string, i: nat, strict: bool): (r: Option<(nat, Attachment)>)
    ensures r.Some? ==> i < r.value.0 <= |u|
  {
    if !OccursAt(u, i, HrefOpen) then None
    else
      var m := BaseFrom(u, i + |HrefOpen|, strict);
      if m.Some? then
        Some((m.value.2, Attachment(u[i + |HrefOpen|..m.value.0], u[m.value.0..m.value.1], m.value.3)))
      else None
  }

  const LinkColor := "linkcolor"

  /** `\textattachfile[color=linkcolor]{filename}{caption}` and a footnote
      with the file's address on the site. */
  function AttachmentText(a: Attachment): string
  {
    @"\textattachfile[color=" + LinkColor + "]{" + a.filename + "}{" + a.caption
      + @"}\footnote{Source: \url{https://projecteuler.net/" + a.base + a.filename + "}}"
  }

  function AttachRewriteAt(u: string, i: nat): (r: Option<(nat, string)>)
    ensures r.Some? ==> i < r.value.0 <= |u|
  {
    var a := AttachAt(u, i, true);
    if a.Some? then Some((a.value.0, AttachmentText(a.value.1))) else None
  }

  function AttachRewriteAsWrittenAt(u: string, i: nat): (r: Option<(nat, string)>)
    ensures r.Some? ==> i < r.value.0 <= |u|
  {
    var a := AttachAt(u, i, false);
    if a.Some? then Some((a.value.0, AttachmentText(a.value.1))) else None
  }

  /** The filename ends at `d + 4` with its dot at `d`, and the match at `e`
      with caption `l`. */
  predicate FileAt(u: string, d: nat, strict: bool, e: nat, l: string)
  {
    d < |u| && DotOk(u[d], strict) && OccursAt(u, d + 1, "txt") && CaptionAt(u, d + 4) == Some((e, l))
  }

  /** What `FileFrom` found, spelled out. */
  lemma {:induction false} FileFromShape(u: string, d0: nat, strict: bool, fe: nat, e: nat, l: string)
    requires d0 <= |u| && FileFrom(u, d0, strict) == Some((fe, e, l))
    ensures d0 + 4 <= fe && FileAt(u, fe - 4, strict, e, l)
    ensures forall k :: d0 <= k < fe - 4 ==> u[k] != '/' && u[k] != '}'
    decreases |u| - d0
  {
    if !FileAt(u, d0, strict, e, l) {
      FileFromShape(u, d0 + 1, strict, fe, e, l);
    }
  }

  /** Where `BaseFrom` stops, the filename matches. */
  lemma {:induction false} BaseFromFile(u: string, f0: nat, strict: bool, f: nat, fe: nat, e: nat, l: string)
    requires f0 <= |u| && BaseFrom(u, f0, strict) == Some((f, fe, e, l))
    ensures f0 <= f <= |u| && FileFrom(u, f, strict) == Some((fe, e, l))
    decreases |u| - f0
  {
    if FileFrom(u, f0, strict).None? {
      BaseFromFile(u, f0 + 1, strict, f, fe, e, l);
    }
  }

  /** The base is made of allowed characters: no whitespace and no `}`. */
  lemma {:induction false} BaseFromChar(u: string, f0: nat, strict: bool, f: nat, fe: nat, e: nat, l: string, k: nat)
    requires f0 <= |u| && BaseFrom(u, f0, strict) == Some((f, fe, e, l)) && f0 <= k < f
    ensures !IsSpace(u[k]) && u[k] != '}'
    decreases k - f0
  {
    if k > f0 {
      BaseFromChar(u, f0 + 1, strict, f, fe, e, l, k);
    }
  }

  /** The base is as short as it can be: from no position before where
      `BaseFrom` stopped would the filename have matched. */
  lemma {:induction false} BaseFromShortest(u: string, f0: nat, strict: bool, f: nat, fe: nat, e: nat, l: string, g: nat)
    requires f0 <= |u| && BaseFrom(u, f0, strict) == Some((f, fe, e, l)) && f0 <= g < f
    ensures FileFrom(u, g, strict).None?
    decreases g - f0
  {
    if g > f0 {
      BaseFromShortest(u, f0 + 1, strict, f, fe, e, l, g);
    }
  }

  /** A non-empty base ends with `/`: the filename would otherwise have
      matched one position earlier. */
  lemma BaseEndsWithSlash(u: string, s: nat, strict: bool, f: nat, fe: nat, e: nat, l: string)
    requires s <= |u| && BaseFrom(u, s, strict) == Some((f, fe, e, l)) && s < f
    ensures u[f - 1] == '/'
  {
    BaseFromFile(u, s, strict, f, fe, e, l);
    BaseFromChar(u, s, strict, f, fe, e, l, f - 1);
    BaseFromShortest(u, s, strict, f, fe, e, l, f - 1);
    FileFromStep(u, f - 1, strict);
  }

  /** Where the filename search fails but would succeed one position on,
      the character in between stops it. */
  lemma FileFromStep(u: string, g: nat, strict: bool)
    requires g < |u| && FileFrom(u, g, strict).None? && FileFrom(u, g + 1, strict).Some?
    ensures u[g] == '/' || u[g] == '}'
  {
  }

  /** What the corrected pattern captures: the filename ends in `.txt` and
      holds no `/`, the base is empty or ends with `/`, and the link's
      target is base and filename together. */
  lemma AttachCorrected(u: string, i: nat)
    requires AttachAt(u, i, true).Some?
    ensures EmbeddedShape(AttachAt(u, i, true).value.1)
  {
    var s, f, fe, e, l := AttachParts(u, i, true);
    BaseFromFile(u, s, true, f, fe, e, l);
    FileFromShape(u, f, true, fe, e, l);
    if f > s {
      BaseEndsWithSlash(u, s, true, f, fe, e, l);
    }
    CorrectedParts(u, s, f, fe - 4, l);
  }

  /** `\href{base + name}{l}`, with a base that is empty or ends with `/`
      and holds neither whitespace nor `}`, and a filename without `/` or
      `}` that ends in `.txt`, becomes the attachment of exactly that base,
      filename and caption. */
  lemma {:induction false} AttachResolves(u: string, i: nat, base: string, name: string, l: string)
    requires forall k :: 0 <= k < |base| ==> !IsSpace(base[k]) && base[k] != '}'
    requires base == [] || base[|base| - 1] == '/'
    requires '/' !in name && '}' !in name && EndsWith(name, ".txt")
    requires '}' !in l
    requires OccursAt(u, i, LinkText(HrefOpen, base + name, l))
    ensures AttachRewriteAt(u, i)
      == Some((i + |LinkText(HrefOpen, base + name, l)|, AttachmentText(Attachment(base, name, l))))
  {
    AttachLinkFound(u, i, base, name, l);
  }

  lemma {:induction false} AttachLinkFound(u: string, i: nat, base: string, name: string, l: string)
    requires forall k :: 0 <= k < |base| ==> !IsSpace(base[k]) && base[k] != '}'
    requires base == [] || base[|base| - 1] == '/'
    requires '/' !in name && '}' !in name && EndsWith(name, ".txt")
    requires '}' !in l
    requires OccursAt(u, i, LinkText(HrefOpen, base + name, l))
    ensures AttachAt(u, i, true) == Some((i + |LinkText(HrefOpen, base + name, l)|, Attachment(base, name, l)))
  {
    var x := base + name;
    LinkLayout(HrefOpen, x, l);
    LinkTransfer(u, i, LinkText(HrefOpen, x, l), HrefOpen, x, l);
    AttachPartsFound(u, i, base, name, l);
  }

  lemma {:induction false} AttachPartsFound(u: string, i: nat, base: string, name: string, l: string)
    requires forall k :: 0 <= k < |base| ==> !IsSpace(base[k]) && base[k] != '}'
    requires base == [] || base[|base| - 1] == '/'
    requires '/' !in name && '}' !in name && EndsWith(name, ".txt")
    requires '}' !in l
    requires var x, k := base + name, i + |HrefOpen|;
      && k + |x| + |l| + 3 <= |u|
      && OccursAt(u, i, HrefOpen) && u[k..k + |x|] == x && OccursAt(u, k + |x|, "}{")
      && u[k + |x| + 2..k + |x| + 2 + |l|] == l && u[k + |x| + 2 + |l|] == '}'
    ensures AttachAt(u, i, true) == Some((i + |HrefOpen| + |base + name| + |l| + 3, Attachment(base, name, l)))
  {
    var s := i + |HrefOpen|;
    var p, e := s + |base|, s + |base + name|;
    TargetChars(u, s, base, name);
    BaseFound(u, s, p, e, l);
    assert AttachAt(u, i, true) == Some((e + |l| + 3, Attachment(u[s..p], u[p..e], l)));
  }

  /** The base and the filename the search finds when the filename, ending
      in `.txt`, runs from `p` to `e` and the base before it from `s`. */
  lemma {:induction false} BaseFound(u: string, s: nat, p: nat, e: nat, l: string)
    requires s <= p && p + 4 <= e && e + |l| + 3 <= |u|
    requires BaseChars(u, s, p) && (s < p ==> u[p - 1] == '/')
    requires NameChars(u, p, e) && u[e - 4] == '.' && OccursAt(u, e - 3, "txt")
    requires '}' !in l && OccursAt(u, e, "}{") && u[e + 2..e + 2 + |l|] == l && u[e + 2 + |l|] == '}'
    ensures BaseFrom(u, s, true) == Some((p, e, e + |l| + 3, l))
  {
    FileFromName(u, p, e, l);
    BaseFromName(u, s, p, e, l);
  }

  /** The characters of a link's target, where it occurs. */
  lemma {:induction false} TargetChars(u: string, s: nat, base: string, name: string)
    requires forall k :: 0 <= k < |base| ==> !IsSpace(base[k]) && base[k] != '}'
    requires base == [] || base[|base| - 1] == '/'
    requires '/' !in name && '}' !in name && EndsWith(name, ".txt")
    requires s + |base + name| <= |u| && u[s..s + |base + name|] == base + name
    ensures var p, e := s + |base|, s + |base + name|;
      && u[s..p] == base && u[p..e] == name
      && BaseChars(u, s, p) && (s < p ==> u[p - 1] == '/') && NameChars(u, p, e)
      && u[e - 4] == '.' && OccursAt(u, e - 3, "txt")
  {
    var p, e := s + |base|, s + |base + name|;
    assert u[s..p] == u[s..e][..|base|];
    assert u[p..e] == u[s..e][|base|..];
    BaseCharsOf(u, s, base);
    NameCharsOf(u, p, name);
  }

  lemma {:induction false} BaseCharsOf(u: string, s: nat, base: string)
    requires forall k :: 0 <= k < |base| ==> !IsSpace(base[k]) && base[k] != '}'
    requires base == [] || base[|base| - 1] == '/'
    requires s + |base| <= |u| && u[s..s + |base|] == base
    ensures BaseChars(u, s, s + |base|) && (base != [] ==> u[s + |base| - 1] == '/')
  {
    forall k | s <= k < s + |base|
      ensures !IsSpace(u[k]) && u[k] != '}'
    {
      assert u[k] == base[k - s];
    }
    if base != [] {
      assert u[s + |base| - 1] == base[|base| - 1];
    }
  }

  lemma {:induction false} NameCharsOf(u: string, p: nat, name: string)
    requires '/' !in name && '}' !in name && EndsWith(name, ".txt")
    requires p + |name| <= |u| && u[p..p + |name|] == name
    ensures NameChars(u, p, p + |name|)
    ensures u[p + |name| - 4] == '.' && OccursAt(u, p + |name| - 3, "txt")
  {
    var e := p + |name|;
    forall k | p <= k < e
      ensures u[k] != '/' && u[k] != '}'
    {
      assert u[k] == name[k - p];
    }
    assert u[e - 4..e] == name[|name| - 4..] == ".txt";
    assert u[e - 3..e] == u[e - 4..e][1..];
  }

  /** What the base group `[^\s}]*?` may hold from `s` to `p`. */
  predicate BaseChars(u: string, s: nat, p: nat)
    requires s <= p <= |u|
  {
    forall k :: s <= k < p ==> !IsSpace(u[k]) && u[k] != '}'
  }

  /** What the filename group `[^\/}]*?` may hold from `p` to `e`. */
  predicate NameChars(u: string, p: nat, e: nat)
    requires p <= e <= |u|
  {
    forall k :: p <= k < e ==> u[k] != '/' && u[k] != '}'
  }

  /** From inside a filename that ends in `.txt`, the search finds that
      ending. */
  lemma {:induction false} FileFromName(u: string, d: nat, e: nat, l: string)
    requires d + 4 <= e && e + |l| + 3 <= |u|
    requires NameChars(u, d, e)
    requires u[e - 4] == '.' && OccursAt(u, e - 3, "txt")
    requires '}' !in l && OccursAt(u, e, "}{") && u[e + 2..e + 2 + |l|] == l && u[e + 2 + |l|] == '}'
    ensures FileFrom(u, d, true) == Some((e, e + |l| + 3, l))
    decreases e - d
  {
    if d + 4 < e {
      NoCaptionAt(u, d + 4);
      FileFromName(u, d + 1, e, l);
      assert FileFrom(u, d, true) == FileFrom(u, d + 1, true);
    } else {
      assert d == e - 4 && DotOk(u[d], true) && OccursAt(u, d + 1, "txt");
      CaptionFound(u, e, l);
    }
  }

  /** Before a `/` with no `}` on the way, no filename ends in `.txt`
      followed by `}`. */
  lemma {:induction false} FileFromBlocked(u: string, d: nat, q: nat)
    requires d <= q < |u| && u[q] == '/'
    requires forall k :: d <= k <= q ==> u[k] != '}'
    ensures FileFrom(u, d, true).None?
    decreases q - d
  {
    if u[d] == '.' && OccursAt(u, d + 1, "txt") {
      assert forall k :: d < k < d + 4 ==> u[k] == "txt"[k - d - 1];
      NoCaptionAt(u, d + 4);
    }
    if d < q {
      FileFromBlocked(u, d + 1, q);
    }
  }

  /** No caption starts where there is no `}`. */
  lemma {:induction false} NoCaptionAt(u: string, q: nat)
    requires q < |u| && u[q] != '}'
    ensures CaptionAt(u, q).None?
  {
    assert !OccursAt(u, q, "}{") by {
      if q + 2 <= |u| {
        assert u[q..q + 2][0] == u[q];
      }
    }
  }

  /** The shortest base is the one that ends at the filename's start. */
  lemma {:induction false} BaseFromName(u: string, f: nat, p: nat, e: nat, l: string)
    requires f <= p <= |u|
    requires BaseChars(u, f, p)
    requires f < p ==> u[p - 1] == '/'
    requires FileFrom(u, p, true) == Some((e, e + |l| + 3, l))
    ensures BaseFrom(u, f, true) == Some((p, e, e + |l| + 3, l))
    decreases p - f
  {
    if f < p {
      FileFromBlocked(u, f, p - 1);
      BaseFromName(u, f + 1, p, e, l);
    }
  }

  /** The groups of a match: base from `s` to `f`, filename from `f` to
      `fe`, caption `l`; the match ends at `e`. */
  lemma AttachParts(u: string, i: nat, strict: bool) returns (s: nat, f: nat, fe: nat, e: nat, l: string)
    requires AttachAt(u, i, strict).Some?
    ensures s == i + |HrefOpen| <= |u| && BaseFrom(u, s, strict) == Some((f, fe, e, l))
    ensures s <= f <= fe <= e <= |u|
    ensures AttachAt(u, i, strict).value == (e, Attachment(u[s..f], u[f..fe], l))
  {
    s := i + |HrefOpen|;
    var m := BaseFrom(u, s, strict).value;
    f, fe, e, l := m.0, m.1, m.2, m.3;
  }

  /** A filename without `/` that ends in `.txt`, after a base that is
      empty or ends with `/`: together an embedded file's target. */
  predicate EmbeddedShape(a: Attachment)
  {
    && EndsWith(a.filename, ".txt") && '/' !in a.filename
    && (a.base == [] || a.base[|a.base| - 1] == '/')
    && Classify(a.base + a.filename) == Embedded
  }

  lemma CorrectedParts(u: string, s: nat, f: nat, d: nat, l: string)
    requires s <= f <= d && d + 4 <= |u|
    requires forall k :: f <= k < d ==> u[k] != '/' && u[k] != '}'
    requires u[d] == '.' && OccursAt(u, d + 1, "txt")
    requires f > s ==> u[f - 1] == '/'
    ensures EmbeddedShape(Attachment(u[s..f], u[f..d + 4], l))
  {
    FilenameShape(u, f, d);
    EndsWithJoin(u[s..f], u[f..d + 4], ".txt");
  }

  /** The corrected pattern needs a dot. */
  lemma AttachDot(u: string, i: nat) returns (d: nat)
    requires AttachAt(u, i, true).Some?
    ensures d < |u| && u[d] == '.'
  {
    var m := BaseFrom(u, i + |HrefOpen|, true).value;
    BaseFromFile(u, i + |HrefOpen|, true, m.0, m.1, m.2, m.3);
    FileFromShape(u, m.0, true, m.1, m.2, m.3);
    d := m.1 - 4;
  }

  lemma FilenameShape(u: string, f: nat, d: nat)
    requires f <= d && d + 4 <= |u|
    requires forall k :: f <= k < d ==> u[k] != '/' && u[k] != '}'
    requires u[d] == '.' && OccursAt(u, d + 1, "txt")
    ensures EndsWith(u[f..d + 4], ".txt") && '/' !in u[f..d + 4]
  {
    var w := u[f..d + 4];
    assert w[|w| - 4..] == u[d..d + 4] == ".txt";
    forall k | 0 <= k < |w|
      ensures w[k] != '/'
    {
      assert w[k] == u[f + k];
    }
  }

  lemma EndsWithJoin(a: string, b: string, w: string)
    requires EndsWith(b, w)
    ensures EndsWith(a + b, w)
  {
    assert (a + b)[|a + b| - |w|..] == b[|b| - |w|..];
  }

  /** As written, the character before `txt` may be a `/`: the link
      `\href{a/txt}{l}` is rewritten as an attachment named `a/txt`,
      although its target does not end in `.txt` and so was never
      recorded as a file to embed. */
  lemma AttachAsWrittenSlash()
    ensures AttachAt(@"\href{a/txt}{l}", 0, false) == Some((15, Attachment("", "a/txt", "l")))
    ensures Classify("a/txt") != Embedded
  {
    var u := @"\href{a/txt}{l}";
    assert OccursAt(u, 0, HrefOpen);
    assert u[7] == '/';
    assert !OccursAt(u, 7, "txt");
    assert OccursAt(u, 8, "txt");
    assert OccursAt(u, 11, "}{");
    assert FindChar(u, 13, '}') == 14 by {
      assert u[13] == 'l' && u[14] == '}';
    }
    assert u[13..14] == "l";
    assert CaptionAt(u, 11) == Some((15, "l"));
    assert FileFrom(u, 7, false) == Some((11, 15, "l"));
    assert u[6] == 'a' && !OccursAt(u, 7, "txt");
    assert FileFrom(u, 6, false) == FileFrom(u, 7, false);
    assert BaseFrom(u, 6, false) == Some((6, 11, 15, "l"));
    assert u[6..6] == "" && u[6..11] == "a/txt";
  }

  /** With the dot escaped the same link is not an attachment. */
  lemma AttachCorrectedSlash()
    ensures AttachAt(@"\href{a/txt}{l}", 0, true).None?
  {
    var u := @"\href{a/txt}{l}";
    assert forall k :: 0 <= k < |u| ==> u[k] != '.';
    if AttachAt(u, 0, true).Some? {
      var d := AttachDot(u, 0);
      assert false;
    }
  }

  /** Whichever way the dot is read, the three groups and the text
      between them make up the whole link: its target is base and filename
      together and its caption holds no closing brace. */
  lemma AttachMatchText(u: string, i: nat, strict: bool)
    requires AttachAt(u, i, strict).Some?
    ensures var a := AttachAt(u, i, strict).value.1;
      && '}' !in a.caption
      && u[i..AttachAt(u, i, strict).value.0] == HrefOpen + (a.base + a.filename) + "}{" + a.caption + "}"
  {
    var s := i + |HrefOpen|;
    var m := BaseFrom(u, s, strict).value;
    BaseFromFile(u, s, strict, m.0, m.1, m.2, m.3);
    FileFromShape(u, m.0, strict, m.1, m.2, m.3);
    CaptionShape(u, m.1);
    Join4(u, i, s, m.0, m.1, m.2);
  }

  lemma Join4(u: string, i: nat, s: nat, f: nat, fe: nat, e: nat)
    requires i <= s <= f <= fe <= e <= |u|
    ensures u[i..e] == u[i..s] + (u[s..f] + u[f..fe]) + u[fe..e]
  {
    assert u[s..fe] == u[s..f] + u[f..fe];
    assert u[i..e] == u[i..s] + u[s..fe] + u[fe..e];
  }

  // ---------------------------------------------------------------------
  // The hint after attachment links:
  // `\s*\(right\s+click\s+and\s+['"]Save\s+Link/Target\s+As...['"]\)\s*`,
  // removed together with the whitespace around it.

  /** One element of the hint pattern. */
  datatype HintToken = Word(w: string) | Gap | Quote | AnyChars(n: nat)

  const HintPattern: seq<HintToken> := [
    Word("(right"), Gap, Word("click"), Gap, Word("and"), Gap, Quote, Word("Save"), Gap,
    Word("Link/Target"), Gap, Word("As"), AnyChars(3), Quote, Word(")")]

  /** Where one element matched from `j` ends. */
  function TokenEnd(u: string, j: nat, t: HintToken): (r: Option<nat>)
    requires j <= |u|
    ensures r.Some? ==> j + TokenMin(t) <= r.value <= |u|
  {
    match t
    case Word(w) => if OccursAt(u, j, w) then Some(j + |w|) else None
    case Gap => if j < |u| && IsSpace(u[j]) then Some(SkipSpaces(u, j)) else None
    case Quote => if j < |u| && (u[j] == '\'' || u[j] == '"') then Some(j + 1) else None
    case AnyChars(n) => if j + n <= |u| then Some(j + n) else None
  }

  /** The fewest characters an element can match. */
  function TokenMin(t: HintToken): nat
  {
    match t
    case Word(w) => |w|
    case Gap => 1
    case Quote => 1
    case AnyChars(n) => n
  }

  /** The elements `ts[p..]` matched from `j`: where they end. A gap is a
      non-empty run of whitespace, taken whole since the next element
      never starts with whitespace. */
  function HintFrom(u: string, j: nat, ts: seq<HintToken>, p: nat): (r: Option<nat>)
    requires j <= |u| && p <= |ts|
    ensures r.Some? ==> j <= r.value <= |u|
    ensures r.Some? && p < |ts| ==> j + TokenMin(ts[p]) <= r.value
    decreases |ts| - p
  {
    if p == |ts| then Some(j)
    else
      var next := TokenEnd(u, j, ts[p]);
      if next.Some? then HintFrom(u, next.value, ts, p + 1) else None
  }

  /** The hint at `i`, replaced by nothing: the whitespace before it (the
      leading `\s*` is greedy and the hint starts with `(`) and after it
      goes with it. */
  function HintAt(u: string, i: nat): (r: Option<(nat, string)>)
    ensures r.Some? ==> i < r.value.0 <= |u| && r.value.1 == ""
  {
    PatternAt(u, i, HintPattern)
  }

  /** The elements `ts` matched at `i` with the whitespace around them,
      replaced by nothing. */
  function PatternAt(u: string, i: nat, ts: seq<HintToken>): (r: Option<(nat, string)>)
    ensures r.Some? ==> i <= r.value.0 <= |u| && r.value.1 == ""
    ensures r.Some? && ts != [] ==> i + TokenMin(ts[0]) <= r.value.0
  {
    if i > |u| then None
    else
      var j := SkipSpaces(u, i);
      var e := HintFrom(u, j, ts, 0);
      if e.Some? then Some((SkipSpaces(u, e.value), "")) else None
  }

  /** A match of the hint begins, after the whitespace, with `(right`. */
  lemma HintStart(u: string, i: nat)
    requires HintAt(u, i).Some?
    ensures OccursAt(u, SkipSpaces(u, i), "(right")
  {
    if !OccursAt(u, SkipSpaces(u, i), "(right") {
      HintNone(u, i);
    }
  }

  /** A text without `(right` keeps every character. */
  lemma HintAbsent(u: string)
    requires Absent(u, "(right")
    ensures Sub(HintAt, u, 0) == u
  {
    forall k | 0 <= k <= |u| && HintAt(u, k).Some?
      ensures false
    {
      HintStart(u, k);
    }
    SubNoMatch(HintAt, u, 0);
  }

  /** What a hint element may match: a word itself, a non-empty run of
      whitespace, one quote, or exactly `n` characters. */
  predicate FillFits(t: HintToken, f: string)
  {
    match t
    case Word(w) => f == w
    case Gap => f != [] && Blank(f)
    case Quote => f == "'" || f == "\""
    case AnyChars(n) => |f| == n
  }

  predicate Blank(s: string)
  {
    forall k :: 0 <= k < |s| ==> IsSpace(s[k])
  }

  /** `fs` is one text for each element of `ts`. */
  predicate Fits(ts: seq<HintToken>, fs: seq<string>)
  {
    |fs| == |ts| && forall k :: 0 <= k < |ts| ==> FillFits(ts[k], fs[k])
  }

  /** The texts `fs` one after the other. */
  function Concat(fs: seq<string>): string
  {
    ConcatFrom(fs, 0)
  }

  function ConcatFrom(fs: seq<string>, p: nat): string
    requires p <= |fs|
    decreases |fs| - p
  {
    if p == |fs| then [] else fs[p] + ConcatFrom(fs, p + 1)
  }

  /** An element whose text starts with a character other than whitespace. */
  predicate Solid(t: HintToken)
  {
    t.Quote? || (t.Word? && t.w != [] && !IsSpace(t.w[0]))
  }

  /** Every gap from element `p` on is followed by a solid element, so a
      gap's run of whitespace ends where the next element starts. */
  predicate GapsStop(ts: seq<HintToken>, p: nat)
    requires p <= |ts|
    decreases |ts| - p
  {
    p == |ts| || ((ts[p].Gap? ==> p + 1 < |ts| && Solid(ts[p + 1])) && GapsStop(ts, p + 1))
  }

  lemma {:induction false} HintPatternGapsStop()
    ensures GapsStop(HintPattern, 0)
  {
  }

  /** The elements match the text made of one fitting text for each. */
  lemma {:induction false} HintFromConcat(u: string, j: nat, ts: seq<HintToken>, fs: seq<string>, p: nat)
    requires p <= |ts| && j <= |u| && Fits(ts, fs) && GapsStop(ts, p) && OccursAt(u, j, ConcatFrom(fs, p))
    ensures HintFrom(u, j, ts, p) == Some(j + |ConcatFrom(fs, p)|)
    decreases |ts| - p
  {
    if p < |ts| {
      OccursSplit(u, j, fs[p], ConcatFrom(fs, p + 1));
      HintStep(u, j, ts, fs, p);
      HintFromConcat(u, j + |fs[p]|, ts, fs, p + 1);
    }
  }

  /** Element `p` matches exactly its own text. */
  lemma {:induction false} HintStep(u: string, j: nat, ts: seq<HintToken>, fs: seq<string>, p: nat)
    requires p < |ts| && j <= |u| && Fits(ts, fs) && GapsStop(ts, p) && OccursAt(u, j, ConcatFrom(fs, p))
    ensures TokenEnd(u, j, ts[p]) == Some(j + |fs[p]|)
  {
    var f, rest := fs[p], ConcatFrom(fs, p + 1);
    OccursSplit(u, j, f, rest);
    assert FillFits(ts[p], f);
    if ts[p].Gap? {
      assert Solid(ts[p + 1]) && FillFits(ts[p + 1], fs[p + 1]);
      assert rest == fs[p + 1] + ConcatFrom(fs, p + 2);
      assert rest != [] && !IsSpace(rest[0]);
      GapStep(u, j, f, rest);
    }
  }

  /** A gap matches a run of whitespace up to a text that does not start
      with whitespace. */
  lemma {:induction false} GapStep(u: string, j: nat, f: string, rest: string)
    requires OccursAt(u, j, f) && OccursAt(u, j + |f|, rest) && f != [] && Blank(f)
    requires rest != [] && !IsSpace(rest[0])
    ensures TokenEnd(u, j, Gap) == Some(j + |f|)
  {
    assert u[j + |f|] == rest[0];
    assert u[j] == f[0];
    BlankRun(u, j, f);
  }

  lemma {:induction false} OccursSplit(u: string, j: nat, a: string, b: string)
    requires OccursAt(u, j, a + b)
    ensures OccursAt(u, j, a) && OccursAt(u, j + |a|, b)
  {
    assert u[j..j + |a|] == (a + b)[..|a|];
    assert u[j + |a|..j + |a| + |b|] == (a + b)[|a|..];
  }

  /** The hint, with the whitespace before and after it, is one match
      replaced by nothing: the whitespace from `i` stops at `j`, a text
      that fits the pattern runs from `j` to `e`, and the whitespace from
      `e` stops at `n`. */
  lemma {:induction false} HintRemoved(u: string, i: nat, j: nat, e: nat, n: nat, fs: seq<string>)
    requires i <= j <= |u| && j == SkipSpaces(u, i)
    requires Fits(HintPattern, fs) && OccursAt(u, j, Concat(fs)) && e == j + |Concat(fs)|
    requires SkipSpaces(u, e) == n
    ensures HintAt(u, i) == Some((n, ""))
  {
    HintPatternGapsStop();
    PatternRemoved(u, i, j, e, n, HintPattern, fs);
  }

  /** The same for any pattern whose gaps stop. */
  lemma {:induction false} PatternRemoved(u: string, i: nat, j: nat, e: nat, n: nat, ts: seq<HintToken>, fs: seq<string>)
    requires i <= j <= |u| && j == SkipSpaces(u, i)
    requires Fits(ts, fs) && GapsStop(ts, 0) && OccursAt(u, j, Concat(fs)) && e == j + |Concat(fs)|
    requires SkipSpaces(u, e) == n
    ensures PatternAt(u, i, ts) == Some((n, ""))
  {
    HintFromConcat(u, j, ts, fs, 0);
    PatternAtWhen(u, i, j, e, n, ts);
  }

  /** Where the whitespace runs around the hint text stop. */
  lemma {:induction false} HintSpans(u: string, i: nat, sp1: string, t: string, sp2: string, n: nat)
    requires Blank(sp1) && Blank(sp2) && t != [] && !IsSpace(t[0])
    requires OccursAt(u, i, sp1 + t + sp2) && n == i + |sp1 + t + sp2|
    requires n == |u| || !IsSpace(u[n])
    ensures i + |sp1| <= |u| && SkipSpaces(u, i) == i + |sp1| && OccursAt(u, i + |sp1|, t)
    ensures SkipSpaces(u, i + |sp1| + |t|) == n
  {
    var e := i + |sp1| + |t|;
    OccursThree(u, i, sp1, t, sp2);
    BlankBefore(u, i, sp1, t);
    assert n == e + |sp2|;
    BlankRunTo(u, e, sp2, n);
  }

  lemma {:induction false} OccursThree(u: string, i: nat, a: string, b: string, c: string)
    requires OccursAt(u, i, a + b + c)
    ensures OccursAt(u, i, a) && OccursAt(u, i + |a|, b) && OccursAt(u, i + |a| + |b|, c)
  {
    OccursSplit(u, i, a + b, c);
    OccursSplit(u, i, a, b);
  }

  /** Whitespace followed by a text that does not start with whitespace. */
  lemma {:induction false} BlankBefore(u: string, i: nat, s: string, t: string)
    requires OccursAt(u, i, s) && Blank(s) && OccursAt(u, i + |s|, t)
    requires t != [] && !IsSpace(t[0])
    ensures SkipSpaces(u, i) == i + |s|
  {
    assert u[i + |s|] == t[0];
    BlankRun(u, i, s);
  }

  /** A run of whitespace followed by something else is skipped whole. */
  lemma {:induction false} BlankRun(u: string, i: nat, s: string)
    requires OccursAt(u, i, s) && Blank(s)
    requires i + |s| == |u| || !IsSpace(u[i + |s|])
    ensures SkipSpaces(u, i) == i + |s|
  {
    forall k | i <= k < i + |s|
      ensures IsSpace(u[k])
    {
      assert u[k] == s[k - i];
    }
    SkipSpacesStops(u, i, |s|);
  }

  lemma {:induction false} BlankRunTo(u: string, i: nat, s: string, n: nat)
    requires OccursAt(u, i, s) && Blank(s) && n == i + |s| && (n == |u| || !IsSpace(u[n]))
    ensures SkipSpaces(u, i) == n
  {
    BlankRun(u, i, s);
  }

  /** A text that fits the hint pattern starts with `(`. */
  lemma {:induction false} HintTextStart(fs: seq<string>)
    requires Fits(HintPattern, fs)
    ensures Concat(fs) != [] && Concat(fs)[0] == '('
  {
    assert FillFits(HintPattern[0], fs[0]);
  }

  /** `PatternAt` in terms of the pattern matched past the whitespace. */
  lemma {:induction false} PatternAtWhen(u: string, i: nat, j: nat, e: nat, n: nat, ts: seq<HintToken>)
    requires i <= j <= |u| && j == SkipSpaces(u, i) && HintFrom(u, j, ts, 0) == Some(e)
    requires SkipSpaces(u, e) == n
    ensures PatternAt(u, i, ts) == Some((n, ""))
  {
  }

  lemma {:induction false} PatternAtWhenNot(u: string, i: nat, j: nat, ts: seq<HintToken>)
    requires i <= j <= |u| && j == SkipSpaces(u, i) && HintFrom(u, j, ts, 0).None?
    ensures PatternAt(u, i, ts).None?
  {
  }

  /** The hint as the site writes it fits the pattern. */
  lemma {:induction false} SiteHintFits()
    ensures Fits(HintPattern, SiteHint)
  {
    var fs := SiteHint;
    forall k | 0 <= k < |HintPattern|
      ensures FillFits(HintPattern[k], fs[k])
    {
      assert k in {0, 1, 2, 3, 4, 5, 6, 7, 8, 9, 10, 11, 12, 13, 14};
    }
  }

  const SiteHint: seq<string> :=
    ["(right", " ", "click", " ", "and", " ", "'", "Save", " ", "Link/Target", " ", "As", "...", "'", ")"]

  /** `SkipSpaces` stops at the first character that is not whitespace. */
  lemma {:induction false} SkipSpacesBefore(s: string, i: nat, p: nat)
    requires i <= p < |s| && !IsSpace(s[p])
    ensures SkipSpaces(s, i) <= p
    decreases p - i
  {
    if i < p && IsSpace(s[i]) {
      SkipSpacesBefore(s, i + 1, p);
    }
  }

  lemma {:induction false} NotAt(u: string, j: nat, w: string, o: nat)
    requires o < |w| && j + o < |u| && u[j + o] != w[o]
    ensures !OccursAt(u, j, w)
  {
    if j + |w| <= |u| {
      assert u[j..j + |w|][o] == u[j + o];
    }
  }

  /** The hint is taken out of the text around it: the text before it is
      kept (it holds no `(right` and does not end with whitespace, which
      the match would take along) and the rewrite carries on after it. */
  lemma {:induction false} HintDropped(a: string, sp1: string, fs: seq<string>, sp2: string, b: string)
    requires Fits(HintPattern, fs) && Blank(sp1) && Blank(sp2)
    requires Absent(a, "(right") && (a == [] || !IsSpace(a[|a| - 1]))
    requires b == [] || !IsSpace(b[0])
    ensures Sub(HintAt, a + (sp1 + Concat(fs) + sp2) + b, 0) == a + Sub(HintAt, b, 0)
  {
    var h := sp1 + Concat(fs) + sp2;
    HintAround(a, sp1, fs, sp2, b, h);
    SubDropped(HintAt, a, h, b);
  }

  /** What `Scan.SubDropped` asks of the hint between `a` and `b`. */
  lemma {:induction false} HintAround(a: string, sp1: string, fs: seq<string>, sp2: string, b: string, h: string)
    requires Fits(HintPattern, fs) && Blank(sp1) && Blank(sp2) && h == sp1 + Concat(fs) + sp2
    requires Absent(a, "(right") && (a == [] || !IsSpace(a[|a| - 1]))
    requires b == [] || !IsSpace(b[0])
    ensures Advances(HintAt) && LooksForward(HintAt, a + h, b)
    ensures HintAt(a + h + b, |a|) == Some((|a| + |h|, ""))
    ensures forall k :: 0 <= k < |a| ==> HintAt(a + h + b, k).None?
  {
    HintBetween(a, sp1, fs, sp2, b, h);
    HintTextStart(fs);
    HintNoneBefore(a, h, b);
    HintLooksForward(a + h, b);
  }

  /** The hint exactly as the site writes it, right after `a` and right
      before `b`, is dropped. */
  lemma {:induction false} SiteHintDropped(a: string, b: string)
    requires Absent(a, "(right") && (a == [] || !IsSpace(a[|a| - 1]))
    requires b == [] || !IsSpace(b[0])
    ensures Sub(HintAt, a + Concat(SiteHint) + b, 0) == a + Sub(HintAt, b, 0)
  {
    SiteHintFits();
    assert "" + Concat(SiteHint) + "" == Concat(SiteHint);
    HintDropped(a, "", SiteHint, "", b);
  }

  /** No hint starts in `a`, which holds no `(right` and does not end with
      whitespace, when what follows starts with `(` or whitespace. */
  lemma {:induction false} HintNoneBefore(a: string, h: string, b: string)
    requires Absent(a, "(right") && (a == [] || !IsSpace(a[|a| - 1]))
    requires h != [] && (h[0] == '(' || IsSpace(h[0]))
    ensures forall k :: 0 <= k < |a| ==> HintAt(a + h + b, k).None?
  {
    forall k | 0 <= k < |a|
      ensures HintAt(a + h + b, k).None?
    {
      HintNotBefore(a, h, b, k);
    }
  }

  /** The hint pattern looks only forward, at every position of `y`. */
  lemma {:induction false} HintLooksForward(x: string, y: string)
    ensures LooksForward(HintAt, x, y)
  {
    forall k: nat | k <= |y|
      ensures HintAt(x + y, |x| + k) == ShiftBy(HintAt(y, k), |x|)
    {
      HintAtShift(x, y, k);
    }
  }

  /** The hint with its whitespace, after `a` and before a text `b` that
      does not start with whitespace, is one match that ends where `b`
      starts. */
  lemma {:induction false} HintBetween(a: string, sp1: string, fs: seq<string>, sp2: string, b: string, h: string)
    requires Fits(HintPattern, fs) && Blank(sp1) && Blank(sp2) && h == sp1 + Concat(fs) + sp2
    requires b == [] || !IsSpace(b[0])
    ensures HintAt(a + h + b, |a|) == Some((|a| + |h|, ""))
  {
    HintPatternGapsStop();
    HintTextStart(fs);
    PatternAround(a, sp1, sp2, b, h, fs, HintPattern);
  }

  /** The same for any pattern whose gaps stop and whose text does not
      start with whitespace. */
  lemma {:induction false} PatternAround(a: string, sp1: string, sp2: string, b: string, h: string, fs: seq<string>, ts: seq<HintToken>)
    requires Fits(ts, fs) && GapsStop(ts, 0) && Blank(sp1) && Blank(sp2)
    requires Concat(fs) != [] && !IsSpace(Concat(fs)[0]) && h == sp1 + Concat(fs) + sp2
    requires b == [] || !IsSpace(b[0])
    ensures PatternAt(a + h + b, |a|, ts) == Some((|a| + |h|, ""))
  {
    AroundPositions(a, sp1, Concat(fs), sp2, b, h);
    PatternRemoved(a + h + b, |a|, |a| + |sp1|, |a| + |sp1| + |Concat(fs)|, |a| + |h|, ts, fs);
  }

  /** Where the whitespace runs around a text `t` that does not start with
      whitespace stop, between `a` and a `b` that does not start with
      whitespace either. */
  lemma {:induction false} AroundPositions(a: string, sp1: string, t: string, sp2: string, b: string, h: string)
    requires Blank(sp1) && Blank(sp2) && t != [] && !IsSpace(t[0]) && h == sp1 + t + sp2
    requires b == [] || !IsSpace(b[0])
    ensures |a| + |sp1| <= |a + h + b| && SkipSpaces(a + h + b, |a|) == |a| + |sp1|
    ensures OccursAt(a + h + b, |a| + |sp1|, t)
    ensures SkipSpaces(a + h + b, |a| + |sp1| + |t|) == |a| + |h|
  {
    var u := a + h + b;
    var n := |a| + |h|;
    assert OccursAt(u, |a|, h) by {
      assert u[|a|..n] == h;
    }
    if n < |u| {
      assert u[n] == b[0];
    }
    HintSpans(u, |a|, sp1, t, sp2, n);
  }

  /** Before the hint, in text free of `(right` that does not end with
      whitespace, no match starts. */
  lemma {:induction false} HintNotBefore(a: string, h: string, b: string, k: nat)
    requires Absent(a, "(right") && k < |a| && !IsSpace(a[|a| - 1])
    requires h != [] && (h[0] == '(' || IsSpace(h[0]))
    ensures HintAt(a + h + b, k).None?
  {
    var u := a + h + b;
    assert u[|a| - 1] == a[|a| - 1];
    SkipSpacesBefore(u, k, |a| - 1);
    var j := SkipSpaces(u, k);
    if j + 6 <= |a| {
      assert u[j..j + 6] == a[j..j + 6];
      assert !OccursAt(a, j, "(right");
    } else {
      assert u[|a|] == h[0];
      NotAt(u, j, "(right", |a| - j);
    }
    HintNone(u, k);
  }

  /** Where `(right` does not follow the whitespace, no hint starts. */
  lemma {:induction false} HintNone(u: string, i: nat)
    requires i <= |u| && !OccursAt(u, SkipSpaces(u, i), "(right")
    ensures HintAt(u, i).None?
  {
    PatternNone(u, i, HintPattern);
  }

  lemma {:induction false} PatternNone(u: string, i: nat, ts: seq<HintToken>)
    requires i <= |u| && ts != [] && ts[0].Word? && !OccursAt(u, SkipSpaces(u, i), ts[0].w)
    ensures PatternAt(u, i, ts).None?
  {
    FirstWordMissing(u, SkipSpaces(u, i), ts);
    PatternAtWhenNot(u, i, SkipSpaces(u, i), ts);
  }

  lemma {:induction false} FirstWordMissing(u: string, j: nat, ts: seq<HintToken>)
    requires j <= |u| && ts != [] && ts[0].Word? && !OccursAt(u, j, ts[0].w)
    ensures HintFrom(u, j, ts, 0).None?
  {
  }


  /** The hint pattern looks only forward. */
  lemma {:induction false} HintAtShift(x: string, y: string, k: nat)
    requires k <= |y|
    ensures HintAt(x + y, |x| + k) == ShiftBy(HintAt(y, k), |x|)
  {
    PatternAtShift(x, y, k, HintPattern);
  }

  lemma {:induction false} PatternAtShift(x: string, y: string, k: nat, ts: seq<HintToken>)
    requires k <= |y|
    ensures PatternAt(x + y, |x| + k, ts) == ShiftBy(PatternAt(y, k, ts), |x|)
  {
    var j := SkipSpaces(y, k);
    var r := HintFrom(y, j, ts, 0);
    ShiftFacts(x, y, k, ts, j, r);
    PatternAtParts(x + y, |x| + k, y, k, |x|, j, r, ts);
  }

  /** The whitespace and the pattern from `|x| + k` in `x + y` do what they
      do from `k` in `y`, `|x|` places on. */
  lemma {:induction false} ShiftFacts(x: string, y: string, k: nat, ts: seq<HintToken>, j: nat, r: Option<nat>)
    requires k <= |y| && j == SkipSpaces(y, k) && r == HintFrom(y, j, ts, 0)
    ensures |x| + k <= |x + y| && |x| + j <= |x + y| && SkipSpaces(x + y, |x| + k) == |x| + j
    ensures HintFrom(x + y, |x| + j, ts, 0) == ShiftBy0(r, |x|)
    ensures r.Some? ==> |x| + r.value <= |x + y| && SkipSpaces(x + y, |x| + r.value) == |x| + SkipSpaces(y, r.value)
  {
    SkipSpacesShift(x, y, k);
    HintFromShift(x, y, j, ts, 0);
    if r.Some? {
      SkipSpacesShift(x, y, r.value);
    }
  }

  /** The same, from what the whitespace and the pattern do at `i` in `u`
      and at `k` in `y`, `d` places apart. */
  lemma {:induction false} PatternAtParts(u: string, i: nat, y: string, k: nat, d: nat, j: nat, r: Option<nat>, ts: seq<HintToken>)
    requires i <= |u| && k <= |y| && j == SkipSpaces(y, k)
    requires d + j <= |u| && SkipSpaces(u, i) == d + j
    requires r == HintFrom(y, j, ts, 0) && HintFrom(u, d + j, ts, 0) == ShiftBy0(r, d)
    requires r.Some? ==> d + r.value <= |u| && SkipSpaces(u, d + r.value) == d + SkipSpaces(y, r.value)
    ensures PatternAt(u, i, ts) == ShiftBy(PatternAt(y, k, ts), d)
  {
    if r.Some? {
      PatternAtWhen(u, i, d + j, d + r.value, d + SkipSpaces(y, r.value), ts);
      PatternAtWhen(y, k, j, r.value, SkipSpaces(y, r.value), ts);
    } else {
      PatternAtWhenNot(y, k, j, ts);
      PatternAtWhenNot(u, i, d + j, ts);
    }
  }

  lemma {:induction false} SkipSpacesShift(x: string, y: string, k: nat)
    requires k <= |y|
    ensures SkipSpaces(x + y, |x| + k) == |x| + SkipSpaces(y, k)
    decreases |y| - k
  {
    if k < |y| {
      assert (x + y)[|x| + k] == y[k];
      SkipSpacesShift(x, y, k + 1);
    }
  }

  lemma {:induction false} HintFromShift(x: string, y: string, j: nat, ts: seq<HintToken>, p: nat)
    requires j <= |y| && p <= |ts|
    ensures HintFrom(x + y, |x| + j, ts, p) == ShiftBy0(HintFrom(y, j, ts, p), |x|)
    decreases |ts| - p
  {
    if p < |ts| {
      TokenEndShift(x, y, j, ts[p]);
      var next := TokenEnd(y, j, ts[p]);
      if next.Some? {
        HintFromShift(x, y, next.value, ts, p + 1);
      }
    }
  }

  /** `r` moved `n` places on. */
  function ShiftBy0(r: Option<nat>, n: nat): (s: Option<nat>)
    ensures s.Some? <==> r.Some?
    ensures s.Some? ==> s.value == r.value + n
  {
    if r.Some? then Some(r.value + n) else None
  }

  lemma {:induction false} TokenEndShift(x: string, y: string, j: nat, t: HintToken)
    requires j <= |y|
    ensures TokenEnd(x + y, |x| + j, t) == ShiftBy0(TokenEnd(y, j, t), |x|)
  {
    var u := x + y;
    match t {
      case Word(w) =>
        OccursShift(x, y, j, w);
      case Gap =>
        if j < |y| {
          assert u[|x| + j] == y[j];
          SkipSpacesShift(x, y, j);
        }
      case Quote =>
        if j < |y| {
          assert u[|x| + j] == y[j];
        }
      case AnyChars(n) =>
    }
  }

  lemma {:induction false} OccursShift(x: string, y: string, j: nat, w: string)
    requires j <= |y|
    ensures OccursAt(x + y, |x| + j, w) == OccursAt(y, j, w)
  {
    if j + |w| <= |y| {
      assert (x + y)[|x| + j..|x| + j + |w|] == y[j..j + |w|];
    }
  }

  // ---------------------------------------------------------------------
  // `\\href{problem=(?P<problem_id>\d+)}{(?P<href_target>[^}]*?)}` and
  // `\\href{about=(?P<about_id>[^}]+)}{(?P<href_target>[^}]*?)}`.

  const ProblemOpen := @"\href{problem="
  const AboutOpen := @"\href{about="

  /** A problem link becomes a reference to the problem's label. */
  function ProblemLinkAt(u: string, i: nat): (r: Option<(nat, string)>)
    ensures r.Some? ==> i < r.value.0 <= |u|
  {
    if !OccursAt(u, i, ProblemOpen) then None
    else
      var k := i + |ProblemOpen|;
      var d := DigitsEnd(u, k);
      var cap := if k < d then CaptionAt(u, d) else None;
      if cap.Some? then Some((cap.value.0, HyperrefText("sec:problem_" + u[k..d], cap.value.1))) else None
  }

  /** An appendix link becomes a reference to the appendix page's label. */
  function AboutLinkAt(u: string, i: nat): (r: Option<(nat, string)>)
    ensures r.Some? ==> i < r.value.0 <= |u|
  {
    if !OccursAt(u, i, AboutOpen) then None
    else
      var k := i + |AboutOpen|;
      var c := FindChar(u, k, '}');
      var cap := if k < c then CaptionAt(u, c) else None;
      if cap.Some? then Some((cap.value.0, HyperrefText(AboutKey("about=" + u[k..c]), cap.value.1))) else None
  }

  /** A link with target `open` + `x` and caption `l`. */
  function LinkText(open: string, x: string, l: string): string
  {
    open + x + "}{" + l + "}"
  }

  /** Where the parts of a link lie in its text. */
  lemma LinkLayout(open: string, x: string, l: string)
    ensures var t, n := LinkText(open, x, l), |open|;
      && |t| == n + |x| + |l| + 3
      && t[0..n] == open && t[n..n + |x|] == x && t[n + |x|..n + |x| + 2] == "}{"
      && t[n + |x| + 2..n + |x| + 2 + |l|] == l && t[n + |x| + 2 + |l|] == '}'
  {
  }

  /** The parts of such a link, found where it occurs. */
  lemma LinkTransfer(u: string, i: nat, t: string, open: string, x: string, l: string)
    requires OccursAt(u, i, t)
    requires var n := |open|;
      && |t| == n + |x| + |l| + 3
      && t[0..n] == open && t[n..n + |x|] == x && t[n + |x|..n + |x| + 2] == "}{"
      && t[n + |x| + 2..n + |x| + 2 + |l|] == l && t[n + |x| + 2 + |l|] == '}'
    ensures var k := i + |open|;
      && k + |x| + |l| + 3 <= |u|
      && OccursAt(u, i, open) && u[k..k + |x|] == x && OccursAt(u, k + |x|, "}{")
      && u[k + |x| + 2..k + |x| + 2 + |l|] == l && u[k + |x| + 2 + |l|] == '}'
  {
    var n := |open|;
    OccursPiece(u, i, t, 0, n);
    OccursPiece(u, i, t, n, n + |x|);
    OccursPiece(u, i, t, n + |x|, n + |x| + 2);
    OccursPiece(u, i, t, n + |x| + 2, n + |x| + 2 + |l|);
    OccursChar(u, i, t, n + |x| + 2 + |l|);
  }

  /** The caption part of such a link, from where its parts lie. */
  lemma CaptionFound(u: string, q: nat, l: string)
    requires '}' !in l && q + |l| + 3 <= |u| && OccursAt(u, q, "}{")
    requires u[q + 2..q + 2 + |l|] == l && u[q + 2 + |l|] == '}'
    ensures CaptionAt(u, q) == Some((q + |l| + 3, l))
  {
    forall k | q + 2 <= k < q + 2 + |l|
      ensures u[k] != '}'
    {
      assert u[k] == l[k - q - 2];
    }
    FindCharStops(u, q + 2, '}', q + 2 + |l|);
  }

  /** `\href{problem=N}{l}` for problem `id` becomes a reference to
      exactly the label its section carries. */
  lemma ProblemLinkResolves(u: string, i: nat, id: nat, l: string)
    requires '}' !in l
    requires OccursAt(u, i, LinkText(ProblemOpen, NatToString(id), l))
    ensures ProblemLinkAt(u, i)
      == Some((i + |LinkText(ProblemOpen, NatToString(id), l)|, HyperrefText(ProblemKey(id), l)))
  {
    var n := NatToString(id);
    LinkLayout(ProblemOpen, n, l);
    LinkTransfer(u, i, LinkText(ProblemOpen, n, l), ProblemOpen, n, l);
    ProblemLinkFound(u, i, n, l);
  }

  lemma ProblemLinkFound(u: string, i: nat, n: string, l: string)
    requires '}' !in l && n != [] && forall k :: 0 <= k < |n| ==> IsDigit(n[k])
    requires var k := i + |ProblemOpen|;
      && k + |n| + |l| + 3 <= |u|
      && OccursAt(u, i, ProblemOpen) && u[k..k + |n|] == n && OccursAt(u, k + |n|, "}{")
      && u[k + |n| + 2..k + |n| + 2 + |l|] == l && u[k + |n| + 2 + |l|] == '}'
    ensures ProblemLinkAt(u, i) == Some((i + |ProblemOpen| + |n| + |l| + 3, HyperrefText("sec:problem_" + n, l)))
  {
    var k := i + |ProblemOpen|;
    forall j | k <= j < k + |n|
      ensures IsDigit(u[j])
    {
      assert u[j] == n[j - k];
    }
    assert u[k + |n|] == '}';
    DigitsEndStops(u, k, |n|);
    CaptionFound(u, k + |n|, l);
  }

  /** `\href{about=x}{l}` becomes a reference to exactly the label of the
      appendix page whose URL path is `about=x`. */
  lemma AboutLinkResolves(u: string, i: nat, x: string, l: string)
    requires BraceFree(x) && '}' !in l
    requires OccursAt(u, i, LinkText(AboutOpen, x, l))
    ensures AboutLinkAt(u, i)
      == Some((i + |LinkText(AboutOpen, x, l)|, HyperrefText(AboutKey("about=" + x), l)))
  {
    LinkLayout(AboutOpen, x, l);
    LinkTransfer(u, i, LinkText(AboutOpen, x, l), AboutOpen, x, l);
    AboutLinkFound(u, i, x, l);
  }

  lemma AboutLinkFound(u: string, i: nat, x: string, l: string)
    requires BraceFree(x) && '}' !in l
    requires var k := i + |AboutOpen|;
      && k + |x| + |l| + 3 <= |u|
      && OccursAt(u, i, AboutOpen) && u[k..k + |x|] == x && OccursAt(u, k + |x|, "}{")
      && u[k + |x| + 2..k + |x| + 2 + |l|] == l && u[k + |x| + 2 + |l|] == '}'
    ensures AboutLinkAt(u, i) == Some((i + |AboutOpen| + |x| + |l| + 3, HyperrefText(AboutKey("about=" + x), l)))
  {
    var k := i + |AboutOpen|;
    forall j | k <= j < k + |x|
      ensures u[j] != '}'
    {
      assert u[j] == x[j - k];
    }
    assert u[k + |x|] == '}';
    FindCharStops(u, k, '}', k + |x|);
    CaptionFound(u, k + |x|, l);
  }

  // ---------------------------------------------------------------------
  // The four rewrites in the order `write` applies them.

  function ResolveLinks(u: string): string
  {
    var attached := Sub(AttachRewriteAt, u, 0);
    var unhinted := Sub(HintAt, attached, 0);
    var problems := Sub(ProblemLinkAt, unhinted, 0);
    Sub(AboutLinkAt, problems, 0)
  }
}
