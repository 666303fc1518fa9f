# Project Euler offline: the document builder

This project models the part of the Project Euler offline renderer that turns
downloaded problem pages into one LaTeX document. It covers two pieces of the
program:

- `DocumentBuilder`, in `project_euler_offline/document_builder.py`.
- The `--problems` range parser `iterate_problem_ids`, in
  `project_euler_offline/app.py`.

The builder does the following:

1. It turns inline CSS into class names and attaches them to the HTML.
2. It protects the formulas and converts the page with pandoc.
3. It styles the pandoc tree and records the colours it meets in a palette.
4. It puts the formulas back and cleans up the LaTeX.
5. It appends the page to the document, recording every
   `\includegraphics` path and `\href` target on the way.
6. At the end it rewrites animated images, resolves links, fills the
   document template and substitutes the characters of the fixed character
   table.

The modules follow that structure:

- `Style`: the style classifier and the HTML normaliser.
- `Doc`: a small pandoc-like tree and the palette.
- `Passes`: the inline and block styling passes.
- `Formula`: formula markers, restoration and clean-up.
- `Scan`: the leftmost-first scanning that `re.finditer` and `re.sub` share.
- `Links`: the scanners for `\includegraphics` and `\href`.
- `Animated`: `process_animated_resources`.
- `Rewrites`: the link rewrites of `write`.
- `Template`: `string.Template.substitute`.
- `Chars`: the character table.
- `Sections`: titles, headings and labels.
- `ProblemIds`: `iterate_problem_ids`.
- `Builder`: the `DocumentBuilder` class itself.
- `StringUtil` and `Wrappers`: support code.

Each regular expression is a hand-written scanner for that one pattern. A
scanner is a function that, given a text and a position, returns where the
match ends and what it captured. `Scan` then gives the leftmost,
non-overlapping search that `re.finditer` and `re.sub` perform.

pandoc, BeautifulSoup and the HTML serialiser are parameters of the methods
that use them (`readHtml`, `writeLatex`, `serialise`).

`DocumentBuilder` is a class with the source's fields:

- the palette;
- the class index;
- the three link sets;
- the output;
- the HTML debug record;
- the appendix flag.

It also has two ghost fields: every text appended (`pieces`) and the number
of appendix headers written (`appendixHeaders`). Its invariant `Valid()` says
three things:

- the link sets hold exactly the links of the texts appended;
- the palette is well formed;
- the appendix header was written once if the flag is set, and never
  otherwise.

## Model

| member | source | states |
|---|---|---|
| Style.StyleToClasses | project_euler_offline/document_builder.py:297-326 | the classes carry no duplicates; a colour class appears exactly when the lowercased style starts with a `color:` declaration, and is then `__COLOR__` + that value; otherwise every class is one of the seven fixed names |
| Style.StyleClassMembership | project_euler_offline/document_builder.py:300-324 | a class is produced exactly when its rule recognises the lowercased style (both directions) |
| Style.UnrecognisedStyle | project_euler_offline/document_builder.py:298-326 | a style no rule recognises gives no class |
| Style.HexColorClass | project_euler_offline/document_builder.py:302-303 | `color:` with optional spaces and `#` gives `__COLOR__` + the run of non-`;`, non-space characters, and it is the only colour class |
| Style.ColorValueSound | project_euler_offline/document_builder.py:302 | the anchored colour match succeeds exactly when the lowercased style has the `color:\s*#?[^;\s]+` shape at position 0, and then yields that run |
| Style.ColorValueComplete | project_euler_offline/document_builder.py:302 | every text of that shape yields its value |
| Style.FindDecl | project_euler_offline/document_builder.py:308-324 | `re.search` for `key:\s*value` finds a match exactly when one exists somewhere |
| Style.FindFamily | project_euler_offline/document_builder.py:305 | `font-family:[^;]*(courier new|monospace)` is found exactly when it occurs |
| Style.RuleFires | project_euler_offline/document_builder.py:305-324 | each class's search succeeds exactly when its rule holds |
| Style.Firing | project_euler_offline/document_builder.py:305-324 | the fixed classes produced are exactly those whose rule fires, without duplicates |
| Style.Union | project_euler_offline/document_builder.py:150-152 | the set union of two class lists: membership is either list's, without duplicates |
| Style.WrapExactlyWhenClassified | project_euler_offline/document_builder.py:141-155 | an element is wrapped exactly when it is a `p` or `blockquote` and its classes or derived classes are non-empty |
| Style.WrapperContents | project_euler_offline/document_builder.py:150-155 | the wrapper is a `div` whose classes are that union, holding the normalised element alone |
| Style.SpanClassesMerged | project_euler_offline/document_builder.py:157-163 | a span with a style keeps its tag and gets the union of its classes and the style's classes |
| Style.NothingRecognisedInEmpty | project_euler_offline/document_builder.py:152 | the empty style is recognised by no rule |
| Style.NormalisePreservesText | project_euler_offline/document_builder.py:140-165 | normalising never changes the text of the tree |
| Style.NormaliseChildrenPreservesText | project_euler_offline/document_builder.py:140-165 | the same for a list of children |
| Doc.ColorName | project_euler_offline/document_builder.py:283-290 | the colour lookup keeps the palette well formed, only appends to it, and the result names an entry holding the value |
| Doc.ColorNameSeen | project_euler_offline/document_builder.py:286-287 | a seen value reuses its name and leaves the palette unchanged |
| Doc.ColorNameUnseen | project_euler_offline/document_builder.py:288-290 | an unseen value is named `CustomColor{n}` (n the number of entries) and appended |
| Doc.PaletteNamesDistinct | project_euler_offline/document_builder.py:289-290 | in a well-formed palette no two entries share a name |
| Doc.FindColor | project_euler_offline/document_builder.py:286 | the lookup returns an index holding the value, or none exists |
| Doc.Around | project_euler_offline/document_builder.py:278-282 | wrapping adds one item at each end and keeps the content in the middle |
| Doc.InlinesTextConcat | project_euler_offline/document_builder.py:279-282 | the text of inline lists is additive |
| Doc.Surrounded | project_euler_offline/document_builder.py:279-282 | raw LaTeX around content adds no text |
| Doc.ExtendsTrans | project_euler_offline/document_builder.py:286-290 | extending the palette is transitive |
| Passes.WrapWithShape | project_euler_offline/document_builder.py:276-282 | wrapping by a class list gives raw prefixes + the content + raw suffixes, one pair per styled class |
| Passes.CenterOutermost | project_euler_offline/document_builder.py:247-262 | with `center` or `margin_left`, `\begin{center}` and `\end{center}` end up outermost |
| Passes.BlockWrapOuter | project_euler_offline/document_builder.py:256-262 | any block style puts the centre pair at the very ends |
| Passes.ColorClassesIgnoredOnBlocks | project_euler_offline/document_builder.py:247-262 | `__COLOR__` classes on a block add nothing |
| Passes.ColorClassesUnstyled | project_euler_offline/document_builder.py:249-257 | a list of `__COLOR__` classes wraps nothing, by either style table |
| Passes.ColorClassNotStyled | project_euler_offline/document_builder.py:55-104 | no style-table key starts with `__COLOR__` |
| Passes.StyleSpanClass | project_euler_offline/document_builder.py:276-295 | styling a span by one class only extends the palette and keeps it well formed |
| Passes.StyleSpanClasses | project_euler_offline/document_builder.py:276-295 | the same for the span's whole class list |
| Passes.SpanColorsRegistered | project_euler_offline/document_builder.py:283-290 | every colour a span names ends up in the palette, and every new entry comes from one of its classes |
| Passes.SpanWithoutColors | project_euler_offline/document_builder.py:276-282 | a span without colour classes is wrapped by the inline table and the palette is unchanged |
| Passes.SpanShape | project_euler_offline/document_builder.py:276-295 | the styled span is raw prefixes + the original content + as many raw suffixes |
| Passes.InlinePassInlines | project_euler_offline/document_builder.py:264-295 | the inline pass keeps list lengths, only extends the palette and keeps it well formed |
| Passes.InlinePassBlocks | project_euler_offline/document_builder.py:264-295 | the same over blocks |
| Passes.InlinePassInlinesText | project_euler_offline/document_builder.py:264-295 | the inline pass never changes the document's text |
| Passes.InlinePassBlocksText | project_euler_offline/document_builder.py:264-295 | the same over blocks |
| Passes.NewColorSpan | project_euler_offline/document_builder.py:283-295 | a span with one unseen colour appends that colour under the next `CustomColor{n}` name |
| Passes.TextNeedsNoColor | project_euler_offline/document_builder.py:266-267 | plain text is not touched |
| Passes.LastSpanNumberedFirst | project_euler_offline/document_builder.py:275 | in reverse document order the last span's colour is numbered first |
| Passes.InlinesConcat | project_euler_offline/document_builder.py:268-275 | the pass over `xs + ys` handles `ys` first and `xs` from the palette `ys` leaves, and returns both rewritten in place |
| Passes.LastSiblingNumberedFirst | project_euler_offline/document_builder.py:275-291 | whatever precedes it, a last sibling span with a new colour gets the next number, before any colour of its earlier siblings |
| Passes.GoverningClassesNearestDiv | project_euler_offline/document_builder.py:231-239 | a Para/Plain gets classes exactly when its nearest Div ancestor is reached through block quotes and lists only |
| Passes.MatchBlockClasses | project_euler_offline/document_builder.py:231-239 | the ancestor walk returns the governing classes |
| Passes.ParagraphPlacement | project_euler_offline/document_builder.py:231-245 | a paragraph directly or through a block quote in a Div gets its classes; one under another node gets none |
| Passes.RootGovernsNothing | project_euler_offline/document_builder.py:238-239 | reaching the root yields nothing |
| Passes.TransformDocument | project_euler_offline/document_builder.py:226-228 | both passes only extend the palette and keep it well formed |
| Passes.TransformDocumentText | project_euler_offline/document_builder.py:226-295 | styling never changes the document's text |
| Passes.StyledBlockText | project_euler_offline/document_builder.py:247-262 | block styling adds no text |
| Passes.BlockPassBlocksText | project_euler_offline/document_builder.py:230-262 | the block pass never changes the document's text |
| Formula.Marker | project_euler_offline/document_builder.py:172 | a marker starts with `LATEX-` |
| Formula.MarkersDistinct | project_euler_offline/document_builder.py:171-172 | distinct markers never occur in one another |
| Formula.MarkerInMarker | project_euler_offline/document_builder.py:171-172 | a marker occurs in another only if it is the same marker at position 0 |
| Formula.MarkerPrefix | project_euler_offline/document_builder.py:172 | no marker is a prefix of another |
| Formula.Protect | project_euler_offline/document_builder.py:170-183 | one pass only appends to the list of protected spans |
| Formula.ProtectSome | project_euler_offline/document_builder.py:170-177 | the leftmost span is replaced by the next marker and recorded |
| Formula.ProtectNone | project_euler_offline/document_builder.py:176-183 | with no span the text is unchanged |
| Formula.NextSpanLeftmost | project_euler_offline/document_builder.py:176-183 | the span found is the leftmost one |
| Formula.UnescapePlain | project_euler_offline/document_builder.py:190-192 | a span without `&` is restored unchanged |
| Formula.ProtectThenRestore | project_euler_offline/document_builder.py:168-193 | protecting then restoring (in the corrected order) gives back any text free of markers whose protected spans hold no `&amp;`, `&lt;` or `&gt;`; entities outside the spans are kept |
| Formula.ProtectRestores | project_euler_offline/document_builder.py:176-193 | for one pass, restoring the markers gives back the text with each protected span in place and `&amp;`/`&lt;`/`&gt;` unescaped inside it; the text between spans is untouched |
| Formula.UnescapeSpansFixed | project_euler_offline/document_builder.py:189-193 | when no recorded span holds an entity, putting the spans back gives back the text |
| Formula.UnescapeSpansNoMarkers | project_euler_offline/document_builder.py:189-193 | putting the unescaped spans back creates no marker that was not there |
| Formula.UnescapeNoMarkers | project_euler_offline/document_builder.py:190-192 | unescaping `&amp;`, `&lt;` and `&gt;` creates no marker |
| Formula.ReplaceKeepsAbsent | project_euler_offline/document_builder.py:190-192 | replacing an entity by a character that no marker holds creates no marker word |
| Formula.UnescapeEdges | project_euler_offline/document_builder.py:190-192 | unescaping keeps a first character that is not `&` and a last one that cannot end an entity |
| Formula.SpanEdges | project_euler_offline/document_builder.py:176-183 | a protected span starts with `$` or `\` and ends with `$` or `]` |
| Formula.NestedExamplePlain | project_euler_offline/document_builder.py:176-193 | the nested example holds no marker and its recorded spans hold no entity |
| Formula.CreationOrderLeavesMarker | project_euler_offline/document_builder.py:176-193 | for `\[$a$\]` restoring in creation order leaves a marker; the corrected order restores the text |
| Formula.StarIdempotent | project_euler_offline/document_builder.py:210-214 | forcing the starred environments twice equals doing it once |
| Formula.StarOutputFree | project_euler_offline/document_builder.py:210-214 | after the rewrite no unstarred `align`/`equation` begin or end remains |
| Formula.StarFreeUnchanged | project_euler_offline/document_builder.py:210-214 | text without them is unchanged |
| Formula.StarFromSpec | project_euler_offline/document_builder.py:211 | the pattern matches exactly at an unstarred begin or end |
| Formula.CollapseOpenShape | project_euler_offline/document_builder.py:196-201 | a match is an opening delimiter, spaces and a `\begin{…}`, replaced by the `\begin` |
| Formula.CollapseOpenFound | project_euler_offline/document_builder.py:196-201 | every such layout is matched |
| Formula.CollapseCloseShape | project_euler_offline/document_builder.py:202-207 | a match is an `\end{…}`, spaces and a closing delimiter, replaced by the `\end` |
| Formula.CollapseCloseFound | project_euler_offline/document_builder.py:202-207 | every such layout is matched |
| Links.GraphicsRoundTrip | project_euler_offline/document_builder.py:359-361 | an `\includegraphics[o]{p}` is recognised with its options and path |
| Links.GraphicsShape | project_euler_offline/document_builder.py:359-361 | what is recognised is exactly such a command |
| Links.HrefRoundTrip | project_euler_offline/document_builder.py:366-368 | an `\href{t}{l}` is recognised with its target and label |
| Links.HrefShape | project_euler_offline/document_builder.py:366-368 | what is recognised is exactly such a command, with non-empty brace-free parts |
| Links.BracedRoundTrip | project_euler_offline/document_builder.py:360-367 | a `{…}` group with no `}` is read back whole |
| Links.GraphicsPathsSound | project_euler_offline/document_builder.py:359-364 | every resource path recorded is the path of a command in the text |
| Links.GraphicsPathsComplete | project_euler_offline/document_builder.py:359-364 | every command in the text has its path recorded, unless it starts inside an earlier match |
| Links.HrefTargetsSound | project_euler_offline/document_builder.py:366-373 | every target recorded is of its kind and comes from a command in the text |
| Links.HrefTargetsComplete | project_euler_offline/document_builder.py:366-373 | every `\href` in the text is recorded under its kind, unless it starts inside an earlier match |
| Links.KindsDisjoint | project_euler_offline/document_builder.py:371-373 | no target is both embedded and appendix |
| Scan.FindAllSound | project_euler_offline/document_builder.py:359-366 | `finditer` reports only real matches, in order and without overlap |
| Scan.FindAllComplete | project_euler_offline/document_builder.py:359-366 | every match is reported or lies inside a reported one |
| Scan.NextLeftmost | project_euler_offline/document_builder.py:359-366 | the search finds the leftmost match |
| Scan.SubNoMatch | project_euler_offline/document_builder.py:428-432 | `re.sub` without a match leaves the text alone |
| Scan.SubIdentity | project_euler_offline/document_builder.py:427-432 | `re.sub` whose replacements are the matched text leaves the text alone |
| Animated.Lookup | project_euler_offline/document_builder.py:401-404 | the lookup's keys are the records' URL paths and each value is a record with that path |
| Animated.LastWins | project_euler_offline/document_builder.py:401-404 | for records sharing a URL path the last one wins |
| Animated.AnimationOf | project_euler_offline/document_builder.py:408-420 | frames run from 0 to frame_count-1 at rate 1, over the file path without its suffix followed by `-`; the options are the fixed ones, plus `,` and the old options when those are non-empty |
| Animated.RecordReplacedAt | project_euler_offline/document_builder.py:406-427 | a command whose path has a record is replaced by that record's replacement |
| Animated.FirstCommandReplaced | project_euler_offline/document_builder.py:400-432 | the first command naming a resource is replaced by the replacement of the last record listing its path, the text before it is kept and the rewrite resumes after it |
| Scan.NextAt | project_euler_offline/document_builder.py:427-432 | the search finds the first position where the pattern matches |
| Scan.SubFirst | project_euler_offline/document_builder.py:427-432 | `re.sub` keeps the text before the first match, puts its replacement in its place and goes on after it |
| Scan.NextSuffix | project_euler_offline/document_builder.py:474-479 | for a pattern that looks only forward, the search from a position of `y` inside `x + y` finds what it finds in `y`, moved by `|x|` |
| Scan.SubSuffix | project_euler_offline/document_builder.py:474-479 | for such a pattern, `re.sub` from a position of `y` inside `x + y` is `re.sub` on `y` alone |
| Scan.SubThrough | project_euler_offline/document_builder.py:474-479 | when the first match ends where `x` ends, `re.sub` over `x + y` is the text before the match, its replacement, and `re.sub` over `y` |
| Scan.SubDropped | project_euler_offline/document_builder.py:474-479 | a first match `h` after `a` replaced by nothing: `re.sub` over `a + h + y` is `a` followed by `re.sub` over `y` |
| Animated.NoRecordUnchanged | project_euler_offline/document_builder.py:406-432 | a document naming no recorded resource is left byte for byte unchanged |
| Animated.StillIsGraphics | project_euler_offline/document_builder.py:421-423 | a one-frame resource becomes `\includegraphics{file.png}`, without options |
| Animated.WithSuffixRoundTrip | project_euler_offline/document_builder.py:412-422 | `with_suffix` keeps the directory and stem and gives the new suffix |
| Animated.DirName | project_euler_offline/document_builder.py:412-422 | a path is its directory followed by a slash-free name |
| Rewrites.AttachResolves | project_euler_offline/document_builder.py:467-472 | `\href{base + name}{l}`, with a base that is empty or ends in `/` and holds no whitespace or `}`, a filename without `/` or `}` ending in `.txt` and a label without `}`, becomes the attachment of exactly that base, filename and label, ending where the link ends |
| Rewrites.AttachCorrected | project_euler_offline/document_builder.py:467-472 | with the dot escaped, an attachment's filename ends in `.txt` and has no `/`, its base ends with `/`, and base + filename is an embedded target |
| Rewrites.AttachAsWrittenSlash | project_euler_offline/document_builder.py:468 | as written, `\href{a/txt}{l}` is taken as an attachment named `a/txt`, which is not an embedded target |
| Rewrites.AttachCorrectedSlash | project_euler_offline/document_builder.py:468 | with the dot escaped, that link is left alone |
| Rewrites.HintAbsent | project_euler_offline/document_builder.py:474-479 | text without `(right` is left unchanged |
| Rewrites.HintStart | project_euler_offline/document_builder.py:475 | a removed hint starts, after spaces, with `(right` |
| Rewrites.HintRemoved | project_euler_offline/document_builder.py:474-479 | whitespace, then a text that fits the hint pattern, then whitespace, is one match that ends where the whitespace after it stops and is replaced by nothing |
| Rewrites.PatternRemoved | project_euler_offline/document_builder.py:474-479 | the same for any pattern built from words, whitespace runs, quotes and fixed-width runs, whose whitespace runs are followed by a word or a quote |
| Rewrites.HintFromConcat | project_euler_offline/document_builder.py:475 | the pattern's elements match, one after another, the pieces of a text that fits them, and end where the text ends |
| Rewrites.SiteHintFits | project_euler_offline/document_builder.py:475 | `(right click and 'Save Link/Target As...')`, as the site writes it, fits the pattern |
| Rewrites.HintBetween | project_euler_offline/document_builder.py:474-479 | a hint with whitespace around it, between a text not ending in whitespace and one not starting with whitespace, is matched from the start of that whitespace to its end |
| Rewrites.HintNoneBefore | project_euler_offline/document_builder.py:474-479 | no match starts inside a text that holds no `(right` and does not end in whitespace, when a `(` or whitespace follows it |
| Rewrites.HintAtShift | project_euler_offline/document_builder.py:474-479 | the pattern looks only forward: what it matches from a position of `y` is the same inside `x + y`, moved by `|x|` |
| Rewrites.HintDropped | project_euler_offline/document_builder.py:474-479 | the hint and the whitespace around it disappear: `re.sub` over `a + hint + b` gives `a` followed by `re.sub` over `b`, for an `a` with no `(right` that does not end in whitespace |
| Rewrites.SiteHintDropped | project_euler_offline/document_builder.py:474-479 | the hint exactly as the site writes it disappears, in the same way |
| Rewrites.ProblemLinkResolves | project_euler_offline/document_builder.py:482-487 | `\href{problem=N}{L}` becomes `\hyperref[sec:problem_N]{L}`, the label of problem N |
| Rewrites.AboutLinkResolves | project_euler_offline/document_builder.py:490-495 | `\href{about=X}{L}` becomes `\hyperref[sec:about=X]{L}`, the label of that appendix page |
| Sections.ParseTitle | project_euler_offline/document_builder.py:444-448 | the problem name parsed from a title holds no line break |
| Sections.ParseTitleRoundTrip | project_euler_offline/document_builder.py:444-448 | `#N`, spaces, a name and ` - Project Euler` parse back to that name |
| Sections.AboutTitleStrips | project_euler_offline/document_builder.py:386-390 | `About`, any three characters and spaces are removed from the heading |
| Sections.AboutTitleKeeps | project_euler_offline/document_builder.py:386-390 | a heading without `About` is kept |
| Sections.ProblemKeyInjective | project_euler_offline/document_builder.py:454-455 | distinct problems get distinct labels |
| Sections.ProblemHeaderLabelLine | project_euler_offline/document_builder.py:453-454 | a problem heading ends with its label on a line of its own and a blank line |
| Sections.AboutHeaderLabelLine | project_euler_offline/document_builder.py:393-394 | the corrected appendix heading ends the same way |
| Sections.AboutHeaderAsWrittenOneLine | project_euler_offline/document_builder.py:393-394 | as written, the appendix heading holds no line break at all |
| Chars.SubstituteCharacters | project_euler_offline/document_builder.py:505-506 | the replace loop over the table equals translating each character on its own |
| Chars.ApplyTableTranslates | project_euler_offline/document_builder.py:505-506 | when no replacement holds a later key, the sequence of `str.replace` calls translates every character independently |
| Chars.CharTableNoLaterKey | project_euler_offline/document_builder.py:21-53 | no value of the table contains a later key |
| Chars.CharTableKeys | project_euler_offline/document_builder.py:21-53 | the table's keys are distinct non-ASCII characters |
| Template.FillsTwoSlots | project_euler_offline/document_builder.py:500-503 | a template with two `${name}` slots gives its text around the two values |
| Template.FillsBetween | project_euler_offline/document_builder.py:500-503 | a template with one slot gives its text around the value |
| Template.EscapedAlone | project_euler_offline/document_builder.py:500-503 | `$$` gives a dollar sign and nothing else changes |
| Template.NoDelimiterUnchanged | project_euler_offline/document_builder.py:500-503 | a template without `$` is returned unchanged |
| Template.MissingNameFails | project_euler_offline/document_builder.py:500-503 | a slot naming no value is an error |
| Template.StrayDelimiterFails | project_euler_offline/document_builder.py:500-503 | a `$` followed by a space or the end is an error |
| Template.NamedPlaceholder | project_euler_offline/document_builder.py:500-503 | `$name` is filled like `${name}` |
| ProblemIds.Range | project_euler_offline/app.py:210-211 | `range(a, b + 1)`: b-a+1 values a, a+1, …, b, or none when a > b |
| ProblemIds.ParseIntPadded | project_euler_offline/app.py:207-213 | `int` accepts a number surrounded by spaces |
| ProblemIds.ParseIntNat | project_euler_offline/app.py:207-213 | `int` reads back a written number |
| ProblemIds.SelectionRoundTrip | project_euler_offline/app.py:206-213 | a group `n` gives [n] and a group `a-b` gives a, …, b |
| ProblemIds.OptionRoundTrip | project_euler_offline/app.py:204-213 | a comma-joined list of groups expands to the groups' numbers, left to right |
| ProblemIds.ExpandSelections | project_euler_offline/app.py:205-213 | the groups are expanded in order and concatenated |
| ProblemIds.ExpandFails | project_euler_offline/app.py:205-213 | one failing group fails the whole list |
| ProblemIds.TwoDashesFail | project_euler_offline/app.py:206-209 | `a-b-c` is an error (too many values to unpack) |
| ProblemIds.TrailingCommaFails | project_euler_offline/app.py:205-213 | a trailing comma gives an empty group, which `int` rejects |
| ProblemIds.ProblemIdsNatural | project_euler_offline/app.py:203-213 | every id produced is non-negative |
| ProblemIds.GroupNonNegative | project_euler_offline/app.py:206-213 | every id of one group is non-negative |
| StringUtil.SplitJoin | project_euler_offline/app.py:205-208 | `str.split` undoes joining by a separator the parts do not hold |
| StringUtil.StripPadded | project_euler_offline/app.py:208 | `str.strip` removes surrounding whitespace only |
| StringUtil.Lower | project_euler_offline/document_builder.py:300 | lowering keeps the length and lowers each character |
| StringUtil.ReplaceAbsent | project_euler_offline/document_builder.py:193 | `str.replace` of an absent pattern changes nothing |
| Builder.DocumentBuilder.constructor | project_euler_offline/document_builder.py:117-128 | the builder starts empty, with the given spacing, and valid |
| Builder.DocumentBuilder.ParseLatexLinks | project_euler_offline/document_builder.py:358-373 | the three sets gain exactly the text's graphics paths, `.txt` targets and `about=` targets; nothing else changes |
| Builder.GraphicsIn | project_euler_offline/document_builder.py:359-364 | the first loop collects exactly the text's graphics paths |
| Builder.HrefsIn | project_euler_offline/document_builder.py:366-373 | the second loop collects exactly the `.txt` and the `about=` targets |
| Builder.DocumentBuilder.AppendLatexContent | project_euler_offline/document_builder.py:344-346 | the links are recorded, the text is appended, and the invariant holds |
| Builder.DocumentBuilder.AppendLatexContentPage | project_euler_offline/document_builder.py:348-352 | in spaced mode the page break precedes every page, the first included |
| Builder.DocumentBuilder.AppendProblemLatexContent | project_euler_offline/document_builder.py:354-356 | the page and then a blank line are appended |
| Builder.DocumentBuilder.AppendAboutLatexContent | project_euler_offline/document_builder.py:328-342 | the appendix header is appended before the first appendix page only; afterwards it has been written exactly once; the texts appended and the links recorded are those of header, page and blank line |
| Builder.DocumentBuilder.AppendAppendixHeaderOnce | project_euler_offline/document_builder.py:329-339 | the header is appended and the flag set only when the flag was clear; afterwards it has been written exactly once |
| Builder.DocumentBuilder.RecordedAfter | project_euler_offline/document_builder.py:344-373 | the link sets are those of the texts appended before plus those of the texts appended since |
| Builder.PiecesLinksConcat | project_euler_offline/document_builder.py:358-373 | the links of two runs of texts are the union of the links of each |
| Builder.DocumentBuilder.ParseProblemHtmlSoup | project_euler_offline/document_builder.py:375-380 | each class of each tag, in order, records the problem in the class index |
| Builder.IndexClasses | project_euler_offline/document_builder.py:376-380 | the nested loops build exactly that index |
| Builder.RecordUsesCounts | project_euler_offline/document_builder.py:375-380 | each class's list gains the problem once per occurrence; other lists are unchanged |
| Builder.RecordUsesKeys | project_euler_offline/document_builder.py:375-380 | the index gains exactly the classes met |
| Builder.DocumentBuilder.TransformHtmlToLatex | project_euler_offline/document_builder.py:167-224 | the result is the protected, styled, converted, stripped, restored and cleaned page; the palette only grows |
| Builder.DocumentBuilder.ProcessProblemHtml | project_euler_offline/document_builder.py:434-461 | the classes are indexed first; the call succeeds exactly when the title parses; then the heading, label and page are appended and the HTML goes to the debug record |
| Builder.DocumentBuilder.AppendProblemPage | project_euler_offline/document_builder.py:452-461 | the page is the heading and label followed by the converted content; the debug record gains the HTML |
| Builder.DocumentBuilder.ProcessAboutHtml | project_euler_offline/document_builder.py:382-398 | the page (corrected heading, label, content) is appended as a page without the appendix header |
| Builder.DocumentBuilder.ProcessAnimatedResources | project_euler_offline/document_builder.py:400-432 | the output is rewritten by the animated-resource rewrite; the invariant holds |
| Builder.DocumentBuilder.BuildLatexPreamble | project_euler_offline/document_builder.py:130-138 | the loop builds one `\definecolor` line per palette entry, in order |
| Builder.PreambleLines | project_euler_offline/document_builder.py:130-138 | the preamble splits into exactly the entries' `\definecolor{name}{HTML}{value}` lines, in insertion order |
| Builder.DocumentBuilder.Write | project_euler_offline/document_builder.py:463-506 | the links are resolved, the template is filled with preamble and content, and the characters are substituted; a template error is returned as is |
| Builder.WriteFillsTemplate | project_euler_offline/document_builder.py:497-503 | a template with the two slots gives the preamble and the resolved content in place |

## Left out

- I/O is not modelled: reading the template, writing the `.tex` and the two
  debug files, and the debug class listing (lines 508-519).
- pandoc's reader and writer, BeautifulSoup's parser and `str(tag)` are
  opaque function parameters. `find_all` is the pre-order list of
  descendants (`Builder.DescendantClasses`).
- `extract_page_title` removes the heading from the page; the model takes
  the heading and the page without it as separate arguments.
- Solo-image centring (lines 217-222) is not modelled. `Formula.CleanLatex`
  stops after the starred-environment rewrite.
- Python set order is not modelled. Class sets are sequences without
  duplicates, and every property is stated about membership.
- `\s`, `str.strip` and the padding `int` accepts use Python's full
  whitespace set (`StringUtil.IsSpace`). `\d`, `int`'s digits and
  `str.lower` are modelled for ASCII only: Unicode digits and case
  mappings are not.
- Rewrites.HintDropped and Rewrites.SiteHintDropped require that the text
  before the hint does not end in whitespace and the text after it does
  not start with whitespace. The pattern's leading and trailing `\s*` take
  any such whitespace along, so those cases are stated by putting the
  whitespace into the hint's own blank runs. A `(right` before the hint
  may start a match of its own, so the text before it must not hold one.
- `int` error messages and the `ValueError` text are not modelled. A failed
  parse is an `Err`.
- `iterate_problem_ids` is a generator consumed with `list(...)`. The model
  returns the whole list or an error, so ids before the first bad group are
  not yielded separately.
- `pathlib` normalisation of resource paths is not modelled: `with_suffix`
  works on the string. A record whose file name is empty, which
  `with_suffix` would reject, is copied unchanged by `Animated.AnimateAt`.
- Builder.DocumentBuilder.ProcessProblemHtml: when the title does not
  parse, the source raises. The model returns `false` with only the class
  index updated, as the source leaves it.
- Builder.DocumentBuilder.ProcessAboutHtml uses the corrected appendix
  heading (see Findings). The heading as written is
  `Sections.AboutHeaderAsWritten`.
- Builder.DocumentBuilder.TransformHtmlToLatex restores the markers in
  reverse creation order, the corrected order of the first Findings row.
  The source restores them in creation order, which is
  `Formula.RestoreInCreationOrder`.
- Builder.DocumentBuilder.ProcessProblemHtml converts through
  `TransformHtmlToLatex`, so it restores in the corrected order too.
- Builder.DocumentBuilder.AppendProblemPage converts through
  `TransformHtmlToLatex`, so it restores in the corrected order too.
- Builder.DocumentBuilder.ProcessAboutHtml converts through
  `TransformHtmlToLatex`, so it restores in the corrected order too.
- Builder.DocumentBuilder.Write resolves attachment links with the
  corrected pattern `\.txt` of the second Findings row. The source's
  pattern has an unescaped dot, which is
  `Rewrites.AttachRewriteAsWrittenAt`.
- Formula.ProtectThenRestore is stated for texts whose protected spans
  hold no entity. With entities inside the spans, the round trip is
  stated one pass at a time (`Formula.ProtectRestores`).
- The pandoc tree has only the node kinds the passes treat differently.
  Other kinds (ordered lists, tables, code blocks, other inlines) are not
  modelled. The passes only walk through their children, as they do for
  `Header`, `BulletList`, `Emph` and `Note`.
- The spaced page break also precedes the first page. This follows the code
  (lines 348-352), not a reading where breaks only separate pages.
- Template placeholders follow `string.Template`'s default pattern with
  ASCII identifiers. Only `substitute` is modelled, and a missing key is an
  `Err` whose text names the key.

## Findings

| source | as written | input that shows it | evidently intended | confidence | as-written member | corrected member |
|---|---|---|---|---|---|---|
| project_euler_offline/document_builder.py:189-193 | markers are restored in creation order, so a span protected by a later pass that contains an earlier marker puts that marker back after it was replaced | `\[$a$\]`: `$a$` becomes marker 0, then `\[LATEX-0-SUBSTITUTION\]` becomes marker 1; restoring 0 then 1 leaves `LATEX-0-SUBSTITUTION` in the output | restore in reverse creation order, which gives back the original text | not executed | Formula.CreationOrderLeavesMarker | Formula.ProtectThenRestore |
| project_euler_offline/document_builder.py:468 | `[^\/}]*?.txt` has an unescaped dot, so any character, `/` included, may precede `txt` | `\href{a/txt}{l}` becomes an attachment named `a/txt`, though no `.txt` file is linked | `\.txt`: the filename ends in `.txt` and holds no `/` | not executed | Rewrites.AttachAsWrittenSlash | Rewrites.AttachCorrected |
| project_euler_offline/document_builder.py:393-394 | the appendix heading is a raw f-string, so its `\n` and `\n\n` are a backslash and `n`, not line breaks | any appendix page: `\section[Appendix: T]{T}\n\label{sec:about=x}\n\n` stays on one line | line breaks as in the problem heading at lines 453-454 | not executed | Sections.AboutHeaderAsWrittenOneLine | Sections.AboutHeaderLabelLine |
