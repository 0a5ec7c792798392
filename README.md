# Archived-page clean-up: link rewriter and tracking sanitiser

The repository archives web pages captured with the SingleFile browser
extension. It then post-processes them with two scripts, and this project
models the core of both:

* **The link rewriter** (`scripts/update_links.py`). `is_internal_link`
  classifies a reference value: is it a link inside the archive, or an
  external or asset reference? `update_links_in_file` walks the
  `<a href>`, `<link href>` and `<script src>` tags of a page in three
  loops. For each internal value it percent-decodes the value and applies
  the first matching rule:
  * a value containing `/original/` has every occurrence turned into
    `/clean/`;
  * a same-folder `.html` anchor is stored back decoded;
  * a rooted `/….html` anchor is made relative with a leading `.`.

  The function returns how many rewrites it counted.
* **The tracking sanitiser** (`clean_html_file` in
  `scripts/clean_html.py`) runs four removal passes over the parsed tree:
  1. the page-capture comments;
  2. every `<iframe>`, with its subtree;
  3. canonical `<link>` elements whose `href` starts with `http`;
  4. canonical and `og:url` `<meta>` elements whose `content` starts with
     `http`.

  It counts what each pass finds.

Module layout:

* `wrappers.dfy` (`Wrappers`): `Option`.
* `strings.dfy` (`Strings`) models the Python string operations the
  scripts use: `startswith`, `endswith`, `in`, `split('/')[-1]` and
  `strip()`. `ReplaceAll` is the left-to-right non-overlapping `replace`
  (`scripts/update_links.py:53`, `:73`, `:84`).
* `percent.dfy` (`Percent`) models `urllib.parse.unquote`, as `Unquote`.
* `update_links.dfy` (`Links`): the link rewriter.
  * A page is an `array<Tag>` in document order. A tag is its name and its
    attribute map.
  * `IsInternalLink` is `is_internal_link` (`scripts/update_links.py:12-29`).
  * `Rule` is the chain of rules one loop body applies to an internal
    value: lines 47-63 for anchors, and only the `/original/` rule of
    lines 69-74 and 80-85 for `<link>` and `<script>`.
  * `TagRule` picks the visited attribute (`href` or `src`) and applies
    `Rule` to it. `RewriteTag` stores the rule's value back, and `Counted`
    says whether that rule increments `links_updated`.
  * `RewriteTagsNamed` is one of the source's loops and rewrites in place.
    It is proved against `RewriteAllNamed` and `CountNamed`.
  * `UpdateLinksInFile` runs the three loops. It is proved against
    `RewritePage` and `CountRewrites`.
* `clean_html.dfy` (`Sanitizer`): the sanitiser.
  * A document is a sequence of `Element`, `Text` and `Comment` nodes.
  * `rel` holds a token list, as the HTML parser stores it.
  * `Matches` is the test of each pass: the comment test of
    `scripts/clean_html.py:36-38`, the `iframe` search of line 43, the
    canonical-link test of lines 48-50, and the meta test of lines 55-58.
  * `RemoveNode`/`Remove` remove every match with its subtree
    (lines 39, 44, 51 and 59). `CountNode`/`Count` give what a pass adds
    to its counter (lines 40, 45, 52 and 60).
  * `RemovePass` is one pass: a loop that recurses into children. It is
    proved against `Remove` and `Count`.
  * `CleanHtmlFile` runs the four passes. It is proved against `CleanDoc`
    and `CleanStats`.
  * `VoidChildless` says that `<link>` and `<meta>` have no children at any
    depth, as in every tree the HTML parser builds. The exact-count lemmas
    assume it.

Where the code and its comments disagree, the model follows the code:

* The comment at `scripts/update_links.py:19` lists `/` among the internal
  prefixes. The code at lines 20-27 does not test for it. So a rooted value
  counts as internal only when it names an `.html`/`.htm` page or has no
  extension in its last segment.
* As a result a stylesheet `<link href="/original/css/site.css">` is left
  untouched (`Links.RootedAssetKept`).
* A rooted asset such as `/assets/img.png` is not internal
  (`Links.RootedImageIsNotInternal`).

The sanitiser's iframe loop collects every `<iframe>` before removing any,
and counts each one it collected unconditionally. An iframe nested inside
an iframe that was already removed is therefore still counted. The model's
counters count every match at any depth, and the node is removed with the
outermost match.

## Model

| member | source | states |
|---|---|---|
| Links.EmptyIsNotInternal | scripts/update_links.py:16-17 | a missing or empty value is never an internal link |
| Links.RelativeIsInternal | scripts/update_links.py:20-21 | every value starting with `#`, `./` or `../` is internal, whatever follows |
| Links.SchemeIsExternal | scripts/update_links.py:24-29 | every value starting with `http://` or `https://` is not internal |
| Links.OtherInternalIff | scripts/update_links.py:24-27 | for any other non-empty value: internal exactly when it ends in `.html` or `.htm`, or every `.` in it is followed later by a `/` (no extension in the last segment), both directions |
| Links.PageIsInternal | scripts/update_links.py:24-27 | every value without an `http://`/`https://` scheme that ends in `.html` or `.htm` is internal |
| Links.DirectoryIsInternal | scripts/update_links.py:24-27 | `/dir/` is internal: its last segment has no extension |
| Links.RootedImageIsNotInternal | scripts/update_links.py:24-29 | `/assets/img.png` is not internal, although the comment at line 19 names `/` |
| Links.PageWithQueryIsNotInternal | scripts/update_links.py:24-29 | `page.html?x=1` is not internal: it no longer ends in `.html` |
| Links.ExtensionIsNotInternal | scripts/update_links.py:20-29 | a value with a `.` in its last segment that is neither a `#`, `./` or `../` reference nor an `.html`/`.htm` page is not internal, with or without a scheme |
| Links.RewriteTagsNamed | scripts/update_links.py:44-85 | one loop: in place, the page becomes the old page with each tag of that name rewritten by the rules; the result equals the number of counted rewrites among those tags |
| Links.VisitTag | scripts/update_links.py:44-85 | one iteration of a loop: a tag of the loop's name gets the first rule for its visited attribute's value, and the second result is 1 exactly when that rule is counted; a tag of another name is left alone with 0 |
| Links.RewriteAllNamedStep | scripts/update_links.py:44-85 | rewriting position `i` of a partly rewritten page extends the rewritten prefix by one tag and adds that tag's count |
| Links.UpdateLinksInFile | scripts/update_links.py:31-96 | the three loops in turn: every visited tag is rewritten exactly once; the return value equals the number of counted rewrites on the page |
| Links.RewritePageFrame | scripts/update_links.py:43-85 | rewriting a page keeps its length and every tag's name and attribute keys, and a tag changes only when a rule applies to it |
| Links.RewriteAllNamedFrame | scripts/update_links.py:44-85 | one loop leaves every tag of another name as it is, and keeps the name and attribute keys of the tags it visits |
| Links.VisitedOnce | scripts/update_links.py:44-85 | running the `a`, `link` and `script` loops in turn rewrites a tag exactly as one visit does |
| Links.CountNamedUnaffected | scripts/update_links.py:44-85 | rewriting the tags of one name does not change what a later loop over another name counts |
| Links.CountSplitsByName | scripts/update_links.py:41-85 | the page's counter is the sum of what the three loops count |
| Links.SourceRootRewritten | scripts/update_links.py:49-54 | an internal value whose decoded form contains `/original/` becomes that decoded form with every occurrence replaced by `/clean/`, and is counted; the text before the first occurrence is kept as is |
| Links.SameFolderAnchorKept | scripts/update_links.py:56-58 | an anchor `x.html` without `/` or `%` is left unchanged and not counted |
| Links.SameFolderAnchorDecoded | scripts/update_links.py:56-58 | an anchor whose decoded value ends in `.html` without `/` gets the decoded value, uncounted |
| Links.NoSlashNoSourceRoot | scripts/update_links.py:52-56 | a value without `/` cannot contain `/original/`, so the same-folder rule is reached only after the source-root rule fails |
| Links.RootedAnchorMadeRelative | scripts/update_links.py:60-63 | a rooted `.html` anchor without `/original/` becomes `.` + decoded value, is counted, and stays internal |
| Links.RootedPageRewritten | scripts/update_links.py:59-63 | `/page.html` without escapes becomes `./page.html`, counted |
| Links.SourceRootPrefixRewritten | scripts/update_links.py:51-54 | `/original/<rest>.html` becomes `/clean/<rest>.html`, counted |
| Links.AssetsOnlySourceRule | scripts/update_links.py:66-85 | on `<link>` and `<script>` a rule applies exactly when the value is internal and its decoded form contains `/original/`, and then it is counted |
| Links.RootedAssetKept | scripts/update_links.py:66-74 | `<link href="/original/…/x.ext">` with an extension is left unchanged and uncounted |
| Links.RewriteFrame | scripts/update_links.py:43-85 | a visit changes only the visited attribute: name and attribute keys are kept, and other attributes keep their values; no rule means no change and no count; unvisited tags and external values get no rule |
| Links.CountedChangesValue | scripts/update_links.py:52-63 | every counted rewrite really changes the tag |
| Links.CountBounds | scripts/update_links.py:41-85 | counted rewrites <= tags changed <= tags visited |
| Percent.Unquote | scripts/update_links.py:49 | decoding never lengthens a value |
| Percent.UnquoteWithoutPercent | scripts/update_links.py:49 | a value without `%` decodes to itself |
| Percent.UnquoteHead | scripts/update_links.py:49 | a non-empty value decodes to a non-empty one whose first character is unchanged unless the value starts with `%` |
| Percent.UnquotePercentEncode | scripts/update_links.py:49 | decoding undoes percent-encoding of every ASCII string |
| Percent.HexDigit | scripts/update_links.py:49 | each hex value below 16 has an upper-case digit that decodes to it |
| Strings.ReplaceAllAbsent | scripts/update_links.py:53 | replacing an absent pattern changes nothing |
| Strings.ReplaceAllFirst | scripts/update_links.py:53 | the text before the first occurrence is kept, the occurrence becomes the replacement, and the rest is replaced in the same way |
| Strings.ReplaceAllLength | scripts/update_links.py:53 | replacing by a shorter string never lengthens, and shortens when the pattern occurs |
| Strings.LastSegment | scripts/update_links.py:26 | the last segment has no `/`, is a suffix of the value, and is preceded by `/` when shorter than it |
| Strings.NoDotInLastSegment | scripts/update_links.py:26 | the last segment has no `.` exactly when every `.` in the value is followed later by a `/` |
| Strings.TrimStart | scripts/clean_html.py:36 | drops exactly the leading whitespace |
| Strings.TrimEnd | scripts/clean_html.py:36 | drops exactly the trailing whitespace |
| Strings.StripIsSlice | scripts/clean_html.py:36 | the stripped text is a slice with only whitespace outside it |
| Strings.ContainsStrip | scripts/clean_html.py:36-38 | a pattern with non-space ends occurs in the stripped text exactly when it occurs in the text |
| Sanitizer.RemovePass | scripts/clean_html.py:33-60 | one pass: the kept nodes are the input with every match removed at any depth; the count is every match at any depth, nested ones included |
| Sanitizer.RemoveStep | scripts/clean_html.py:33-60 | the kept nodes and the count of a prefix grow by what one more top-level node contributes |
| Sanitizer.CleanHtmlFile | scripts/clean_html.py:26-60 | the four passes in order; each counter is what its pass finds in the tree the earlier passes left |
| Sanitizer.RemoveNodePrunes | scripts/clean_html.py:33-60 | a node no pass removes is kept as a pruned copy of itself |
| Sanitizer.RemovePrunes | scripts/clean_html.py:33-60 | a pass only deletes subtrees: the result is a pruning of the input, with order, nesting, tags, attributes and text kept |
| Sanitizer.PrunedTrans | scripts/clean_html.py:33-60 | pruning composes, so a chain of passes only deletes |
| Sanitizer.PrunedCounts | scripts/clean_html.py:33-60 | a pruning has no more nodes, and no more matches of any pass |
| Sanitizer.RemoveLeavesNone | scripts/clean_html.py:43-45 | after a pass nothing it looks for is left anywhere in the tree |
| Sanitizer.RemoveUnchanged | scripts/clean_html.py:33-60 | a pass that finds nothing returns the tree unchanged |
| Sanitizer.RemoveSize | scripts/clean_html.py:33-60 | nodes left + counter <= nodes before: every counted node disappears |
| Sanitizer.RemoveChangesIff | scripts/clean_html.py:33-60 | a pass changes the tree exactly when its counter is not 0 |
| Sanitizer.CommentPassExact | scripts/clean_html.py:34-40 | the comment counter is exactly the number of nodes the comment pass removes |
| Sanitizer.PassExact | scripts/clean_html.py:33-60 | when every node a pass matches is childless, nodes left + counter == nodes before: the counter is exactly the number of nodes removed |
| Sanitizer.CommentsAreLeaves | scripts/clean_html.py:34-39 | every node the comment pass matches is a comment, so it has no children |
| Sanitizer.VoidLeafMatches | scripts/clean_html.py:48-60 | in a tree whose `<link>`/`<meta>` elements are childless, every match of a canonical pass is childless |
| Sanitizer.RemoveKeepsVoid | scripts/clean_html.py:33-60 | a pass keeps `<link>`/`<meta>` elements childless, so a later pass still works on a tree of that shape |
| Sanitizer.CommentPassKeepsOthers | scripts/clean_html.py:36-39 | every text node and every comment without a marker occurs as often after the comment pass as before |
| Sanitizer.RemoveKeepsOthers | scripts/clean_html.py:33-40 | a pass that matches only leaf nodes keeps every text node and unmatched comment as often as before, at any depth |
| Sanitizer.CaptureCommentIff | scripts/clean_html.py:36-38 | a comment is removed exactly when its text contains `SingleFile`, `Page saved with` or `saved date:`, and surrounding whitespace does not matter |
| Sanitizer.SingleFileCommentMatches | scripts/clean_html.py:36-38 | the comment ` Page saved with SingleFile ` is a capture comment |
| Sanitizer.CanonicalLinkRemovedIff | scripts/clean_html.py:48-52 | a `<link>` is removed exactly when its `rel` includes `canonical` and its `href` starts with `http` |
| Sanitizer.RelativeCanonicalSurvives | scripts/clean_html.py:49-50 | a canonical link with a relative or missing `href` survives, and only its children are cleaned |
| Sanitizer.CanonicalMetaRemovedIff | scripts/clean_html.py:55-60 | a `<meta>` is removed exactly when `name` is `canonical` or `property` is `og:url`, and its `content` starts with `http` |
| Sanitizer.CleanOnlyRemoves | scripts/clean_html.py:33-60 | cleaning only deletes: the result is a pruning of the input, no larger, with no more matches of any pass |
| Sanitizer.CleanLeavesNoTracking | scripts/clean_html.py:33-60 | after cleaning no capture comment, iframe, external canonical link or external canonical meta is left anywhere |
| Sanitizer.CleanWithoutTracking | scripts/clean_html.py:26-60 | a document with nothing to remove is returned unchanged, with all counters 0 |
| Sanitizer.CleanIdempotent | scripts/clean_html.py:33-60 | cleaning twice is cleaning once, and the second run counts nothing |
| Sanitizer.CleanStatsBound | scripts/clean_html.py:26-60 | nodes left + all four counters <= nodes before |
| Sanitizer.CleanCountsExact | scripts/clean_html.py:33-60 | on a tree whose `<link>`/`<meta>` elements are childless, the `comments`, `canonical_links` and `meta_tags` counters each equal the number of nodes their pass removes |
| Sanitizer.CleanUnchangedIff | scripts/clean_html.py:26-60 | the document is unchanged exactly when every counter is 0, both directions |
| Sanitizer.ExampleCommentPass | scripts/clean_html.py:34-40 | on a capture comment, an empty iframe and an empty anchor, the comment pass removes only the comment and counts 1 |
| Sanitizer.ExampleIframePass | scripts/clean_html.py:43-45 | on an empty iframe and an empty anchor, the iframe pass keeps only the anchor and counts 1 |
| Sanitizer.ExampleCanonicalPasses | scripts/clean_html.py:48-60 | the canonical passes keep an empty anchor and count nothing |
| Sanitizer.CleanExample | scripts/clean_html.py:33-45 | a capture comment, an iframe and an anchor become just the anchor, with one comment and one iframe counted |

## Left out

- Parsing HTML into a tree and serialising it back (`BeautifulSoup`, `str(soup)`, `prettify()`) are left out; both scripts are modelled on the parsed tree.
- File I/O, the messages printed, the batch drivers (`process_batch`, `process_directory`) and the command-line entry points are left out; they only read, write and report.
- The size statistics and the return value of `clean_html_file` (scripts/clean_html.py:70-82) are left out: they measure files on disk.
- The unused `base_dir` parameter of `update_links_in_file` is left out.
- Percent.Unquote: decodes only `%XX` escapes below `0x80`. A higher escape stays verbatim, although Python decodes UTF-8 byte sequences. This is enough for the `/original/` and `.html` comparisons, whose patterns are all ASCII.
- Strings.IsSpace: `strip()` is modelled for ASCII and Latin-1 whitespace only (`\t`–`\r`, `\x1c`–`\x1f`, space, `\x85`, `\xa0`); other Unicode spaces are not stripped.
- Sanitizer.Get: a multi-valued `href` or `content` attribute counts as absent. The parser stores those two as single strings.
- Links.UpdateLinksInFile: rewriting is not idempotent, and the model does not claim it is. Python's non-overlapping `replace` turns `/original/original/x` into `/clean/original/x`, which still contains `/original/`.
- `<link>` and `<meta>` are void elements, so the parser never gives them children; the model allows any node to have children, and its counting of a canonical match nested inside a removed one has no counterpart in the source, whose loops read the attributes of such a node only after its ancestor was decomposed.
- Sanitizer.CleanStatsBound: states only `<=` for the sum of the four counters. An iframe's subtree holds nodes that no counter counts, so the `iframes` counter is not the number of nodes its pass removes, in the source either. The exact equalities for the other three counters are in Sanitizer.CleanCountsExact.
- Sanitizer.CleanCountsExact: takes `VoidChildless` as a hypothesis rather than proving it, because parsing is not modelled.
- Tag names and attribute names are compared exactly; the parser's lower-casing is not modelled.
