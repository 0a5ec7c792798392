/**
 * The link rewriter: classifies the value of every `<a href>`, `<link href>` and
 * `<script src>` as internal or not, and rewrites internal values that point into
 * the `original` tree so that they point into the `clean` tree instead.
 *
 * A page is the sequence of its tags in document order; each tag is its name and
 * its attributes. Parsing and serialisation are not part of this model.
 */
module Links {
  import opened Wrappers
  import opened Strings
  import opened Percent

  datatype Tag = Tag(name: string, attrs: map<string, string>)

  /** The directory segment of the saved pages, and the one that replaces it. */
  const SourceRoot: string := "/original/"
  const DestRoot: string := "/clean/"

  /**
   * Whether a reference value stays inside the archived page tree: absent and
   * empty values are not links; `#`, `./` and `../` references always are; any
   * other value without an `http://`/`https://` scheme is, when it names an
   * HTML page or its last `/`-segment carries no extension.
   */
  predicate IsInternalLink(href: Option<string>) {
    match href
    case None => false
    case Some(v) =>
      if v == "" then false
      else if StartsWith(v, "#") || StartsWith(v, "./") || StartsWith(v, "../") then true
      else if !StartsWith(v, "http://") && !StartsWith(v, "https://") then
        EndsWith(v, ".html") || EndsWith(v, ".htm") || '.' !in LastSegment(v)
      else false
  }

  /** The attribute the rewriter visits on a tag of this name, if any. */
  function VisitedAttribute(name: string): Option<string> {
    if name == "a" || name == "link" then Some("href")
    else if name == "script" then Some("src")
    else None
  }

  /** The value a rule stores back into the attribute, and whether the rule is counted. */
  datatype Rewrite = Rewrite(value: string, counted: bool)

  /**
   * The first rule that applies to value `v` of the visited attribute of a tag
   * named `name`, or None when the value is left as it is. The rules look at the
   * percent-decoded value; the last two apply to anchors only.
   */
  function Rule(name: string, v: string): Option<Rewrite> {
    if !IsInternalLink(Some(v)) then None
    else
      var d := Unquote(v);
      if Contains(d, SourceRoot) then Some(Rewrite(ReplaceAll(d, SourceRoot, DestRoot), true))
      else if name != "a" then None
      else if EndsWith(d, ".html") && '/' !in d then Some(Rewrite(d, false))
      else if StartsWith(d, "/") && EndsWith(d, ".html") then Some(Rewrite("." + d, true))
      else None
  }

  /** The rule that applies to tag `t`, if `t` is visited, carries its attribute and a rule matches. */
  function TagRule(t: Tag): Option<Rewrite> {
    match VisitedAttribute(t.name)
    case None => None
    case Some(k) => if k in t.attrs then Rule(t.name, t.attrs[k]) else None
  }

  /** Tag `t` after the rewriter has visited it. */
  function RewriteTag(t: Tag): Tag {
    match TagRule(t)
    case None => t
    case Some(w) => t.(attrs := t.attrs[VisitedAttribute(t.name).value := w.value])
  }

  /** 1 when visiting `t` increments the counter, else 0. */
  function Counted(t: Tag): nat {
    if TagRule(t).Some? && TagRule(t).value.counted then 1 else 0
  }

  /** The page after every visited tag has been rewritten. */
  function RewritePage(s: seq<Tag>): (r: seq<Tag>)
    ensures |r| == |s| && forall k :: 0 <= k < |s| ==> r[k] == RewriteTag(s[k])
  {
    seq(|s|, k requires 0 <= k < |s| => RewriteTag(s[k]))
  }

  /** `t` rewritten if it has the given name, else `t` itself. */
  function RewriteIfNamed(t: Tag, name: string): Tag {
    if t.name == name then RewriteTag(t) else t
  }

  /** The page after the tags named `name` have been rewritten. */
  function RewriteAllNamed(s: seq<Tag>, name: string): (r: seq<Tag>)
    ensures |r| == |s| && forall k :: 0 <= k < |s| ==> r[k] == RewriteIfNamed(s[k], name)
  {
    seq(|s|, k requires 0 <= k < |s| => RewriteIfNamed(s[k], name))
  }

  /**
   * Rewriting a page keeps its length and every tag's name and attribute keys,
   * and changes only the tags that a rule applies to.
   */
  lemma RewritePageFrame(s: seq<Tag>)
    ensures |RewritePage(s)| == |s|
    ensures forall k :: 0 <= k < |s| ==>
              RewritePage(s)[k].name == s[k].name && RewritePage(s)[k].attrs.Keys == s[k].attrs.Keys
    ensures forall k :: 0 <= k < |s| && RewritePage(s)[k] != s[k] ==> TagRule(s[k]).Some?
  {
    forall k | 0 <= k < |s|
      ensures RewritePage(s)[k].name == s[k].name && RewritePage(s)[k].attrs.Keys == s[k].attrs.Keys
      ensures RewritePage(s)[k] != s[k] ==> TagRule(s[k]).Some?
    {
      RewriteFrame(s[k]);
    }
  }

  /**
   * One loop over the tags named `name` leaves every other tag as it is, and keeps
   * the name and attribute keys of the tags it visits.
   */
  lemma RewriteAllNamedFrame(s: seq<Tag>, name: string)
    ensures |RewriteAllNamed(s, name)| == |s|
    ensures forall k :: 0 <= k < |s| && s[k].name != name ==> RewriteAllNamed(s, name)[k] == s[k]
    ensures forall k :: 0 <= k < |s| ==>
              RewriteAllNamed(s, name)[k].name == s[k].name &&
              RewriteAllNamed(s, name)[k].attrs.Keys == s[k].attrs.Keys
  {
    forall k | 0 <= k < |s|
      ensures RewriteAllNamed(s, name)[k].name == s[k].name &&
              RewriteAllNamed(s, name)[k].attrs.Keys == s[k].attrs.Keys
    {
      RewriteFrame(s[k]);
    }
  }

  /** The number of counted rewrites among the tags named `name`. */
  function CountNamed(s: seq<Tag>, name: string): nat {
    if s == [] then 0
    else CountNamed(s[..|s| - 1], name) + (if s[|s| - 1].name == name then Counted(s[|s| - 1]) else 0)
  }

  /** The number of counted rewrites on a whole page. */
  function CountRewrites(s: seq<Tag>): nat {
    if s == [] then 0 else CountRewrites(s[..|s| - 1]) + Counted(s[|s| - 1])
  }

  /** The number of tags the rewriter visits: `<a href>`, `<link href>` and `<script src>`. */
  function VisitedCount(s: seq<Tag>): nat {
    if s == [] then 0
    else
      var t := s[|s| - 1];
      VisitedCount(s[..|s| - 1]) +
      (if VisitedAttribute(t.name).Some? && VisitedAttribute(t.name).value in t.attrs then 1 else 0)
  }

  /**
   * The body of one of the source's loops for one tag: a tag named `name` that
   * carries the visited attribute gets the first rule that applies to its
   * value; the second result is 1 when that rule is counted.
   */
  method VisitTag(t: Tag, name: string) returns (r: Tag, counted: nat)
    ensures r == RewriteIfNamed(t, name)
    ensures counted == if t.name == name then Counted(t) else 0
  {
    r, counted := t, 0;
    var attr := VisitedAttribute(t.name);
    if t.name == name && attr.Some? && attr.value in t.attrs {
      var k := attr.value;
      var v := t.attrs[k];
      if IsInternalLink(Some(v)) {
        var d := Unquote(v);
        if Contains(d, SourceRoot) {
          r, counted := t.(attrs := t.attrs[k := ReplaceAll(d, SourceRoot, DestRoot)]), 1;
        } else if name == "a" && EndsWith(d, ".html") && '/' !in d {
          r := t.(attrs := t.attrs[k := d]);
        } else if name == "a" && StartsWith(d, "/") && EndsWith(d, ".html") {
          r, counted := t.(attrs := t.attrs[k := "." + d]), 1;
        }
      }
    }
  }

  /**
   * One of the source's three loops: visits, in document order, every tag named
   * `name` that carries the visited attribute, applies the rules in place and
   * counts the counted rewrites.
   */
  method RewriteTagsNamed(page: array<Tag>, name: string) returns (n: nat)
    modifies page
    ensures page[..] == RewriteAllNamed(old(page[..]), name)
    ensures n == CountNamed(old(page[..]), name)
  {
    ghost var before := page[..];
    n := 0;
    assert before[..0] == [] && before[0..] == before;
    for i := 0 to page.Length
      invariant page[..] == RewriteAllNamed(before[..i], name) + before[i..]
      invariant n == CountNamed(before[..i], name)
    {
      ghost var current := page[..];
      RewriteAllNamedStep(before, name, i);
      var t, counted := VisitTag(page[i], name);
      page[i] := t;
      assert page[..] == current[i := t];
      n := n + counted;
    }
    assert before[..page.Length] == before && before[page.Length..] == [];
  }

  /** One step of RewriteTagsNamed: rewriting position `i` extends the rewritten prefix by one tag. */
  lemma RewriteAllNamedStep(b: seq<Tag>, name: string, i: nat)
    requires i < |b|
    ensures (RewriteAllNamed(b[..i], name) + b[i..])[i] == b[i]
    ensures (RewriteAllNamed(b[..i], name) + b[i..])[i := RewriteIfNamed(b[i], name)] ==
            RewriteAllNamed(b[..i + 1], name) + b[i + 1..]
    ensures CountNamed(b[..i + 1], name) ==
            CountNamed(b[..i], name) + if b[i].name == name then Counted(b[i]) else 0
  {
    assert b[..i + 1][..i] == b[..i];
  }

  /**
   * `update_links_in_file` on a parsed page: the anchors, then the `<link>`
   * tags, then the scripts; returns the number of links updated.
   */
  method UpdateLinksInFile(page: array<Tag>) returns (linksUpdated: nat)
    modifies page
    ensures page[..] == RewritePage(old(page[..]))
    ensures linksUpdated == CountRewrites(old(page[..]))
  {
    ghost var s0 := page[..];
    var anchors := RewriteTagsNamed(page, "a");
    var links := RewriteTagsNamed(page, "link");
    var scripts := RewriteTagsNamed(page, "script");
    linksUpdated := anchors + links + scripts;
    ghost var s1 := RewriteAllNamed(s0, "a");
    CountNamedUnaffected(s0, "a", "link");
    CountNamedUnaffected(s0, "a", "script");
    CountNamedUnaffected(s1, "link", "script");
    CountSplitsByName(s0);
    forall k | 0 <= k < |s0| ensures page[k] == RewriteTag(s0[k]) {
      VisitedOnce(s0[k]);
    }
  }

  /** Rewriting by name, for the three names in turn, visits each tag exactly as RewriteTag does. */
  lemma VisitedOnce(t: Tag)
    ensures RewriteIfNamed(RewriteIfNamed(RewriteIfNamed(t, "a"), "link"), "script") == RewriteTag(t)
  {
  }

  /** Rewriting the tags of one name leaves the count of another name unchanged. */
  lemma {:induction false} CountNamedUnaffected(s: seq<Tag>, done: string, name: string)
    requires done != name
    ensures CountNamed(RewriteAllNamed(s, done), name) == CountNamed(s, name)
  {
    if s != [] {
      var s' := s[..|s| - 1];
      assert RewriteAllNamed(s, done)[..|s| - 1] == RewriteAllNamed(s', done);
      CountNamedUnaffected(s', done, name);
    }
  }

  /** Only the three visited tag names can be counted. */
  lemma {:induction false} CountSplitsByName(s: seq<Tag>)
    ensures CountRewrites(s) == CountNamed(s, "a") + CountNamed(s, "link") + CountNamed(s, "script")
  {
    if s != [] {
      CountSplitsByName(s[..|s| - 1]);
    }
  }

  // Properties of the classifier

  /** Absent and empty values are not links. */
  lemma EmptyIsNotInternal()
    ensures !IsInternalLink(None) && !IsInternalLink(Some(""))
  {
  }

  /** Fragment and explicitly relative references are internal, whatever their extension. */
  lemma RelativeIsInternal(v: string)
    requires StartsWith(v, "#") || StartsWith(v, "./") || StartsWith(v, "../")
    ensures IsInternalLink(Some(v))
  {
  }

  /** References with an `http://` or `https://` scheme are never internal. */
  lemma SchemeIsExternal(v: string)
    requires StartsWith(v, "http://") || StartsWith(v, "https://")
    ensures !IsInternalLink(Some(v))
  {
    assert v[0] == 'h';
  }

  /**
   * Any other value is internal exactly when it names an `.html`/`.htm` page or
   * every `.` in it is followed later by a `/` (its last segment has no extension).
   */
  lemma OtherInternalIff(v: string)
    requires v != ""
    requires !StartsWith(v, "#") && !StartsWith(v, "./") && !StartsWith(v, "../")
    requires !StartsWith(v, "http://") && !StartsWith(v, "https://")
    ensures IsInternalLink(Some(v)) <==>
            EndsWith(v, ".html") || EndsWith(v, ".htm") ||
            forall i :: 0 <= i < |v| && v[i] == '.' ==> '/' in v[i + 1..]
  {
    NoDotInLastSegment(v);
  }

  /** Every value without a scheme that names an `.html` or `.htm` page is internal. */
  lemma PageIsInternal(v: string)
    requires EndsWith(v, ".html") || EndsWith(v, ".htm")
    requires !StartsWith(v, "http://") && !StartsWith(v, "https://")
    ensures IsInternalLink(Some(v))
  {
  }

  /** A rooted directory reference is internal: its last segment is empty. */
  lemma DirectoryIsInternal()
    ensures IsInternalLink(Some("/dir/"))
  {
    assert "/dir/"[0] == '/' && "/dir/"[1] == 'd';
    assert '.' !in "/dir/";
    OtherInternalIff("/dir/");
  }

  /** A rooted image is not internal: it has an extension and is not a page. */
  lemma RootedImageIsNotInternal()
    ensures !IsInternalLink(Some("/assets/img.png"))
  {
    NotRelative("/assets/img.png");
    ExtensionIsNotInternal("/assets/img.png", 11);
  }

  /** A page with a query string is not internal: it no longer ends in `.html`. */
  lemma PageWithQueryIsNotInternal()
    ensures !IsInternalLink(Some("page.html?x=1"))
  {
    NotRelative("page.html?x=1");
    ExtensionIsNotInternal("page.html?x=1", 4);
  }

  /** A value whose first character is neither `#` nor `.` is not a relative reference. */
  lemma NotRelative(v: string)
    requires |v| > 0 && v[0] != '#' && v[0] != '.'
    ensures !StartsWith(v, "#") && !StartsWith(v, "./") && !StartsWith(v, "../")
  {
  }

  /**
   * A value with a `.` after its last `/` that is neither a relative `#`, `./` or
   * `../` reference nor an `.html`/`.htm` page is not internal: with a scheme it
   * is external, and without one it follows from OtherInternalIff.
   */
  lemma ExtensionIsNotInternal(v: string, i: nat)
    requires i < |v| && v[i] == '.' && '/' !in v[i + 1..]
    requires !StartsWith(v, "#") && !StartsWith(v, "./") && !StartsWith(v, "../")
    requires !EndsWith(v, ".html") && !EndsWith(v, ".htm")
    ensures !IsInternalLink(Some(v))
  {
    if !StartsWith(v, "http://") && !StartsWith(v, "https://") {
      OtherInternalIff(v);
    }
  }

  // Properties of the rewrite rules

  /**
   * An internal value of a visited attribute whose decoded form contains the
   * source root is replaced by that decoded form with every source root turned
   * into the destination root, and counted; the text before the first
   * occurrence is kept.
   */
  lemma SourceRootRewritten(t: Tag, k: string)
    requires VisitedAttribute(t.name) == Some(k) && k in t.attrs
    requires IsInternalLink(Some(t.attrs[k])) && Contains(Unquote(t.attrs[k]), SourceRoot)
    ensures var d := Unquote(t.attrs[k]);
            RewriteTag(t) == t.(attrs := t.attrs[k := ReplaceAll(d, SourceRoot, DestRoot)]) &&
            Counted(t) == 1
    ensures forall i: nat :: IsFirstOccurrence(Unquote(t.attrs[k]), SourceRoot, i) ==>
              var d := Unquote(t.attrs[k]);
              RewriteTag(t).attrs[k] == d[..i] + DestRoot + ReplaceAll(d[i + |SourceRoot|..], SourceRoot, DestRoot)
  {
    var d := Unquote(t.attrs[k]);
    forall i: nat | IsFirstOccurrence(d, SourceRoot, i)
      ensures RewriteTag(t).attrs[k] == d[..i] + DestRoot + ReplaceAll(d[i + |SourceRoot|..], SourceRoot, DestRoot)
    {
      ReplaceAllFirst(d, SourceRoot, DestRoot, i);
    }
  }

  /**
   * An anchor naming a page of the same folder without escapes (ends in `.html`,
   * no `/`, no `%`) is left exactly as it is and is not counted.
   */
  lemma SameFolderAnchorKept(t: Tag)
    requires t.name == "a" && "href" in t.attrs
    requires var v := t.attrs["href"]; EndsWith(v, ".html") && '/' !in v && '%' !in v
    ensures RewriteTag(t) == t && Counted(t) == 0
  {
    var v := t.attrs["href"];
    UnquoteWithoutPercent(v);
    NoSlashNoSourceRoot(v);
    assert t.attrs["href" := v] == t.attrs;
  }

  /**
   * An internal anchor whose decoded value ends in `.html`, has no `/` and does
   * not mention the source root is stored decoded and not counted.
   */
  lemma SameFolderAnchorDecoded(t: Tag)
    requires t.name == "a" && "href" in t.attrs && IsInternalLink(Some(t.attrs["href"]))
    requires var d := Unquote(t.attrs["href"]); EndsWith(d, ".html") && '/' !in d
    ensures RewriteTag(t) == t.(attrs := t.attrs["href" := Unquote(t.attrs["href"])])
    ensures Counted(t) == 0
  {
    NoSlashNoSourceRoot(Unquote(t.attrs["href"]));
  }

  /** A value without `/` cannot contain the source root. */
  lemma NoSlashNoSourceRoot(d: string)
    requires '/' !in d
    ensures !Contains(d, SourceRoot)
  {
    forall i: nat | i <= |d| ensures !OccursAt(d, SourceRoot, i) {
      if i + |SourceRoot| <= |d| {
        assert d[i..i + |SourceRoot|][0] == d[i];
      }
    }
  }

  /**
   * An internal anchor whose decoded value starts with `/`, ends in `.html` and
   * does not mention the source root is made relative to the current folder,
   * counted, and the new value is itself internal.
   */
  lemma RootedAnchorMadeRelative(t: Tag)
    requires t.name == "a" && "href" in t.attrs && IsInternalLink(Some(t.attrs["href"]))
    requires var d := Unquote(t.attrs["href"]);
             !Contains(d, SourceRoot) && StartsWith(d, "/") && EndsWith(d, ".html")
    ensures RewriteTag(t).attrs["href"] == "." + Unquote(t.attrs["href"]) && Counted(t) == 1
    ensures IsInternalLink(Some(RewriteTag(t).attrs["href"]))
  {
    var d := Unquote(t.attrs["href"]);
    assert d[0] == '/';
    assert ("." + d)[..2] == "./";
  }

  /** On `<link>` and `<script>` tags only the source-root rule applies. */
  lemma AssetsOnlySourceRule(t: Tag)
    requires t.name == "link" || t.name == "script"
    ensures TagRule(t).Some? <==>
            var k := VisitedAttribute(t.name).value;
            k in t.attrs && IsInternalLink(Some(t.attrs[k])) && Contains(Unquote(t.attrs[k]), SourceRoot)
    ensures TagRule(t).Some? ==> TagRule(t).value.counted
  {
  }

  /**
   * Visiting a tag keeps its name and its attribute names, changes no attribute
   * but the visited one, and changes nothing at all when no rule applies: other
   * tags, tags without the attribute, values that are not internal, and
   * internal values that match no rule.
   */
  lemma RewriteFrame(t: Tag)
    ensures RewriteTag(t).name == t.name && RewriteTag(t).attrs.Keys == t.attrs.Keys
    ensures forall k :: k in t.attrs && Some(k) != VisitedAttribute(t.name) ==> RewriteTag(t).attrs[k] == t.attrs[k]
    ensures TagRule(t).None? ==> RewriteTag(t) == t && Counted(t) == 0
    ensures VisitedAttribute(t.name).None? ==> TagRule(t).None?
    ensures (VisitedAttribute(t.name).Some? && VisitedAttribute(t.name).value in t.attrs &&
             !IsInternalLink(Some(t.attrs[VisitedAttribute(t.name).value]))) ==> TagRule(t).None?
  {
  }

  /** A counted rewrite always changes the attribute's value. */
  lemma CountedChangesValue(t: Tag)
    requires Counted(t) == 1
    ensures RewriteTag(t) != t
  {
    var k := VisitedAttribute(t.name).value;
    var v := t.attrs[k];
    var d := Unquote(v);
    if Contains(d, SourceRoot) {
      ReplaceAllLength(d, SourceRoot, DestRoot);
      assert RewriteTag(t).attrs[k] != v;
    } else {
      UnquoteHead(v);
      assert RewriteTag(t).attrs[k] == "." + d;
      assert RewriteTag(t).attrs[k][0] != v[0];
    }
  }

  /** The number of tags whose value the rewriter changes. */
  function ChangedCount(s: seq<Tag>): nat {
    if s == [] then 0
    else ChangedCount(s[..|s| - 1]) + (if RewriteTag(s[|s| - 1]) != s[|s| - 1] then 1 else 0)
  }

  /**
   * The counter never exceeds the number of values actually changed, which in
   * turn never exceeds the number of `<a href>`, `<link href>` and `<script src>` tags.
   */
  lemma {:induction false} CountBounds(s: seq<Tag>)
    ensures CountRewrites(s) <= ChangedCount(s) <= VisitedCount(s)
  {
    if s != [] {
      var t := s[|s| - 1];
      CountBounds(s[..|s| - 1]);
      if Counted(t) == 1 {
        CountedChangesValue(t);
      }
      RewriteFrame(t);
    }
  }

  /**
   * The worked case of the source-root rule, for any page below the root:
   * `/original/<rest>` becomes `/clean/<rest>` (for instance
   * `/original/sub/page.html` becomes `/clean/sub/page.html`).
   */
  lemma SourceRootPrefixRewritten(t: Tag, rest: string)
    requires t.name == "a" && "href" in t.attrs && t.attrs["href"] == SourceRoot + rest
    requires '%' !in rest && !Contains(rest, SourceRoot) && EndsWith(rest, ".html")
    ensures RewriteTag(t) == t.(attrs := t.attrs["href" := DestRoot + rest])
    ensures Counted(t) == 1
  {
    var v := SourceRoot + rest;
    assert '%' !in v;
    UnquoteWithoutPercent(v);
    assert v[|v| - 5..] == rest[|rest| - 5..];
    assert v[0] == '/' && v[1] == 'o';
    assert IsInternalLink(Some(v));
    assert OccursAt(v, SourceRoot, 0);
    assert IsFirstOccurrence(v, SourceRoot, 0);
    ReplaceAllFirst(v, SourceRoot, DestRoot, 0);
    assert v[|SourceRoot|..] == rest;
    ReplaceAllAbsent(rest, SourceRoot, DestRoot);
    SourceRootRewritten(t, "href");
  }

  /**
   * The worked case of the rooted-page rule without escapes: `/<page>.html`
   * becomes `./<page>.html` (for instance `/page.html` becomes `./page.html`).
   */
  lemma RootedPageRewritten(t: Tag)
    requires t.name == "a" && "href" in t.attrs
    requires var v := t.attrs["href"];
             '%' !in v && StartsWith(v, "/") && EndsWith(v, ".html") && !Contains(v, SourceRoot)
    ensures RewriteTag(t) == t.(attrs := t.attrs["href" := "." + t.attrs["href"]])
    ensures Counted(t) == 1
  {
    var v := t.attrs["href"];
    UnquoteWithoutPercent(v);
    assert v[0] == '/';
    assert IsInternalLink(Some(v));
    RootedAnchorMadeRelative(t);
  }

  /**
   * A rooted asset reference is not internal, so even below the source root it
   * is left as it is: `<link href="/original/css/site.css">` keeps its value.
   * The classifier admits a leading `/` only through the page and
   * no-extension tests.
   */
  lemma RootedAssetKept(t: Tag, rest: string, i: nat)
    requires t.name == "link" && "href" in t.attrs && t.attrs["href"] == SourceRoot + rest
    requires i < |rest| && rest[i] == '.' && '/' !in rest[i + 1..]
    requires !EndsWith(SourceRoot + rest, ".html") && !EndsWith(SourceRoot + rest, ".htm")
    ensures RewriteTag(t) == t && Counted(t) == 0
  {
    var v := SourceRoot + rest;
    assert v[|SourceRoot| + i + 1..] == rest[i + 1..];
    NotRelative(v);
    ExtensionIsNotInternal(v, |SourceRoot| + i);
  }
}
