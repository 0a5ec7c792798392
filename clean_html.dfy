/**
 * The tracking sanitiser: four removal passes over a parsed HTML tree, in this
 * order: page-capture comments, every `<iframe>` with its subtree, external
 * canonical `<link>` elements, and external canonical/`og:url` `<meta>`
 * elements. Each pass counts what it finds; nothing is ever added or edited.
 *
 * A document is the sequence of its top-level nodes. Parsing and
 * serialisation are not part of this model.
 */
module Sanitizer {
  import opened Strings

  /** An attribute value: a single string, or the token list of a multi-valued attribute such as `rel`. */
  datatype AttrValue = Str(value: string) | Tokens(tokens: seq<string>)

  datatype Node =
    | Element(tag: string, attrs: map<string, AttrValue>, children: seq<Node>)
    | Text(text: string)
    | Comment(text: string)

  /** `tag.get(key, default)` for a single-valued attribute. */
  function Get(attrs: map<string, AttrValue>, key: string, default: string): string {
    if key in attrs && attrs[key].Str? then attrs[key].value else default
  }

  /** `tag.get(key) == value`: false when the attribute is absent or multi-valued. */
  predicate AttrIs(attrs: map<string, AttrValue>, key: string, value: string) {
    key in attrs && attrs[key] == Str(value)
  }

  /** `rel=token` as `find_all` matches it: one of the tokens, or the whole single value. */
  predicate RelHas(attrs: map<string, AttrValue>, token: string) {
    "rel" in attrs &&
    match attrs["rel"]
    case Tokens(ts) => token in ts
    case Str(v) => v == token
  }

  /** The text of the comments a page-capture tool leaves behind contains one of these. */
  predicate HasMarker(text: string) {
    Contains(text, "SingleFile") || Contains(text, "Page saved with") || Contains(text, "saved date:")
  }

  /** The four removal passes, in the order they run. */
  datatype Pass = CaptureComments | Iframes | CanonicalLinks | CanonicalMetas

  /** Whether a pass removes node `n` (with its subtree). It looks at `n` itself only, never at its children. */
  predicate Matches(p: Pass, n: Node) {
    match p
    case CaptureComments => n.Comment? && HasMarker(Strip(n.text))
    case Iframes => n.Element? && n.tag == "iframe"
    case CanonicalLinks =>
      n.Element? && n.tag == "link" && RelHas(n.attrs, "canonical") &&
      StartsWith(Get(n.attrs, "href", ""), "http")
    case CanonicalMetas =>
      n.Element? && n.tag == "meta" &&
      (AttrIs(n.attrs, "name", "canonical") || AttrIs(n.attrs, "property", "og:url")) &&
      StartsWith(Get(n.attrs, "content", ""), "http")
  }

  /** Node `n` after pass `p`: gone if it matches, otherwise kept with its children cleaned. */
  function RemoveNode(p: Pass, n: Node): seq<Node>
    decreases n, 1
  {
    if Matches(p, n) then []
    else if n.Element? then [Element(n.tag, n.attrs, Remove(p, n.children))]
    else [n]
  }

  /** A node sequence after pass `p`. */
  function Remove(p: Pass, s: seq<Node>): seq<Node>
    decreases s, 0
  {
    if s == [] then [] else Remove(p, s[..|s| - 1]) + RemoveNode(p, s[|s| - 1])
  }

  /** The number of nodes pass `p` finds in `n`'s subtree, `n` included. */
  function CountNode(p: Pass, n: Node): nat
    decreases n, 1
  {
    (if Matches(p, n) then 1 else 0) + (if n.Element? then Count(p, n.children) else 0)
  }

  /** The number of nodes pass `p` finds in a node sequence, at any depth. */
  function Count(p: Pass, s: seq<Node>): nat
    decreases s, 0
  {
    if s == [] then 0 else Count(p, s[..|s| - 1]) + CountNode(p, s[|s| - 1])
  }

  /** The number of nodes in `n`'s subtree. */
  function SizeNode(n: Node): nat
    decreases n, 1
  {
    1 + if n.Element? then Size(n.children) else 0
  }

  /** The number of nodes in a node sequence, at any depth. */
  function Size(s: seq<Node>): nat
    decreases s, 0
  {
    if s == [] then 0 else Size(s[..|s| - 1]) + SizeNode(s[|s| - 1])
  }

  /** What `clean_html_file` removes, pass by pass. */
  datatype Stats = Stats(iframes: nat, comments: nat, canonicalLinks: nat, metaTags: nat)

  /** The document after the four passes, in order. */
  function CleanDoc(doc: seq<Node>): seq<Node> {
    Remove(CanonicalMetas, Remove(CanonicalLinks, Remove(Iframes, Remove(CaptureComments, doc))))
  }

  /** The counters of the four passes; each pass counts in the document the earlier passes left. */
  function CleanStats(doc: seq<Node>): Stats {
    var d1 := Remove(CaptureComments, doc);
    var d2 := Remove(Iframes, d1);
    var d3 := Remove(CanonicalLinks, d2);
    Stats(Count(Iframes, d1), Count(CaptureComments, doc), Count(CanonicalLinks, d2), Count(CanonicalMetas, d3))
  }

  /**
   * One pass over a node sequence: every node it finds is removed with its
   * subtree and counted, including nodes found inside a subtree already removed.
   * The iframe loop counts those too, since it counts every iframe it collected;
   * `<link>` and `<meta>` are void elements, so canonical matches never nest.
   */
  method RemovePass(p: Pass, nodes: seq<Node>) returns (kept: seq<Node>, found: nat)
    ensures kept == Remove(p, nodes)
    ensures found == Count(p, nodes)
    decreases nodes
  {
    kept, found := [], 0;
    for i := 0 to |nodes|
      invariant kept == Remove(p, nodes[..i])
      invariant found == Count(p, nodes[..i])
    {
      var n := nodes[i];
      RemoveStep(p, nodes, i);
      if Matches(p, n) {
        found := found + CountNode(p, n);
      } else if n.Element? {
        var children, inner := RemovePass(p, n.children);
        kept := kept + [Element(n.tag, n.attrs, children)];
        found := found + inner;
      } else {
        kept := kept + [n];
      }
    }
    assert nodes[..|nodes|] == nodes;
  }

  /** One step of RemovePass: node `i` adds what RemoveNode keeps of it and what CountNode finds in it. */
  lemma RemoveStep(p: Pass, nodes: seq<Node>, i: nat)
    requires i < |nodes|
    ensures Remove(p, nodes[..i + 1]) == Remove(p, nodes[..i]) + RemoveNode(p, nodes[i])
    ensures Count(p, nodes[..i + 1]) == Count(p, nodes[..i]) + CountNode(p, nodes[i])
  {
    assert nodes[..i + 1][..i] == nodes[..i];
  }

  /** `clean_html_file` on a parsed document: the cleaned document and the four counters. */
  method CleanHtmlFile(doc: seq<Node>) returns (cleaned: seq<Node>, stats: Stats)
    ensures cleaned == CleanDoc(doc)
    ensures stats == CleanStats(doc)
  {
    var d1, comments := RemovePass(CaptureComments, doc);
    var d2, iframes := RemovePass(Iframes, d1);
    var d3, canonicalLinks := RemovePass(CanonicalLinks, d2);
    var d4, metaTags := RemovePass(CanonicalMetas, d3);
    cleaned := d4;
    stats := Stats(iframes, comments, canonicalLinks, metaTags);
  }

  // Only removes: the pruning relation

  /**
   * `a` is `b` with some descendants deleted: same kind, same tag, same
   * attributes, same text, and its children pruned from `b`'s.
   */
  predicate PrunedNode(a: Node, b: Node)
    decreases b, 1
  {
    if b.Element? then a.Element? && a.tag == b.tag && a.attrs == b.attrs && Pruned(a.children, b.children)
    else a == b
  }

  /**
   * `t` is obtained from `s` by deleting whole nodes and pruning the others:
   * the survivors keep their relative order and their nesting, and nothing is added.
   */
  predicate Pruned(t: seq<Node>, s: seq<Node>)
    decreases s, 0
  {
    if s == [] then t == []
    else
      Pruned(t, s[..|s| - 1]) ||
      (t != [] && PrunedNode(t[|t| - 1], s[|s| - 1]) && Pruned(t[..|t| - 1], s[..|s| - 1]))
  }

  lemma {:induction false} RemoveNodePrunes(p: Pass, n: Node)
    requires !Matches(p, n)
    ensures |RemoveNode(p, n)| == 1 && PrunedNode(RemoveNode(p, n)[0], n)
    decreases n, 1
  {
    if n.Element? {
      RemovePrunes(p, n.children);
    }
  }

  /** A pass only removes. */
  lemma {:induction false} RemovePrunes(p: Pass, s: seq<Node>)
    ensures Pruned(Remove(p, s), s)
    decreases s, 0
  {
    if s != [] {
      var init, last := s[..|s| - 1], s[|s| - 1];
      RemovePrunes(p, init);
      var t := Remove(p, s);
      if Matches(p, last) {
        assert RemoveNode(p, last) == [];
        assert t == Remove(p, init) + RemoveNode(p, last);
        assert t == Remove(p, init);
      } else {
        RemoveNodePrunes(p, last);
        var r := RemoveNode(p, last);
        assert t == Remove(p, init) + r;
        assert t[|t| - 1] == r[0];
        assert t[..|t| - 1] == Remove(p, init);
      }
    }
  }

  lemma {:induction false} PrunedNodeTrans(a: Node, b: Node, c: Node)
    requires PrunedNode(a, b) && PrunedNode(b, c)
    ensures PrunedNode(a, c)
    decreases c, 1
  {
    if c.Element? {
      PrunedTrans(a.children, b.children, c.children);
    }
  }

  /** Pruning a pruned sequence is pruning, so a chain of passes only removes. */
  lemma {:induction false} PrunedTrans(a: seq<Node>, b: seq<Node>, c: seq<Node>)
    requires Pruned(a, b) && Pruned(b, c)
    ensures Pruned(a, c)
    decreases c, 0
  {
    if c != [] {
      var c' := c[..|c| - 1];
      if Pruned(b, c') {
        PrunedTrans(a, b, c');
      } else {
        var b' := b[..|b| - 1];
        if Pruned(a, b') {
          PrunedTrans(a, b', c');
        } else {
          var a' := a[..|a| - 1];
          PrunedNodeTrans(a[|a| - 1], b[|b| - 1], c[|c| - 1]);
          PrunedTrans(a', b', c');
        }
      }
    }
  }

  lemma {:induction false} PrunedNodeCounts(q: Pass, a: Node, b: Node)
    requires PrunedNode(a, b)
    ensures CountNode(q, a) <= CountNode(q, b) && SizeNode(a) <= SizeNode(b)
    decreases b, 1
  {
    if b.Element? {
      PrunedCounts(q, a.children, b.children);
    }
  }

  /** Pruning never adds nodes, of any kind. */
  lemma {:induction false} PrunedCounts(q: Pass, t: seq<Node>, s: seq<Node>)
    requires Pruned(t, s)
    ensures Count(q, t) <= Count(q, s) && Size(t) <= Size(s)
    decreases s, 0
  {
    if s != [] {
      var s' := s[..|s| - 1];
      if Pruned(t, s') {
        PrunedCounts(q, t, s');
      } else {
        PrunedNodeCounts(q, t[|t| - 1], s[|s| - 1]);
        PrunedCounts(q, t[..|t| - 1], s');
      }
    }
  }

  // What one pass does

  lemma {:induction false} RemoveNodeLeavesNone(p: Pass, n: Node)
    ensures Count(p, RemoveNode(p, n)) == 0
    decreases n, 1
  {
    if !Matches(p, n) && n.Element? {
      RemoveLeavesNone(p, n.children);
      var r := RemoveNode(p, n);
      assert r[..0] == [];
    } else if !Matches(p, n) {
      assert [n][..0] == [];
    }
  }

  lemma CountAppend(p: Pass, s: seq<Node>, u: seq<Node>)
    requires |u| <= 1
    ensures Count(p, s + u) == Count(p, s) + Count(p, u)
  {
    if |u| == 1 {
      assert (s + u)[..|s + u| - 1] == s;
      assert u[..0] == [];
    } else {
      assert s + u == s;
    }
  }

  /** After a pass, nothing it looks for is left anywhere in the tree. */
  lemma {:induction false} RemoveLeavesNone(p: Pass, s: seq<Node>)
    ensures Count(p, Remove(p, s)) == 0
    decreases s, 0
  {
    if s != [] {
      var init := s[..|s| - 1];
      RemoveLeavesNone(p, init);
      RemoveNodeLeavesNone(p, s[|s| - 1]);
      CountAppend(p, Remove(p, init), RemoveNode(p, s[|s| - 1]));
    }
  }

  lemma {:induction false} RemoveNodeUnchanged(p: Pass, n: Node)
    requires CountNode(p, n) == 0
    ensures RemoveNode(p, n) == [n]
    decreases n, 1
  {
    if n.Element? {
      RemoveUnchanged(p, n.children);
    }
  }

  /** A pass that finds nothing changes nothing. */
  lemma {:induction false} RemoveUnchanged(p: Pass, s: seq<Node>)
    requires Count(p, s) == 0
    ensures Remove(p, s) == s
    decreases s, 0
  {
    if s != [] {
      RemoveUnchanged(p, s[..|s| - 1]);
      RemoveNodeUnchanged(p, s[|s| - 1]);
      assert s[..|s| - 1] + [s[|s| - 1]] == s;
    }
  }

  lemma SizeAppend(s: seq<Node>, u: seq<Node>)
    requires |u| <= 1
    ensures Size(s + u) == Size(s) + Size(u)
  {
    if |u| == 1 {
      assert (s + u)[..|s + u| - 1] == s;
      assert u[..0] == [];
    } else {
      assert s + u == s;
    }
  }

  lemma {:induction false} CountAtMostSize(p: Pass, s: seq<Node>)
    ensures Count(p, s) <= Size(s)
    decreases s, 0
  {
    if s != [] {
      CountAtMostSize(p, s[..|s| - 1]);
      if s[|s| - 1].Element? {
        CountAtMostSize(p, s[|s| - 1].children);
      }
    }
  }

  lemma {:induction false} RemoveNodeSize(p: Pass, n: Node)
    ensures Size(RemoveNode(p, n)) + CountNode(p, n) <= SizeNode(n)
    decreases n, 1
  {
    var r := RemoveNode(p, n);
    if Matches(p, n) {
      if n.Element? {
        CountAtMostSize(p, n.children);
      }
    } else {
      assert r[..0] == [];
      if n.Element? {
        RemoveSize(p, n.children);
      }
    }
  }

  /**
   * Every node a pass counts is among the nodes it removes: the counter never
   * exceeds the number of nodes that disappear.
   */
  lemma {:induction false} RemoveSize(p: Pass, s: seq<Node>)
    ensures Size(Remove(p, s)) + Count(p, s) <= Size(s)
    decreases s, 0
  {
    if s != [] {
      var init := s[..|s| - 1];
      RemoveSize(p, init);
      RemoveNodeSize(p, s[|s| - 1]);
      SizeAppend(Remove(p, init), RemoveNode(p, s[|s| - 1]));
    }
  }

  /** A pass changes the document exactly when its counter is not zero. */
  lemma RemoveChangesIff(p: Pass, s: seq<Node>)
    ensures Remove(p, s) == s <==> Count(p, s) == 0
  {
    RemoveSize(p, s);
    if Count(p, s) == 0 {
      RemoveUnchanged(p, s);
    }
  }

  /** Every node pass `p` matches in `n`'s subtree, `n` included, has no children. */
  predicate LeafMatchesNode(p: Pass, n: Node)
    decreases n, 1
  {
    (Matches(p, n) && n.Element? ==> n.children == []) &&
    (n.Element? ==> LeafMatches(p, n.children))
  }

  /** Every node pass `p` matches in a node sequence, at any depth, has no children. */
  predicate LeafMatches(p: Pass, s: seq<Node>)
    decreases s, 0
  {
    s != [] ==> LeafMatches(p, s[..|s| - 1]) && LeafMatchesNode(p, s[|s| - 1])
  }

  /**
   * When every match of a pass is childless, the pass removes exactly the nodes it
   * counts: nodes left + counter == nodes before.
   */
  lemma {:induction false} PassExact(p: Pass, s: seq<Node>)
    requires LeafMatches(p, s)
    ensures Size(Remove(p, s)) + Count(p, s) == Size(s)
    decreases s, 0
  {
    if s != [] {
      var init, last := s[..|s| - 1], s[|s| - 1];
      PassExact(p, init);
      SizeAppend(Remove(p, init), RemoveNode(p, last));
      var r := RemoveNode(p, last);
      if Matches(p, last) {
        if last.Element? {
          assert last.children == [];
          assert Count(p, last.children) == 0 && Size(last.children) == 0;
        }
      } else {
        assert r[..0] == [];
        if last.Element? {
          PassExact(p, last.children);
        }
      }
    }
  }

  /** A comment has no children, so every match of the comment pass is a leaf. */
  lemma {:induction false} CommentsAreLeaves(s: seq<Node>)
    ensures LeafMatches(CaptureComments, s)
    decreases s, 0
  {
    if s != [] {
      CommentsAreLeaves(s[..|s| - 1]);
      if s[|s| - 1].Element? {
        CommentsAreLeaves(s[|s| - 1].children);
      }
    }
  }

  lemma CommentPassExact(s: seq<Node>)
    ensures Size(Remove(CaptureComments, s)) + Count(CaptureComments, s) == Size(s)
  {
    CommentsAreLeaves(s);
    PassExact(CaptureComments, s);
  }

  /**
   * `<link>` and `<meta>` are void elements: in a parsed tree they have no
   * children, at any depth.
   */
  predicate VoidChildlessNode(n: Node)
    decreases n, 1
  {
    n.Element? ==>
      ((n.tag == "link" || n.tag == "meta") ==> n.children == []) && VoidChildless(n.children)
  }

  predicate VoidChildless(s: seq<Node>)
    decreases s, 0
  {
    s != [] ==> VoidChildless(s[..|s| - 1]) && VoidChildlessNode(s[|s| - 1])
  }

  lemma VoidAppend(s: seq<Node>, u: seq<Node>)
    requires |u| <= 1
    ensures VoidChildless(s + u) == (VoidChildless(s) && VoidChildless(u))
  {
    if |u| == 1 {
      assert (s + u)[..|s + u| - 1] == s;
      assert u[..0] == [];
    } else {
      assert s + u == s;
    }
  }

  /** In a parsed tree every match of a canonical pass is a leaf. */
  lemma {:induction false} VoidLeafMatches(p: Pass, s: seq<Node>)
    requires p == CanonicalLinks || p == CanonicalMetas
    requires VoidChildless(s)
    ensures LeafMatches(p, s)
    decreases s, 0
  {
    if s != [] {
      VoidLeafMatches(p, s[..|s| - 1]);
      if s[|s| - 1].Element? {
        VoidLeafMatches(p, s[|s| - 1].children);
      }
    }
  }

  /** A pass keeps a parsed tree parsed: `<link>` and `<meta>` stay childless. */
  lemma {:induction false} RemoveKeepsVoid(p: Pass, s: seq<Node>)
    requires VoidChildless(s)
    ensures VoidChildless(Remove(p, s))
    decreases s, 0
  {
    if s != [] {
      var init, last := s[..|s| - 1], s[|s| - 1];
      RemoveKeepsVoid(p, init);
      var r := RemoveNode(p, last);
      if !Matches(p, last) && last.Element? {
        RemoveKeepsVoid(p, last.children);
        assert [Element(last.tag, last.attrs, Remove(p, last.children))][..0] == [];
      } else if !Matches(p, last) {
        assert [last][..0] == [];
      }
      VoidAppend(Remove(p, init), r);
    }
  }

  /** The number of occurrences of node `x` in `n`'s subtree. */
  function OccurrencesNode(n: Node, x: Node): nat
    decreases n, 1
  {
    (if n == x then 1 else 0) + if n.Element? then Occurrences(n.children, x) else 0
  }

  /** The number of occurrences of node `x` in a node sequence, at any depth. */
  function Occurrences(s: seq<Node>, x: Node): nat
    decreases s, 0
  {
    if s == [] then 0 else Occurrences(s[..|s| - 1], x) + OccurrencesNode(s[|s| - 1], x)
  }

  lemma OccurrencesAppend(s: seq<Node>, u: seq<Node>, x: Node)
    requires |u| <= 1
    ensures Occurrences(s + u, x) == Occurrences(s, x) + Occurrences(u, x)
  {
    if |u| == 1 {
      assert (s + u)[..|s + u| - 1] == s;
      assert u[..0] == [];
    } else {
      assert s + u == s;
    }
  }

  /** Whether everything pass `p` removes is a leaf, so that a removal never takes other nodes along. */
  ghost predicate RemovesLeavesOnly(p: Pass) {
    forall n :: Matches(p, n) ==> !n.Element?
  }

  lemma {:induction false} RemoveNodeKeepsOthers(p: Pass, n: Node, x: Node)
    requires RemovesLeavesOnly(p) && !x.Element? && !Matches(p, x)
    ensures Occurrences(RemoveNode(p, n), x) == OccurrencesNode(n, x)
    decreases n, 1
  {
    if !Matches(p, n) {
      var r := RemoveNode(p, n);
      assert r[..0] == [];
      if n.Element? {
        RemoveKeepsOthers(p, n.children, x);
      }
    }
  }

  /**
   * A pass that removes only leaves keeps every text node and every comment it
   * does not match: each occurs as often afterwards as before.
   */
  lemma {:induction false} RemoveKeepsOthers(p: Pass, s: seq<Node>, x: Node)
    requires RemovesLeavesOnly(p) && !x.Element? && !Matches(p, x)
    ensures Occurrences(Remove(p, s), x) == Occurrences(s, x)
    decreases s, 0
  {
    if s != [] {
      var init, last := s[..|s| - 1], s[|s| - 1];
      RemoveKeepsOthers(p, init, x);
      RemoveNodeKeepsOthers(p, last, x);
      OccurrencesAppend(Remove(p, init), RemoveNode(p, last), x);
    }
  }

  /**
   * The comment pass keeps every text node and every comment without a capture
   * marker: each occurs as often afterwards as before.
   */
  lemma CommentPassKeepsOthers(s: seq<Node>, x: Node)
    requires !x.Element? && !Matches(CaptureComments, x)
    ensures Occurrences(Remove(CaptureComments, s), x) == Occurrences(s, x)
  {
    assert RemovesLeavesOnly(CaptureComments);
    RemoveKeepsOthers(CaptureComments, s, x);
  }

  // What each pass looks for

  /** Surrounding whitespace does not matter: a comment is a capture comment exactly when its text has a marker. */
  lemma CaptureCommentIff(text: string)
    ensures Matches(CaptureComments, Comment(text)) <==> HasMarker(text)
  {
    ContainsStrip(text, "SingleFile");
    ContainsStrip(text, "Page saved with");
    ContainsStrip(text, "saved date:");
  }

  /** A `<link>` goes exactly when its `rel` tokens include `canonical` and its `href` starts with `http`. */
  lemma CanonicalLinkRemovedIff(n: Node)
    requires n.Element? && n.tag == "link"
    ensures RemoveNode(CanonicalLinks, n) == [] <==>
            RelHas(n.attrs, "canonical") && StartsWith(Get(n.attrs, "href", ""), "http")
  {
  }

  /** A `<meta>` goes exactly when it names a canonical or `og:url` URL whose content starts with `http`. */
  lemma CanonicalMetaRemovedIff(n: Node)
    requires n.Element? && n.tag == "meta"
    ensures RemoveNode(CanonicalMetas, n) == [] <==>
            (AttrIs(n.attrs, "name", "canonical") || AttrIs(n.attrs, "property", "og:url")) &&
            StartsWith(Get(n.attrs, "content", ""), "http")
  {
  }

  /** A canonical link with a relative `href` survives, and so does one without `href`. */
  lemma RelativeCanonicalSurvives(attrs: map<string, AttrValue>, children: seq<Node>)
    requires RelHas(attrs, "canonical")
    requires "href" !in attrs || (attrs["href"].Str? && !StartsWith(attrs["href"].value, "http"))
    ensures RemoveNode(CanonicalLinks, Element("link", attrs, children)) ==
            [Element("link", attrs, Remove(CanonicalLinks, children))]
  {
  }

  // The whole cleaning

  /** Cleaning only removes: the result is a pruning of the input, with no more nodes of any kind. */
  lemma CleanOnlyRemoves(doc: seq<Node>)
    ensures Pruned(CleanDoc(doc), doc)
    ensures Size(CleanDoc(doc)) <= Size(doc)
    ensures forall q: Pass :: Count(q, CleanDoc(doc)) <= Count(q, doc)
  {
    var d1 := Remove(CaptureComments, doc);
    var d2 := Remove(Iframes, d1);
    var d3 := Remove(CanonicalLinks, d2);
    var d4 := Remove(CanonicalMetas, d3);
    RemovePrunes(CaptureComments, doc);
    RemovePrunes(Iframes, d1);
    RemovePrunes(CanonicalLinks, d2);
    RemovePrunes(CanonicalMetas, d3);
    PrunedTrans(d2, d1, doc);
    PrunedTrans(d3, d2, doc);
    PrunedTrans(d4, d3, doc);
    forall q: Pass ensures Count(q, d4) <= Count(q, doc) {
      PrunedCounts(q, d4, doc);
    }
    PrunedCounts(CaptureComments, d4, doc);
  }

  /**
   * After cleaning no capture comment, no iframe, no external canonical link and
   * no external canonical meta element is left anywhere in the tree.
   */
  lemma CleanLeavesNoTracking(doc: seq<Node>)
    ensures forall q: Pass :: Count(q, CleanDoc(doc)) == 0
  {
    var d1 := Remove(CaptureComments, doc);
    var d2 := Remove(Iframes, d1);
    var d3 := Remove(CanonicalLinks, d2);
    var d4 := Remove(CanonicalMetas, d3);
    RemovePrunes(Iframes, d1);
    RemovePrunes(CanonicalLinks, d2);
    RemovePrunes(CanonicalMetas, d3);
    forall q: Pass ensures Count(q, d4) == 0 {
      match q
      case CaptureComments =>
        RemoveLeavesNone(CaptureComments, doc);
        PrunedTrans(d3, d2, d1);
        PrunedTrans(d4, d3, d1);
        PrunedCounts(q, d4, d1);
      case Iframes =>
        RemoveLeavesNone(Iframes, d1);
        PrunedTrans(d4, d3, d2);
        PrunedCounts(q, d4, d2);
      case CanonicalLinks =>
        RemoveLeavesNone(CanonicalLinks, d2);
        PrunedCounts(q, d4, d3);
      case CanonicalMetas =>
        RemoveLeavesNone(CanonicalMetas, d3);
    }
  }

  /** A document with nothing to remove is left as it is, with every counter at 0. */
  lemma CleanWithoutTracking(doc: seq<Node>)
    requires forall q: Pass :: Count(q, doc) == 0
    ensures CleanDoc(doc) == doc && CleanStats(doc) == Stats(0, 0, 0, 0)
  {
    assert Count(CaptureComments, doc) == 0;
    RemoveUnchanged(CaptureComments, doc);
    assert Count(Iframes, doc) == 0;
    RemoveUnchanged(Iframes, doc);
    assert Count(CanonicalLinks, doc) == 0;
    RemoveUnchanged(CanonicalLinks, doc);
    assert Count(CanonicalMetas, doc) == 0;
    RemoveUnchanged(CanonicalMetas, doc);
  }

  /** Cleaning is idempotent: a second run changes nothing and counts nothing. */
  lemma CleanIdempotent(doc: seq<Node>)
    ensures CleanDoc(CleanDoc(doc)) == CleanDoc(doc)
    ensures CleanStats(CleanDoc(doc)) == Stats(0, 0, 0, 0)
  {
    CleanLeavesNoTracking(doc);
    CleanWithoutTracking(CleanDoc(doc));
  }

  /** Together the counters never exceed the number of nodes that cleaning removes. */
  lemma CleanStatsBound(doc: seq<Node>)
    ensures var st := CleanStats(doc);
            Size(CleanDoc(doc)) + st.comments + st.iframes + st.canonicalLinks + st.metaTags <= Size(doc)
  {
    var d1 := Remove(CaptureComments, doc);
    var d2 := Remove(Iframes, d1);
    var d3 := Remove(CanonicalLinks, d2);
    RemoveSize(CaptureComments, doc);
    RemoveSize(Iframes, d1);
    RemoveSize(CanonicalLinks, d2);
    RemoveSize(CanonicalMetas, d3);
  }

  /**
   * On a parsed tree the comment, canonical-link and canonical-meta counters are
   * exactly the number of nodes their pass removes.
   */
  lemma CleanCountsExact(doc: seq<Node>)
    requires VoidChildless(doc)
    ensures var d1 := Remove(CaptureComments, doc);
            var d2 := Remove(Iframes, d1);
            var d3 := Remove(CanonicalLinks, d2);
            Size(d1) + CleanStats(doc).comments == Size(doc) &&
            Size(d3) + CleanStats(doc).canonicalLinks == Size(d2) &&
            Size(CleanDoc(doc)) + CleanStats(doc).metaTags == Size(d3)
  {
    var d1 := Remove(CaptureComments, doc);
    var d2 := Remove(Iframes, d1);
    var d3 := Remove(CanonicalLinks, d2);
    CommentPassExact(doc);
    RemoveKeepsVoid(CaptureComments, doc);
    RemoveKeepsVoid(Iframes, d1);
    RemoveKeepsVoid(CanonicalLinks, d2);
    VoidLeafMatches(CanonicalLinks, d2);
    VoidLeafMatches(CanonicalMetas, d3);
    PassExact(CanonicalLinks, d2);
    PassExact(CanonicalMetas, d3);
  }

  /** Cleaning changes the document exactly when some counter is not zero. */
  lemma CleanUnchangedIff(doc: seq<Node>)
    ensures CleanDoc(doc) == doc <==> CleanStats(doc) == Stats(0, 0, 0, 0)
  {
    if CleanStats(doc) == Stats(0, 0, 0, 0) {
      var d1 := Remove(CaptureComments, doc);
      var d2 := Remove(Iframes, d1);
      var d3 := Remove(CanonicalLinks, d2);
      RemoveUnchanged(CaptureComments, doc);
      RemoveUnchanged(Iframes, d1);
      RemoveUnchanged(CanonicalLinks, d2);
      RemoveUnchanged(CanonicalMetas, d3);
    } else {
      CleanStatsBound(doc);
    }
  }

  lemma RemoveSnoc(p: Pass, s: seq<Node>, n: Node)
    ensures Remove(p, s + [n]) == Remove(p, s) + RemoveNode(p, n)
    ensures Count(p, s + [n]) == Count(p, s) + CountNode(p, n)
  {
    assert (s + [n])[..|s + [n]| - 1] == s;
  }

  lemma ExampleLeaf(n: Node)
    requires n.Element? && n.tag != "iframe" && n.tag != "link" && n.tag != "meta" && n.children == []
    ensures forall p: Pass :: CountNode(p, n) == 0 && RemoveNode(p, n) == [n]
  {
  }

  lemma RemoveTwo(p: Pass, a: Node, b: Node)
    ensures Remove(p, [a, b]) == RemoveNode(p, a) + RemoveNode(p, b)
    ensures Count(p, [a, b]) == CountNode(p, a) + CountNode(p, b)
  {
    RemoveSnoc(p, [], a);
    assert [] + [a] == [a];
    RemoveSnoc(p, [a], b);
    assert [a] + [b] == [a, b];
  }

  lemma RemoveThree(p: Pass, a: Node, b: Node, c: Node)
    ensures Remove(p, [a, b, c]) == RemoveNode(p, a) + RemoveNode(p, b) + RemoveNode(p, c)
    ensures Count(p, [a, b, c]) == CountNode(p, a) + CountNode(p, b) + CountNode(p, c)
  {
    RemoveTwo(p, a, b);
    RemoveSnoc(p, [a, b], c);
    assert [a, b] + [c] == [a, b, c];
  }

  lemma ExampleCommentPass(marker: string, frame: Node, link: Node)
    requires HasMarker(marker)
    requires frame.Element? && frame.tag == "iframe" && frame.children == []
    requires link.Element? && link.tag == "a" && link.children == []
    ensures Remove(CaptureComments, [Comment(marker), frame, link]) == [frame, link]
    ensures Count(CaptureComments, [Comment(marker), frame, link]) == 1
  {
    CaptureCommentIff(marker);
    ExampleLeaf(link);
    RemoveThree(CaptureComments, Comment(marker), frame, link);
    assert RemoveNode(CaptureComments, frame) == [Element(frame.tag, frame.attrs, [])];
    assert frame == Element(frame.tag, frame.attrs, []);
  }

  lemma ExampleIframePass(frame: Node, link: Node)
    requires frame.Element? && frame.tag == "iframe" && frame.children == []
    requires link.Element? && link.tag == "a" && link.children == []
    ensures Remove(Iframes, [frame, link]) == [link] && Count(Iframes, [frame, link]) == 1
  {
    ExampleLeaf(link);
    RemoveTwo(Iframes, frame, link);
  }

  lemma ExampleCanonicalPasses(link: Node)
    requires link.Element? && link.tag == "a" && link.children == []
    ensures Remove(CanonicalLinks, [link]) == [link] && Count(CanonicalLinks, [link]) == 0
    ensures Remove(CanonicalMetas, [link]) == [link] && Count(CanonicalMetas, [link]) == 0
  {
    ExampleLeaf(link);
    assert [] + [link] == [link];
    RemoveSnoc(CanonicalLinks, [], link);
    RemoveSnoc(CanonicalMetas, [], link);
  }

  /**
   * A saved page made of a capture comment, an iframe and a childless anchor:
   * the comment and the iframe go, the anchor stays, and each removed node is counted.
   */
  lemma CleanExample(marker: string, frame: Node, link: Node)
    requires HasMarker(marker)
    requires frame.Element? && frame.tag == "iframe" && frame.children == []
    requires link.Element? && link.tag == "a" && link.children == []
    ensures var doc := [Comment(marker), frame, link];
            CleanDoc(doc) == [link] && CleanStats(doc) == Stats(1, 1, 0, 0)
  {
    ExampleCommentPass(marker, frame, link);
    ExampleIframePass(frame, link);
    ExampleCanonicalPasses(link);
  }

  /** The comment a SingleFile capture leaves is recognised, surrounding spaces and all. */
  lemma SingleFileCommentMatches()
    ensures Matches(CaptureComments, Comment(" Page saved with SingleFile "))
  {
    var marker := " Page saved with SingleFile ";
    assert OccursAt(marker, "SingleFile", 17);
    CaptureCommentIff(marker);
  }
}
