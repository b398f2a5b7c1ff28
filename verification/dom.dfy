/**
 * A read-only model of the host page's element tree.
 *
 * A node is an element (tag name, attributes, class list, child nodes in order) or a
 * text node, which has no attributes and no children and so stands for the nodes that
 * lack `getAttribute`. A reference to a node is its path: the child indices leading to
 * it from the document element. The parent of a node is the path without its last
 * index (the document element has no parent element), its descendants are the paths
 * that extend it, and document order is the lexicographic order of paths, in which a
 * node comes before everything below it.
 */
module Dom {

  import opened Wrappers
  import opened Strings

  datatype Node =
    | Element(tag: string, attrs: map<string, string>, classes: set<string>, children: seq<Node>)
    | Text(data: string)

  type Path = seq<nat>

  /** The child nodes of `n` (text nodes have none). */
  function ChildNodes(n: Node): seq<Node> {
    if n.Element? then n.children else []
  }

  /** `n.getAttribute(name)`: the attribute's value, `None` when it is absent. */
  function GetAttribute(n: Node, name: string): Option<string>
    requires n.Element?
  {
    if name in n.attrs then Some(n.attrs[name]) else None
  }

  /** `n.getAttribute(name) === value` on a node that has `getAttribute`. */
  predicate AttributeIs(n: Node, name: string, value: string) {
    n.Element? && GetAttribute(n, name) == Some(value)
  }

  /**
   * How many of the nodes are elements: the length of `parent.children`, which leaves
   * text nodes out. It is positive exactly when some node is an element, and at least two
   * exactly when two different nodes are.
   */
  function ElementCount(ns: seq<Node>): (r: nat)
    ensures r <= |ns|
    ensures r > 0 <==> exists k :: 0 <= k < |ns| && ns[k].Element?
    ensures r >= 2 <==> exists k1, k2 :: 0 <= k1 < k2 < |ns| && ns[k1].Element? && ns[k2].Element?
  {
    if |ns| == 0 then 0
    else
      var rest := ElementCount(ns[1..]);
      assert forall k :: 1 <= k < |ns| ==> ns[k] == ns[1..][k - 1];
      if ns[0].Element? && rest > 0 then
        var k :| 0 <= k < |ns[1..]| && ns[1..][k].Element?;
        assert ns[k + 1].Element?;
        1 + rest
      else if ns[0].Element? then
        assert forall k2 :: 1 <= k2 < |ns| ==> !ns[k2].Element?;
        1 + rest
      else if rest >= 2 then
        var k1, k2 :| 0 <= k1 < k2 < |ns[1..]| && ns[1..][k1].Element? && ns[1..][k2].Element?;
        assert ns[k1 + 1].Element? && ns[k2 + 1].Element?;
        rest
      else
        rest
  }

  /** Whether `p` leads from `n` to one of its nodes. */
  predicate ValidPath(n: Node, p: Path)
    decreases p
  {
    |p| == 0 || (p[0] < |ChildNodes(n)| && ValidPath(ChildNodes(n)[p[0]], p[1..]))
  }

  /** The node that `p` leads to from `n`. */
  function At(n: Node, p: Path): Node
    requires ValidPath(n, p)
    decreases p
  {
    if |p| == 0 then n else At(ChildNodes(n)[p[0]], p[1..])
  }

  /** `parentElement`: the path without its last index; the document element has none. */
  function ParentElement(p: Path): (r: Option<Path>)
    ensures r.Some? <==> |p| > 0
    ensures r.Some? ==> r.value + [p[|p| - 1]] == p
  {
    if |p| == 0 then None else Some(p[..|p| - 1])
  }

  /** `p` comes strictly before `q` in document order. */
  predicate Before(p: Path, q: Path)
    decreases |p|
  {
    |q| > 0 && (|p| == 0 || p[0] < q[0] || (p[0] == q[0] && Before(p[1..], q[1..])))
  }

  // ---------------------------------------------------------------------------
  // Paths

  /** Every ancestor of a node of the tree is a node of the tree. */
  lemma {:induction false} PrefixValid(n: Node, p: Path, k: nat)
    requires ValidPath(n, p) && k <= |p|
    ensures ValidPath(n, p[..k])
  {
    if k > 0 {
      PrefixValid(ChildNodes(n)[p[0]], p[1..], k - 1);
      assert p[..k][1..] == p[1..][..k - 1];
    }
  }

  /** Following `p` and then `q` is following `p + q`. */
  lemma {:induction false} AtConcat(n: Node, p: Path, q: Path)
    requires ValidPath(n, p)
    ensures ValidPath(n, p + q) <==> ValidPath(At(n, p), q)
    ensures ValidPath(n, p + q) ==> At(n, p + q) == At(At(n, p), q)
  {
    if |p| == 0 {
      assert p + q == q;
    } else {
      assert (p + q)[1..] == p[1..] + q;
      AtConcat(ChildNodes(n)[p[0]], p[1..], q);
    }
  }

  // ---------------------------------------------------------------------------
  // Document order

  /** Document order is total: of two different nodes, one comes first. */
  lemma {:induction false} BeforeTotal(p: Path, q: Path)
    requires p != q
    ensures Before(p, q) || Before(q, p)
  {
    if |p| > 0 && |q| > 0 && p[0] == q[0] {
      assert p == [p[0]] + p[1..] && q == [q[0]] + q[1..];
      BeforeTotal(p[1..], q[1..]);
    }
  }

  /** On the grandchildren of a node, document order compares the child index first. */
  lemma BeforePair(a: nat, b: nat, c: nat, d: nat)
    ensures Before([a, b], [c, d]) <==> a < c || (a == c && b < d)
  {
    assert [a, b][1..] == [b] && [c, d][1..] == [d];
    assert Before([b], [d]) <==> b < d by {
      assert [b][1..] == [] && [d][1..] == [];
    }
  }

  // ---------------------------------------------------------------------------
  // The two selectors the locator runs against a subtree

  datatype Selector =
    | ProfileLinkTo(username: string)  // a[href="/@<username>"]
    | AnyProfileLink                    // a[href^="/@"]

  /**
   * Whether `n` matches the selector. Type selectors in an HTML document ignore case.
   * Either selector matches only links to a profile.
   */
  function Matches(sel: Selector, n: Node): (r: bool)
    ensures r ==> n.Element? && ToLower(n.tag) == "a" && "href" in n.attrs && StartsWith(n.attrs["href"], "/@")
  {
    n.Element? && ToLower(n.tag) == "a" &&
    match sel
    case ProfileLinkTo(u) =>
      assert ("/@" + u)[..2] == "/@";
      GetAttribute(n, "href") == Some("/@" + u)
    case AnyProfileLink => GetAttribute(n, "href").Some? && StartsWith(GetAttribute(n, "href").value, "/@")
  }

  /** Whether the node at `q`, strictly below `n`, matches the selector. */
  predicate MatchBelow(n: Node, sel: Selector, q: Path) {
    |q| > 0 && ValidPath(n, q) && Matches(sel, At(n, q))
  }

  /**
   * `n.querySelector(sel)`: the path, relative to `n`, of the first matching
   * descendant of `n` in document order.
   */
  function QuerySelector(n: Node, sel: Selector): (r: Option<Path>)
    ensures r.Some? ==> MatchBelow(n, sel, r.value)
  {
    FirstMatchFrom(n, 0, sel)
  }

  /** The first match in the subtrees of the children of `n` from index `i` on. */
  function FirstMatchFrom(n: Node, i: nat, sel: Selector): (r: Option<Path>)
    ensures r.Some? ==> MatchBelow(n, sel, r.value) && r.value[0] >= i
    decreases n, |ChildNodes(n)| - i
  {
    if n.Text? || i >= |n.children| then None
    else
      var c := n.children[i];
      if Matches(sel, c) then Some([i])
      else match FirstMatchFrom(c, 0, sel)
        case Some(q) => Some([i] + q)
        case None => FirstMatchFrom(n, i + 1, sel)
  }

  /** A node below child `i` of `n` is matched exactly when that child, or a node below it, is. */
  lemma BelowChild(n: Node, i: nat, sel: Selector, q: Path)
    requires i < |ChildNodes(n)| && |q| > 0 && q[0] == i
    ensures MatchBelow(n, sel, q) ==
      if |q| == 1 then Matches(sel, ChildNodes(n)[i]) else MatchBelow(ChildNodes(n)[i], sel, q[1..])
  {
    if |q| == 1 {
      assert q[1..] == [];
      assert ValidPath(n, q) && At(n, q) == ChildNodes(n)[i];
    }
  }

  /**
   * No node below the children from `i` on that comes before the search's result in
   * document order matches; the search finds nothing only when nothing there matches.
   */
  lemma {:induction false} FirstMatchFromSpec(n: Node, i: nat, sel: Selector)
    ensures match FirstMatchFrom(n, i, sel)
      case Some(q) =>
        forall q' :: |q'| > 0 && q'[0] >= i && Before(q', q) ==> !MatchBelow(n, sel, q')
      case None =>
        forall q' :: |q'| > 0 && q'[0] >= i ==> !MatchBelow(n, sel, q')
    decreases n, |ChildNodes(n)| - i
  {
    if n.Text? || i >= |n.children| {
      return;
    }
    var c := n.children[i];
    if Matches(sel, c) {
      assert [i][1..] == [];
      forall q' | |q'| > 0 && q'[0] >= i ensures !Before(q', [i]) {
        assert !Before(q'[1..], []);
      }
    } else {
      FirstMatchFromSpec(c, 0, sel);
      match FirstMatchFrom(c, 0, sel)
      case Some(q) =>
        assert ([i] + q)[1..] == q;
        forall q' | |q'| > 0 && q'[0] >= i && Before(q', [i] + q) ensures !MatchBelow(n, sel, q') {
          assert q'[0] == i;
          BelowChild(n, i, sel, q');
          if |q'| > 1 {
            assert Before(q'[1..], q);
          }
        }
      case None =>
        FirstMatchFromSpec(n, i + 1, sel);
        forall q' | |q'| > 0 && q'[0] == i ensures !MatchBelow(n, sel, q') {
          BelowChild(n, i, sel, q');
        }
    }
  }

  /** `querySelector` returns the first matching descendant in document order, or nothing when none matches. */
  lemma QuerySelectorSpec(n: Node, sel: Selector)
    ensures match QuerySelector(n, sel)
      case Some(q) =>
        MatchBelow(n, sel, q) && forall q' :: Before(q', q) ==> !MatchBelow(n, sel, q')
      case None =>
        forall q' :: !MatchBelow(n, sel, q')
  {
    FirstMatchFromSpec(n, 0, sel);
  }
}
