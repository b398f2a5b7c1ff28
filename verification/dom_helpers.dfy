/**
 * The container locator: four read-only heuristics over the element tree that find
 * the row holding a username and its follow button, the post around an element,
 * the selected tab of the followers/following dialog, and whether a container is a
 * horizontal user-list row. None of them changes the tree: the tree is a value.
 */
module DomHelpers {

  import opened Wrappers
  import opened Strings
  import opened Dom

  /** How many ancestors of the profile link `findUsernameContainer` inspects. */
  const UsernameSearchDepth: nat := 15

  /** How many nodes, the start node included, `findPostContainer` inspects. */
  const PostSearchDepth: nat := 20

  // ---------------------------------------------------------------------------
  // What qualifies a node

  /** A child that is an action button: `role="button"` and not itself a link, so never a profile link. */
  function IsButtonControl(c: Node): (r: bool)
    ensures r ==> c.Element? && GetAttribute(c, "role") == Some("button")
    ensures r ==> !Matches(AnyProfileLink, c) && forall u :: !Matches(ProfileLinkTo(u), c)
  {
    AttributeIs(c, "role", "button") && ToLower(c.tag) != "a"
  }

  /** Some element child of `n` is an action button. */
  predicate HasButtonChild(n: Node) {
    exists k :: 0 <= k < |ChildNodes(n)| && IsButtonControl(ChildNodes(n)[k])
  }

  predicate IsPressable(n: Node) {
    AttributeIs(n, "data-pressable-container", "true")
  }

  /**
   * A pressable container holding a profile link, or an `ARTICLE` element: the element
   * qualifies exactly when it is an article or it is pressable and some node below it is
   * an `a[href^="/@"]`.
   */
  function IsPostContainer(n: Node): (r: bool)
    ensures r <==> n.Element? && (n.tag == "ARTICLE" || (IsPressable(n) && exists q :: MatchBelow(n, AnyProfileLink, q)))
  {
    QuerySelectorSpec(n, AnyProfileLink);
    n.Element? && ((IsPressable(n) && QuerySelector(n, AnyProfileLink).Some?) || n.tag == "ARTICLE")
  }

  /** The two upward searches differ only in what they look for. */
  datatype Criterion = ButtonHost | PostHost

  predicate Qualifies(c: Criterion, n: Node) {
    match c
    case ButtonHost => HasButtonChild(n)
    case PostHost => IsPostContainer(n)
  }

  predicate QualifiesAt(c: Criterion, root: Node, p: Path) {
    ValidPath(root, p) && Qualifies(c, At(root, p))
  }

  // ---------------------------------------------------------------------------
  // The upward searches, as functions

  /**
   * The length of the longest prefix of `p` (the nearest ancestor-or-self), among the
   * lengths `hi` down to `lo`, whose node qualifies.
   */
  function Nearest(root: Node, p: Path, c: Criterion, hi: int, lo: int): (r: Option<nat>)
    requires hi <= |p|
    ensures r.Some? ==> lo <= r.value <= hi
    decreases hi
  {
    if hi < 0 || hi < lo then None
    else if QualifiesAt(c, root, p[..hi]) then Some(hi)
    else Nearest(root, p, c, hi - 1, lo)
  }

  function PrefixOf(p: Path, m: Option<nat>): Option<Path>
    requires m.Some? ==> m.value <= |p|
  {
    if m.None? then None else Some(p[..m.value])
  }

  /** The absolute path of the first `a[href="/@<username>"]` below `container`. */
  function ProfileLinkOf(root: Node, container: Path, username: string): Option<Path>
    requires ValidPath(root, container)
  {
    match QuerySelector(At(root, container), ProfileLinkTo(username))
    case None => None
    case Some(q) => Some(container + q)
  }

  /** What `findUsernameContainer` returns: the nearest of the 15 ancestors of the link with a button child. */
  function UsernameContainerOf(root: Node, container: Path, username: string): Option<Path>
    requires ValidPath(root, container)
  {
    match ProfileLinkOf(root, container, username)
    case None => None
    case Some(link) => PrefixOf(link, Nearest(root, link, ButtonHost, |link| - 1, |link| - UsernameSearchDepth))
  }

  /** What `findPostContainer` returns: the nearest of the start node and its 19 ancestors that is a post container. */
  function PostContainerOf(root: Node, start: Path): Option<Path> {
    PrefixOf(start, Nearest(root, start, PostHost, |start|, |start| - (PostSearchDepth - 1)))
  }

  // ---------------------------------------------------------------------------
  // The upward searches, as the source runs them

  /** `findUsernameContainer(container, username)` (src/lib/domHelpers.js). */
  method FindUsernameContainer(root: Node, container: Path, username: string) returns (r: Option<Path>)
    requires ValidPath(root, container) && At(root, container).Element?
    ensures r == UsernameContainerOf(root, container, username)
  {
    var found := QuerySelector(At(root, container), ProfileLinkTo(username));
    if found.None? {
      return None;
    }
    var link := container + found.value;
    QuerySelectorSpec(At(root, container), ProfileLinkTo(username));
    AtConcat(root, container, found.value);
    assert ProfileLinkOf(root, container, username) == Some(link);
    ghost var lo := |link| - UsernameSearchDepth;
    var current: Option<Path> := Some(link);
    var i := 0;
    while i < UsernameSearchDepth && current.Some?
      invariant 0 <= i <= UsernameSearchDepth
      invariant current.Some? ==> i <= |link| && current.value == link[..|link| - i]
      invariant current.None? ==> i == |link| + 1
      invariant Nearest(root, link, ButtonHost, |link| - 1, lo) == Nearest(root, link, ButtonHost, |link| - 1 - i, lo)
    {
      var parent := ParentElement(current.value);
      if parent.Some? {
        assert parent.value == link[..|link| - 1 - i];
        PrefixValid(root, link, |link| - 1 - i);
        if HasButtonChild(At(root, parent.value)) {
          assert QualifiesAt(ButtonHost, root, link[..|link| - 1 - i]);
          return parent;
        }
      }
      current := parent;
      i := i + 1;
    }
    return None;
  }

  /**
   * `findPostContainer(element)` (src/lib/domHelpers.js). A null or undefined element
   * (`None`) gives null.
   */
  method FindPostContainer(root: Node, element: Option<Path>) returns (r: Option<Path>)
    requires element.Some? ==> ValidPath(root, element.value)
    ensures element.None? ==> r.None?
    ensures element.Some? ==> r == PostContainerOf(root, element.value)
  {
    ghost var start := if element.Some? then element.value else [];
    ghost var lo := |start| - (PostSearchDepth - 1);
    var current := element;
    var depth := 0;
    while current.Some? && depth < PostSearchDepth
      invariant 0 <= depth <= PostSearchDepth
      invariant element.None? ==> current.None?
      invariant current.Some? ==> depth <= |start| && current.value == start[..|start| - depth]
      invariant element.Some? && current.None? ==> depth == |start| + 1
      invariant Nearest(root, start, PostHost, |start|, lo) == Nearest(root, start, PostHost, |start| - depth, lo)
    {
      PrefixValid(root, start, |start| - depth);
      var node := At(root, current.value);
      if node.Element? {
        if GetAttribute(node, "data-pressable-container") == Some("true") {
          var profileLink := QuerySelector(node, AnyProfileLink);
          if profileLink.Some? {
            return current;
          }
        }
        if node.tag == "ARTICLE" {
          return current;
        }
      }
      current := ParentElement(current.value);
      depth := depth + 1;
    }
    return None;
  }

  // ---------------------------------------------------------------------------
  // The tab detector

  datatype TabState = TabState(isFollowers: bool, isFollowing: bool)

  predicate IsSelected(tab: Node) {
    AttributeIs(tab, "aria-selected", "true")
  }

  /** `detectActiveTab(tabs)` (src/lib/domHelpers.js): the tab's position, not its label, decides. */
  method DetectActiveTab(tabs: seq<Node>) returns (r: TabState)
    requires forall k :: 0 <= k < |tabs| ==> tabs[k].Element?
    ensures r.isFollowers <==> |tabs| > 0 && IsSelected(tabs[0])
    ensures r.isFollowing <==> |tabs| > 1 && IsSelected(tabs[1])
  {
    var isFollowers := false;
    var isFollowing := false;
    for index := 0 to |tabs|
      invariant isFollowers <==> index > 0 && IsSelected(tabs[0])
      invariant isFollowing <==> index > 1 && IsSelected(tabs[1])
    {
      if GetAttribute(tabs[index], "aria-selected") == Some("true") {
        if index == 0 {
          isFollowers := true;
        } else if index == 1 {
          isFollowing := true;
        }
      }
    }
    return TabState(isFollowers, isFollowing);
  }

  // ---------------------------------------------------------------------------
  // The user-list row detector

  /** The class-name markers of the host page's list rows, kept in one place. */
  const ContentMarker := "x6s0dn4"
  const ButtonMarker := "xqcrz7y"
  const RowMarker := "x78zum5"

  predicate IsDiv(n: Node) {
    n.Element? && ToLower(n.tag) == "div"
  }

  /** `div.x6s0dn4.xqcrz7y` */
  predicate IsButtonSection(n: Node) {
    IsDiv(n) && ContentMarker in n.classes && ButtonMarker in n.classes
  }

  /** The grandchild `(i, j)` of `c` matches `:scope > div > div.x6s0dn4.xqcrz7y`. */
  predicate SectionAt(c: Node, i: int, j: int) {
    0 <= i < |ChildNodes(c)| && IsDiv(ChildNodes(c)[i]) &&
    0 <= j < |ChildNodes(ChildNodes(c)[i])| && IsButtonSection(ChildNodes(ChildNodes(c)[i])[j])
  }

  /** The first child of `d`, from index `j` on, that is a button section. */
  function FirstSectionIn(d: Node, j: nat): (r: Option<nat>)
    ensures r.Some? ==> j <= r.value < |ChildNodes(d)| && IsButtonSection(ChildNodes(d)[r.value])
    decreases |ChildNodes(d)| - j
  {
    if j >= |ChildNodes(d)| then None
    else if IsButtonSection(ChildNodes(d)[j]) then Some(j)
    else FirstSectionIn(d, j + 1)
  }

  /** The first grandchild, in document order, below the children of `c` from index `i` on, that matches. */
  function FirstSectionFrom(c: Node, i: nat): (r: Option<(nat, nat)>)
    ensures r.Some? ==> i <= r.value.0 && SectionAt(c, r.value.0, r.value.1)
    decreases |ChildNodes(c)| - i
  {
    if i >= |ChildNodes(c)| then None
    else if IsDiv(ChildNodes(c)[i]) && FirstSectionIn(ChildNodes(c)[i], 0).Some? then
      Some((i, FirstSectionIn(ChildNodes(c)[i], 0).value))
    else FirstSectionFrom(c, i + 1)
  }

  /** `isUserListContext(container)` (src/lib/domHelpers.js). */
  function IsUserListContext(container: Option<Node>): (r: bool)
    requires container.Some? ==> container.value.Element?
    ensures container.None? ==> !r
  {
    match container
    case None => false
    case Some(c) =>
      match FirstSectionFrom(c, 0)
      case None => false
      case Some((i, j)) => ConfirmsRow(c, i, j)
  }

  /**
   * The button section at `(i, j)` also carries the row marker, and its parent (the child
   * `i` of `c`) has at least two element children: content and button side by side.
   */
  function ConfirmsRow(c: Node, i: int, j: int): (r: bool)
    ensures r ==> SectionAt(c, i, j) && RowMarker in ChildNodes(ChildNodes(c)[i])[j].classes
    ensures r ==> exists k :: 0 <= k < |ChildNodes(ChildNodes(c)[i])| && k != j && ChildNodes(ChildNodes(c)[i])[k].Element?
  {
    SectionAt(c, i, j) &&
    RowMarker in ChildNodes(ChildNodes(c)[i])[j].classes &&
    ElementCount(ChildNodes(ChildNodes(c)[i])) >= 2
  }

  /** `(i, j)` is the first grandchild of `c`, in document order, that matches the section selector. */
  ghost predicate IsFirstSection(c: Node, i: nat, j: nat) {
    SectionAt(c, i, j) && forall i': nat, j': nat :: Before([i', j'], [i, j]) ==> !SectionAt(c, i', j')
  }

  // ---------------------------------------------------------------------------
  // Properties of the upward searches

  /** `Nearest` finds the longest qualifying prefix in its range, and nothing only when no prefix there qualifies. */
  lemma {:induction false} NearestSpec(root: Node, p: Path, c: Criterion, hi: int, lo: int)
    requires hi <= |p|
    ensures match Nearest(root, p, c, hi, lo)
      case Some(m) =>
        QualifiesAt(c, root, p[..m]) && forall m' :: m < m' <= hi ==> !QualifiesAt(c, root, p[..m'])
      case None =>
        forall m' :: 0 <= m' <= hi && lo <= m' ==> !QualifiesAt(c, root, p[..m'])
    decreases hi
  {
    if hi >= 0 && hi >= lo && !QualifiesAt(c, root, p[..hi]) {
      NearestSpec(root, p, c, hi - 1, lo);
    }
  }

  /**
   * `findUsernameContainer` returns null when there is no profile link; otherwise it
   * returns a proper ancestor of the link at most 15 levels up that has an action-button
   * child, with no nearer ancestor having one, or null when none of those 15 has one.
   */
  lemma UsernameContainerSpec(root: Node, container: Path, username: string)
    requires ValidPath(root, container)
    ensures ProfileLinkOf(root, container, username).None? ==> UsernameContainerOf(root, container, username).None?
    ensures match ProfileLinkOf(root, container, username)
      case None => true
      case Some(link) =>
        match UsernameContainerOf(root, container, username)
        case Some(a) =>
          |a| < |link| <= |a| + UsernameSearchDepth && a == link[..|a|] &&
          ValidPath(root, a) && HasButtonChild(At(root, a)) &&
          forall m :: |a| < m < |link| ==> !QualifiesAt(ButtonHost, root, link[..m])
        case None =>
          forall m :: 0 <= m < |link| && |link| - UsernameSearchDepth <= m ==> !QualifiesAt(ButtonHost, root, link[..m])
  {
    if ProfileLinkOf(root, container, username).Some? {
      var link := ProfileLinkOf(root, container, username).value;
      var m := Nearest(root, link, ButtonHost, |link| - 1, |link| - UsernameSearchDepth);
      NearestSpec(root, link, ButtonHost, |link| - 1, |link| - UsernameSearchDepth);
      assert UsernameContainerOf(root, container, username) == PrefixOf(link, m);
      if m.Some? {
        assert |link[..m.value]| == m.value;
      }
    }
  }

  /** Without an `a` whose `href` is exactly `/@<username>` below the container, the result is null. */
  lemma NoProfileLinkNoContainer(root: Node, container: Path, username: string)
    requires ValidPath(root, container)
    requires forall q :: !MatchBelow(At(root, container), ProfileLinkTo(username), q)
    ensures UsernameContainerOf(root, container, username).None?
  {
    QuerySelectorSpec(At(root, container), ProfileLinkTo(username));
  }

  /**
   * `findPostContainer` returns the nearest of the start node and its ancestors, 20 nodes
   * at most, that is a post container, and null when none of those 20 is.
   */
  lemma PostContainerSpec(root: Node, start: Path)
    ensures match PostContainerOf(root, start)
      case Some(a) =>
        |start| - PostSearchDepth < |a| <= |start| && a == start[..|a|] &&
        ValidPath(root, a) && IsPostContainer(At(root, a)) &&
        forall m :: |a| < m <= |start| ==> !QualifiesAt(PostHost, root, start[..m])
      case None =>
        forall m :: 0 <= m <= |start| && |start| - PostSearchDepth < m ==> !QualifiesAt(PostHost, root, start[..m])
  {
    NearestSpec(root, start, PostHost, |start|, |start| - (PostSearchDepth - 1));
  }

  /**
   * An `ARTICLE` in the searched part of the chain wins over any pressable container
   * farther up: the result is that article or a nearer node.
   */
  lemma CloserArticleWins(root: Node, start: Path, near: nat, far: nat)
    requires far < near <= |start| && |start| - PostSearchDepth < near
    requires ValidPath(root, start[..near])
    requires At(root, start[..near]).Element? && At(root, start[..near]).tag == "ARTICLE"
    ensures PostContainerOf(root, start).Some?
    ensures |PostContainerOf(root, start).value| >= near
    ensures PostContainerOf(root, start) != Some(start[..far])
  {
    PostContainerSpec(root, start);
    assert QualifiesAt(PostHost, root, start[..near]);
  }

  /**
   * A pressable container with no `a[href^="/@"]` below it, and which is not an article,
   * is passed over, and so is a node without attributes.
   */
  lemma NonContainersSkipped(root: Node, start: Path, m: nat)
    requires m <= |start| && ValidPath(root, start[..m])
    requires var n := At(root, start[..m]);
      n.Text? || (n.tag != "ARTICLE" && forall q :: !MatchBelow(n, AnyProfileLink, q))
    ensures PostContainerOf(root, start) != Some(start[..m])
  {
    QuerySelectorSpec(At(root, start[..m]), AnyProfileLink);
    PostContainerSpec(root, start);
  }

  // ---------------------------------------------------------------------------
  // Properties of the user-list row detector

  lemma {:induction false} FirstSectionInSpec(d: Node, j: nat)
    ensures match FirstSectionIn(d, j)
      case Some(b) => forall j' :: j <= j' < b ==> !IsButtonSection(ChildNodes(d)[j'])
      case None => forall j' :: j <= j' < |ChildNodes(d)| ==> !IsButtonSection(ChildNodes(d)[j'])
    decreases |ChildNodes(d)| - j
  {
    if j < |ChildNodes(d)| && !IsButtonSection(ChildNodes(d)[j]) {
      FirstSectionInSpec(d, j + 1);
    }
  }

  /** The scan over grandchildren finds the first match in document order, or nothing when none matches. */
  lemma {:induction false} FirstSectionFromSpec(c: Node, i: nat)
    ensures match FirstSectionFrom(c, i)
      case Some((a, b)) =>
        SectionAt(c, a, b) && forall i', j' :: i <= i' && (i' < a || (i' == a && j' < b)) ==> !SectionAt(c, i', j')
      case None => forall i', j' :: i <= i' ==> !SectionAt(c, i', j')
    decreases |ChildNodes(c)| - i
  {
    if i < |ChildNodes(c)| {
      var d := ChildNodes(c)[i];
      FirstSectionInSpec(d, 0);
      if !(IsDiv(d) && FirstSectionIn(d, 0).Some?) {
        FirstSectionFromSpec(c, i + 1);
      }
    }
  }

  /** Document order is total, so the first match of the section selector is unique. */
  lemma FirstSectionUnique(c: Node, i: nat, j: nat, i2: nat, j2: nat)
    requires IsFirstSection(c, i, j) && IsFirstSection(c, i2, j2)
    ensures i == i2 && j == j2
  {
    if [i, j] != [i2, j2] {
      BeforeTotal([i, j], [i2, j2]);
    } else {
      assert [i, j][0] == [i2, j2][0] && [i, j][1] == [i2, j2][1];
    }
  }

  /** The grandchild the scan returns is the first match in document order. */
  lemma FirstSectionIsFirst(c: Node)
    ensures match FirstSectionFrom(c, 0)
      case Some((a, b)) => IsFirstSection(c, a, b)
      case None => forall i: nat, j: nat :: !SectionAt(c, i, j)
  {
    FirstSectionFromSpec(c, 0);
    if FirstSectionFrom(c, 0).Some? {
      var (a, b) := FirstSectionFrom(c, 0).value;
      forall i': nat, j': nat | Before([i', j'], [a, b]) ensures !SectionAt(c, i', j') {
        BeforePair(i', j', a, b);
      }
    }
  }

  /**
   * A container is a user-list row exactly when the first `:scope > div > div.x6s0dn4.xqcrz7y`
   * match also has class `x78zum5` and its parent has at least two element children.
   */
  lemma UserListContextSpec(c: Node)
    requires c.Element?
    ensures IsUserListContext(Some(c)) <==> exists i: nat, j: nat :: IsFirstSection(c, i, j) && ConfirmsRow(c, i, j)
  {
    FirstSectionIsFirst(c);
    if exists i: nat, j: nat :: IsFirstSection(c, i, j) && ConfirmsRow(c, i, j) {
      var i: nat, j: nat :| IsFirstSection(c, i, j) && ConfirmsRow(c, i, j);
      var (a, b) := FirstSectionFrom(c, 0).value;
      FirstSectionUnique(c, i, j, a, b);
    }
  }

  /** Only the first match is looked at: when it does not confirm the row, a later match cannot. */
  lemma OnlyFirstSectionCounts(c: Node, i: nat, j: nat)
    requires c.Element? && IsFirstSection(c, i, j) && !ConfirmsRow(c, i, j)
    ensures !IsUserListContext(Some(c))
  {
    UserListContextSpec(c);
    forall i': nat, j': nat | IsFirstSection(c, i', j') ensures !ConfirmsRow(c, i', j') {
      FirstSectionUnique(c, i, j, i', j');
    }
  }
}
