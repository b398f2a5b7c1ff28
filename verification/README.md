# Container locator and notification classifier of lee-su-threads

lee-su-threads is a browser extension that adds location badges to the Threads web
interface. This project models the two parts of it that decide where a badge goes and
which notifications get one, and proves properties of them in Dafny.

- **Container locator** (`src/lib/domHelpers.js`). It is made of four read-only heuristics
  over the page's element tree:
  - `findUsernameContainer` finds the row that holds a username's profile link and a follow
    button, looking up at most 15 ancestors of the link.
  - `findPostContainer` finds the post around an element. It looks at the element and at most
    19 of its ancestors, for a pressable container holding a profile link or an `ARTICLE`.
  - `detectActiveTab` tells from the selected tab's position whether the dialog shows the
    followers or the following list.
  - `isUserListContext` recognises a horizontal user-list row by the class names of its
    button section.
- **Notification classifier** (pinned down by `test/notificationDetector.test.js`). It has
  three parts:
  - the registry of single-user notification types, keyed by icon colour;
  - `getNotificationType` and `isSingleUserNotification`, which match a colour after trimming
    and lower-casing it;
  - `extractIconColor`, which reads the colour from the icon's inline style and otherwise from
    the style property lookup.

The page is a value (module `Dom`): a node is an element (tag, attributes, classes, child
nodes) or a text node, and a reference to a node is its path of child indices.
`parentElement` drops the last index, and document order is the lexicographic order of
paths. `querySelector` is modelled for the selectors the locator uses. It returns the
first match in document order, and `Dom.QuerySelectorSpec` proves this.

The two upward searches are written as loops, as in the source (`FindUsernameContainer`
and `FindPostContainer`). Each is proved equal to a specification function, and lemmas
then state what that function means.

For `findPostContainer`, the code does not do what its comments suggest. The comments say
that a pressable container is preferred over an `ARTICLE`. The code returns the nearest
node that is either kind, and the model follows the code (`CloserArticleWins`).

## Model

| member | source | states |
|---|---|---|
| Dom.ParentElement | src/lib/domHelpers.js:25 | a node has a parent exactly when it is not the document element, and the parent's path extended by the node's index is the node's path |
| Dom.ElementCount | src/lib/domHelpers.js:138 | `parent.children.length` counts the element children only. It is positive exactly when some child is an element, and at least 2 exactly when two different children are |
| Dom.BeforePair | src/lib/domHelpers.js:128 | on grandchildren, document order compares the child index first and the grandchild index second |
| Dom.Matches | src/lib/domHelpers.js:15 | a node matching either selector is an `a` element (tag compared without case) whose `href` starts with `/@` |
| Dom.QuerySelector | src/lib/domHelpers.js:15 | a node `querySelector` returns is a descendant of the node searched that matches the selector |
| Dom.QuerySelectorSpec | src/lib/domHelpers.js:15 | `querySelector` returns a matching descendant with no matching descendant before it in document order, and returns nothing only when no descendant matches |
| Dom.FirstMatchFromSpec | src/lib/domHelpers.js:61 | the search through the subtrees of the children from index i on finds the first match in document order among them, or reports that there is none |
| DomHelpers.IsButtonControl | src/lib/domHelpers.js:28-32 | a child counts as a button only if it is an element with `role="button"`, and a profile link never counts |
| DomHelpers.FindUsernameContainer | src/lib/domHelpers.js:13-42 | for a container that is an element, the loop over at most 15 parents of the profile link returns exactly the nearest qualifying ancestor that `UsernameContainerOf` specifies, or null |
| DomHelpers.NearestSpec | src/lib/domHelpers.js:24-39 | the upward search returns the nearest ancestor in its range that qualifies, with none nearer qualifying, and returns nothing only when no ancestor in the range qualifies |
| DomHelpers.UsernameContainerSpec | src/lib/domHelpers.js:15-41 | no profile link gives null. Otherwise the result is a proper ancestor of the link at most 15 levels up that has a `role="button"` child which is not an `a`, with no nearer ancestor having one. It is null only when none of those 15 ancestors has one |
| DomHelpers.NoProfileLinkNoContainer | src/lib/domHelpers.js:15-18 | when no `a` below the container has `href` equal to `/@<username>`, the result is null |
| DomHelpers.IsPostContainer | src/lib/domHelpers.js:57-71 | a node is a post container exactly when it is an element that is an `ARTICLE`, or is pressable and has an `a[href^="/@"]` below it |
| DomHelpers.FindPostContainer | src/lib/domHelpers.js:51-79 | a null element gives null. Otherwise the loop over the start node and at most 19 ancestors returns exactly the nearest post container that `PostContainerOf` specifies, or null |
| DomHelpers.PostContainerSpec | src/lib/domHelpers.js:56-76 | the result is the start node or an ancestor within 20 nodes that is a pressable container with a profile link or an `ARTICLE`, with no nearer node qualifying. It is null only when none of those 20 nodes qualifies |
| DomHelpers.CloserArticleWins | src/lib/domHelpers.js:56-72 | an `ARTICLE` within the searched range makes the result that article or a nearer node, never a pressable container farther up |
| DomHelpers.NonContainersSkipped | src/lib/domHelpers.js:57-72 | a node without attributes, or a node that is not an `ARTICLE` and has no `a[href^="/@"]` below it, is never the result, even when it is pressable |
| DomHelpers.DetectActiveTab | src/lib/domHelpers.js:88-106 | `isFollowers` holds exactly when the first tab has `aria-selected="true"`, and `isFollowing` exactly when the second one does. Later tabs have no effect |
| DomHelpers.IsUserListContext | src/lib/domHelpers.js:118-119 | a null container is not a user-list row |
| DomHelpers.FirstSectionInSpec | src/lib/domHelpers.js:128 | the scan of a child's children finds the first `div.x6s0dn4.xqcrz7y` from index j on, or reports that there is none |
| DomHelpers.FirstSectionFromSpec | src/lib/domHelpers.js:128 | the scan for `:scope > div > div.x6s0dn4.xqcrz7y` returns the first matching grandchild in document order, or nothing when none matches |
| DomHelpers.FirstSectionIsFirst | src/lib/domHelpers.js:128 | the section the scan finds is the first `:scope > div > div.x6s0dn4.xqcrz7y` in document order, and the scan finds none only when no grandchild is one |
| DomHelpers.ConfirmsRow | src/lib/domHelpers.js:130-139 | a section confirms the row only if it has class `x78zum5` and its parent has another element child besides it |
| DomHelpers.FirstSectionUnique | src/lib/domHelpers.js:128 | the first match of the section selector is unique |
| DomHelpers.UserListContextSpec | src/lib/domHelpers.js:118-145 | a container is a user-list row exactly when the first match of the section selector also has class `x78zum5` and its parent has at least two element children |
| DomHelpers.OnlyFirstSectionCounts | src/lib/domHelpers.js:128-144 | when the first match does not confirm the row, the answer is false, whatever later matches look like |
| Strings.TrimIgnoresPadding | test/notificationDetector.test.js:27 | white space around a string does not change its trimmed form |
| Strings.LowerTrim | test/notificationDetector.test.js:87-94 | trimming and lower-casing commute |
| Strings.SplitJoin | test/notificationDetector.test.js:145-160 | splitting a `;`-join of pieces without `;` gives back the pieces |
| NotificationDetector.NormalizedKey | test/notificationDetector.test.js:24-27 | the key a colour is looked up by (trimmed, lower case) has no white space around it and no upper-case letter, so normalising it again changes nothing |
| NotificationDetector.RegistryNormalized | test/notificationDetector.test.js:12-19 | the registry colours are `#24c3ff`, `#20c584` and `#fe7900`. They are distinct and already trimmed and lower case |
| NotificationDetector.RegistryRoundTrip | test/notificationDetector.test.js:12-19 | each registry entry is what its own colour classifies as, and each is single-user (Reply, Mention, Quote) |
| NotificationDetector.Lookup | test/notificationDetector.test.js:54-85 | a found entry is in the registry with the colour looked up. No entry is found only when no entry has that colour |
| NotificationDetector.GetNotificationType | test/notificationDetector.test.js:54-85 | a non-null result is a registry entry whose colour is the trimmed, lower-cased input. Null and undefined give null. Whenever an entry has the normalised colour, the result is not null |
| NotificationDetector.Classification | test/notificationDetector.test.js:54-79 | an input classifies as a type exactly when that type is in the registry and its colour is the normalised input |
| NotificationDetector.IsSingleUserNotification | test/notificationDetector.test.js:23-50 | a colour is single-user exactly when it is present and its normalised form is one of `#24c3ff`, `#20c584` and `#fe7900` |
| NotificationDetector.SingleUserAgrees | test/notificationDetector.test.js:23-50 | `isSingleUserNotification` holds exactly when `getNotificationType` finds an entry and that entry is single-user |
| NotificationDetector.CaseInsensitive | test/notificationDetector.test.js:87-94 | inputs that differ only in letter case get the same type and the same single-user answer |
| NotificationDetector.WhitespaceTolerant | test/notificationDetector.test.js:27 | white space around an input changes neither its type nor its single-user answer |
| NotificationDetector.UnknownColours | test/notificationDetector.test.js:40-85 | a missing input, or one whose normalised form is no registry colour (the empty string included), has no type and is not single-user |
| NotificationDetector.NormalizesTo | test/notificationDetector.test.js:24-38 | an input whose normalised form is a registry colour classifies as that entry and is single-user |
| NotificationDetector.TestedReplyColours | test/notificationDetector.test.js:24-28 | `#24c3ff`, `#24C3FF` and `  #24c3ff  ` are single-user |
| NotificationDetector.TestedMentionColours | test/notificationDetector.test.js:30-33 | `#20c584` and `#20C584` are single-user |
| NotificationDetector.TestedQuoteColours | test/notificationDetector.test.js:35-38 | `#fe7900` and `#FE7900` are single-user |
| NotificationDetector.TestedTypeLookups | test/notificationDetector.test.js:54-74 | `#24c3ff` is a Reply, `#20C584` a Mention and `#FE7900` a Quote |
| NotificationDetector.TestedCaseVariants | test/notificationDetector.test.js:87-94 | `#24C3FF` and `#24c3FF` both classify as Reply |
| NotificationDetector.TestedUnknownColours | test/notificationDetector.test.js:40-79 | `#unknown` and `#ff0000` have no type, and `#ff0000` is not single-user |
| NotificationDetector.TestedAggregatedColours | test/notificationDetector.test.js:40-44 | `#e91e63` and `#9c27b0` are not single-user |
| NotificationDetector.TestedMissingColours | test/notificationDetector.test.js:46-50 | a missing input and the empty string have no type and are not single-user |
| NotificationDetector.ParseDeclaration | test/notificationDetector.test.js:145-160 | a declaration parses exactly when it contains a colon |
| NotificationDetector.ParsedPartsTrimmed | test/notificationDetector.test.js:145-160 | the name of a parsed declaration has no colon, and neither the name nor the value has white space around it |
| NotificationDetector.DeclaredColor | test/notificationDetector.test.js:98-111 | the declarations yield a colour exactly when one of them sets the colour property to a non-empty value, and the colour is never empty |
| NotificationDetector.InlineColor | test/notificationDetector.test.js:98-111 | a style declares a colour exactly when one of its `;`-separated declarations sets the colour property, and that colour is never empty |
| NotificationDetector.InlineColorTrimmed | test/notificationDetector.test.js:145-160 | the colour read from an inline style has no white space around it |
| NotificationDetector.ExtractIconColor | test/notificationDetector.test.js:140-143 | a missing element gives null, and a colour found is never empty |
| NotificationDetector.ParsePaddedDeclaration | test/notificationDetector.test.js:145-160 | `name: value` with white space around either part parses to the trimmed name and the trimmed value |
| NotificationDetector.DeclaredColorFirst | test/notificationDetector.test.js:145-160 | the first declaration that sets the colour gives the value |
| NotificationDetector.FirstColorDeclarationWins | test/notificationDetector.test.js:145-160 | among `;`-separated declarations, the first one that sets the colour gives the inline colour, whatever declarations come before it (none setting the colour) or after it |
| NotificationDetector.PaddedColorDeclaration | test/notificationDetector.test.js:98-111 | `--x-backgroundColor: v`, padded with white space, sets the colour to `v` |
| NotificationDetector.InlineColorAmongDeclarations | test/notificationDetector.test.js:145-160 | a colour declared inline among other declarations is extracted without its padding and without the `;`, and it wins over whatever the property lookup gives |
| NotificationDetector.OtherPropertyIgnored | test/notificationDetector.test.js:145-160 | a declaration of a property other than `--x-backgroundColor` never sets the colour |
| NotificationDetector.ThreeDeclarationStyle | test/notificationDetector.test.js:145-160 | in a style of three declarations, a colour declared second is the icon colour when the first declares none, whatever the property lookup gives |
| NotificationDetector.FallbackToPropertyValue | test/notificationDetector.test.js:113-138 | when the inline style does not set the colour, the result is the property lookup's value if it is non-empty, and null otherwise |
| NotificationDetector.TestedInlineIcon | test/notificationDetector.test.js:98-111 | the style `--x-backgroundColor: #24c3ff` gives `#24c3ff` |
| NotificationDetector.TestedFallbackIcons | test/notificationDetector.test.js:113-143 | a property value of `#20c584` gives `#20c584`. An element with neither a style nor a property value gives null, and so does a null element |
| NotificationDetector.TestedComplexStyleIcon | test/notificationDetector.test.js:145-160 | the style `display: flex; --x-backgroundColor: #fe7900; margin: 10px` gives `#fe7900` |

## Left out

- `scripts/download-world.cjs` is a build script that downloads map data. It is not part of this model.
- `src/lib/notificationDetector.js` is not part of this model. The classifier is modelled from what its tests fix; the remaining choices are listed below.
- NotificationDetector.ExtractIconColor: the tests do not fix how malformed inline styles are read. The model splits the style at `;` and each declaration at its first `:`, and trims both sides. The first declaration of `--x-backgroundColor` with a non-empty value wins, and the property lookup is used only when it is non-empty.
- NotificationDetector.ExtractIconColor: the colour returned is not normalised. An inline value is trimmed but keeps its letter case, and the property lookup's value is returned as it is, untrimmed; `getNotificationType` does the normalising.
- NotificationDetector.ExtractIconColor: the browser's style engine is not modelled. What `style.getPropertyValue('--x-backgroundColor')` returns is an input (`IconElement.propertyValue`).
- NotificationDetector.TestedInlineIcon: the style is a parameter equal to the test's literal, so the literal's text is reasoned about once.
- NotificationDetector.TestedComplexStyleIcon: the style is written as its three declarations joined with `;`, which is the same string as the test's literal.
- Strings.Trim: only the ASCII white-space characters are removed, not the other Unicode white space that JavaScript's `trim` also removes.
- Strings.ToLower: only ASCII letters are lower-cased, with no Unicode case mapping.
- The general CSS selector engine is not modelled, only the three selectors the locator uses. Type selectors ignore case and class and attribute values are compared exactly.
- Dom.Matches: the username is put into the selector without escaping, and the model compares `href` with `/@<username>` literally. A username containing `"` or `\` would make the browser's selector differ or throw.
- DomHelpers.FindUsernameContainer: requires the container to be an element. The source calls `querySelector` on it and would throw on a text node.
- DomHelpers.FindPostContainer: the element is a node of the tree or null. A node without `getAttribute` is skipped as the source skips it.
- DomHelpers.DetectActiveTab: requires every tab to be an element. The source calls `getAttribute` on each tab and would throw on any other node.
- DomHelpers.IsUserListContext: requires a non-null container to be an element, since the source calls `querySelector` on it.
- Live DOM mutation, node identity and event handling are not modelled. The tree is a value, so none of the operations changes it.
