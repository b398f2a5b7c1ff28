/**
 * The notification classifier: reads the colour of a notification's decorative icon
 * from its inline style (or, failing that, from the style property lookup) and maps
 * the colour, trimmed and lower-cased, to one of a closed set of notification types.
 * Colours outside the set belong to aggregated notifications and map to nothing.
 *
 * The implementation file src/lib/notificationDetector.js is not part of this model;
 * what is modelled is what test/notificationDetector.test.js pins down.
 */
module NotificationDetector {

  import opened Wrappers
  import opened Strings

  datatype NotificationType = NotificationType(name: string, color: string, isSingleUser: bool)

  const Reply := NotificationType("Reply", "#24c3ff", true)
  const Mention := NotificationType("Mention", "#20c584", true)
  const Quote := NotificationType("Quote", "#fe7900", true)

  /** `NOTIFICATION_TYPES`: the registry, keyed by normalised colour. */
  const NotificationTypes: seq<NotificationType> := [Reply, Mention, Quote]

  /** The registry key of an input colour: surrounding white space removed, lower case. */
  function Normalize(color: string): string {
    ToLower(Trim(color))
  }

  /** The registry entry with the given colour. */
  function Lookup(registry: seq<NotificationType>, color: string): (r: Option<NotificationType>)
    ensures r.Some? ==> r.value in registry && r.value.color == color
    ensures r.None? ==> forall t :: t in registry ==> t.color != color
  {
    if |registry| == 0 then None
    else if registry[0].color == color then Some(registry[0])
    else Lookup(registry[1..], color)
  }

  /** `getNotificationType(color)`; `None` stands for `null`, `undefined` and no entry. */
  function GetNotificationType(color: Option<string>): (r: Option<NotificationType>)
    ensures r.Some? ==> color.Some? && r.value in NotificationTypes && r.value.color == Normalize(color.value)
    ensures color.Some? && (exists t :: t in NotificationTypes && t.color == Normalize(color.value)) ==> r.Some?
  {
    match color
    case None => None
    case Some(s) => Lookup(NotificationTypes, Normalize(s))
  }

  /**
   * `isSingleUserNotification(color)`: the colour is that of a single-user type of the
   * registry. As every registered type is single-user, these are the three registry colours.
   */
  function IsSingleUserNotification(color: Option<string>): (r: bool)
    ensures r <==> color.Some? && Normalize(color.value) in {Reply.color, Mention.color, Quote.color}
  {
    color.Some? && exists t :: t in NotificationTypes && t.isSingleUser && t.color == Normalize(color.value)
  }

  // ---------------------------------------------------------------------------
  // The icon colour

  /** The custom property that carries the icon colour. */
  const ColorProperty := "--x-backgroundColor"

  /**
   * What `extractIconColor` can read of an icon element: the `style` attribute
   * (`getAttribute('style')`) and the value of the colour property as
   * `style.getPropertyValue` reports it, each `None` when absent.
   */
  datatype IconElement = IconElement(styleAttribute: Option<string>, propertyValue: Option<string>)

  /**
   * A `name: value` declaration, split at its first colon, both sides trimmed: it parses
   * exactly when it has a colon (`ParsedPartsTrimmed` says what the parts look like).
   */
  function ParseDeclaration(d: string): (r: Option<(string, string)>)
    ensures r.Some? <==> ':' in d
  {
    match IndexOf(d, ':')
    case None => None
    case Some(k) => Some((Trim(d[..k]), Trim(d[k + 1..])))
  }

  /** The declaration gives the colour property a non-empty value. */
  predicate SetsColor(d: string) {
    var decl := ParseDeclaration(d);
    decl.Some? && decl.value.0 == ColorProperty && decl.value.1 != ""
  }

  /** The value of the first declaration that sets the colour property. */
  function DeclaredColor(decls: seq<string>): (r: Option<string>)
    ensures r.Some? <==> exists k :: 0 <= k < |decls| && SetsColor(decls[k])
    ensures r.Some? ==> r.value != ""
  {
    if |decls| == 0 then None
    else if SetsColor(decls[0]) then Some(ParseDeclaration(decls[0]).value.1)
    else
      var r := DeclaredColor(decls[1..]);
      assert forall k :: 1 <= k < |decls| ==> decls[k] == decls[1..][k - 1];
      r
  }

  /**
   * The colour an inline style string declares, its declarations separated by `;`: there is
   * one exactly when some declaration sets the colour property, and it is non-empty.
   */
  function InlineColor(style: string): (r: Option<string>)
    ensures r.Some? <==> exists d :: d in Split(style, ';') && SetsColor(d)
    ensures r.Some? ==> r.value != ""
  {
    var decls := Split(style, ';');
    var r := DeclaredColor(decls);
    assert (exists d :: d in decls && SetsColor(d)) ==> r.Some?;
    r
  }

  /** `extractIconColor(element)`: the inline style first, then the property lookup. */
  function ExtractIconColor(element: Option<IconElement>): (r: Option<string>)
    ensures element.None? ==> r.None?
    ensures r.Some? ==> r.value != ""
  {
    match element
    case None => None
    case Some(e) =>
      var inline := if e.styleAttribute.Some? then InlineColor(e.styleAttribute.value) else None;
      if inline.Some? then inline
      else if e.propertyValue.Some? && e.propertyValue.value != "" then e.propertyValue
      else None
  }

  // ---------------------------------------------------------------------------
  // Properties of the classifier

  /**
   * A registry key has no white space around it and no upper-case letter, so normalising
   * it again changes nothing.
   */
  lemma NormalizedKey(color: string)
    ensures Trim(Normalize(color)) == Normalize(color) && ToLower(Normalize(color)) == Normalize(color)
    ensures Normalize(Normalize(color)) == Normalize(color)
  {
    LowerTrim(Trim(color));
    TrimIdempotent(color);
  }

  /** The registry's colours are distinct and already in normalised form. */
  lemma RegistryNormalized()
    ensures forall t :: t in NotificationTypes ==> Normalize(t.color) == t.color
    ensures Reply.color != Mention.color && Mention.color != Quote.color && Reply.color != Quote.color
  {
  }

  /** Each registry entry is what its own colour classifies as, and each is single-user. */
  lemma RegistryRoundTrip()
    ensures forall t :: t in NotificationTypes ==>
      GetNotificationType(Some(t.color)) == Some(t) && IsSingleUserNotification(Some(t.color))
    ensures GetNotificationType(Some("#24c3ff")) == Some(Reply)
    ensures GetNotificationType(Some("#20c584")) == Some(Mention)
    ensures GetNotificationType(Some("#fe7900")) == Some(Quote)
  {
    RegistryNormalized();
  }

  /** An input classifies as a type exactly when its normalised form is that type's colour. */
  lemma Classification(s: string, t: NotificationType)
    ensures GetNotificationType(Some(s)) == Some(t) <==> t in NotificationTypes && t.color == Normalize(s)
  {
  }

  /** `isSingleUserNotification(c)` is `getNotificationType(c)?.isSingleUser ?? false`. */
  lemma SingleUserAgrees(c: Option<string>)
    ensures IsSingleUserNotification(c) <==> GetNotificationType(c).Some? && GetNotificationType(c).value.isSingleUser
  {
  }

  /** Inputs that differ only in letter case classify alike. */
  lemma CaseInsensitive(s1: string, s2: string)
    requires ToLower(s1) == ToLower(s2)
    ensures GetNotificationType(Some(s1)) == GetNotificationType(Some(s2))
    ensures IsSingleUserNotification(Some(s1)) == IsSingleUserNotification(Some(s2))
  {
    LowerTrim(s1);
    LowerTrim(s2);
  }

  /** White space around an input does not change its classification. */
  lemma WhitespaceTolerant(w1: string, s: string, w2: string)
    requires AllSpace(w1) && AllSpace(w2)
    ensures GetNotificationType(Some(w1 + s + w2)) == GetNotificationType(Some(s))
    ensures IsSingleUserNotification(Some(w1 + s + w2)) == IsSingleUserNotification(Some(s))
  {
    TrimIgnoresPadding(w1, s, w2);
  }

  /** Any colour outside the registry, and a missing or empty one, classifies as nothing and as not single-user. */
  lemma UnknownColours(c: Option<string>)
    requires c.None? || Normalize(c.value) !in {Reply.color, Mention.color, Quote.color}
    ensures GetNotificationType(c).None? && !IsSingleUserNotification(c)
  {
  }

  /** An input whose normalised form is a registry colour classifies as that entry, a single-user one. */
  lemma NormalizesTo(c: string, t: NotificationType)
    requires t in NotificationTypes && Normalize(c) == t.color
    ensures GetNotificationType(Some(c)) == Some(t) && IsSingleUserNotification(Some(c))
  {
  }

  /** The reply colour in lower case, upper case and padded with spaces is single-user. */
  lemma TestedReplyColours()
    ensures IsSingleUserNotification(Some("#24c3ff")) && IsSingleUserNotification(Some("#24C3FF"))
    ensures IsSingleUserNotification(Some("  #24c3ff  "))
  {
    assert Normalize("#24c3ff") == Reply.color;
    NormalizesTo("#24c3ff", Reply);
    assert Normalize("#24C3FF") == Reply.color;
    NormalizesTo("#24C3FF", Reply);
    var padded := "  #24c3ff  ";
    assert padded == "  " + "#24c3ff" + "  ";
    TrimIgnoresPadding("  ", "#24c3ff", "  ");
    assert Normalize(padded) == Reply.color;
    NormalizesTo(padded, Reply);
  }

  /** The mention colour in lower and upper case is single-user. */
  lemma TestedMentionColours()
    ensures IsSingleUserNotification(Some("#20c584")) && IsSingleUserNotification(Some("#20C584"))
  {
    assert Normalize("#20c584") == Mention.color;
    NormalizesTo("#20c584", Mention);
    assert Normalize("#20C584") == Mention.color;
    NormalizesTo("#20C584", Mention);
  }

  /** The quote colour in lower and upper case is single-user. */
  lemma TestedQuoteColours()
    ensures IsSingleUserNotification(Some("#fe7900")) && IsSingleUserNotification(Some("#FE7900"))
  {
    assert Normalize("#fe7900") == Quote.color;
    NormalizesTo("#fe7900", Quote);
    assert Normalize("#FE7900") == Quote.color;
    NormalizesTo("#FE7900", Quote);
  }

  /** The types the tests look up. */
  lemma TestedTypeLookups()
    ensures GetNotificationType(Some("#24c3ff")) == Some(Reply)
    ensures GetNotificationType(Some("#20C584")) == Some(Mention)
    ensures GetNotificationType(Some("#FE7900")) == Some(Quote)
  {
    assert Normalize("#24c3ff") == Reply.color;
    NormalizesTo("#24c3ff", Reply);
    assert Normalize("#20C584") == Mention.color;
    NormalizesTo("#20C584", Mention);
    assert Normalize("#FE7900") == Quote.color;
    NormalizesTo("#FE7900", Quote);
  }

  /** The upper-case and mixed-case spellings of the reply colour classify like the lower-case one. */
  lemma TestedCaseVariants()
    ensures GetNotificationType(Some("#24C3FF")) == GetNotificationType(Some("#24c3FF")) == Some(Reply)
  {
    assert Normalize("#24C3FF") == Reply.color;
    NormalizesTo("#24C3FF", Reply);
    assert Normalize("#24c3FF") == Reply.color;
    NormalizesTo("#24c3FF", Reply);
  }

  /** A normalised colour whose third character is none of the registry colours' is not registered. */
  lemma NotRegistered(c: string)
    requires Normalize(c) == c && |c| > 2 && c[2] != '4' && c[2] != '0' && c[2] != 'e'
    ensures GetNotificationType(Some(c)).None? && !IsSingleUserNotification(Some(c))
  {
  }

  /** The unknown colours the tests look up. */
  lemma TestedUnknownColours()
    ensures GetNotificationType(Some("#unknown")).None? && GetNotificationType(Some("#ff0000")).None?
    ensures !IsSingleUserNotification(Some("#ff0000"))
  {
    assert Normalize("#unknown") == "#unknown";
    NotRegistered("#unknown");
    assert Normalize("#ff0000") == "#ff0000";
    NotRegistered("#ff0000");
  }

  /** The colours of aggregated notifications (likes, follows) are not single-user. */
  lemma TestedAggregatedColours()
    ensures !IsSingleUserNotification(Some("#e91e63")) && !IsSingleUserNotification(Some("#9c27b0"))
  {
    assert Normalize("#e91e63") == "#e91e63";
    NotRegistered("#e91e63");
    assert Normalize("#9c27b0") == "#9c27b0";
    NotRegistered("#9c27b0");
  }

  /** Missing and empty inputs have no type and are not single-user. */
  lemma TestedMissingColours()
    ensures GetNotificationType(None).None? && GetNotificationType(Some("")).None?
    ensures !IsSingleUserNotification(None) && !IsSingleUserNotification(Some(""))
  {
    UnknownColours(None);
    UnknownColours(Some(""));
  }

  // ---------------------------------------------------------------------------
  // Properties of the colour extraction

  /** The name of a parsed declaration has no colon, and neither part has white space around it. */
  lemma ParsedPartsTrimmed(d: string)
    requires ':' in d
    ensures var parts := ParseDeclaration(d).value;
      ':' !in parts.0 && Trim(parts.0) == parts.0 && Trim(parts.1) == parts.1
  {
    var k := IndexOf(d, ':').value;
    TrimKeepsCharacters(d[..k], ':');
    TrimIdempotent(d[..k]);
    TrimIdempotent(d[k + 1..]);
  }

  /** The colour an inline style declares has no white space around it. */
  lemma InlineColorTrimmed(style: string)
    requires InlineColor(style).Some?
    ensures Trim(InlineColor(style).value) == InlineColor(style).value
  {
    DeclaredColorTrimmed(Split(style, ';'));
  }

  lemma {:induction false} DeclaredColorTrimmed(decls: seq<string>)
    requires DeclaredColor(decls).Some?
    ensures Trim(DeclaredColor(decls).value) == DeclaredColor(decls).value
  {
    if SetsColor(decls[0]) {
      ParsedPartsTrimmed(decls[0]);
    } else {
      DeclaredColorTrimmed(decls[1..]);
    }
  }

  lemma SpaceHasNoSeparators(w: string)
    requires AllSpace(w)
    ensures ';' !in w && ':' !in w
  {
  }

  /** A declaration `name: value`, with any white space around both parts, parses to the trimmed parts. */
  lemma ParsePaddedDeclaration(w1: string, name: string, w2: string, w3: string, value: string, w4: string)
    requires AllSpace(w1) && AllSpace(w2) && AllSpace(w3) && AllSpace(w4) && ':' !in name
    ensures ParseDeclaration(w1 + name + w2 + ":" + w3 + value + w4) == Some((Trim(name), Trim(value)))
  {
    SpaceHasNoSeparators(w1);
    SpaceHasNoSeparators(w2);
    var lhs := w1 + name + w2;
    var rhs := w3 + value + w4;
    var d := w1 + name + w2 + ":" + w3 + value + w4;
    assert d == lhs + [':'] + rhs;
    IndexOfAfter(lhs, ':', rhs);
    assert d[..|lhs|] == lhs && d[|lhs| + 1..] == rhs;
    TrimIgnoresPadding(w1, name, w2);
    TrimIgnoresPadding(w3, value, w4);
  }

  /** The property name has no separators and no white space around it. */
  lemma ColorPropertyIsPlain()
    ensures ';' !in ColorProperty && ':' !in ColorProperty && Trim(ColorProperty) == ColorProperty
  {
  }

  /** The first declaration that sets the colour gives the value. */
  lemma {:induction false} DeclaredColorFirst(decls: seq<string>, k: nat)
    requires k < |decls| && SetsColor(decls[k])
    requires forall k' :: 0 <= k' < k ==> !SetsColor(decls[k'])
    ensures DeclaredColor(decls) == Some(ParseDeclaration(decls[k]).value.1)
  {
    if k > 0 {
      DeclaredColorFirst(decls[1..], k - 1);
    }
  }

  /**
   * Whatever declarations precede it (none of them setting the colour) or follow it,
   * the first declaration that sets the colour gives the inline colour.
   */
  lemma {:induction false} FirstColorDeclarationWins(before: seq<string>, d: string, after: seq<string>)
    requires forall k :: 0 <= k < |before| ==> ';' !in before[k] && !SetsColor(before[k])
    requires forall k :: 0 <= k < |after| ==> ';' !in after[k]
    requires ';' !in d && SetsColor(d)
    ensures InlineColor(Join(before + [d] + after, ';')) == Some(ParseDeclaration(d).value.1)
  {
    var decls := before + [d] + after;
    forall k | 0 <= k < |decls| ensures ';' !in decls[k] && (k < |before| ==> !SetsColor(decls[k])) {
      if k < |before| {
        assert decls[k] == before[k];
      } else if k > |before| {
        assert decls[k] == after[k - |before| - 1];
      }
    }
    SplitJoin(decls, ';');
    DeclaredColorFirst(decls, |before|);
  }

  /**
   * A declaration `--x-backgroundColor: v`, with any white space around the name and the
   * value, sets the colour to `v`.
   */
  lemma PaddedColorDeclaration(w1: string, w2: string, w3: string, v: string, w4: string)
    requires AllSpace(w1) && AllSpace(w2) && AllSpace(w3) && AllSpace(w4)
    requires v != "" && Trim(v) == v && ';' !in v
    ensures var d := w1 + ColorProperty + w2 + ":" + w3 + v + w4;
      ';' !in d && SetsColor(d) && ParseDeclaration(d).value.1 == v
  {
    SpaceHasNoSeparators(w1);
    SpaceHasNoSeparators(w2);
    SpaceHasNoSeparators(w3);
    SpaceHasNoSeparators(w4);
    ColorPropertyIsPlain();
    ParsePaddedDeclaration(w1, ColorProperty, w2, w3, v, w4);
  }

  /**
   * The colour declared in an inline style is found among other declarations, taken
   * without the white space around it and without the `;` after it, and it is the
   * result whatever the property lookup would give.
   */
  lemma InlineColorAmongDeclarations(before: seq<string>, w1: string, w2: string, w3: string, v: string, w4: string,
                                     after: seq<string>, propertyValue: Option<string>)
    requires forall k :: 0 <= k < |before| ==> ';' !in before[k] && !SetsColor(before[k])
    requires forall k :: 0 <= k < |after| ==> ';' !in after[k]
    requires AllSpace(w1) && AllSpace(w2) && AllSpace(w3) && AllSpace(w4)
    requires v != "" && Trim(v) == v && ';' !in v
    ensures var style := Join(before + [w1 + ColorProperty + w2 + ":" + w3 + v + w4] + after, ';');
      InlineColor(style) == Some(v) &&
      ExtractIconColor(Some(IconElement(Some(style), propertyValue))) == Some(v)
  {
    PaddedColorDeclaration(w1, w2, w3, v, w4);
    FirstColorDeclarationWins(before, w1 + ColorProperty + w2 + ":" + w3 + v + w4, after);
  }

  /** Without a declaration of the colour in the inline style, the property lookup decides. */
  lemma FallbackToPropertyValue(styleAttribute: Option<string>, propertyValue: Option<string>)
    requires styleAttribute.Some? ==>
      forall k :: 0 <= k < |Split(styleAttribute.value, ';')| ==> !SetsColor(Split(styleAttribute.value, ';')[k])
    ensures ExtractIconColor(Some(IconElement(styleAttribute, propertyValue))) ==
      if propertyValue.Some? && propertyValue.value != "" then propertyValue else None
  {
  }

  /** An icon without an inline style falls back to the property lookup; a missing icon gives nothing. */
  lemma TestedFallbackIcons()
    ensures ExtractIconColor(Some(IconElement(None, Some("#20c584")))) == Some("#20c584")
    ensures ExtractIconColor(Some(IconElement(None, None))).None?
    ensures ExtractIconColor(None).None?
  {
  }

  /** A declaration of a property other than the colour property does not set the colour. */
  lemma OtherPropertyIgnored(w1: string, name: string, w2: string, w3: string, value: string, w4: string)
    requires AllSpace(w1) && AllSpace(w2) && AllSpace(w3) && AllSpace(w4) && ':' !in name
    requires Trim(name) != ColorProperty
    ensures !SetsColor(w1 + name + w2 + ":" + w3 + value + w4)
  {
    ParsePaddedDeclaration(w1, name, w2, w3, value, w4);
  }

  /** `display: flex` does not set the colour. */
  lemma DisplayDeclaration(d: string)
    requires d == "display: flex"
    ensures ';' !in d && !SetsColor(d)
  {
    DisplayDeclarationText(d);
    var name := "display";
    DisplayIsOtherProperty(name);
    OtherPropertyIgnored("", name, "", " ", "flex", "");
  }

  lemma DisplayDeclarationText(d: string)
    requires d == "display: flex"
    ensures ';' !in d && d == "" + "display" + "" + ":" + " " + "flex" + ""
  {
  }

  lemma DisplayIsOtherProperty(name: string)
    requires name == "display"
    ensures ':' !in name && Trim(name) != ColorProperty
  {
    assert Trim(name) == name;
    assert name[0] != ColorProperty[0];
  }

  /** Three declarations joined with `;`. */
  lemma JoinThree(a: string, b: string, c: string)
    ensures Join([a, b, c], ';') == a + ";" + b + ";" + c
  {
    assert [a, b, c][1..] == [b, c] && [b, c][1..] == [c];
    assert Join([b, c], ';') == b + [';'] + c;
    assert Join([a, b, c], ';') == a + [';'] + (b + [';'] + c);
  }

  /** A style that is one declaration of the colour declares that colour. */
  lemma SingleDeclarationStyle(d: string)
    requires ';' !in d && SetsColor(d)
    ensures InlineColor(d) == Some(ParseDeclaration(d).value.1)
  {
    assert [] + [d] + [] == [d];
    FirstColorDeclarationWins([], d, []);
  }

  /**
   * In a style of three declarations, the colour declared second is the icon's colour when
   * the first declares none, whatever the property lookup gives.
   */
  lemma ThreeDeclarationStyle(style: string, a: string, d: string, c: string, v: string, propertyValue: Option<string>)
    requires ';' !in a && !SetsColor(a) && ';' !in c
    requires ';' !in d && SetsColor(d) && ParseDeclaration(d).value.1 == v
    requires style == a + ";" + d + ";" + c
    ensures ExtractIconColor(Some(IconElement(Some(style), propertyValue))) == Some(v)
  {
    assert [a] + [d] + [c] == [a, d, c];
    FirstColorDeclarationWins([a], d, [c]);
    JoinThree(a, d, c);
  }

  /** The colour values of the icon tests are non-empty, unpadded and free of `;`. */
  lemma PlainColourValue(v: string)
    requires v == "#24c3ff" || v == "#fe7900"
    ensures v != "" && Trim(v) == v && ';' !in v
  {
  }

  /** An icon whose inline style declares only the colour (the style `--x-backgroundColor: #24c3ff`). */
  lemma TestedInlineIcon(style: string)
    requires style == "--x-backgroundColor: #24c3ff"
    ensures ExtractIconColor(Some(IconElement(Some(style), None))) == Some("#24c3ff")
  {
    InlineDeclarationText(style);
    var v := "#24c3ff";
    PlainColourValue(v);
    PaddedColorDeclaration("", "", " ", v, "");
    SingleDeclarationStyle(style);
  }

  /** The text of that style, as the colour property, a colon and the value with a space. */
  lemma InlineDeclarationText(style: string)
    requires style == "--x-backgroundColor: #24c3ff"
    ensures style == "" + ColorProperty + "" + ":" + " " + "#24c3ff" + ""
  {
  }

  /** ` --x-backgroundColor: #fe7900` sets the colour to `#fe7900`. */
  lemma QuoteColourDeclaration(d: string)
    requires d == " --x-backgroundColor: #fe7900"
    ensures ';' !in d && SetsColor(d) && ParseDeclaration(d).value.1 == "#fe7900"
  {
    QuoteDeclarationText(d);
    var v := "#fe7900";
    PlainColourValue(v);
    PaddedColorDeclaration(" ", "", " ", v, "");
  }

  /** The text of that declaration, as the colour property, a colon and the value with spaces. */
  lemma QuoteDeclarationText(d: string)
    requires d == " --x-backgroundColor: #fe7900"
    ensures d == " " + ColorProperty + "" + ":" + " " + "#fe7900" + ""
  {
  }

  /**
   * An icon whose inline style declares the colour between other declarations (the style
   * `display: flex; --x-backgroundColor: #fe7900; margin: 10px`, written as its three
   * declarations joined with `;`).
   */
  lemma TestedComplexStyleIcon(style: string)
    requires style == "display: flex" + ";" + " --x-backgroundColor: #fe7900" + ";" + " margin: 10px"
    ensures ExtractIconColor(Some(IconElement(Some(style), None))) == Some("#fe7900")
  {
    var a, d, c := "display: flex", " --x-backgroundColor: #fe7900", " margin: 10px";
    DisplayDeclaration(a);
    QuoteColourDeclaration(d);
    assert ';' !in c;
    ThreeDeclarationStyle(style, a, d, c, "#fe7900", None);
  }
}
