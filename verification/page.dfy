/**
 The whole page, the pipeline of scripts/generate-index.js between reading
 the catalog and writing `index.html`. `Render` returns every value the page
 template interpolates, in template order; the template's fixed markup and
 CSS text are not part of the model.
 */
module Page {
  import opened Wrappers
  import opened Text
  import opened Escape
  import opened Themes
  import opened Catalog
  import opened Cards

  /**
   One line of `cardAnimCss`: `.grid > .card-<key>:nth-child(<nth>)` with a
   staggered delay (the delay's float formatting is not modelled).
   */
  datatype AnimRule = AnimRule(themeKey: string, nth: nat)
  {
    function Selector(): string
    {
      ".grid > .card-" + themeKey + ":nth-child(" + NatToString(nth) + ")"
    }
  }

  /** `activeCourses.map((c, i) => rule for c.theme || 'a' at nth-child(i + 1))`. */
  function AnimRules(active: seq<Course>): (r: seq<AnimRule>)
    ensures |r| == |active|
    ensures forall i :: 0 <= i < |r| ==> r[i].nth == i + 1 && r[i].themeKey == ThemeKey(active[i])
  {
    seq(|active|, i requires 0 <= i < |active| => AnimRule(ThemeKey(active[i]), i + 1))
  }

  /** `usedThemes.map(buildThemeCss)`: one block per key, in the keys' order. */
  function ThemeCss(keys: seq<string>): (r: seq<ThemeRule>)
    ensures |r| == |keys|
    ensures forall i :: 0 <= i < |r| ==> r[i] == BuildThemeCss(keys[i])
  {
    seq(|keys|, i requires 0 <= i < |keys| => BuildThemeCss(keys[i]))
  }

  /** `activeCourses.map(renderCard)`. */
  function RenderCards(active: seq<Course>): (r: seq<Card>)
    ensures |r| == |active|
    ensures forall i :: 0 <= i < |r| ==> r[i] == RenderCard(active[i])
  {
    seq(|active|, i requires 0 <= i < |active| => RenderCard(active[i]))
  }

  /** Each card's markup, in card order. */
  function CardTexts(cards: seq<Card>): (ts: seq<string>)
    ensures |ts| == |cards|
    ensures forall i :: 0 <= i < |cards| ==> ts[i] == CardText(cards[i])
  {
    seq(|cards|, i requires 0 <= i < |cards| => CardText(cards[i]))
  }

  /** `cardsHtml`: the cards' markup joined by newlines. */
  function CardsHtml(cards: seq<Card>): string
  {
    Join(CardTexts(cards), "\n")
  }

  /**
   The markup of the cards is each card's markup in turn, separated by a
   single newline: no card is dropped, repeated or reordered.
   */
  lemma CardsHtmlCons(c: Card, cards: seq<Card>)
    ensures CardsHtml([c]) == CardText(c)
    ensures |cards| > 0 ==> CardsHtml([c] + cards) == CardText(c) + "\n" + CardsHtml(cards)
  {
    assert CardTexts([c] + cards) == [CardText(c)] + CardTexts(cards);
    JoinCons(CardText(c), CardTexts(cards), "\n");
  }

  /** The values the page template interpolates, in template order. */
  datatype PageValues = PageValues(
    metaDescription: string,
    ogTitle: string,
    ogDescription: string,
    title: string,
    themeCss: seq<ThemeRule>,
    animCss: seq<AnimRule>,
    navUrl: string,
    brand: string,
    cards: seq<Card>,
    copyright: string,
    footerUrl: string)

  /** Escaped text that decodes back to `s`. */
  predicate EscapedOf(e: string, s: string)
  {
    WellEscaped(e) && Unescape(e) == s
  }

  function Escaped(s: string): (e: string)
    ensures EscapedOf(e, s)
  {
    UnescapeEscHtml(s);
    EscHtml(s)
  }

  /** Some block of `rules` styles the class `card-<k>`. */
  predicate HasBlock(rules: seq<ThemeRule>, k: string)
  {
    exists i :: 0 <= i < |rules| && rules[i].key == k
  }

  /** Some active course of `courses` has the defaulted theme key `k`. */
  predicate UsedKey(courses: seq<Course>, k: string)
  {
    exists c :: c in courses && IsActive(c) && ThemeKey(c) == k
  }

  /** Every block built from `usedThemes` is for a key some active course uses. */
  lemma ThemeBlocksSound(courses: seq<Course>, k: string)
    requires HasBlock(ThemeCss(UsedThemes(ActiveCourses(courses))), k)
    ensures UsedKey(courses, k)
  {
    var active := ActiveCourses(courses);
    var keys := UsedThemes(active);
    var rules := ThemeCss(keys);
    var i :| 0 <= i < |rules| && rules[i].key == k;
    assert keys[i] == k && keys[i] in keys;
    var j :| 0 <= j < |active| && ThemeKey(active[j]) == k;
    assert active[j] in active;
  }

  /** Every key some active course uses has a block built from `usedThemes`. */
  lemma ThemeBlocksComplete(courses: seq<Course>, k: string)
    requires UsedKey(courses, k)
    ensures HasBlock(ThemeCss(UsedThemes(ActiveCourses(courses))), k)
  {
    var active := ActiveCourses(courses);
    var keys := UsedThemes(active);
    var rules := ThemeCss(keys);
    var c :| c in courses && IsActive(c) && ThemeKey(c) == k;
    var j :| 0 <= j < |active| && active[j] == c;
    assert k in keys;
    var i :| 0 <= i < |keys| && keys[i] == k;
    assert rules[i].key == k;
  }

  /** The blocks built from `usedThemes` are exactly the blocks for the keys the active courses use. */
  lemma ThemeBlocksCover(courses: seq<Course>)
    ensures var rules := ThemeCss(UsedThemes(ActiveCourses(courses)));
            forall k :: HasBlock(rules, k) <==> UsedKey(courses, k)
  {
    forall k
      ensures HasBlock(ThemeCss(UsedThemes(ActiveCourses(courses))), k) <==> UsedKey(courses, k)
    {
      if HasBlock(ThemeCss(UsedThemes(ActiveCourses(courses))), k) {
        ThemeBlocksSound(courses, k);
      }
      if UsedKey(courses, k) {
        ThemeBlocksComplete(courses, k);
      }
    }
  }

  /**
   The page for a catalog. Counts follow the active courses; the site's
   text fields are escaped and recoverable, its link is not escaped; the
   theme blocks cover each defaulted key of an active course exactly once.
   */
  function Render(site: Site, courses: seq<Course>): (p: PageValues)
    ensures p.cards == RenderCards(ActiveCourses(courses)) && |p.cards| == CountActive(courses)
    ensures p.animCss == AnimRules(ActiveCourses(courses))
    ensures EscapedOf(p.metaDescription, site.description) && p.ogDescription == p.metaDescription
    ensures EscapedOf(p.title, site.title) && p.ogTitle == p.title
    ensures EscapedOf(p.brand, site.brand)
    ensures EscapedOf(p.copyright, site.copyright)
    ensures p.navUrl == site.brandUrl && p.footerUrl == site.brandUrl
    ensures forall i, j :: 0 <= i < j < |p.themeCss| ==> p.themeCss[i].key != p.themeCss[j].key
    ensures forall k :: HasBlock(p.themeCss, k) <==> UsedKey(courses, k)
    ensures p.themeCss == ThemeCss(UsedThemes(ActiveCourses(courses)))
    ensures forall i :: 0 <= i < |p.themeCss| ==> p.themeCss[i] == BuildThemeCss(p.themeCss[i].key)
  {
    var active := ActiveCourses(courses);
    ActiveCoursesCount(courses);
    ThemeBlocksCover(courses);
    var title := Escaped(site.title);
    var description := Escaped(site.description);
    PageValues(description, title, description, title, ThemeCss(UsedThemes(active)), AnimRules(active),
         site.brandUrl, Escaped(site.brand), RenderCards(active), Escaped(site.copyright), site.brandUrl)
  }

  /** The count the generator prints after writing the page. */
  function ReportedCount(courses: seq<Course>): (n: nat)
    ensures n == CountActive(courses)
    ensures forall site :: n == |Render(site, courses).cards|
  {
    ActiveCoursesCount(courses);
    |ActiveCourses(courses)|
  }

  /** Cards render one by one: the page's card list for `a + b` is the list for `a`, then for `b`. */
  lemma CardsAppend(site: Site, a: seq<Course>, b: seq<Course>)
    ensures Render(site, a + b).cards == Render(site, a).cards + Render(site, b).cards
  {
    ActiveCoursesAppend(a, b);
    var x, y := ActiveCourses(a), ActiveCourses(b);
    assert RenderCards(x + y) == RenderCards(x) + RenderCards(y);
  }

  /** An inactive course leaves no trace: removing it changes nothing on the page. */
  lemma InactiveCourseInvisible(site: Site, a: seq<Course>, c: Course, b: seq<Course>)
    requires !IsActive(c)
    ensures Render(site, a + [c] + b) == Render(site, a + b)
  {
    ActiveCoursesAppend(a + [c], b);
    ActiveCoursesAppend(a, [c]);
    ActiveCoursesAppend(a, b);
    assert [c][1..] == [];
    assert ActiveCourses(a + [c]) == ActiveCourses(a);
  }

  /**
   The `i`-th animation rule selects the `i`-th card: its `nth-child` index
   points at a card whose class is the rule's `card-<key>`.
   */
  lemma AnimRuleTargetsItsCard(active: seq<Course>, i: nat)
    requires i < |active|
    ensures var rules, cards := AnimRules(active), RenderCards(active);
            && 1 <= rules[i].nth <= |cards|
            && cards[rules[i].nth - 1].ClassAttr() == "card card-" + rules[i].themeKey
            && rules[i].Selector() ==
                 ".grid > .card-" + cards[i].themeKey + ":nth-child(" + NatToString(i + 1) + ")"
  {
    var rules, cards := AnimRules(active), RenderCards(active);
    assert rules[i].nth == i + 1 && rules[i].themeKey == ThemeKey(active[i]);
    assert cards[i] == RenderCard(active[i]);
  }

  /**
   Two active courses sharing a theme key get a single style block between
   them: every key in use has exactly one block.
   */
  lemma OneBlockPerKey(site: Site, courses: seq<Course>, k: string)
    requires UsedKey(courses, k)
    ensures var rules := Render(site, courses).themeCss;
            exists i :: 0 <= i < |rules| && rules[i].key == k &&
                        forall j :: 0 <= j < |rules| && rules[j].key == k ==> j == i
  {
    var rules := Render(site, courses).themeCss;
    assert HasBlock(rules, k);
    var i :| 0 <= i < |rules| && rules[i].key == k;
  }

  /**
   The style blocks come in the order in which their keys are first used by
   the active courses.
   */
  lemma ThemeBlocksInFirstUseOrder(site: Site, courses: seq<Course>)
    ensures var rules, keys := Render(site, courses).themeCss, ThemeKeys(ActiveCourses(courses));
            forall i, j :: 0 <= i < j < |rules| ==>
              && rules[i].key in keys && rules[j].key in keys
              && FirstIndex(keys, rules[i].key) < FirstIndex(keys, rules[j].key)
  {
    BlocksInFirstUseOrder(ActiveCourses(courses));
  }

  lemma BlocksInFirstUseOrder(active: seq<Course>)
    ensures var rules, keys := ThemeCss(UsedThemes(active)), ThemeKeys(active);
            forall i, j :: 0 <= i < j < |rules| ==>
              && rules[i].key in keys && rules[j].key in keys
              && FirstIndex(keys, rules[i].key) < FirstIndex(keys, rules[j].key)
  {
    var keys := ThemeKeys(active);
    var used := Unique(keys);
    UniqueFirstOccurrenceOrder(keys);
    var rules := ThemeCss(used);
    assert forall i :: 0 <= i < |rules| ==> rules[i].key == used[i] && used[i] in keys;
  }

  /** A catalog without active courses still renders, with no cards, animations or theme blocks. */
  lemma NoActiveCourses(site: Site, courses: seq<Course>)
    requires forall i :: 0 <= i < |courses| ==> !IsActive(courses[i])
    ensures Render(site, courses).cards == []
    ensures Render(site, courses).animCss == []
    ensures Render(site, courses).themeCss == []
    ensures ReportedCount(courses) == 0
  {
    var p := Render(site, courses);
    assert ActivePositions(courses) == {};
  }

  /** A one-course catalog whose course is active has that course as its only active course. */
  lemma SingleActive(course: Course)
    requires IsActive(course)
    ensures ActiveCourses([course]) == [course]
  {
    AllActiveKept([course]);
  }

  /** The theme blocks of the single active course with theme `x`. */
  lemma SingleThemeBlock(course: Course)
    requires course.theme == Some("x")
    ensures ThemeCss(UsedThemes([course])) == [ThemeRule("x", A)]
  {
    assert UsedThemes([course]) == ["x"] by {
      assert ThemeKeys([course]) == ["x"];
      assert ["x"][..0] == [];
    }
    assert GetTheme("x") == A by {
      assert "x" != "a" && "x" != "b" && "x" != "c" && "x" != "d";
    }
    var rules := ThemeCss(["x"]);
    assert |rules| == 1 && rules[0] == ThemeRule("x", A);
  }

  /**
   A catalog of one active course with the unknown theme `x`: one card, and
   one style block, for class `card-x`, painted with palette `a`.
   */
  lemma OneCourseExample(site: Site, course: Course)
    requires IsActive(course) && course.theme == Some("x")
    ensures Render(site, [course]).cards == [RenderCard(course)]
    ensures Render(site, [course]).themeCss == [ThemeRule("x", A)]
  {
    SingleActive(course);
    SingleThemeBlock(course);
    var cards := RenderCards([course]);
    assert |cards| == 1 && cards[0] == RenderCard(course);
  }

  /**
   That course's card: the title escaped, the class `card-x`, the chapter
   count in decimal, the newline a line break, the link as given.
   */
  lemma ExampleCard(course: Course)
    requires course.title == "A<B" && course.description == "L1\nL2" && course.chapters == 3
    requires course.theme == Some("x") && course.url == "https://e.example"
    ensures var card := RenderCard(course);
            && card.title == "A&lt;B"
            && card.ClassAttr() == "card card-x"
            && card.watermark == "3"
            && card.desc == "L1<br />L2"
            && card.href == "https://e.example"
            && StartsAt(CardText(card), 0, CardTemplate[0] + "A&lt;B" + CardTemplate[1] + "https://e.example")
  {
    var card := RenderCard(course);
    assert card.title == EscHtml(course.title) && card.watermark == NatToString(3);
    EscapeCardTitleExample();
    DescriptionExample();
    CardTextHead(card);
    assert NatToString(3) == "3";
  }
}
