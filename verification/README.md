# Course landing-page generator, modelled in Dafny

`scripts/generate-index.js` reads a course catalog (a `site` record and an
ordered list of `courses`) and writes `index.html`, a landing page with one
card per active course. This project models the deterministic pipeline
between the catalog read and the page write:

- `escHtml`: HTML escaping of free text (module `Escape`).
- `getTheme` and `buildThemeCss`: palette lookup with a default arm, and one
  style block per theme key (module `Themes`).
- The active filter, the `c.theme || 'a'` default, and the order-preserving
  de-duplication that yields `usedThemes` (module `Catalog`).
- `renderCard`: newline-to-`<br />` descriptions, escaped tag spans, the
  card's theme class, and its escaped fields (module `Cards`).
- `cardsHtml`, `cardAnimCss` and the values the page template interpolates
  (module `Page`).

Supporting modules:
- `Wrappers` holds `Option`.
- `Text` stands in for the JavaScript built-ins the script uses:
  `Array.prototype.join`, `String.prototype.split` with a one-character
  separator, a global one-character `replace`, and decimal printing of counts.

The catalog is an input value. Strings are `seq<char>`. A JSON field that is
absent becomes `None` in an `Option`. `Render` returns a `PageValues` record holding
every interpolated value, in template order. The fixed markup and CSS around
those values are not modelled, except for the cards: `CardText` fills the card
template's fixed pieces with a card's values, and `CardsHtml` joins the cards'
markup with newlines.

The model follows the code where the code does something unexpected, with one
exception: theme keys that name `Object.prototype` members (see Findings).
- Descriptions are not escaped. Only their newlines are rewritten.
- Course URLs and `site.brandUrl` go into the page unescaped.
- `escHtml` leaves the single quote unchanged.
- An unknown theme key `x` keeps its own class `card-x`. Only its colours
  fall back to palette `a`.

## Model

| member | source | states |
|---|---|---|
| `Escape.EscHtml` | scripts/generate-index.js:133-139 | The output contains no raw `<`, `>` or `"`; every `&` in it begins `&amp;`, `&lt;`, `&gt;` or `&quot;`; it is never shorter than the input |
| `Escape.EscHtmlAsWritten` | scripts/generate-index.js:133-139 | `escHtml` as written: four global replacements in source order, `&` first. `Escape.AsWrittenIsEscHtml` proves it equal to `Escape.EscHtml` on every string |
| `Escape.EscChar` | scripts/generate-index.js:133-139 | Each of `& < > "` becomes an entity that begins with `&`; every other character, the single quote included, is kept unchanged |
| `Escape.AsWrittenIsEscHtml` | scripts/generate-index.js:133-139 | The four chained global replacements, ampersand first, equal the one-pass per-character map, so no entity written by a later pass is escaped again |
| `Escape.AmpersandLastDoubleEscapes` | scripts/generate-index.js:135-138 | Had `&` been replaced after `<`, the text `<` would come out as `&amp;lt;`; the order in the source is what prevents this |
| `Escape.EscHtmlAppend` | scripts/generate-index.js:133-139 | Escaping distributes over concatenation |
| `Escape.EscHtmlIdentity` | scripts/generate-index.js:133-139 | Text with none of `& < > "` is returned unchanged |
| `Escape.EscapeAroundSpecial` | scripts/generate-index.js:133-139 | Only the special character changes: escaping `a + c + b`, with `a` and `b` free of specials, gives `a`, then the entity for `c`, then `b` |
| `Escape.EscHtmlLength` | scripts/generate-index.js:133-139 | The output length is the input length plus 4 per `&`, 3 per `<` or `>`, and 5 per `"` |
| `Escape.UnescapeEscHtml` | scripts/generate-index.js:133-139 | Decoding the four entities recovers the original text: escaping loses nothing |
| `Escape.EscHtmlInjective` | scripts/generate-index.js:133-139 | Distinct texts never escape to the same output |
| `Themes.OwnPalette` | scripts/generate-index.js:25-62 | `THEMES` has exactly the keys `a`, `b`, `c` and `d`, and each names the palette stored under it |
| `Themes.GetTheme` | scripts/generate-index.js:65-67 | A known key `a`–`d` selects the palette of that name; every other key selects palette `a` |
| `Themes.GetThemeKeyOf` | scripts/generate-index.js:65-67 | Looking up a palette's own key returns that palette |
| `Themes.ThemesIndex` | scripts/generate-index.js:66 | `THEMES[key]` on the object literal: the palette stored under the key for `a`–`d`, an inherited `Object.prototype` member for the inherited names, `undefined` otherwise |
| `Themes.AsWrittenAgreesOffPrototype` | scripts/generate-index.js:65-67 | For every key that is not an inherited property name, `THEMES[key] \|\| THEMES.a` returns exactly the palette that `GetTheme` picks |
| `Themes.GetThemeAsWritten` | scripts/generate-index.js:65-67 | `THEMES[key] \|\| THEMES.a` as written never yields `undefined`. It yields an inherited member exactly for the `Object.prototype` names, and any palette it yields is the one `GetTheme` picks |
| `Themes.InheritedKeyEscapesDefault` | scripts/generate-index.js:65-67 | For an inherited property name such as `toString`, `THEMES[key] \|\| THEMES.a` returns no palette, although the default arm intends palette `a` |
| `Themes.BuildThemeCss` | scripts/generate-index.js:74-88 | The block's class is `card-` followed by the key verbatim; its colours come from the key's palette, or from palette `a` for an unknown key (the corrected lookup for `Object.prototype` names, see Findings) |
| `Themes.UnknownKeyKeepsClass` | scripts/generate-index.js:74-79 | An unknown key `x` styles class `card-x` with palette `a`, and that class differs from the base key's `card-a` |
| `Catalog.ActiveCourses` | scripts/generate-index.js:69 | A course survives iff its status is `"active"`; each active course keeps its multiplicity and each other course is dropped |
| `Catalog.ActiveCoursesCount` | scripts/generate-index.js:69 | The number of surviving courses equals the number of catalog positions whose status is `"active"` |
| `Catalog.ActiveCoursesInOrder` | scripts/generate-index.js:69 | The surviving courses keep their original relative order |
| `Catalog.ActiveCoursesAppend` | scripts/generate-index.js:69 | Filtering a concatenation filters each part: each course is judged by itself, in place |
| `Catalog.AllActiveKept` | scripts/generate-index.js:69 | A catalog whose courses are all active passes through unchanged |
| `Catalog.ThemeKey` | scripts/generate-index.js:100 | The key is never empty. It is the base key `a` exactly when the theme is missing, empty or `a`; otherwise it is the theme as given |
| `Catalog.Unique` | scripts/generate-index.js:72 | The de-duplicated keys have no repeats and hold exactly the elements of the input |
| `Catalog.UniqueFirstOccurrenceOrder` | scripts/generate-index.js:72 | The de-duplicated keys are listed in the order in which each first occurs in the input |
| `Catalog.DistinctInOrder` | scripts/generate-index.js:72 | One scan with a set of seen elements, as `new Set` insertion works, produces exactly the first-occurrence list |
| `Catalog.UsedThemes` | scripts/generate-index.js:72 | `usedThemes` has no repeats. A key is in it iff some active course has that defaulted theme key |
| `Text.Split` | scripts/generate-index.js:101 | `split` on a one-character separator gives one more piece than there are separators; no piece holds the separator; joining the pieces with it gives the text back |
| `Text.SplitJoinIsReplace` | scripts/generate-index.js:101 | Splitting on a character and joining with `r` replaces every occurrence of that character by `r` and changes nothing else |
| `Text.NatToString` | scripts/generate-index.js:109 | The printed chapter count is a non-empty string of decimal digits with no leading zero |
| `Text.NatToStringRoundTrip` | scripts/generate-index.js:109 | Reading the printed count back as a decimal numeral gives the count |
| `Text.ParseNatInverse` | scripts/generate-index.js:109-115 | The parser accepts only the numeral `String(n)` prints. Any text it reads as `n` is exactly that numeral, so leading zeros are rejected and the count positions are pinned down exactly |
| `Cards.DescHtml` | scripts/generate-index.js:101 | The description fragment has no newline. Each newline becomes `<br />`, every other character passes through unescaped, and the length grows by 5 per newline |
| `Cards.DescAroundNewline` | scripts/generate-index.js:101 | Two newline-free lines joined by one newline render as the first line, `<br />`, then the second line, with nothing else changed |
| `Cards.DescHtmlVerbatim` | scripts/generate-index.js:101 | A description without newlines is embedded exactly as written, markup included |
| `Cards.TagsRoundTrip` | scripts/generate-index.js:102-104 | The tags fragment holds exactly one `<span class="tag">` per tag, in input order, each wrapping the escaped tag: parsing it back, which accepts only well-escaped span text, yields the tag list |
| `Cards.TagsHtml` | scripts/generate-index.js:102-104 | One escaped `<span class="tag">` per tag, joined by a newline and twelve spaces. `Cards.TagsRoundTrip` and `Cards.UnescapedSpanRejected` state what it writes |
| `Cards.UnescapedSpanRejected` | scripts/generate-index.js:103 | The reading-back side of the round trip demands escaping: a span whose text holds a raw `>` or `"`, or a `&` that opens no entity, is rejected |
| `Cards.RenderCard` | scripts/generate-index.js:99-131 | The link is the URL as given, and the class is `card card-` plus the defaulted key. Title and level are well escaped and decode to the course's values; the comment repeats the title. Both count positions read back as the chapter count under a parser that accepts only canonical numerals, so by `Text.ParseNatInverse` they are exactly its decimal numeral. The description has its newlines replaced. The tags read back as the course's tags |
| `Cards.CardText` | scripts/generate-index.js:106-130 | The card template's fixed pieces (`Cards.CardTemplate`) with the nine interpolated values between them, in template order. `Cards.CardTextHead`, `Page.CardsHtmlCons` and `Page.ExampleCard` state what it writes |
| `Cards.CardTextHead` | scripts/generate-index.js:106-107 | A card's markup opens with the HTML comment holding the escaped title, followed by the anchor's link |
| `Page.Render` | scripts/generate-index.js:144-596 | The page has one card and one animation rule per active course. The site's title, description, brand and copyright are well escaped and decode to the site's values; its link is copied unescaped into nav and footer. Theme blocks are `usedThemes.map(buildThemeCss)`: they have distinct keys, exist exactly for the keys active courses use, and each is painted with its own key's palette (palette `a` for an unknown key) |
| `Page.ThemeBlocksCover` | scripts/generate-index.js:72-90 | There is a style block for key `k` iff some active course has the defaulted theme key `k` |
| `Page.ThemeBlocksSound` | scripts/generate-index.js:72-90 | Every style block is for a key that some active course actually uses |
| `Page.ThemeBlocksComplete` | scripts/generate-index.js:72-90 | Every key that an active course uses has a style block |
| `Page.ThemeBlocksInFirstUseOrder` | scripts/generate-index.js:72-90 | The style blocks appear in the order in which the active courses first use their keys |
| `Page.OneBlockPerKey` | scripts/generate-index.js:72-90 | Every theme key in use, however many active courses share it, gets exactly one style block |
| `Page.CardsHtmlCons` | scripts/generate-index.js:141 | The cards' markup is each card's markup in turn with exactly one newline between neighbours; a single card's markup stands alone |
| `Page.CardsHtml` | scripts/generate-index.js:141 | The rendered cards' markup joined by newlines. `Page.CardsHtmlCons` states the join |
| `Page.RenderCards` | scripts/generate-index.js:141 | One card per active course, in order; the `i`-th card is the `i`-th active course rendered |
| `Page.ThemeCss` | scripts/generate-index.js:90 | One style block per used key, in the keys' order, each built by `buildThemeCss` from its key |
| `Page.CardsAppend` | scripts/generate-index.js:141 | The cards for catalog `a + b` are the cards for `a` followed by the cards for `b`: card order follows catalog order |
| `Page.InactiveCourseInvisible` | scripts/generate-index.js:69-141 | Removing an inactive course from anywhere in the catalog leaves the whole page unchanged |
| `Page.AnimRuleTargetsItsCard` | scripts/generate-index.js:93-96 | The `i`-th animation rule's `nth-child` index names a card in the grid, and that card's class is the rule's `card-<key>`. The rule's selector text is `.grid > .card-<key>:nth-child(<i + 1>)`, where `<key>` is that card's theme key and the index is printed in decimal |
| `Page.AnimRules` | scripts/generate-index.js:93-96 | One animation rule per active course. The `i`-th selects `nth-child(i + 1)` with that course's defaulted theme key |
| `Page.NoActiveCourses` | scripts/generate-index.js:69-141 | A catalog with no active course still renders, with no cards, animation rules or style blocks, and a reported count of 0 |
| `Page.ReportedCount` | scripts/generate-index.js:599 | The count printed after the write equals the number of active courses and the number of cards on the page, whatever the site record |
| `Page.OneCourseExample` | scripts/generate-index.js:69-108 | One active course with the unknown theme `x` gives one card and a single style block for `card-x`, painted with palette `a` |
| `Page.ExampleCard` | scripts/generate-index.js:99-131 | The course `A<B` (theme `x`, 3 chapters, description `L1`, newline, `L2`) renders title `A&lt;B`, class `card card-x`, count `3`, description `L1<br />L2`, and its URL verbatim; its markup opens with the comment `A&lt;B` and then the link |

## Left out

- Reading and parsing the catalog file, and writing `index.html`: file I/O. A missing or malformed catalog aborts the run before anything is rendered; the model starts from the parsed catalog.
- The `console.log` line: its count is modelled as `Page.ReportedCount`, and the printing is left out.
- The animation delay `(0.48 + i * 0.07).toFixed(2)`: floating-point formatting. Only the rule count and its `nth-child(i + 1)` index are modelled.
- The palette colour strings and the static page markup and CSS: presentation constants. A palette is identified by its name, and `Render` returns the interpolated values rather than the full page text.
- `String(str)` coercion in `escHtml`, and non-string field values in general: the model types every text field as a string. Non-string values behave differently, for example a numeric `title`, a `theme` of `0`, or a missing `description` or `tags` (which throws a `TypeError` in the source).
- Catalog.ThemeKey: a missing, `null` or empty theme falls back to `a`. The other falsy JSON values (`0`, `false`) are not strings and are not modelled.
- Text.NatToString: chapter counts are non-negative integers printed in plain decimal. Three cases are not modelled: fractional or negative JSON numbers; counts of 10^21 and above, which JavaScript prints in exponent form (`1e+21`); and counts above 2^53, which JSON parsing has already rounded.
- Themes.GetTheme: states the evidently intended own-key lookup rather than the source's plain-object lookup (see Findings). `Themes.GetThemeAsWritten` models the source.
- Themes.BuildThemeCss: paints a theme key that names an `Object.prototype` member (`toString`, `constructor`, ...) with palette `a`. The source writes `undefined` for every colour of such a block. The block is built from the corrected `Themes.GetTheme` (see Findings).
- Page.Render: its theme blocks come from `Themes.BuildThemeCss`, so the same corrected behaviour holds for keys that name `Object.prototype` members.
- shared/docusaurus-base/docusaurus.config.js: a declarative configuration consumed by an external framework. Its only logic is module loading with a fallback, and it also calls the clock.

## Findings

| source | as written | input that shows it | evidently intended | confidence | as-written member | corrected member |
|---|---|---|---|---|---|---|
| scripts/generate-index.js:65-67 | `THEMES[key] \|\| THEMES.a` reads a property of a plain object literal, so names inherited from `Object.prototype` resolve to truthy functions or objects | a course with theme `"toString"` (or `"constructor"`, `"__proto__"`, ...): `getTheme` returns `Object.prototype.toString`, and `buildThemeCss` writes `undefined` for every colour of `.card-toString` | every key other than `a`–`d` falls back to palette `a` | not executed; high | `Themes.InheritedKeyEscapesDefault` | `Themes.GetTheme` |
