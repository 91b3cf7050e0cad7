/**
 Rendering one course as a card, `renderCard` in scripts/generate-index.js.
 The description goes in unescaped with its newlines turned into `<br />`;
 the tags become one escaped `<span class="tag">` each; title and level are
 escaped; the URL goes in as given.
 */
module Cards {
  import opened Wrappers
  import opened Text
  import opened Escape
  import opened Catalog

  const LineBreak: string := "<br />"

  /** `description.split('\n').join('<br />')`. */
  function DescHtml(d: string): (r: string)
    ensures '\n' !in r
    ensures r == ReplaceChar(d, '\n', LineBreak)
    ensures |r| == |d| + 5 * CountChar(d, '\n')
  {
    SplitJoinIsReplace(d, '\n', LineBreak);
    ReplaceCharRemoves(d, '\n', LineBreak);
    NewlineGrowth(d);
    Join(Split(d, '\n'), LineBreak)
  }

  lemma {:induction false} NewlineGrowth(d: string)
    ensures |ReplaceChar(d, '\n', LineBreak)| == |d| + 5 * CountChar(d, '\n')
  {
    if |d| > 0 {
      NewlineGrowth(d[1..]);
    }
  }

  /** A description without newlines is embedded exactly as written, markup included. */
  lemma DescHtmlVerbatim(d: string)
    requires '\n' !in d
    ensures DescHtml(d) == d
  {
    ReplaceCharAbsent(d, '\n', LineBreak);
  }

  /** A line break between two newline-free lines becomes `<br />` and nothing else changes. */
  lemma DescAroundNewline(a: string, b: string)
    requires '\n' !in a && '\n' !in b
    ensures DescHtml(a + "\n" + b) == a + LineBreak + b
  {
    assert ReplaceChar("\n", '\n', LineBreak) == LineBreak by {
      assert "\n"[1..] == "";
    }
    ReplaceCharAppend(a, "\n", '\n', LineBreak);
    ReplaceCharAppend(a + "\n", b, '\n', LineBreak);
    ReplaceCharAbsent(a, '\n', LineBreak);
    ReplaceCharAbsent(b, '\n', LineBreak);
  }

  /** The description `L1`, newline, `L2` renders as `L1<br />L2`. */
  lemma DescriptionExample()
    ensures DescHtml("L1\nL2") == "L1<br />L2"
  {
    DescAroundNewline("L1", "L2");
  }

  const TagOpen: string := "<span class=\"tag\">"
  const TagClose: string := "</span>"
  /** The separator of `.join('\n            ')`: a newline and twelve spaces. */
  const TagSep: string := "\n            "

  /** One tag's span, its text escaped. */
  function TagSpan(tag: string): string
  {
    TagOpen + EscHtml(tag) + TagClose
  }

  /** `tags.map(tag => <span class="tag">escHtml(tag)</span>).join(TagSep)`. */
  function TagsHtml(tags: seq<string>): string
  {
    Join(seq(|tags|, i requires 0 <= i < |tags| => TagSpan(tags[i])), TagSep)
  }

  lemma TagsHtmlCons(tags: seq<string>)
    requires |tags| >= 1
    ensures |tags| == 1 ==> TagsHtml(tags) == TagSpan(tags[0])
    ensures |tags| > 1 ==> TagsHtml(tags) == TagSpan(tags[0]) + TagSep + TagsHtml(tags[1..])
  {
    var spans := seq(|tags|, i requires 0 <= i < |tags| => TagSpan(tags[i]));
    assert spans[1..] == seq(|tags| - 1, i requires 0 <= i < |tags| - 1 => TagSpan(tags[1..][i]));
  }

  /** Index of the first `c` in `s`, or `|s|` when there is none. */
  function IndexOf(s: string, c: char): (k: nat)
    ensures k <= |s|
    ensures c !in s[..k]
    ensures k < |s| ==> s[k] == c
  {
    if c in s then FirstIndex(s, c) else |s|
  }

  /**
   Splits one span off the front of `s`: its (still escaped) text, which
   runs to the first `<`, and whatever follows its closing tag.
   */
  function SplitSpan(s: string): (r: Option<(string, string)>)
    ensures r.Some? ==> |r.value.1| < |s|
  {
    if !StartsAt(s, 0, TagOpen) then None
    else
      var rest := s[|TagOpen|..];
      var k := IndexOf(rest, '<');
      var after := rest[k..];
      if !StartsAt(after, 0, TagClose) then None
      else Some((rest[..k], after[|TagClose|..]))
  }

  /**
   Reads a tags fragment back: spans separated by `TagSep`, each span's text
   well escaped and then decoded. Serves as the inverse that pins down what
   `TagsHtml` writes; a span with a raw `<`, `>` or `"`, or a stray `&`, is
   rejected.
   */
  function ParseTags(s: string): Option<seq<string>>
    decreases |s|
  {
    if s == "" then Some([])
    else
      match SplitSpan(s)
      case None => None
      case Some((body, tail)) =>
        if !WellEscaped(body) then None
        else if tail == "" then Some([Unescape(body)])
        else if !StartsAt(tail, 0, TagSep) then None
        else
          match ParseTags(tail[|TagSep|..])
          case None => None
          case Some(more) => Some([Unescape(body)] + more)
  }

  /** The first `c` in `e + w` is the head of `w` when `e` has none. */
  lemma IndexOfAfter(e: string, w: string, c: char)
    requires c !in e && |w| > 0 && w[0] == c
    ensures IndexOf(e + w, c) == |e|
  {
    var s := e + w;
    assert s[|e|] == c;
    assert s[..|e|] == e;
  }

  /** Splitting the front span off a span whose body has no `<` gives that body and what follows. */
  lemma SplitSpanOfBody(e: string, z: string)
    requires '<' !in e
    ensures SplitSpan(TagOpen + e + TagClose + z) == Some((e, z))
  {
    var s := TagOpen + e + TagClose + z;
    assert s == TagOpen + (e + (TagClose + z));
    assert s[..|TagOpen|] == TagOpen;
    var rest := s[|TagOpen|..];
    assert rest == e + (TagClose + z);
    IndexOfAfter(e, TagClose + z, '<');
    assert rest[..|e|] == e;
    assert rest[|e|..] == TagClose + z;
    assert (TagClose + z)[..|TagClose|] == TagClose;
    assert (TagClose + z)[|TagClose|..] == z;
  }

  /** Splitting the front span off `TagSpan(t) + z` gives `t` escaped and `z`. */
  lemma SplitSpanOf(t: string, z: string)
    ensures SplitSpan(TagSpan(t) + z) == Some((EscHtml(t), z))
  {
    SplitSpanOfBody(EscHtml(t), z);
  }

  /**
   Reading back checks the escaping: a span whose text holds a raw `>` or `"`,
   or a `&` that opens no entity, is rejected, whatever follows it.
   */
  lemma UnescapedSpanRejected(e: string, z: string)
    requires '<' !in e && !WellEscaped(e)
    ensures ParseTags(TagOpen + e + TagClose + z) == None
  {
    SplitSpanOfBody(e, z);
  }

  /** A fragment holding one span reads back as that span's decoded text. */
  lemma ParseOnlySpan(t: string)
    ensures ParseTags(TagSpan(t)) == Some([Unescape(EscHtml(t))])
  {
    SplitSpanOf(t, "");
    assert TagSpan(t) + "" == TagSpan(t);
  }

  /** A span followed by the separator reads back as its text and then the rest. */
  lemma ParseSpanThenRest(t: string, w: string)
    ensures ParseTags(TagSpan(t) + (TagSep + w)) ==
            match ParseTags(w)
            case None => None
            case Some(more) => Some([Unescape(EscHtml(t))] + more)
  {
    var z := TagSep + w;
    SplitSpanOf(t, z);
    assert z[..|TagSep|] == TagSep;
    assert z[|TagSep|..] == w;
  }

  /**
   The tags fragment holds exactly one span per tag, in input order, each
   wrapping that tag's escaped text: reading it back yields the tags.
   */
  lemma {:induction false} TagsRoundTrip(tags: seq<string>)
    ensures ParseTags(TagsHtml(tags)) == Some(tags)
  {
    if |tags| == 1 {
      TagsRoundTripOne(tags);
    } else if |tags| > 1 {
      TagsRoundTrip(tags[1..]);
      TagsRoundTripCons(tags);
    }
  }

  lemma TagsRoundTripOne(tags: seq<string>)
    requires |tags| == 1
    ensures ParseTags(TagsHtml(tags)) == Some(tags)
  {
    TagsHtmlCons(tags);
    UnescapeEscHtml(tags[0]);
    ParseOnlySpan(tags[0]);
    assert tags == [tags[0]];
  }

  lemma TagsRoundTripCons(tags: seq<string>)
    requires |tags| > 1
    requires ParseTags(TagsHtml(tags[1..])) == Some(tags[1..])
    ensures ParseTags(TagsHtml(tags)) == Some(tags)
  {
    var t, rest := tags[0], tags[1..];
    var w := TagsHtml(rest);
    assert TagsHtml(tags) == TagSpan(t) + (TagSep + w) by {
      TagsHtmlCons(tags);
    }
    assert Unescape(EscHtml(t)) == t by {
      UnescapeEscHtml(t);
    }
    assert ParseTags(TagSpan(t) + (TagSep + w)) == Some([Unescape(EscHtml(t))] + rest) by {
      ParseSpanThenRest(t, w);
    }
    assert tags == [t] + rest;
  }

  /**
   The interpolated values of one card, in template order. `CardText`
   places them into the fixed markup.
   */
  datatype Card = Card(
    comment: string,
    href: string,
    themeKey: string,
    watermark: string,
    level: string,
    meta: string,
    title: string,
    desc: string,
    tags: string)
  {
    /** The `class` attribute of the card's anchor. */
    function ClassAttr(): string
    {
      "card card-" + themeKey
    }
  }

  /**
   `renderCard(course)`. Every field can be read back to the course's
   value, so nothing is lost or reordered; only the description keeps raw
   markup and the URL is not escaped.
   */
  function RenderCard(c: Course): (r: Card)
    ensures r.href == c.url
    ensures r.ClassAttr() == "card card-" + ThemeKey(c)
    ensures WellEscaped(r.title) && Unescape(r.title) == c.title
    ensures r.comment == r.title
    ensures WellEscaped(r.level) && Unescape(r.level) == c.level
    ensures ParseNat(r.watermark) == Some(c.chapters)
    ensures r.meta == r.watermark
    ensures '\n' !in r.desc && r.desc == ReplaceChar(c.description, '\n', LineBreak)
    ensures ParseTags(r.tags) == Some(c.tags)
  {
    UnescapeEscHtml(c.title);
    UnescapeEscHtml(c.level);
    NatToStringRoundTrip(c.chapters);
    TagsRoundTrip(c.tags);
    var title := EscHtml(c.title);
    var chapters := NatToString(c.chapters);
    Card(title, c.url, ThemeKey(c), chapters, EscHtml(c.level), chapters,
         title, DescHtml(c.description), TagsHtml(c.tags))
  }

  /**
   The fixed markup of `renderCard`'s template, cut at its nine
   interpolations: comment, link, class, watermark, level, meta, title,
   description and tags.
   */
  const CardTemplate: seq<string> := [
    "\n        <!-- ",
    " -->\n        <a href=\"",
    "\" target=\"_blank\" rel=\"noopener\" class=\"",
    "\">\n          <div class=\"card-watermark\" aria-hidden=\"true\">",
    "</div>\n"
    + "          <div class=\"card-top\">\n"
    + "            <div class=\"badges\">\n"
    + "              <span class=\"badge b-free\">FREE</span>\n"
    + "              <span class=\"badge b-level\">",
    "</span>\n"
    + "            </div>\n"
    + "            <span class=\"card-meta\">",
    " chapters</span>\n"
    + "          </div>\n"
    + "          <h2 class=\"card-title\">",
    "</h2>\n"
    + "          <p class=\"card-desc\">\n"
    + "            ",
    "\n"
    + "          </p>\n"
    + "          <div class=\"tags\">\n"
    + "            ",
    "\n"
    + "          </div>\n"
    + "          <span class=\"cta\">\n"
    + "            강의 시작하기\n"
    + "            <svg class=\"cta-ico\" width=\"13\" height=\"13\" viewBox=\"0 0 13 13\" fill=\"none\">\n"
    + "              <path d=\"M1 6.5H12M12 6.5L7 1.5M12 6.5L7 11.5\" stroke=\"currentColor\" stroke-width=\"1.4\" stroke-linecap=\"round\" stroke-linejoin=\"round\"/>\n"
    + "            </svg>\n"
    + "          </span>\n"
    + "        </a>"]

  /** The card's values in the order the template interpolates them. */
  function CardValues(card: Card): seq<string>
  {
    [card.comment, card.href, card.ClassAttr(), card.watermark, card.level, card.meta,
     card.title, card.desc, card.tags]
  }

  /** A template literal: the fixed pieces with the values between them, in order. */
  function Fill(pieces: seq<string>, values: seq<string>): string
    requires |pieces| == |values| + 1
  {
    if |values| == 0 then pieces[0]
    else pieces[0] + values[0] + Fill(pieces[1..], values[1..])
  }

  /** The card's markup: the fixed template with the card's values in place. */
  function CardText(card: Card): string
  {
    Fill(CardTemplate, CardValues(card))
  }

  /** The card's markup opens with the comment holding the title, then the link. */
  lemma CardTextHead(card: Card)
    ensures StartsAt(CardText(card), 0, CardTemplate[0] + card.comment + CardTemplate[1] + card.href)
  {
    var v := CardValues(card);
    var head := CardTemplate[0] + card.comment + CardTemplate[1] + card.href;
    var rest := Fill(CardTemplate[2..], v[2..]);
    assert CardText(card) == head + rest by {
      var t := CardTemplate;
      assert |t| == 10 && |v| == 9;
      assert Fill(t[1..], v[1..]) == t[1] + card.href + Fill(t[2..], v[2..]) by {
        assert t[1..][1..] == t[2..] && v[1..][1..] == v[2..];
        assert t[1..][0] == t[1] && v[1..][0] == card.href;
      }
      assert Fill(t, v) == t[0] + card.comment + Fill(t[1..], v[1..]);
    }
    assert (head + rest)[..|head|] == head;
  }
}
