/**
 HTML escaping of free text, `escHtml` in scripts/generate-index.js.
 The source chains four global replacements, ampersand first; the model gives
 both that chain and a one-pass per-character map, proves them equal, and
 proves the output well formed and invertible.
 */
module Escape {
  import opened Text

  const Amp: string := "&amp;"
  const Lt: string := "&lt;"
  const Gt: string := "&gt;"
  const Quot: string := "&quot;"

  /** The four characters `escHtml` rewrites; the single quote is not among them. */
  predicate IsSpecial(c: char)
  {
    c == '&' || c == '<' || c == '>' || c == '"'
  }

  /** `e` occurs in `s` starting at index `i`. */
  predicate StartsAt(s: string, i: nat, e: string)
  {
    i + |e| <= |s| && s[i..i + |e|] == e
  }

  /** One of the four entities `escHtml` writes starts at index `i`. */
  predicate EntityAt(s: string, i: nat)
  {
    StartsAt(s, i, Amp) || StartsAt(s, i, Lt) || StartsAt(s, i, Gt) || StartsAt(s, i, Quot)
  }

  /**
   Text that is safe inside element content and double-quoted attributes:
   no raw `<`, `>` or `"`, and every `&` opens one of the four entities.
   */
  predicate WellEscaped(s: string)
  {
    && '<' !in s && '>' !in s && '"' !in s
    && forall i :: 0 <= i < |s| && s[i] == '&' ==> EntityAt(s, i)
  }

  /** The replacement for one character. */
  function EscChar(c: char): (r: string)
    ensures WellEscaped(r)
    ensures !IsSpecial(c) ==> r == [c]
    ensures IsSpecial(c) ==> |r| > 1 && r[0] == '&'
  {
    if c == '&' then Amp
    else if c == '<' then Lt
    else if c == '>' then Gt
    else if c == '"' then Quot
    else [c]
  }

  lemma WellEscapedAppend(a: string, b: string)
    requires WellEscaped(a) && WellEscaped(b)
    ensures WellEscaped(a + b)
  {
    var s := a + b;
    forall i | 0 <= i < |s| && s[i] == '&'
      ensures EntityAt(s, i)
    {
      if i < |a| {
        assert EntityAt(a, i);
        forall e | StartsAt(a, i, e)
          ensures StartsAt(s, i, e)
        {
          assert s[i..i + |e|] == a[i..i + |e|];
        }
      } else {
        var j := i - |a|;
        assert b[j] == '&';
        assert EntityAt(b, j);
        forall e | StartsAt(b, j, e)
          ensures StartsAt(s, i, e)
        {
          assert s[i..i + |e|] == b[j..j + |e|];
        }
      }
    }
  }

  /** Escaping as a per-character map: each character replaced by `EscChar` of it. */
  function EscHtml(s: string): (r: string)
    ensures WellEscaped(r)
    ensures |r| >= |s|
  {
    if |s| == 0 then ""
    else
      var rest := EscHtml(s[1..]);
      WellEscapedAppend(EscChar(s[0]), rest);
      EscChar(s[0]) + rest
  }

  /**
   `escHtml` as written: four global replacements, `&` first, then `<`, `>` and `"`.
   */
  function EscHtmlAsWritten(s: string): string
  {
    ReplaceChar(ReplaceChar(ReplaceChar(ReplaceChar(s, '&', Amp), '<', Lt), '>', Gt), '"', Quot)
  }

  lemma AsWrittenAppend(a: string, b: string)
    ensures EscHtmlAsWritten(a + b) == EscHtmlAsWritten(a) + EscHtmlAsWritten(b)
  {
    var p1a, p1b := ReplaceChar(a, '&', Amp), ReplaceChar(b, '&', Amp);
    ReplaceCharAppend(a, b, '&', Amp);
    var p2a, p2b := ReplaceChar(p1a, '<', Lt), ReplaceChar(p1b, '<', Lt);
    ReplaceCharAppend(p1a, p1b, '<', Lt);
    var p3a, p3b := ReplaceChar(p2a, '>', Gt), ReplaceChar(p2b, '>', Gt);
    ReplaceCharAppend(p2a, p2b, '>', Gt);
    ReplaceCharAppend(p3a, p3b, '"', Quot);
  }

  lemma ReplaceOneChar(c: char, x: char, rep: string)
    ensures ReplaceChar([c], x, rep) == if c == x then rep else [c]
  {
    assert [c][1..] == [];
  }

  /** The entity for `&` holds none of the characters the later passes replace. */
  lemma LaterPassesKeepAmp()
    ensures ReplaceChar(ReplaceChar(ReplaceChar(Amp, '<', Lt), '>', Gt), '"', Quot) == Amp
  {
    assert ReplaceChar(Amp, '<', Lt) == Amp by {
      ReplaceCharAbsent(Amp, '<', Lt);
    }
    assert ReplaceChar(Amp, '>', Gt) == Amp by {
      ReplaceCharAbsent(Amp, '>', Gt);
    }
    ReplaceCharAbsent(Amp, '"', Quot);
  }

  /** The entity for `<` holds none of the characters the later passes replace. */
  lemma LaterPassesKeepLt()
    ensures ReplaceChar(ReplaceChar(Lt, '>', Gt), '"', Quot) == Lt
  {
    ReplaceCharAbsent(Lt, '>', Gt);
    ReplaceCharAbsent(Lt, '"', Quot);
  }

  /** The entity for `>` holds no `"`. */
  lemma LaterPassKeepsGt()
    ensures ReplaceChar(Gt, '"', Quot) == Gt
  {
    ReplaceCharAbsent(Gt, '"', Quot);
  }

  /** On a single character the chain of replacements produces `EscChar`. */
  lemma AsWrittenOneChar(c: char)
    ensures EscHtmlAsWritten([c]) == EscChar(c)
  {
    ReplaceOneChar(c, '&', Amp);
    if c == '&' {
      LaterPassesKeepAmp();
    } else {
      ReplaceOneChar(c, '<', Lt);
      if c == '<' {
        LaterPassesKeepLt();
      } else {
        ReplaceOneChar(c, '>', Gt);
        if c == '>' {
          LaterPassKeepsGt();
        } else {
          ReplaceOneChar(c, '"', Quot);
        }
      }
    }
  }

  /**
   Replacing `&` first means no entity written by a later pass is escaped
   again: the chain equals the one-pass per-character map.
   */
  lemma {:induction false} AsWrittenIsEscHtml(s: string)
    ensures EscHtmlAsWritten(s) == EscHtml(s)
  {
    if |s| > 0 {
      assert s == [s[0]] + s[1..];
      AsWrittenAppend([s[0]], s[1..]);
      AsWrittenOneChar(s[0]);
      AsWrittenIsEscHtml(s[1..]);
    }
  }

  /** Had `&` been replaced last, the entity for `<` would itself be escaped. */
  lemma AmpersandLastDoubleEscapes()
    ensures ReplaceChar(ReplaceChar("<", '<', Lt), '&', Amp) == "&amp;lt;"
  {
    assert ReplaceChar("<", '<', Lt) == Lt;
    assert Lt == ['&'] + "lt;";
    ReplaceCharAbsent("lt;", '&', Amp);
    ReplaceCharAppend(['&'], "lt;", '&', Amp);
  }

  /** Escaping distributes over concatenation. */
  lemma {:induction false} EscHtmlAppend(a: string, b: string)
    ensures EscHtml(a + b) == EscHtml(a) + EscHtml(b)
  {
    if |a| == 0 {
      assert a + b == b;
    } else {
      assert (a + b)[0] == a[0];
      assert (a + b)[1..] == a[1..] + b;
      EscHtmlAppend(a[1..], b);
    }
  }

  /** Text with none of the four special characters is left unchanged. */
  lemma {:induction false} EscHtmlIdentity(s: string)
    requires forall i :: 0 <= i < |s| ==> !IsSpecial(s[i])
    ensures EscHtml(s) == s
  {
    if |s| > 0 {
      EscHtmlIdentity(s[1..]);
    }
  }

  /**
   Escaping touches only the special characters: in `Test & Demo` only the
   ampersand changes.
   */
  lemma EscapeAroundSpecial(a: string, c: char, b: string)
    requires forall i :: 0 <= i < |a| ==> !IsSpecial(a[i])
    requires forall i :: 0 <= i < |b| ==> !IsSpecial(b[i])
    ensures EscHtml(a + [c] + b) == a + EscChar(c) + b
  {
    assert EscHtml([c]) == EscChar(c) by {
      assert [c][1..] == [];
    }
    assert EscHtml(a + [c]) == a + EscChar(c) by {
      EscHtmlAppend(a, [c]);
      EscHtmlIdentity(a);
    }
    assert EscHtml(b) == b by {
      EscHtmlIdentity(b);
    }
    EscHtmlAppend(a + [c], b);
  }

  /** Escaping a card title: `A<B` becomes `A&lt;B`. */
  lemma EscapeCardTitleExample()
    ensures EscHtml("A<B") == "A&lt;B"
  {
    assert "A<B" == "A" + ("<" + "B");
    EscHtmlAppend("A", "<" + "B");
    EscHtmlAppend("<", "B");
    EscHtmlIdentity("A");
    EscHtmlIdentity("B");
    assert "<"[1..] == "";
    assert EscHtml("<") == Lt;
  }

  /** Every special character costs the length of its entity minus one. */
  lemma {:induction false} EscHtmlLength(s: string)
    ensures |EscHtml(s)| == |s| + 4 * CountChar(s, '&') + 3 * CountChar(s, '<')
                            + 3 * CountChar(s, '>') + 5 * CountChar(s, '"')
  {
    if |s| > 0 {
      EscHtmlLength(s[1..]);
    }
  }

  /** Decodes the four entities `escHtml` writes; other text is copied. */
  function Unescape(s: string): string
    decreases |s|
  {
    if |s| == 0 then ""
    else if StartsAt(s, 0, Amp) then "&" + Unescape(s[|Amp|..])
    else if StartsAt(s, 0, Lt) then "<" + Unescape(s[|Lt|..])
    else if StartsAt(s, 0, Gt) then ">" + Unescape(s[|Gt|..])
    else if StartsAt(s, 0, Quot) then "\"" + Unescape(s[|Quot|..])
    else [s[0]] + Unescape(s[1..])
  }

  /** No entity starts at index 0 unless the first character is `&`. */
  lemma NoEntityWithoutAmpersand(s: string)
    requires |s| > 0 && s[0] != '&'
    ensures !EntityAt(s, 0)
  {
  }

  lemma UnescapeStep(c: char, t: string)
    ensures Unescape(EscChar(c) + t) == [c] + Unescape(t)
  {
    var e := EscChar(c);
    var s := e + t;
    assert s[..|e|] == e;
    assert s[|e|..] == t;
    if c == '&' {
      assert StartsAt(s, 0, Amp);
    } else if c == '<' {
      assert s[1] == 'l';
      assert StartsAt(s, 0, Lt);
    } else if c == '>' {
      assert s[1] == 'g';
      assert StartsAt(s, 0, Gt);
    } else if c == '"' {
      assert s[1] == 'q';
      assert StartsAt(s, 0, Quot);
    } else {
      assert s[0] == c;
      NoEntityWithoutAmpersand(s);
      assert s[1..] == t;
    }
  }

  /** Escaping loses nothing: decoding the escaped text gives the original back. */
  lemma {:induction false} UnescapeEscHtml(s: string)
    ensures Unescape(EscHtml(s)) == s
  {
    if |s| > 0 {
      UnescapeStep(s[0], EscHtml(s[1..]));
      UnescapeEscHtml(s[1..]);
    }
  }

  /** Consequently escaping is injective: distinct texts never escape alike. */
  lemma EscHtmlInjective(a: string, b: string)
    requires EscHtml(a) == EscHtml(b)
    ensures a == b
  {
    UnescapeEscHtml(a);
    UnescapeEscHtml(b);
  }
}
