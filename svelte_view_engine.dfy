/*
 * The view-engine adapter that splices a rendered Svelte component's head
 * (and its extracted style, if any) into the component's markup in place of
 * the `%head%` placeholder, and hands the result to the completion callback.
 *
 * Loading the compiled module and calling the component's render are outside
 * this model: their result, the triple {html, head, css.code}, is the input.
 */
module SvelteViewEngine {
  import opened JsString

  /** The placeholder token in the markup that the head replaces. */
  const HeadPlaceholder: string := "%head%"

  /** What the component's render returns: the markup, the head content and
      css.code, where None stands for a null or undefined code. */
  datatype Rendered = Rendered(html: string, head: string, cssCode: Option<string>)

  /** The arguments of the one call to the completion callback `next(error, text)`;
      None as the error stands for `null`. */
  datatype Completion = Next(error: Option<string>, text: string)

  /** JavaScript truthiness of css.code: a non-empty string. */
  predicate Truthy(code: Option<string>)
  {
    code.Some? && code.value != ""
  }

  /** The style element the adapter builds around the extracted CSS. */
  function StyleElement(code: string): string
  {
    "<style>" + code + "</style>"
  }

  /** The head after the conditional rebinding: with truthy CSS the style
      element is appended after the original head, otherwise the head is
      left as it is. */
  function AugmentHead(head: string, code: Option<string>): (h: string)
    ensures |head| <= |h| && h[..|head|] == head
    ensures Truthy(code) ==> h[|head|..] == StyleElement(code.value)
    ensures !Truthy(code) ==> h == head
  {
    if Truthy(code) then head + StyleElement(code.value) else head
  }

  /** The augmented head is free of `$` exactly when the original head is,
      and the CSS code too in case it was appended. */
  lemma AugmentHeadDollarFree(head: string, code: Option<string>)
    ensures '$' !in AugmentHead(head, code) <==> '$' !in head && (Truthy(code) ==> '$' !in code.value)
  {
  }

  /** The adapter as written: `html.replace('%head%', head)` with the
      possibly augmented head as a string replacement, passed to `next`
      with a null error. */
  function ViewEngine(rendered: Rendered): (c: Completion)
    ensures c.error == None
    ensures Absent(rendered.html, HeadPlaceholder) ==> c.text == rendered.html
  {
    Next(None, Replace(rendered.html, HeadPlaceholder, AugmentHead(rendered.head, rendered.cssCode)))
  }

  /** With the placeholder first at `p` and a head free of `$`, the text is
      the markup before the placeholder, then the head, then the rest of the
      markup; its length grows by |head| - 6. */
  lemma ViewEngineSplice(rendered: Rendered, p: nat)
    requires FirstOccurrence(rendered.html, HeadPlaceholder, p)
    requires '$' !in AugmentHead(rendered.head, rendered.cssCode)
    ensures var head := AugmentHead(rendered.head, rendered.cssCode);
            ViewEngine(rendered).text == rendered.html[..p] + head + rendered.html[p + |HeadPlaceholder|..]
    ensures |ViewEngine(rendered).text| == |rendered.html| - |HeadPlaceholder| + |AugmentHead(rendered.head, rendered.cssCode)|
  {
    ReplaceDollarFree(rendered.html, HeadPlaceholder, AugmentHead(rendered.head, rendered.cssCode), p);
  }

  /** Only the first placeholder is replaced: for every head, every later
      placeholder that does not overlap it appears in the text, shifted by as
      much as the text grew (|head| - 6 for a head free of `$`, by
      ViewEngineSplice). */
  lemma ViewEngineKeepsLaterPlaceholders(rendered: Rendered, p: nat, j: nat)
    requires FirstOccurrence(rendered.html, HeadPlaceholder, p)
    requires p + |HeadPlaceholder| <= j && OccursAt(rendered.html, HeadPlaceholder, j)
    ensures OccursAt(ViewEngine(rendered).text, HeadPlaceholder, j + |ViewEngine(rendered).text| - |rendered.html|)
  {
    var head := AugmentHead(rendered.head, rendered.cssCode);
    assert ViewEngine(rendered).text == Replace(rendered.html, HeadPlaceholder, head);
    ReplaceKeepsLaterOccurrences(rendered.html, HeadPlaceholder, head, p, j);
  }

  /** The adapter as evidently intended: the head is spliced in literally,
      whatever characters it holds. */
  function ViewEngineIntended(rendered: Rendered): (c: Completion)
    ensures c.error == None
  {
    Next(None, ReplaceFirst(rendered.html, HeadPlaceholder, AugmentHead(rendered.head, rendered.cssCode)))
  }

  /** The intended adapter splices the augmented head at the first
      placeholder for every head, and returns the markup unchanged when
      there is no placeholder. */
  lemma ViewEngineIntendedSplice(rendered: Rendered)
    ensures var head := AugmentHead(rendered.head, rendered.cssCode);
            forall p: nat :: FirstOccurrence(rendered.html, HeadPlaceholder, p) ==>
              ViewEngineIntended(rendered).text == rendered.html[..p] + head + rendered.html[p + |HeadPlaceholder|..]
    ensures Absent(rendered.html, HeadPlaceholder) ==> ViewEngineIntended(rendered).text == rendered.html
  {
    var head := AugmentHead(rendered.head, rendered.cssCode);
    match IndexOf(rendered.html, HeadPlaceholder)
    case None =>
      ReplaceFirstAbsent(rendered.html, HeadPlaceholder, head);
    case Some(p) =>
      ReplaceFirstSplice(rendered.html, HeadPlaceholder, head, p);
      forall q: nat | FirstOccurrence(rendered.html, HeadPlaceholder, q) ensures q == p {
        IndexOfIsFirst(rendered.html, HeadPlaceholder, q);
      }
  }

  /** Both adapters agree whenever neither the head nor the appended CSS
      holds a `$`. */
  lemma ViewEngineAgreesWithoutDollar(rendered: Rendered)
    requires '$' !in rendered.head
    requires Truthy(rendered.cssCode) ==> '$' !in rendered.cssCode.value
    ensures ViewEngine(rendered) == ViewEngineIntended(rendered)
  {
    AugmentHeadDollarFree(rendered.head, rendered.cssCode);
    ReplaceIsLiteralSplice(rendered.html, HeadPlaceholder, AugmentHead(rendered.head, rendered.cssCode));
  }

  /** In markup that opens with a six-character tag free of `%`, the
      placeholder that follows the tag is the first one. */
  lemma PlaceholderAfterTag(tag: string, rest: string)
    requires |tag| == 6 && '%' !in tag
    ensures FirstOccurrence(tag + HeadPlaceholder + rest, HeadPlaceholder, 6)
  {
    var html := tag + HeadPlaceholder + rest;
    assert html[6..12] == HeadPlaceholder;
    forall j: nat | j < 6 ensures !OccursAt(html, HeadPlaceholder, j) {
      assert html[j..j + 6][0] == tag[j];
    }
  }

  /** A head `$'` is not spliced literally: the adapter as written expands
      it to the markup after the placeholder, so that tail appears twice,
      while the intended adapter keeps the head's text. */
  lemma DollarQuoteDuplicatesTail(rendered: Rendered, p: nat)
    requires FirstOccurrence(rendered.html, HeadPlaceholder, p)
    requires rendered.head == "$'" && !Truthy(rendered.cssCode)
    ensures var tail := rendered.html[p + |HeadPlaceholder|..];
            ViewEngine(rendered).text == rendered.html[..p] + tail + tail
    ensures ViewEngineIntended(rendered).text == rendered.html[..p] + "$'" + rendered.html[p + |HeadPlaceholder|..]
  {
    var html := rendered.html;
    assert GetSubstitution(HeadPlaceholder, html, p, "$'") == html[p + |HeadPlaceholder|..] + GetSubstitution(HeadPlaceholder, html, p, []);
    ViewEngineIntendedSplice(rendered);
  }

  /** The smallest page that shows it: `<head>%head%</head>` with the head
      `$'` renders with its closing tag twice. */
  lemma DollarQuoteExample()
    ensures ViewEngine(Rendered("<head>%head%</head>", "$'", None)).text == "<head>" + "</head>" + "</head>"
  {
    var html := "<head>%head%</head>";
    PlaceholderAfterTag("<head>", "</head>");
    assert html == "<head>" + HeadPlaceholder + "</head>";
    assert html[..6] == "<head>" && html[12..] == "</head>";
    DollarQuoteDuplicatesTail(Rendered(html, "$'", None), 6);
  }

  /** A head `$&` expands to the matched placeholder itself, so the adapter
      as written returns the markup unchanged, with or without a placeholder. */
  lemma DollarAmpersandKeepsPlaceholder(rendered: Rendered)
    requires rendered.head == "$&" && !Truthy(rendered.cssCode)
    ensures ViewEngine(rendered).text == rendered.html
  {
    var html := rendered.html;
    match IndexOf(html, HeadPlaceholder)
    case None =>
    case Some(p) =>
      assert GetSubstitution(HeadPlaceholder, html, p, "$&") == HeadPlaceholder + GetSubstitution(HeadPlaceholder, html, p, []);
      assert html[..p] + html[p..p + |HeadPlaceholder|] + html[p + |HeadPlaceholder|..] == html;
  }

  /** With no CSS, a head that opens with `$$` followed by `$`-free text loses
      one of the two dollars: `$$` is the escape for a single `$`. */
  lemma DoubleDollarBecomesOne(rendered: Rendered, p: nat, rest: string)
    requires FirstOccurrence(rendered.html, HeadPlaceholder, p)
    requires rendered.head == "$$" + rest && '$' !in rest && !Truthy(rendered.cssCode)
    ensures ViewEngine(rendered).text == rendered.html[..p] + "$" + rest + rendered.html[p + |HeadPlaceholder|..]
  {
    var html := rendered.html;
    assert ("$$" + rest)[2..] == rest;
    var expanded := GetSubstitution(HeadPlaceholder, html, p, "$$" + rest);
    assert expanded == "$" + GetSubstitution(HeadPlaceholder, html, p, rest);
    assert GetSubstitution(HeadPlaceholder, html, p, rest) == rest;
    assert ViewEngine(rendered).text == Replace(html, HeadPlaceholder, "$$" + rest);
    assert Replace(html, HeadPlaceholder, "$$" + rest) == html[..p] + expanded + html[p + |HeadPlaceholder|..];
  }

  /** A head `` $` `` expands to the markup before the placeholder, so that
      prefix appears twice. */
  lemma DollarBacktickDuplicatesPrefix(rendered: Rendered, p: nat)
    requires FirstOccurrence(rendered.html, HeadPlaceholder, p)
    requires rendered.head == "$`" && !Truthy(rendered.cssCode)
    ensures ViewEngine(rendered).text == rendered.html[..p] + rendered.html[..p] + rendered.html[p + |HeadPlaceholder|..]
  {
    var html := rendered.html;
    assert GetSubstitution(HeadPlaceholder, html, p, "$`") == html[..p] + GetSubstitution(HeadPlaceholder, html, p, []);
  }

  /** A component without CSS: its head replaces the placeholder. */
  lemma PlainHeadExample()
    ensures ViewEngine(Rendered("<html>%head%</html>", "<title>T</title>", None)).text
            == "<html>" + "<title>T</title>" + "</html>"
  {
    var html := "<html>%head%</html>";
    PlaceholderAfterTag("<html>", "</html>");
    assert html == "<html>" + HeadPlaceholder + "</html>";
    assert html[..6] == "<html>" && html[12..] == "</html>";
    ViewEngineSplice(Rendered(html, "<title>T</title>", None), 6);
  }

  /** A component with CSS: its style element follows the head in place of
      the placeholder. */
  lemma StyledHeadExample()
    ensures ViewEngine(Rendered("<html>%head%</html>", "<title>T</title>", Some("body{color:red}"))).text
            == "<html>" + "<title>T</title>" + StyleElement("body{color:red}") + "</html>"
  {
    var html := "<html>%head%</html>";
    var code := "body{color:red}";
    assert forall i | 0 <= i < |code| :: code[i] != '$';
    assert html == "<html>" + HeadPlaceholder + "</html>";
    StyledHeadAfterTag("<html>", "</html>", "<title>T</title>", code);
  }

  /** Regrouping a four-part concatenation. */
  lemma ConcatRegroup(a: string, b: string, c: string, d: string)
    ensures a + (b + c) + d == a + b + c + d
  {
  }

  /** The styled case for a page that opens with a six-character tag free of
      `%`: non-empty CSS and a head and code free of `$` put the head and then
      its style element in place of the placeholder. */
  lemma StyledHeadAfterTag(tag: string, rest: string, head: string, code: string)
    requires |tag| == 6 && '%' !in tag
    requires code != "" && '$' !in head && '$' !in code
    ensures ViewEngine(Rendered(tag + HeadPlaceholder + rest, head, Some(code))).text
            == tag + head + StyleElement(code) + rest
  {
    var html := tag + HeadPlaceholder + rest;
    var rendered := Rendered(html, head, Some(code));
    var augmented := AugmentHead(head, Some(code));
    assert augmented == head + StyleElement(code);
    assert '$' !in augmented by {
      AugmentHeadDollarFree(head, Some(code));
    }
    PlaceholderAfterTag(tag, rest);
    ViewEngineSplice(rendered, 6);
    assert html[..6] == tag && html[12..] == rest;
    calc {
      ViewEngine(rendered).text;
    ==
      html[..6] + augmented + html[12..];
    ==
      tag + (head + StyleElement(code)) + rest;
    ==  { ConcatRegroup(tag, head, StyleElement(code), rest); }
      tag + head + StyleElement(code) + rest;
    }
  }
}
