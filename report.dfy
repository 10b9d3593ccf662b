/** The card part of `render_html`: one `<article>` per digest item, joined
    by newlines, or a placeholder paragraph when there are none. The page
    around the cards and its generation time are not part of this model. */
module Report {
  import opened PyStr
  import opened HtmlEscape
  import opened Digest

  /** The body when there are no items. */
  const Placeholder := "<p>" + "안 읽은 채널 메시지가 없습니다." + "</p>"

  /** `n` spaces of indentation. */
  function Indent(n: nat): string {
    seq(n, _ => ' ')
  }

  /** The fixed text of a card around its five fields, in order: up to the
      title, up to the date, up to the summary, up to the original text, up to
      the link, and after the link. */
  const BeforeTitle := "<article class=\"card\"> \n" + Indent(14) + "<header>\n" + Indent(16) + "<h3>"
  const BeforeDate := "</h3>\n" + Indent(16) + "<p>"
  const BeforeSummary := "</p>\n" + Indent(14) + "</header>\n" + Indent(14) + "<p><strong>요약</strong><br>"
  const BeforeText := "</p>\n" + Indent(14) + "<details>\n" + Indent(16) + "<summary>원문 보기</summary>\n" + Indent(16) + "<pre>"
  const BeforeLink := "</pre>\n" + Indent(14) + "</details>\n" + Indent(14) + "<a href=\""
  const AfterLink := "\" target=\"_blank\">원본 링크 열기</a>\n" + Indent(12) + "</article>"
  /** The newline and indentation around the card inside the triple-quoted string. */
  const Padding := "\n" + Indent(12)

  /** `html.escape(item.summary).replace(chr(10), '<br>')`. */
  function SummaryHtml(summary: string): string {
    ReplaceChar(Escape(summary), '\n', "<br>")
  }

  /** The card from the title to the link. */
  function CardMiddle(item: DigestItem): string {
    Escape(item.channelTitle) + BeforeDate + item.date
    + BeforeSummary + SummaryHtml(item.summary) + BeforeText + Escape(item.text)
    + BeforeLink + item.messageLink
  }

  /** The card without the padding `.strip()` removes. */
  function CardText(item: DigestItem): string {
    BeforeTitle + CardMiddle(item) + AfterLink
  }

  /** The triple-quoted f-string of one card, before `.strip()`. */
  function RawCard(item: DigestItem): string {
    Padding + CardText(item) + Padding
  }

  /** One element of `cards`. */
  function Card(item: DigestItem): string {
    Strip(RawCard(item), IsSpace)
  }

  /** The `cards` list. */
  function Cards(items: seq<DigestItem>): (r: seq<string>)
    ensures |r| == |items|
  {
    if items == [] then [] else Cards(items[..|items| - 1]) + [Card(items[|items| - 1])]
  }

  /** The `k`-th card is the card of the `k`-th item. */
  lemma {:induction false} CardsAt(items: seq<DigestItem>, k: nat)
    requires k < |items|
    ensures Cards(items)[k] == Card(items[k])
  {
    var init := items[..|items| - 1];
    if k < |init| {
      CardsAt(init, k);
      assert init[k] == items[k];
    }
  }

  /** `"\n".join(cards) or "<p>…</p>"`. */
  function ReportBody(items: seq<DigestItem>): string {
    var joined := Join(Cards(items), "\n");
    if joined == "" then Placeholder else joined
  }

  /** The loop of `render_html` that builds `cards`, and the `body` it yields. */
  method RenderBody(items: seq<DigestItem>) returns (body: string)
    ensures body == ReportBody(items)
  {
    var cards: seq<string> := [];
    for i := 0 to |items|
      invariant cards == Cards(items[..i])
    {
      CardsStep(items, i);
      cards := cards + [Card(items[i])];
    }
    assert items[..|items|] == items;
    var joined := Join(cards, "\n");
    body := if joined == "" then Placeholder else joined;
  }

  lemma CardsStep(items: seq<DigestItem>, i: nat)
    requires i < |items|
    ensures Cards(items[..i + 1]) == Cards(items[..i]) + [Card(items[i])]
  {
    var prefix := items[..i + 1];
    assert prefix[..i] == items[..i] && prefix[i] == items[i];
  }

  /** Reads `<br>` back as a newline. */
  function UnBr(s: string): string {
    if s == [] then ""
    else if StartsWith(s, "<br>") then "\n" + UnBr(s[4..])
    else [s[0]] + UnBr(s[1..])
  }

  lemma {:induction false} UnBrReplace(e: string)
    requires forall i :: 0 <= i < |e| ==> e[i] != '<'
    ensures UnBr(ReplaceChar(e, '\n', "<br>")) == e
    ensures NoNewline(ReplaceChar(e, '\n', "<br>"))
  {
    if e != [] {
      var rest := ReplaceChar(e[1..], '\n', "<br>");
      UnBrReplace(e[1..]);
      if e[0] == '\n' {
        var r := "<br>" + rest;
        assert r[..4] == "<br>" && r[4..] == rest;
      } else {
        var r := [e[0]] + rest;
        assert r[0] == e[0] && r[1..] == rest;
        assert !StartsWith(r, "<br>");
      }
      assert [e[0]] + e[1..] == e;
    }
  }

  /** The summary of a card holds no newline, and turning its `<br>` back
      into newlines and unescaping gives the summary back. */
  lemma SummaryHtmlReadsBack(summary: string)
    ensures NoNewline(SummaryHtml(summary))
    ensures Unescape(UnBr(SummaryHtml(summary))) == summary
  {
    EscapeHasNoMarkup(summary);
    UnBrReplace(Escape(summary));
    UnescapeEscape(summary);
  }

  lemma PaddingIsSpace()
    ensures forall i :: 0 <= i < |Padding| ==> IsSpace(Padding[i])
  {
    forall i | 0 <= i < |Padding| ensures IsSpace(Padding[i]) {
      if i > 0 {
        assert Padding[i] == Indent(12)[i - 1];
      }
    }
  }

  lemma LastOfAppend(x: string, y: string)
    requires y != []
    ensures (x + y)[|x + y| - 1] == y[|y| - 1]
  {
  }

  lemma CardTextEnds(item: DigestItem)
    ensures var text := CardText(item); |text| > 1 && text[0] == '<' && text[1] == 'a' && text[|text| - 1] == '>'
  {
    FixedTextEnds();
    LastOfAppend(BeforeTitle + CardMiddle(item), AfterLink);
  }

  /** The fixed text of a card opens with `<` and closes with `>`. */
  lemma FixedTextEnds()
    ensures |BeforeTitle| > 1 && BeforeTitle[0] == '<' && BeforeTitle[1] == 'a'
    ensures |AfterLink| > 0 && AfterLink[|AfterLink| - 1] == '>'
  {
    var opening := "<article class=\"card\"> \n";
    assert BeforeTitle == opening + (Indent(14) + "<header>\n" + Indent(16) + "<h3>");
    assert opening[0] == '<' && opening[1] == 'a';
    var closing := "</article>";
    LastOfAppend("\" target=\"_blank\">원본 링크 열기</a>\n" + Indent(12), closing);
    assert closing[9] == '>';
  }

  /** `.strip()` takes off exactly the padding of the triple-quoted string. */
  lemma CardIsStripped(item: DigestItem)
    ensures Card(item) == CardText(item)
  {
    PaddingIsSpace();
    CardTextEnds(item);
    StripPadded(Padding, CardText(item), Padding, IsSpace);
  }

  /** A card shows the title, the summary and the original text escaped --
      each reads back exactly, and the title and text hold no markup
      character -- and the date and the link as they are. */
  lemma CardFields(item: DigestItem)
    ensures var title, summary, text := Escape(item.channelTitle), SummaryHtml(item.summary), Escape(item.text);
      Card(item) == BeforeTitle + (title + BeforeDate + item.date + BeforeSummary + summary
                    + BeforeText + text + BeforeLink + item.messageLink) + AfterLink
      && Unescape(title) == item.channelTitle
      && Unescape(UnBr(summary)) == item.summary && NoNewline(summary)
      && Unescape(text) == item.text
      && (forall i :: 0 <= i < |title| ==> !IsMarkupChar(title[i]))
      && (forall i :: 0 <= i < |text| ==> !IsMarkupChar(text[i]))
  {
    CardIsStripped(item);
    UnescapeEscape(item.channelTitle);
    UnescapeEscape(item.text);
    EscapeHasNoMarkup(item.channelTitle);
    EscapeHasNoMarkup(item.text);
    SummaryHtmlReadsBack(item.summary);
  }

  /** The placeholder is shown exactly when there are no items; otherwise the
      body opens with a card. */
  lemma PlaceholderIffEmpty(items: seq<DigestItem>)
    ensures ReportBody(items) == Placeholder <==> items == []
  {
    if items != [] {
      var cards := Cards(items);
      FirstCard(items);
      JoinStartsWithFirst(cards, "\n");
      assert Join(cards, "\n")[1] == cards[0][1];
      assert "<p>"[1] == 'p';
    }
  }

  lemma FirstCard(items: seq<DigestItem>)
    requires items != []
    ensures |Cards(items)[0]| > 1 && Cards(items)[0][1] == 'a'
  {
    CardsAt(items, 0);
    CardIsStripped(items[0]);
    CardTextEnds(items[0]);
  }

  /** With items, the body is their cards in input order, joined by newlines,
      and it opens with the card of the first item. */
  lemma BodyIsCards(items: seq<DigestItem>)
    requires items != []
    ensures ReportBody(items) == Join(Cards(items), "\n")
    ensures StartsWith(ReportBody(items), CardText(items[0]))
  {
    var cards := Cards(items);
    CardsAt(items, 0);
    CardIsStripped(items[0]);
    CardTextEnds(items[0]);
    JoinStartsWithFirst(cards, "\n");
    assert Join(cards, "\n") != "";
  }
}
