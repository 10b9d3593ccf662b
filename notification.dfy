/** `build_digest_message`: the compact HTML-flavoured text posted to a chat.
    Items are capped, grouped by channel title in order of first appearance,
    numbered within their group, and followed by a note when some were cut. */
module Notification {
  import opened PyStr
  import opened HtmlEscape
  import opened Digest

  /** The whole message when there is nothing unread. */
  const EmptySentinel := "📭 안 읽은 채널 메시지가 없습니다."
  /** The first line of every non-empty digest. */
  const Header := "🧾 <b>안 읽은 채널 요약</b>"
  /** The default of `max_items`. */
  const DefaultMaxItems := 20

  /** The line that opens a channel's group; it starts with a newline, which
      leaves a blank line above it. */
  function GroupHeading(title: string): string {
    "\n📌 <b>" + Escape(title) + "</b>"
  }

  /** `f"{idx}) {html.escape(item.summary)}"`. */
  function ItemLine(index: int, item: DigestItem): string {
    IntToString(index) + ") " + Escape(item.summary)
  }

  /** The link line; the link itself is inserted as it is, unescaped. */
  function LinkLine(item: DigestItem): string {
    "🔗 <a href=\"" + item.messageLink + "\">원문 링크</a>"
  }

  /** The note naming how many items did not fit. */
  function OverflowNote(omitted: int): string {
    "\n…외 " + IntToString(omitted) + "건은 HTML/JSON 파일을 확인하세요."
  }

  /** The keys of `grouped` in insertion order: each title where it first occurs. */
  function TitlesOf(items: seq<DigestItem>): seq<string> {
    if items == [] then []
    else
      var titles := TitlesOf(items[..|items| - 1]);
      var title := items[|items| - 1].channelTitle;
      if title in titles then titles else titles + [title]
  }

  /** `grouped[title]`: the items with that title, in input order. */
  function Group(items: seq<DigestItem>, title: string): seq<DigestItem> {
    if items == [] then []
    else
      var last := items[|items| - 1];
      Group(items[..|items| - 1], title) + if last.channelTitle == title then [last] else []
  }

  /** The numbered summary and link lines of one group, numbering from 1. */
  function ItemLines(group: seq<DigestItem>): (r: seq<string>)
    ensures |r| == 2 * |group|
  {
    if group == [] then []
    else
      var last := group[|group| - 1];
      ItemLines(group[..|group| - 1]) + [ItemLine(|group|, last), LinkLine(last)]
  }

  /** The lines of the groups of `titles`, one after the other. */
  function BodyLines(items: seq<DigestItem>, titles: seq<string>): seq<string> {
    if titles == [] then []
    else
      var title := titles[|titles| - 1];
      BodyLines(items, titles[..|titles| - 1]) + [GroupHeading(title)] + ItemLines(Group(items, title))
  }

  /** The `lines` list of a non-empty digest. */
  function DigestLines(items: seq<DigestItem>, maxItems: int): seq<string> {
    var capped := Take(items, maxItems);
    [Header] + BodyLines(capped, TitlesOf(capped))
    + if |items| > maxItems then [OverflowNote(|items| - maxItems)] else []
  }

  /** What `build_digest_message(items, max_items)` returns. */
  function DigestMessage(items: seq<DigestItem>, maxItems: int): string {
    if items == [] then EmptySentinel else Join(DigestLines(items, maxItems), "\n")
  }

  lemma GroupOfUnseenTitle(items: seq<DigestItem>, title: string)
    requires title !in TitlesOf(items)
    ensures Group(items, title) == []
  {
    if items != [] {
      GroupOfUnseenTitle(items[..|items| - 1], title);
    }
  }

  /** The first loop of `build_digest_message`: `grouped[item.channel_title].append(item)`
      for every capped item, the key list recording the order in which the
      dictionary's keys were inserted. */
  method GroupByTitle(capped: seq<DigestItem>)
    returns (titles: seq<string>, grouped: map<string, seq<DigestItem>>)
    ensures titles == TitlesOf(capped)
    ensures forall t :: t in grouped <==> t in titles
    ensures forall t :: t in grouped ==> grouped[t] == Group(capped, t)
  {
    titles, grouped := [], map[];
    var i := 0;
    while i < |capped|
      invariant 0 <= i <= |capped|
      invariant GroupedAs(capped[..i], titles, grouped)
    {
      var item := capped[i];
      var title := item.channelTitle;
      var current := if title in grouped then grouped[title] else [];
      var titles' := if title in grouped then titles else titles + [title];
      var grouped' := grouped[title := current + [item]];
      PrefixStep(capped, i);
      GroupingStep(capped[..i], item, titles, grouped, titles', grouped');
      titles, grouped := titles', grouped';
      i := i + 1;
    }
    assert capped[..i] == capped;
  }

  /** The key list and the dictionary after the first loop has seen `seen`. */
  ghost predicate GroupedAs(seen: seq<DigestItem>, titles: seq<string>, grouped: map<string, seq<DigestItem>>) {
    titles == TitlesOf(seen)
    && (forall t :: t in grouped <==> t in titles)
    && (forall t :: t in grouped ==> grouped[t] == Group(seen, t))
  }

  /** One step of the first loop keeps the key list and the dictionary in
      step with the items seen so far. */
  lemma GroupingStep(seen: seq<DigestItem>, item: DigestItem,
                     titles: seq<string>, grouped: map<string, seq<DigestItem>>,
                     titles': seq<string>, grouped': map<string, seq<DigestItem>>)
    requires GroupedAs(seen, titles, grouped)
    requires var title := item.channelTitle;
      titles' == (if title in grouped then titles else titles + [title])
      && grouped' == grouped[title := (if title in grouped then grouped[title] else []) + [item]]
    ensures GroupedAs(seen + [item], titles', grouped')
  {
    var title := item.channelTitle;
    assert (seen + [item])[..|seen|] == seen;
    if title !in grouped {
      GroupOfUnseenTitle(seen, title);
    }
    forall t | t in grouped' ensures grouped'[t] == Group(seen + [item], t) {
      GroupAppend(seen, item, t);
    }
  }

  /** The lines one group contributes, appended to `lines`. */
  method AppendGroup(lines: seq<string>, title: string, channelItems: seq<DigestItem>)
    returns (out: seq<string>)
    ensures out == lines + [GroupHeading(title)] + ItemLines(channelItems)
  {
    out := lines + [GroupHeading(title)];
    var k := 0;
    while k < |channelItems|
      invariant 0 <= k <= |channelItems|
      invariant out == lines + [GroupHeading(title)] + ItemLines(channelItems[..k])
    {
      ItemLinesStep(channelItems, k);
      out := out + [ItemLine(k + 1, channelItems[k]), LinkLine(channelItems[k])];
      k := k + 1;
    }
    assert channelItems[..k] == channelItems;
  }

  lemma ItemLinesStep(group: seq<DigestItem>, k: nat)
    requires k < |group|
    ensures ItemLines(group[..k + 1]) == ItemLines(group[..k]) + [ItemLine(k + 1, group[k]), LinkLine(group[k])]
  {
    assert group[..k + 1][..k] == group[..k];
  }

  /** The second loop of `build_digest_message`: the header, then every group
      in key order. */
  method EmitGroups(capped: seq<DigestItem>, titles: seq<string>, grouped: map<string, seq<DigestItem>>)
    returns (lines: seq<string>)
    requires forall t :: t in titles ==> t in grouped && grouped[t] == Group(capped, t)
    ensures lines == [Header] + BodyLines(capped, titles)
  {
    lines := [Header];
    var j := 0;
    while j < |titles|
      invariant 0 <= j <= |titles|
      invariant lines == [Header] + BodyLines(capped, titles[..j])
    {
      var channelItems := grouped[titles[j]];
      assert channelItems == Group(capped, titles[j]);
      BodyLinesStep(capped, titles, j);
      AppendAssoc([Header], BodyLines(capped, titles[..j]), [GroupHeading(titles[j])], ItemLines(channelItems));
      lines := AppendGroup(lines, titles[j], channelItems);
      j := j + 1;
    }
    assert titles[..j] == titles;
  }

  lemma BodyLinesStep(items: seq<DigestItem>, titles: seq<string>, j: nat)
    requires j < |titles|
    ensures BodyLines(items, titles[..j + 1])
      == BodyLines(items, titles[..j]) + [GroupHeading(titles[j])] + ItemLines(Group(items, titles[j]))
  {
    var prefix := titles[..j + 1];
    assert prefix[..j] == titles[..j] && prefix[j] == titles[j];
  }

  lemma AppendAssoc(a: seq<string>, b: seq<string>, c: seq<string>, d: seq<string>)
    ensures a + (b + c + d) == a + b + c + d
  {
  }

  /** `build_digest_message(items, max_items)`. */
  method BuildDigestMessage(items: seq<DigestItem>, maxItems: int) returns (message: string)
    ensures message == DigestMessage(items, maxItems)
  {
    if items == [] {
      return EmptySentinel;
    }
    var capped := Take(items, maxItems);
    var titles, grouped := GroupByTitle(capped);
    var lines := EmitGroups(capped, titles, grouped);
    if |items| > maxItems {
      lines := lines + [OverflowNote(|items| - maxItems)];
    }
    assert lines == DigestLines(items, maxItems);
    message := Join(lines, "\n");
  }

  /** The first line of a non-empty digest is the header; an empty input gives
      only the sentinel. */
  lemma DigestOpening(items: seq<DigestItem>, maxItems: int)
    ensures items == [] ==> DigestMessage(items, maxItems) == EmptySentinel
    ensures items != [] ==> StartsWith(DigestMessage(items, maxItems), Header + "\n")
  {
    if items != [] {
      var capped := Take(items, maxItems);
      var lines := DigestLines(items, maxItems);
      if capped != [] {
        TitlesNonEmpty(capped);
      } else {
        assert |items| > maxItems;
      }
      assert |lines| >= 2;
      var rest := Join(lines[1..], "\n");
      assert DigestMessage(items, maxItems) == Header + "\n" + rest;
      assert (Header + "\n" + rest)[..|Header + "\n"|] == Header + "\n";
    }
  }

  lemma TitlesNonEmpty(items: seq<DigestItem>)
    requires items != []
    ensures TitlesOf(items) != []
  {
  }

  /** A line that looks like the overflow note: a blank line, then the ellipsis. */
  predicate IsOverflowLine(line: string) {
    |line| >= 2 && line[0] == '\n' && line[1] == '…'
  }

  lemma {:induction false} ItemLinesNoOverflow(group: seq<DigestItem>)
    ensures forall k :: 0 <= k < |ItemLines(group)| ==> !IsOverflowLine(ItemLines(group)[k])
  {
    if group != [] {
      var init, last := group[..|group| - 1], group[|group| - 1];
      ItemLinesNoOverflow(init);
      var digits := IntToString(|group|);
      assert digits == NatToString(|group|);
      assert IsDigit(digits[0]);
      var lines, before := ItemLines(group), ItemLines(init);
      assert lines == before + [ItemLine(|group|, last), LinkLine(last)];
      forall k | 0 <= k < |lines| ensures !IsOverflowLine(lines[k]) {
        if k < |before| {
          assert lines[k] == before[k];
        } else if k == |before| {
          assert lines[k][0] == digits[0];
        } else {
          assert lines[k][0] == '🔗';
        }
      }
    }
  }

  lemma {:induction false} BodyLinesNoOverflow(items: seq<DigestItem>, titles: seq<string>)
    ensures forall k :: 0 <= k < |BodyLines(items, titles)| ==> !IsOverflowLine(BodyLines(items, titles)[k])
  {
    if titles != [] {
      var title := titles[|titles| - 1];
      BodyLinesNoOverflow(items, titles[..|titles| - 1]);
      ItemLinesNoOverflow(Group(items, title));
      assert GroupHeading(title)[1] == '📌';
    }
  }

  /** With the default cap, as the program's entry point calls it, the
      digest is built from the first twenty items and ends with the note
      exactly when there are more. */
  lemma DefaultCap(items: seq<DigestItem>)
    ensures var lines := DigestLines(items, DefaultMaxItems);
      Take(items, DefaultMaxItems) == items[..Min(20, |items|)]
      && (IsOverflowLine(lines[|lines| - 1]) <==> |items| > 20)
  {
    if items != [] {
      OverflowNoteIff(items, DefaultMaxItems);
    } else {
      assert DigestLines(items, DefaultMaxItems) == [Header];
      assert Header[0] != '\n';
    }
  }

  /** For a non-empty list, whose lines are what the message joins, the
      overflow note is the last line exactly when more items came in than
      fit, it names how many were left out, and no other line looks like it. */
  lemma OverflowNoteIff(items: seq<DigestItem>, maxItems: int)
    requires items != []
    ensures var lines := DigestLines(items, maxItems);
      |lines| >= 1
      && (IsOverflowLine(lines[|lines| - 1]) <==> |items| > maxItems)
      && (|items| > maxItems ==> lines[|lines| - 1] == OverflowNote(|items| - maxItems))
      && forall k :: 0 <= k < |lines| - 1 ==> !IsOverflowLine(lines[k])
  {
    var capped := Take(items, maxItems);
    var body := BodyLines(capped, TitlesOf(capped));
    var lines := DigestLines(items, maxItems);
    BodyLinesNoOverflow(capped, TitlesOf(capped));
    assert !IsOverflowLine(Header);
    assert forall k :: 0 <= k < |[Header] + body| ==> !IsOverflowLine(([Header] + body)[k]) by {
      forall k | 0 <= k < |[Header] + body| ensures !IsOverflowLine(([Header] + body)[k]) {
        if k > 0 {
          assert ([Header] + body)[k] == body[k - 1];
        }
      }
    }
    if |items| > maxItems {
      assert lines == [Header] + body + [OverflowNote(|items| - maxItems)];
      assert IsOverflowLine(OverflowNote(|items| - maxItems));
    } else {
      assert lines == [Header] + body;
    }
  }

  /** The distinct titles among `items`. */
  function TitleSet(items: seq<DigestItem>): set<string> {
    set x | x in items :: x.channelTitle
  }

  /** Every title of the items is a key, and every key is one of their titles. */
  lemma {:induction false} TitlesCover(items: seq<DigestItem>)
    ensures forall t :: t in TitlesOf(items) <==> t in TitleSet(items)
  {
    if items != [] {
      var init, last := items[..|items| - 1], items[|items| - 1];
      TitlesCover(init);
      assert items == init + [last];
      assert TitleSet(items) == TitleSet(init) + {last.channelTitle};
    }
  }

  predicate Distinct(titles: seq<string>) {
    forall a, b :: 0 <= a < b < |titles| ==> titles[a] != titles[b]
  }

  /** No title is a key twice. */
  lemma {:induction false} TitlesDistinct(items: seq<DigestItem>)
    ensures Distinct(TitlesOf(items))
  {
    if items != [] {
      TitlesDistinct(items[..|items| - 1]);
    }
  }

  /** `k` is where `title` occurs first among `items`. */
  predicate IsFirstIndex(items: seq<DigestItem>, title: string, k: int) {
    0 <= k < |items| && items[k].channelTitle == title
    && forall j :: 0 <= j < k ==> items[j].channelTitle != title
  }

  lemma FirstIndexInPrefix(items: seq<DigestItem>, n: nat, title: string, k: int)
    requires n <= |items| && title in TitleSet(items[..n]) && IsFirstIndex(items, title, k)
    ensures k < n && IsFirstIndex(items[..n], title, k)
  {
    var x :| x in items[..n] && x.channelTitle == title;
    var j :| 0 <= j < n && items[..n][j] == x;
    assert items[j].channelTitle == title;
  }

  /** The titles of `titles` occur first in `items` in this order. */
  ghost predicate InFirstAppearanceOrder(items: seq<DigestItem>, titles: seq<string>) {
    forall a, b, ka, kb ::
      0 <= a < b < |titles| && IsFirstIndex(items, titles[a], ka) && IsFirstIndex(items, titles[b], kb)
      ==> ka < kb
  }

  lemma FirstAppearanceStep(init: seq<DigestItem>, x: DigestItem)
    requires InFirstAppearanceOrder(init, TitlesOf(init))
    ensures InFirstAppearanceOrder(init + [x], TitlesOf(init + [x]))
  {
    var items, n := init + [x], |init|;
    assert items[..n] == init;
    var before, titles := TitlesOf(init), TitlesOf(items);
    TitlesCover(init);
    forall a, b, ka, kb |
      0 <= a < b < |titles| && IsFirstIndex(items, titles[a], ka) && IsFirstIndex(items, titles[b], kb)
      ensures ka < kb
    {
      assert titles[a] == before[a];
      FirstIndexInPrefix(items, n, titles[a], ka);
      if b < |before| {
        assert titles[b] == before[b];
        FirstIndexInPrefix(items, n, titles[b], kb);
        assert IsFirstIndex(init, before[a], ka) && IsFirstIndex(init, before[b], kb);
      } else {
        assert titles[b] == x.channelTitle && x.channelTitle !in TitleSet(init);
        forall j | 0 <= j < n ensures items[j].channelTitle != x.channelTitle {
          assert items[j] == init[j] && init[j] in init;
        }
      }
    }
  }

  /** Groups come in the order in which their titles first occur. */
  lemma {:induction false} TitlesInFirstAppearanceOrder(items: seq<DigestItem>)
    ensures InFirstAppearanceOrder(items, TitlesOf(items))
  {
    if items != [] {
      var init, x := items[..|items| - 1], items[|items| - 1];
      TitlesInFirstAppearanceOrder(init);
      FirstAppearanceStep(init, x);
      assert items == init + [x];
    }
  }

  /** Each group holds exactly the items with its title. */
  lemma {:induction false} GroupMembers(items: seq<DigestItem>, title: string)
    ensures forall x :: x in Group(items, title) <==> x in items && x.channelTitle == title
  {
    if items != [] {
      var init, last := items[..|items| - 1], items[|items| - 1];
      GroupMembers(init, title);
      assert items == init + [last];
    }
  }

  /** The groups of `titles`, one after the other. */
  function GroupedItems(items: seq<DigestItem>, titles: seq<string>): seq<DigestItem> {
    if titles == [] then []
    else GroupedItems(items, titles[..|titles| - 1]) + Group(items, titles[|titles| - 1])
  }

  /** `x` once when `present`, otherwise nothing. */
  function Once(x: DigestItem, present: bool): multiset<DigestItem> {
    if present then multiset{x} else multiset{}
  }

  lemma {:induction false} GroupedItemsAppend(init: seq<DigestItem>, x: DigestItem, titles: seq<string>)
    requires Distinct(titles)
    ensures multiset(GroupedItems(init + [x], titles))
      == multiset(GroupedItems(init, titles)) + Once(x, x.channelTitle in titles)
  {
    if titles != [] {
      var items := init + [x];
      var ts, t := titles[..|titles| - 1], titles[|titles| - 1];
      GroupedItemsAppend(init, x, ts);
      GroupAppend(init, x, t);
      var added := if x.channelTitle == t then [x] else [];
      forall j | 0 <= j < |ts| ensures ts[j] != t {
        assert ts[j] == titles[j];
      }
      assert Once(x, x.channelTitle in titles) == Once(x, x.channelTitle in ts) + multiset(added);
      CombineCounts(GroupedItems(items, ts), GroupedItems(init, ts), Group(items, t), Group(init, t), added,
        Once(x, x.channelTitle in ts), Once(x, x.channelTitle in titles));
    }
  }

  /** Appending an item adds it to the end of its own group only. */
  lemma GroupAppend(init: seq<DigestItem>, x: DigestItem, title: string)
    ensures Group(init + [x], title) == Group(init, title) + if x.channelTitle == title then [x] else []
  {
    assert (init + [x])[..|init|] == init;
  }

  lemma CombineCounts(a: seq<DigestItem>, b: seq<DigestItem>, g: seq<DigestItem>, h: seq<DigestItem>,
                      added: seq<DigestItem>, before: multiset<DigestItem>, after: multiset<DigestItem>)
    requires multiset(a) == multiset(b) + before
    requires g == h + added
    requires after == before + multiset(added)
    ensures multiset(a + g) == multiset(b + h) + after
  {
  }

  lemma PermutationStep(init: seq<DigestItem>, x: DigestItem)
    requires multiset(GroupedItems(init, TitlesOf(init))) == multiset(init)
    ensures multiset(GroupedItems(init + [x], TitlesOf(init + [x]))) == multiset(init + [x])
  {
    var items, before, t := init + [x], TitlesOf(init), x.channelTitle;
    assert items[..|init|] == init;
    TitlesDistinct(init);
    GroupedItemsAppend(init, x, before);
    if t in before {
      assert TitlesOf(items) == before;
    } else {
      var titles := before + [t];
      assert TitlesOf(items) == titles;
      assert titles[..|before|] == before;
      assert GroupedItems(items, titles) == GroupedItems(items, before) + Group(items, t);
      GroupOfUnseenTitle(init, t);
      assert Group(items, t) == [x];
    }
  }

  /** Grouping loses and duplicates nothing: the groups together hold the
      capped items, each once. */
  lemma {:induction false} GroupsArePermutation(items: seq<DigestItem>)
    ensures multiset(GroupedItems(items, TitlesOf(items))) == multiset(items)
  {
    if items != [] {
      var init, x := items[..|items| - 1], items[|items| - 1];
      assert items == init + [x];
      GroupsArePermutation(init);
      PermutationStep(init, x);
    }
  }

  /** Within a group the items keep their order and are numbered 1, 2, …, each
      followed by its link line. */
  lemma {:induction false} ItemLinesNumbered(group: seq<DigestItem>)
    ensures forall k :: 0 <= k < |group| ==>
      ItemLines(group)[2 * k] == ItemLine(k + 1, group[k])
      && ItemLines(group)[2 * k + 1] == LinkLine(group[k])
  {
    if group != [] {
      var init := group[..|group| - 1];
      ItemLinesNumbered(init);
      forall k | 0 <= k < |init| ensures group[k] == init[k] { }
    }
  }

  /** Titles and summaries are escaped: the part that came from the item holds
      no markup character and reads back as the original. */
  lemma FieldsEscaped(index: int, item: DigestItem)
    ensures var heading, line := GroupHeading(item.channelTitle), ItemLine(index, item);
      var open, number := |"\n📌 <b>"|, |IntToString(index) + ") "|;
      var title := heading[open..|heading| - |"</b>"|];
      var summary := line[number..];
      Unescape(title) == item.channelTitle && Unescape(summary) == item.summary
      && (forall i :: 0 <= i < |title| ==> !IsMarkupChar(title[i]))
      && (forall i :: 0 <= i < |summary| ==> !IsMarkupChar(summary[i]))
  {
    var heading, line := GroupHeading(item.channelTitle), ItemLine(index, item);
    assert heading[|"\n📌 <b>"|..|heading| - |"</b>"|] == Escape(item.channelTitle);
    assert line[|IntToString(index) + ") "|..] == Escape(item.summary);
    UnescapeEscape(item.channelTitle);
    UnescapeEscape(item.summary);
    EscapeHasNoMarkup(item.channelTitle);
    EscapeHasNoMarkup(item.summary);
  }
}
