# Telegram unread digest: summarizing and digest assembly

This project models the deterministic core of `telegram_digest.py` in Dafny and proves properties of the model. The script collects unread Telegram channel messages, summarizes each one, writes an HTML report and posts a compact digest to a chat. The modelled part is everything between "a message text was fetched" and "a string is ready to be written or posted".

Each module below corresponds to one function or class of the script:

- `PyStr` (`pystr.dfy`): the Python primitives the script leans on.
  - `str.isspace`, which is also the `\s` class of `re`.
  - `str.strip` with a character set, through the number of characters `lstrip` and `rstrip` remove.
  - Slices `xs[:n]`, including negative `n`.
  - `"\n".join`, `str.split("\n")`, `str(int)` and `int(str)`.
- `HtmlEscape` (`html_escape.dfy`): `html.escape(s)` with `quote=True`, written as the five chained `str.replace` calls, `&` first. It is proved equal to escaping character by character. It is also proved free of markup characters and reversible.
- `Normalize` (`normalize.dfy`): `normalize_text`, which strips the text and collapses every whitespace run to one space. It is proved equal to `" ".join(text.split())`, with `Words` as an independent definition of `str.split()`.
- `LocalSummary` (`local_summary.dfy`): `summarize_locally`.
  - The split on `(?<=[.!?。！？])\s+|\n+` is modelled as a leftmost-match scan producing chunk spans.
  - Chunks whose stripped length is 15 or less are dropped.
  - Kept chunks are stripped of ` -•`.
  - With nothing kept, the fallback is `text[:240]`.
  - Output is the first `max_sentences` fragments, each cut to 220 characters behind a `• ` bullet.
- `Summarizing` (`summarizer.dfy`): `Summarizer.summarize`. The HTTP call `_summarize_remote` is a function parameter returning either a summary or a failure. The empty-text sentinel, the API-key test, verbatim use of a remote answer and the local fallback are all modelled.
- `Digest` (`digest.dfy`): the `DigestItem` record and `build_message_link`.
  - With a username (empty counts as none), the link is `https://t.me/<username>/<id>`.
  - Otherwise it is `https://t.me/c/<digits>/<id>`, where `<digits>` is the decimal absolute channel id with a leading `100` removed.
- `Notification` (`notification.dfy`): `build_digest_message`. It is an imperative method whose loops fill a dictionary (a key list plus a `map`, for insertion order) and a line list. It is proved equal to a functional specification, about which these are proved:
  - the header comes first
  - the overflow note appears if and only if items were cut
  - titles come in order of first appearance
  - groups are a permutation of the capped items
  - items are numbered within their group
  - titles and summaries are escaped
- `Report` (`report.dfy`): the card part of `render_html`. It is an imperative loop building one card per item, with `.strip()` of the triple-quoted string, and the placeholder when there are no items.

Behaviours of the code that the model keeps on purpose:
- A link is inserted unescaped, both in the notification and in the report. The date is also inserted unescaped.
- Grouping is by channel title, not by id.
- The `100` rule looks only at digits. A positive id such as `1001234567` links as `1234567`, the same as channel `1234567` (`Digest.PositiveIdCollides`).

## Model

| member | source | states |
|---|---|---|
| HtmlEscape.Escape | telegram_digest.py:166-172 | the model of `html.escape(s)` (no contract of its own): the five chained replacements; its properties are stated by `HtmlEscape.EscapeIsPerChar`, `HtmlEscape.EscapeHasNoMarkup`, `HtmlEscape.UnescapeEscape` and `HtmlEscape.EscapePlain` |
| HtmlEscape.EscapeIsPerChar | telegram_digest.py:166-172 | the five chained replacements, `&` first, give the same text as replacing each character by its entity |
| HtmlEscape.EscapeHasNoMarkup | telegram_digest.py:217-219 | escaped text contains none of `<`, `>`, `"`, `'` |
| HtmlEscape.UnescapeEscape | telegram_digest.py:166-172 | unescaping the escaped text gives the original back: escaping loses nothing |
| HtmlEscape.EscapePlain | telegram_digest.py:166 | text without `&` and markup characters is left unchanged |
| Normalize.CollapseSpaces | telegram_digest.py:83 | the model of `re.sub(r"\s+", " ", s)`; its own contract gives only that the result is no longer than the input, empty iff the input is, and keeps a non-space first or last character; the collapse itself is stated by `Normalize.CollapseTrimmed` and `Normalize.CollapsedIsNormal` |
| Normalize.CollapsedIsNormal | telegram_digest.py:83 | after the substitution no two whitespace characters are adjacent and the only whitespace left is the plain space |
| Normalize.CollapseTrimmed | telegram_digest.py:83 | for text without whitespace at either end, the substitution gives the words of the text (`str.split()`, the maximal non-whitespace runs) joined by single spaces: each whitespace run between two words becomes exactly one space |
| Normalize.WordsOfStripped | telegram_digest.py:83 | `.strip()` does not change the words of a text |
| Normalize.NormalizeText | telegram_digest.py:82-83 | the result is `" ".join(text.split())`: the words of the text, in order, separated by single spaces; it has no leading or trailing whitespace, no two adjacent whitespace characters and only plain spaces; `None` and `""` give `""` |
| Normalize.NormalizeIdempotent | telegram_digest.py:82-83 | normalizing normalized text changes nothing |
| Normalize.NormalizeKeepsVisible | telegram_digest.py:82-83 | normalizing only removes or replaces whitespace: the non-whitespace characters are kept, in order |
| LocalSummary.SeparatorAt | telegram_digest.py:87 | a separator match starts at `i` exactly when a sentence end precedes a whitespace character at `i`, or `s[i]` is a newline; the match stays inside the text |
| LocalSummary.Split | telegram_digest.py:87 | the chunks cover the text from 0 to its end, consecutive chunks are separated by exactly the leftmost match, no match starts inside a chunk, and chunks are in text order |
| LocalSummary.Kept | telegram_digest.py:88 | the kept chunks are exactly those chunks whose whitespace-stripped length exceeds 15, in text order |
| LocalSummary.Fragments | telegram_digest.py:88-90 | after the fallback there is always at least one fragment |
| LocalSummary.BulletLine | telegram_digest.py:92 | each line is `• ` followed by exactly the first `min(220, len(fragment))` characters of the fragment |
| LocalSummary.SummaryLines | telegram_digest.py:91-92 | exactly `min(max_sentences, len(filtered))` lines for `max_sentences >= 0`, and `len(filtered) + max_sentences` lines (never fewer than 0) for a negative `max_sentences`, as the slice `filtered[:max_sentences]` gives; at least one when `max_sentences >= 1` |
| LocalSummary.SummarizeLocally | telegram_digest.py:86-92 | the model of `summarize_locally` (no contract of its own): the lines of `LocalSummary.SummaryLines` joined by newlines; its properties are stated by `LocalSummary.KeptLinesInOrder`, `LocalSummary.FallbackSummary` and `LocalSummary.SummaryShape` |
| LocalSummary.KeptLinesInOrder | telegram_digest.py:87-92 | there are exactly `min(max_sentences, number of kept chunks)` lines for `max_sentences >= 0`; line `k` is the bullet line of the `k`-th kept chunk, stripped of ` -•`; that chunk is a chunk of the split with stripped length above 15; kept chunks appear in text order |
| LocalSummary.NothingKept | telegram_digest.py:88-89 | when no chunk's stripped length exceeds 15, nothing is kept |
| LocalSummary.FallbackSummary | telegram_digest.py:88-92 | in that case the summary is exactly `"• " + text[:220]` |
| LocalSummary.SummaryShape | telegram_digest.py:86-92 | for newline-free text, splitting the summary on newlines gives back its lines: between 1 and `max_sentences` of them, each a bullet line of at most 222 characters |
| Summarizing.LocalSummaryNonEmpty | telegram_digest.py:56 | the local summary of normalized text is never empty |
| Summarizing.Summarize | telegram_digest.py:45-56 | the sentinel `(텍스트 없음)` for empty normalized text; with a non-empty API key and a remote success, the remote text unchanged; otherwise the non-empty local summary of the normalized text with 3 sentences |
| Summarizing.RemoteNotConsulted | telegram_digest.py:45-52 | without an API key, or for text empty after normalizing, any two remote summarizers give the same answer: the remote is not consulted |
| Summarizing.SummarizeNonEmpty | telegram_digest.py:45-56 | the answer is empty only if an API key is set and the remote answered with the empty string |
| Summarizing.LocalAnswerShape | telegram_digest.py:50-56 | without a key or on remote failure the answer reads as 1 to 3 bullet lines of at most 222 characters |
| Digest.InternalChannelId | telegram_digest.py:110-115 | the result is all digits; it is `str(abs(id))` with its leading `100` removed when it has one, and `str(abs(id))` otherwise |
| Digest.BuildMessageLink | telegram_digest.py:105-116 | with a non-empty username the link is exactly `https://t.me/<username>/` followed by its last path segment, otherwise exactly `https://t.me/c/<internal id>/` followed by it, where the internal id is all digits (`Digest.InternalChannelId`); in both cases that last segment is `str(message_id)` |
| Digest.MessageIdReadsBack | telegram_digest.py:105-116 | for both kinds of link, the last path segment is the decimal message id and parses back to it |
| Digest.LeadingHundredDropped | telegram_digest.py:109-115 | an id whose absolute decimal form is `100` followed by the `k` digits of `b` links as `b` |
| Digest.MarkedChannelLink | telegram_digest.py:109-116 | a channel without username and marked id `-100` followed by ten digits `b` links to `https://t.me/c/<b>/<message id>` |
| Digest.PositiveIdCollides | telegram_digest.py:110-115 | ids `1001234567` and `1234567` produce the same internal id `1234567` |
| Notification.GroupByTitle | telegram_digest.py:211-213 | after the loop the key list is the titles in first-appearance order, its entries are exactly the map's keys, and each key maps to the capped items with that title, in input order |
| Notification.AppendGroup | telegram_digest.py:217-220 | appends the group heading, then for each item its numbered summary line and its link line |
| Notification.EmitGroups | telegram_digest.py:215-220 | the lines are the header followed by the groups' lines in key order |
| Notification.DigestMessage | telegram_digest.py:207-225 | the functional specification of `build_digest_message` (no contract of its own): the sentinel for no items, else the header, the group lines and the optional note joined by newlines; the method `Notification.BuildDigestMessage` is proved equal to it and its properties are the lemmas below |
| Notification.BuildDigestMessage | telegram_digest.py:207-225 | the method's result equals the digest specification for every input and every `max_items` |
| Notification.DigestOpening | telegram_digest.py:207-215 | an empty list gives exactly the `📭` sentinel; otherwise the message starts with the header line followed by a newline |
| Notification.OverflowNoteIff | telegram_digest.py:208-223 | for a non-empty list (an empty one returns the sentinel before any line exists), the last line is an overflow note iff `len(items) > max_items`, and then it names `len(items) - max_items`; no earlier line looks like the note |
| Notification.DefaultCap | telegram_digest.py:207-223 | with the default `max_items` of 20, the digest is built from the first 20 items and ends with the overflow note exactly when there are more than 20 |
| Notification.TitlesCover | telegram_digest.py:211-216 | the group keys are exactly the titles of the capped items |
| Notification.TitlesDistinct | telegram_digest.py:211-216 | no title heads two groups |
| Notification.TitlesInFirstAppearanceOrder | telegram_digest.py:211-216 | for any two groups, the one listed first has the title that occurs first in the capped items |
| Notification.GroupMembers | telegram_digest.py:212-213 | a group holds exactly the capped items with its title |
| Notification.GroupsArePermutation | telegram_digest.py:211-213 | the groups together hold every capped item exactly once (multiset equality) |
| Notification.ItemLinesNumbered | telegram_digest.py:218-220 | within a group, line `2k` is the summary line numbered `k+1` of the group's `k`-th item, and line `2k+1` is its link line |
| Notification.FieldsEscaped | telegram_digest.py:217-219 | the title in a heading and the summary in an item line are escaped: they contain no markup character and unescape to the original |
| Report.Card | telegram_digest.py:162-176 | the model of one card (no contract of its own): the triple-quoted f-string, then `.strip()`; its content is stated by `Report.CardIsStripped` and `Report.CardFields` |
| Report.ReportBody | telegram_digest.py:179 | the functional specification of `body` (no contract of its own): the newline-joined cards, or the placeholder when that join is empty; `Report.RenderBody` is proved equal to it, and `Report.PlaceholderIffEmpty` and `Report.BodyIsCards` state its properties |
| Report.RenderBody | telegram_digest.py:159-179 | the loop's body string equals the newline-joined cards of the items in input order, or the placeholder when that join is empty |
| Report.CardIsStripped | telegram_digest.py:162-176 | `.strip()` removes exactly the newline and indentation around the card |
| Report.CardFields | telegram_digest.py:163-176 | a card is the fixed markup around escaped title, raw date, escaped summary with `<br>`, escaped text and raw link; title, summary and text read back exactly, and title and text hold no markup character |
| Report.SummaryHtmlReadsBack | telegram_digest.py:169 | the card summary has no newline, and turning `<br>` back into newlines and unescaping gives the summary |
| Report.PlaceholderIffEmpty | telegram_digest.py:179 | the body is the placeholder exactly when there are no items |
| Report.BodyIsCards | telegram_digest.py:160-179 | with items, the body is the newline-joined cards and starts with the first item's card |

## Left out

- `fetch_unread_messages` (telegram_digest.py:119-156) is Telethon client I/O: dialog and message iteration, unread counts, and the per-channel `messages.reverse()`, which puts each channel's messages oldest first. `DigestItem` values are inputs here.
- `Summarizer._summarize_remote` (telegram_digest.py:58-79) is an HTTP call. It is a function parameter returning a summary or a failure, and the `.strip()` of the reply belongs to that parameter.
- The warning logged on remote failure (telegram_digest.py:54) is logging only.
- `Summarizer.__init__` (telegram_digest.py:40-43) reads the environment. The key, base URL and model are datatype fields, so the defaults `https://api.openai.com/v1` and `gpt-4o-mini` are not modelled.
- Summarizing.Summarize: every exception of the remote call becomes one failure value; the kind of exception is not modelled.
- `post_via_bot` (telegram_digest.py:228-239) and `write_outputs` (telegram_digest.py:242-250) are HTTP, filesystem and JSON output.
- `main` and `parse_args` (telegram_digest.py:95-102, 253-287) are command-line, login and event-loop code.
- The page around the cards in `render_html` (telegram_digest.py:180-204) is left out. It holds static CSS and HTML and the wall-clock generation time.
- LocalSummary.SummaryShape: the line-by-line reading is stated for newline-free input only, which is what `summarize` passes. Fragments of text with newlines are covered by LocalSummary.KeptLinesInOrder.
- Report.BodyIsCards: "one card per item" is stated as the list of cards joined by newlines, not as a count of `<article` substrings, because the raw date and link could contain that text themselves.
- Python strings are sequences of code points; Dafny `char` excludes lone surrogates, which are not modelled.
- Integers are unbounded in both Python and Dafny, so no width is modelled.
