/** `summarize_locally`: split the text into sentences, keep the substantial
    ones, and print the first few as bullet lines. */
module LocalSummary {
  import opened PyStr

  /** A chunk is kept when its stripped length exceeds this. */
  const MinChunkLength := 15
  /** Each kept fragment is cut to this many characters. */
  const LineChars := 220
  /** With no kept chunk, the text itself, cut to this many characters, is the fragment. */
  const FallbackChars := 240
  /** The default of `max_sentences`. */
  const DefaultMaxSentences := 3
  const Bullet := "• "

  predicate IsSentenceEnd(c: char) {
    c == '.' || c == '!' || c == '?' || c == '。' || c == '！' || c == '？'
  }

  predicate IsNewline(c: char) { c == '\n' }

  /** The characters of `chunk.strip(" -•")`. */
  predicate IsBulletChar(c: char) { c == ' ' || c == '-' || c == '•' }

  /** How many characters satisfying `p` start at position `i`. */
  function RunLength(s: string, i: nat, p: char -> bool): (n: nat)
    requires i <= |s|
    ensures i + n <= |s|
    ensures forall k :: i <= k < i + n ==> p(s[k])
    ensures i + n < |s| ==> !p(s[i + n])
    decreases |s| - i
  {
    if i < |s| && p(s[i]) then 1 + RunLength(s, i + 1, p) else 0
  }

  /** Length of the match of `(?<=[.!?。！？])\s+|\n+` at position `i`, 0 when
      there is none; the first alternative is tried first. */
  function SeparatorAt(s: string, i: nat): (n: nat)
    requires i <= |s|
    ensures i + n <= |s|
    ensures n > 0 <==> i < |s| && ((0 < i && IsSentenceEnd(s[i - 1]) && IsSpace(s[i])) || s[i] == '\n')
  {
    if 0 < i < |s| && IsSentenceEnd(s[i - 1]) && IsSpace(s[i]) then RunLength(s, i, IsSpace)
    else if i < |s| && s[i] == '\n' then RunLength(s, i, IsNewline)
    else 0
  }

  /** A chunk of the text, `s[lo:hi]`. */
  datatype Span = Span(lo: nat, hi: nat)

  predicate InBounds(s: string, spans: seq<Span>) {
    forall k :: 0 <= k < |spans| ==> spans[k].lo <= spans[k].hi <= |s|
  }

  /** Every chunk ends before the next one starts. */
  predicate Ordered(spans: seq<Span>) {
    forall a, b :: 0 <= a < b < |spans| ==> spans[a].hi < spans[b].lo
  }

  /** What `re.split` produces from position `start` on: chunks covering the
      rest of the text, each pair separated by exactly the match found at the
      end of the first, and no match starting inside a chunk (matches are found
      leftmost first). */
  predicate IsSplitFrom(s: string, start: nat, spans: seq<Span>) {
    && |spans| >= 1 && spans[0].lo == start && spans[|spans| - 1].hi == |s|
    && InBounds(s, spans) && Separated(s, spans) && NoMatchInside(s, spans)
  }

  predicate IsSplit(s: string, spans: seq<Span>) {
    IsSplitFrom(s, 0, spans)
  }

  /** Chunk `k` and chunk `k + 1` are separated by exactly the match found where
      chunk `k` ends. */
  predicate SeparatedAt(s: string, spans: seq<Span>, k: nat)
    requires InBounds(s, spans) && k + 1 < |spans|
  {
    SeparatorAt(s, spans[k].hi) > 0 && spans[k + 1].lo == spans[k].hi + SeparatorAt(s, spans[k].hi)
  }

  predicate Separated(s: string, spans: seq<Span>)
    requires InBounds(s, spans)
  {
    forall k: nat :: k + 1 < |spans| ==> SeparatedAt(s, spans, k)
  }

  /** No match starts in `[lo, hi)`. */
  predicate NoMatchIn(s: string, lo: nat, hi: nat)
    requires hi <= |s|
  {
    forall j :: lo <= j < hi ==> SeparatorAt(s, j) == 0
  }

  /** No match starts inside a chunk. */
  predicate NoMatchInside(s: string, spans: seq<Span>)
    requires InBounds(s, spans)
  {
    forall k :: 0 <= k < |spans| ==> NoMatchIn(s, spans[k].lo, spans[k].hi)
  }

  /** The scan of `re.split`: the current chunk started at `start`, and the
      search for the next match resumes at `i`. */
  function SplitFrom(s: string, start: nat, i: nat): (r: seq<Span>)
    requires start <= i <= |s|
    decreases |s| - i
  {
    if i == |s| then [Span(start, |s|)]
    else
      var n := SeparatorAt(s, i);
      if n > 0 then [Span(start, i)] + SplitFrom(s, i + n, i + n)
      else SplitFrom(s, start, i + 1)
  }

  lemma SplitFromStep(s: string, start: nat, i: nat)
    requires start <= i < |s| && SeparatorAt(s, i) > 0
    ensures SplitFrom(s, start, i)
      == [Span(start, i)] + SplitFrom(s, i + SeparatorAt(s, i), i + SeparatorAt(s, i))
  {
  }

  /** The scan finds the leftmost matches: when none starts in `[start, i)`,
      its chunks cover `[start, |s|)`, are separated by matches and hold none. */
  lemma {:induction false} SplitFromProps(s: string, start: nat, i: nat)
    requires start <= i <= |s|
    requires NoMatchIn(s, start, i)
    ensures IsSplitFrom(s, start, SplitFrom(s, start, i))
    decreases |s| - i
  {
    if i < |s| {
      var n := SeparatorAt(s, i);
      if n > 0 {
        SplitFromStep(s, start, i);
        SplitFromProps(s, i + n, i + n);
        SplitCons(s, start, i, SplitFrom(s, i + n, i + n));
      } else {
        SplitFromProps(s, start, i + 1);
      }
    }
  }

  /** A chunk ending at the leftmost match, followed by a split of the rest. */
  lemma SplitCons(s: string, start: nat, i: nat, rest: seq<Span>)
    requires start <= i < |s| && SeparatorAt(s, i) > 0 && NoMatchIn(s, start, i)
    requires IsSplitFrom(s, i + SeparatorAt(s, i), rest)
    ensures IsSplitFrom(s, start, [Span(start, i)] + rest)
  {
    var r := [Span(start, i)] + rest;
    assert forall k :: 1 <= k < |r| ==> r[k] == rest[k - 1];
    assert InBounds(s, r);
    forall k: nat | k + 1 < |r| ensures SeparatedAt(s, r, k) {
      if k > 0 {
        assert SeparatedAt(s, rest, k - 1);
        assert r[k] == rest[k - 1] && r[k + 1] == rest[k];
      }
    }
    forall k | 0 <= k < |r| ensures NoMatchIn(s, r[k].lo, r[k].hi) {
      if k > 0 { assert r[k] == rest[k - 1]; }
    }
    assert r[|r| - 1] == rest[|rest| - 1];
  }

  lemma {:induction false} SeparatedOrdered(s: string, spans: seq<Span>)
    requires InBounds(s, spans) && Separated(s, spans)
    ensures Ordered(spans)
  {
    if |spans| > 1 {
      var tail := spans[1..];
      assert InBounds(s, tail);
      forall k: nat | k + 1 < |tail| ensures SeparatedAt(s, tail, k) {
        assert SeparatedAt(s, spans, k + 1);
        assert tail[k] == spans[k + 1] && tail[k + 1] == spans[k + 2];
      }
      SeparatedOrdered(s, tail);
      assert SeparatedAt(s, spans, 0);
      forall a, b | 0 <= a < b < |spans| ensures spans[a].hi < spans[b].lo {
        if a > 0 {
          assert spans[a] == tail[a - 1] && spans[b] == tail[b - 1];
        } else if b > 1 {
          assert spans[1] == tail[0] && spans[b] == tail[b - 1];
        }
      }
    }
  }

  /** The chunks of `re.split(r"(?<=[.!?。！？])\s+|\n+", text)`, as spans. */
  function Split(s: string): (r: seq<Span>)
    ensures IsSplit(s, r) && Ordered(r)
  {
    var r := SplitFrom(s, 0, 0);
    SplitFromProps(s, 0, 0);
    SeparatedOrdered(s, r);
    r
  }

  /** The chunk strings themselves. */
  function Chunks(s: string): (r: seq<string>)
    ensures |r| == |Split(s)|
  {
    var spans := Split(s);
    seq(|spans|, k requires 0 <= k < |spans| => s[spans[k].lo..spans[k].hi])
  }

  /** `len(chunk.strip()) > 15`. */
  predicate Substantial(chunk: string) {
    |Strip(chunk, IsSpace)| > MinChunkLength
  }

  predicate IsKept(s: string, span: Span) {
    span.lo <= span.hi <= |s| && Substantial(s[span.lo..span.hi])
  }

  /** The chunks the list comprehension keeps. */
  function KeptSpans(s: string, spans: seq<Span>): seq<Span> {
    if spans == [] then []
    else
      var rest := KeptSpans(s, spans[1..]);
      if IsKept(s, spans[0]) then [spans[0]] + rest else rest
  }

  /** `r` holds exactly the spans of `spans` the filter keeps. */
  ghost predicate KeepsExactly(s: string, spans: seq<Span>, r: seq<Span>) {
    forall x :: x in r <==> x in spans && IsKept(s, x)
  }

  lemma {:induction false} KeptSpansMembers(s: string, spans: seq<Span>)
    ensures KeepsExactly(s, spans, KeptSpans(s, spans))
  {
    if spans != [] {
      KeptSpansMembers(s, spans[1..]);
      assert spans == [spans[0]] + spans[1..];
    }
  }

  lemma OrderedTail(spans: seq<Span>)
    requires Ordered(spans) && spans != []
    ensures Ordered(spans[1..])
  {
    forall a, b | 0 <= a < b < |spans| - 1 ensures spans[1..][a].hi < spans[1..][b].lo {
      assert spans[1..][a] == spans[a + 1] && spans[1..][b] == spans[b + 1];
    }
  }

  /** The filter keeps the chunks in their order. */
  lemma {:induction false} KeptSpansOrdered(s: string, spans: seq<Span>)
    requires Ordered(spans)
    ensures Ordered(KeptSpans(s, spans))
  {
    if spans != [] {
      var rest := KeptSpans(s, spans[1..]);
      OrderedTail(spans);
      KeptSpansOrdered(s, spans[1..]);
      if IsKept(s, spans[0]) {
        KeptSpansMembers(s, spans[1..]);
        var r := [spans[0]] + rest;
        forall a, b | 0 <= a < b < |r| ensures r[a].hi < r[b].lo {
          if a == 0 {
            assert r[b] == rest[b - 1] && rest[b - 1] in rest;
            var m :| 0 <= m < |spans[1..]| && spans[1..][m] == r[b];
            assert spans[m + 1] == r[b];
          } else {
            assert r[a] == rest[a - 1] && r[b] == rest[b - 1];
          }
        }
      }
    }
  }

  /** The chunks of the text that are kept, in text order. */
  function Kept(s: string): (r: seq<Span>)
    ensures KeepsExactly(s, Split(s), r) && Ordered(r)
    ensures forall k :: 0 <= k < |r| ==> r[k].lo <= r[k].hi <= |s|
  {
    var r := KeptSpans(s, Split(s));
    KeptSpansMembers(s, Split(s));
    KeptSpansOrdered(s, Split(s));
    assert forall k :: 0 <= k < |r| ==> r[k] in r;
    r
  }

  /** The fragment a kept chunk contributes: `chunk.strip(" -•")`. */
  function Fragment(s: string, span: Span): string
    requires span.lo <= span.hi <= |s|
  {
    Strip(s[span.lo..span.hi], IsBulletChar)
  }

  /** `filtered` after the fallback: the kept fragments, or the text cut to 240
      characters when none is kept. */
  function Fragments(s: string): (r: seq<string>)
    ensures |r| >= 1
  {
    var kept := Kept(s);
    if kept == [] then [s[..Min(FallbackChars, |s|)]]
    else seq(|kept|, k requires 0 <= k < |kept| => Fragment(s, kept[k]))
  }

  function Truncate(s: string, n: nat): (r: string)
    ensures |r| == Min(n, |s|) && r == s[..|r|]
  {
    s[..Min(n, |s|)]
  }

  /** A line that starts with the bullet and holds at most 220 characters after it. */
  predicate IsBulletLine(line: string) {
    |Bullet| <= |line| <= |Bullet| + LineChars && line[..|Bullet|] == Bullet
  }

  /** One line of the summary: `f"• {s[:220]}"`. */
  function BulletLine(fragment: string): (r: string)
    ensures IsBulletLine(r)
    ensures r[|Bullet|..] == fragment[..Min(LineChars, |fragment|)]
  {
    Bullet + Truncate(fragment, LineChars)
  }

  /** The lines of the local summary. */
  function SummaryLines(s: string, maxSentences: int): (r: seq<string>)
    ensures maxSentences >= 0 ==> |r| == Min(maxSentences, |Fragments(s)|)
    ensures maxSentences < 0 ==> |r| == if |Fragments(s)| + maxSentences > 0 then |Fragments(s)| + maxSentences else 0
    ensures maxSentences >= 1 ==> |r| >= 1
  {
    var fragments := Fragments(s);
    var n := PrefixLength(|fragments|, maxSentences);
    var selected := Take(fragments, maxSentences);
    assert |selected| == n;
    seq(|selected|, k requires 0 <= k < |selected| => BulletLine(selected[k]))
  }

  /** `summarize_locally(text, max_sentences)`. */
  function SummarizeLocally(s: string, maxSentences: int): string {
    Join(SummaryLines(s, maxSentences), "\n")
  }

  /** The kept lines are the kept chunks, first to last, in the order they
      stand in the text, cut to 220 characters behind the bullet. */
  lemma KeptLinesInOrder(s: string, maxSentences: int)
    requires Kept(s) != []
    ensures var kept := Kept(s);
      var lines := SummaryLines(s, maxSentences);
      |lines| <= |kept|
      && (maxSentences >= 0 ==> |lines| == Min(maxSentences, |kept|))
      && (forall k :: 0 <= k < |lines| ==>
            kept[k] in Split(s) && Substantial(s[kept[k].lo..kept[k].hi])
            && lines[k] == BulletLine(Fragment(s, kept[k])))
      && (forall a, b :: 0 <= a < b < |lines| ==> kept[a].hi < kept[b].lo)
  {
    var kept := Kept(s);
    var lines := SummaryLines(s, maxSentences);
    SummaryLinesOfKept(s, maxSentences);
    forall k | 0 <= k < |lines|
      ensures kept[k] in Split(s) && Substantial(s[kept[k].lo..kept[k].hi])
      ensures lines[k] == BulletLine(Fragment(s, kept[k]))
    {
      assert kept[k] in kept;
    }
  }

  /** With chunks kept, line `k` is the bullet line of the `k`-th kept chunk. */
  lemma SummaryLinesOfKept(s: string, maxSentences: int)
    requires Kept(s) != []
    ensures var kept, lines := Kept(s), SummaryLines(s, maxSentences);
      |lines| <= |kept|
      && (maxSentences >= 0 ==> |lines| == Min(maxSentences, |kept|))
      && forall k :: 0 <= k < |lines| ==> lines[k] == BulletLine(Fragment(s, kept[k]))
  {
    FragmentsOfKept(s);
    LinesOfFragments(s, maxSentences);
  }

  lemma FragmentsOfKept(s: string)
    requires Kept(s) != []
    ensures var kept, fragments := Kept(s), Fragments(s);
      |fragments| == |kept| && forall k :: 0 <= k < |kept| ==> fragments[k] == Fragment(s, kept[k])
  {
  }

  lemma LinesOfFragments(s: string, maxSentences: int)
    ensures var fragments, lines := Fragments(s), SummaryLines(s, maxSentences);
      |lines| <= |fragments| && forall k :: 0 <= k < |lines| ==> lines[k] == BulletLine(fragments[k])
  {
  }

  /** No chunk is longer than 15 characters once stripped. */
  predicate AllChunksShort(s: string) {
    forall k :: 0 <= k < |Chunks(s)| ==> |Strip(Chunks(s)[k], IsSpace)| <= MinChunkLength
  }

  lemma {:induction false} NoneKept(s: string, spans: seq<Span>)
    requires forall x :: x in spans ==> !IsKept(s, x)
    ensures KeptSpans(s, spans) == []
  {
    if spans != [] {
      assert spans[0] in spans;
      NoneKept(s, spans[1..]);
    }
  }

  lemma NothingKept(s: string)
    requires AllChunksShort(s)
    ensures Kept(s) == []
  {
    var spans := Split(s);
    forall x | x in spans ensures !IsKept(s, x) {
      var k :| 0 <= k < |spans| && spans[k] == x;
      assert Chunks(s)[k] == s[x.lo..x.hi];
    }
    NoneKept(s, spans);
  }

  /** When no chunk is longer than 15 characters once stripped, the summary is
      one bullet holding the first 220 characters of the text. */
  lemma FallbackSummary(s: string, maxSentences: int)
    requires AllChunksShort(s)
    requires maxSentences >= 1
    ensures SummarizeLocally(s, maxSentences) == Bullet + s[..Min(LineChars, |s|)]
  {
    NothingKept(s);
    var cut := s[..Min(FallbackChars, |s|)];
    assert Fragments(s) == [cut];
    assert Take([cut], maxSentences) == [cut];
    assert SummaryLines(s, maxSentences) == [BulletLine(cut)];
  }

  lemma NoNewlineSlice(s: string, lo: nat, hi: nat)
    requires NoNewline(s) && lo <= hi <= |s|
    ensures NoNewline(s[lo..hi])
  {
    assert forall i :: 0 <= i < hi - lo ==> s[lo..hi][i] == s[lo + i];
  }

  lemma FragmentsNoNewline(s: string)
    requires NoNewline(s)
    ensures forall k :: 0 <= k < |Fragments(s)| ==> NoNewline(Fragments(s)[k])
  {
    var fragments := Fragments(s);
    var kept := Kept(s);
    forall k | 0 <= k < |fragments| ensures NoNewline(fragments[k]) {
      if kept == [] {
        NoNewlineSlice(s, 0, Min(FallbackChars, |s|));
      } else {
        var span := kept[k];
        NoNewlineSlice(s, span.lo, span.hi);
        var chunk := s[span.lo..span.hi];
        var lo := LeadingDropped(chunk, IsBulletChar);
        NoNewlineSlice(chunk, lo, lo + |Fragment(s, span)|);
      }
    }
  }

  /** Each line of the summary of newline-free text is itself newline-free. */
  lemma SummaryLinesNoNewline(s: string, maxSentences: int)
    requires NoNewline(s)
    ensures forall k :: 0 <= k < |SummaryLines(s, maxSentences)| ==> NoNewline(SummaryLines(s, maxSentences)[k])
  {
    FragmentsNoNewline(s);
    var lines := SummaryLines(s, maxSentences);
    var selected := Take(Fragments(s), maxSentences);
    forall k | 0 <= k < |lines| ensures NoNewline(lines[k]) {
      assert selected[k] in Fragments(s);
      NoNewlineSlice(selected[k], 0, |Truncate(selected[k], LineChars)|);
      assert lines[k] == Bullet + Truncate(selected[k], LineChars);
    }
  }

  /** Read line by line, the local summary of newline-free text has between one
      and `max_sentences` lines, each starting with the bullet and at most 222
      characters long. */
  lemma SummaryShape(s: string, maxSentences: int)
    requires NoNewline(s) && maxSentences >= 1
    ensures var lines := SplitLines(SummarizeLocally(s, maxSentences));
      lines == SummaryLines(s, maxSentences)
      && 1 <= |lines| <= maxSentences
      && forall k :: 0 <= k < |lines| ==>
           IsBulletLine(lines[k])
  {
    SummaryLinesNoNewline(s, maxSentences);
    SplitJoinLines(SummaryLines(s, maxSentences));
  }
}
