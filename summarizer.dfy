/** `Summarizer.summarize`: normalize the text, answer with a sentinel when
    nothing is left, otherwise ask the remote model when an API key is
    configured and fall back to the local summary when there is none or the
    remote call fails. */
module Summarizing {
  import opened PyStr
  import opened Normalize
  import opened LocalSummary

  /** What `summarize` returns for text that is empty once normalized. */
  const NoTextSentinel := "(텍스트 없음)"

  /** The outcome of `_summarize_remote`: the stripped reply, or an exception. */
  datatype RemoteResult = Summary(text: string) | RemoteFailure(reason: string)

  /** The remote summarizer as the caller sees it: normalized text in, an
      outcome out. */
  type Remote = string -> RemoteResult

  /** The configuration a `Summarizer` is constructed with. */
  datatype Summarizer = Summarizer(apiKey: Option<string>, baseUrl: string, model: string)

  /** `if self.api_key:` -- an unset key and an empty key are both false. */
  predicate HasApiKey(sm: Summarizer) {
    sm.apiKey.Some? && sm.apiKey.value != ""
  }

  /** Newline-free, as normalized text is: its only whitespace is the plain space. */
  lemma NormalizedNoNewline(s: string)
    requires OnlyPlainSpaces(s)
    ensures NoNewline(s)
  {
    forall i | 0 <= i < |s| ensures s[i] != '\n' {
      if s[i] == '\n' {
        assert IsSpace(s[i]);
      }
    }
  }

  /** The local summary of normalized, non-empty text is never empty: its first
      line starts with the bullet. */
  lemma LocalSummaryNonEmpty(cleaned: string)
    requires IsNormalized(cleaned)
    ensures SummarizeLocally(cleaned, DefaultMaxSentences) != ""
  {
    NormalizedNoNewline(cleaned);
    SummaryShape(cleaned, DefaultMaxSentences);
    var lines := SplitLines(SummarizeLocally(cleaned, DefaultMaxSentences));
    assert IsBulletLine(lines[0]);
    assert SplitLines("") == [""];
  }

  /** `summarizer.summarize(text)` with `remote` standing for `_summarize_remote`. */
  function Summarize(sm: Summarizer, text: string, remote: Remote): (r: string)
    ensures var cleaned := NormalizeText(Some(text));
      (cleaned == "" ==> r == NoTextSentinel)
      && (cleaned != "" && HasApiKey(sm) && remote(cleaned).Summary? ==> r == remote(cleaned).text)
      && (cleaned != "" && !(HasApiKey(sm) && remote(cleaned).Summary?) ==>
            r == SummarizeLocally(cleaned, DefaultMaxSentences) && r != "")
  {
    var cleaned := NormalizeText(Some(text));
    if cleaned == "" then NoTextSentinel
    else if HasApiKey(sm) && remote(cleaned).Summary? then remote(cleaned).text
    else
      LocalSummaryNonEmpty(cleaned);
      SummarizeLocally(cleaned, DefaultMaxSentences)
  }

  /** Without an API key, or for text with nothing left after normalizing, the
      remote summarizer is never consulted: any two oracles give the same answer. */
  lemma RemoteNotConsulted(sm: Summarizer, text: string, remote1: Remote, remote2: Remote)
    requires NormalizeText(Some(text)) == "" || !HasApiKey(sm)
    ensures Summarize(sm, text, remote1) == Summarize(sm, text, remote2)
  {
  }

  /** The answer is empty only when the remote model itself answered with
      nothing; the sentinel and the local summary are never empty. */
  lemma SummarizeNonEmpty(sm: Summarizer, text: string, remote: Remote)
    requires Summarize(sm, text, remote) == ""
    ensures var cleaned := NormalizeText(Some(text));
      cleaned != "" && HasApiKey(sm) && remote(cleaned) == Summary("")
  {
  }

  /** When the local summarizer answers, the reply read line by line is one to
      three bullet lines of at most 222 characters each. */
  lemma {:induction false} LocalAnswerShape(sm: Summarizer, text: string, remote: Remote)
    requires NormalizeText(Some(text)) != ""
    requires !HasApiKey(sm) || remote(NormalizeText(Some(text))).RemoteFailure?
    ensures var lines := SplitLines(Summarize(sm, text, remote));
      1 <= |lines| <= DefaultMaxSentences
      && forall k :: 0 <= k < |lines| ==>
           IsBulletLine(lines[k])
  {
    var cleaned := NormalizeText(Some(text));
    assert Summarize(sm, text, remote) == SummarizeLocally(cleaned, DefaultMaxSentences);
    NormalizedNoNewline(cleaned);
    SummaryShape(cleaned, DefaultMaxSentences);
  }
}
