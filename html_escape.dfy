/** Python's `html.escape(s, quote=True)`: five `str.replace` calls, `&` first
    so that the ampersands of the later entities are not escaped again. */
module HtmlEscape {
  import opened PyStr

  /** `s.replace(c, rep)` for a one-character pattern. */
  function ReplaceChar(s: string, c: char, rep: string): string {
    if s == [] then "" else (if s[0] == c then rep else [s[0]]) + ReplaceChar(s[1..], c, rep)
  }

  /** `html.escape(s)` exactly as the standard library writes it. */
  function Escape(s: string): string {
    var amp := ReplaceChar(s, '&', "&amp;");
    var lt := ReplaceChar(amp, '<', "&lt;");
    var gt := ReplaceChar(lt, '>', "&gt;");
    var quot := ReplaceChar(gt, '"', "&quot;");
    ReplaceChar(quot, '\'', "&#x27;")
  }

  /** The entity one character becomes. */
  function EscapeChar(c: char): string {
    match c
    case '&' => "&amp;"
    case '<' => "&lt;"
    case '>' => "&gt;"
    case '"' => "&quot;"
    case '\'' => "&#x27;"
    case _ => [c]
  }

  /** Escaping character by character: the reference definition. */
  function EscapeEach(s: string): string {
    if s == [] then "" else EscapeChar(s[0]) + EscapeEach(s[1..])
  }

  predicate IsMarkupChar(c: char) { c == '<' || c == '>' || c == '"' || c == '\'' }

  /** Reads the five entities back; every other character stands for itself. */
  function Unescape(s: string): string {
    if s == [] then ""
    else if s[0] != '&' then [s[0]] + Unescape(s[1..])
    else if StartsWith(s, "&amp;") then "&" + Unescape(s[5..])
    else if StartsWith(s, "&lt;") then "<" + Unescape(s[4..])
    else if StartsWith(s, "&gt;") then ">" + Unescape(s[4..])
    else if StartsWith(s, "&quot;") then "\"" + Unescape(s[6..])
    else if StartsWith(s, "&#x27;") then "'" + Unescape(s[6..])
    else [s[0]] + Unescape(s[1..])
  }

  lemma {:induction false} ReplaceCharAppend(a: string, b: string, c: char, rep: string)
    ensures ReplaceChar(a + b, c, rep) == ReplaceChar(a, c, rep) + ReplaceChar(b, c, rep)
  {
    if a != [] {
      assert (a + b)[1..] == a[1..] + b;
      ReplaceCharAppend(a[1..], b, c, rep);
    } else {
      assert a + b == b;
    }
  }

  lemma {:induction false} ReplaceCharAbsent(s: string, c: char, rep: string)
    requires c !in s
    ensures ReplaceChar(s, c, rep) == s
  {
    if s != [] {
      ReplaceCharAbsent(s[1..], c, rep);
    }
  }

  lemma ReplaceCharSingle(c: char, x: char, rep: string)
    ensures ReplaceChar([c], x, rep) == if c == x then rep else [c]
  {
    assert [c][1..] == [];
  }

  /** The five replacements applied to one character give its entity. */
  lemma EscapeOneChar(c: char)
    ensures Escape([c]) == EscapeChar(c)
  {
    ReplaceCharSingle(c, '&', "&amp;");
    if c == '&' {
      EntityUnchanged("&amp;");
    } else {
      ReplaceCharSingle(c, '<', "&lt;");
      if c == '<' {
        EntityUnchanged("&lt;");
      } else {
        ReplaceCharSingle(c, '>', "&gt;");
        if c == '>' {
          EntityUnchanged("&gt;");
        } else {
          ReplaceCharSingle(c, '"', "&quot;");
          if c == '"' {
            EntityUnchanged("&quot;");
          } else {
            ReplaceCharSingle(c, '\'', "&#x27;");
          }
        }
      }
    }
  }

  /** The later replacements leave an entity that contains no markup character alone. */
  lemma EntityUnchanged(e: string)
    requires forall i :: 0 <= i < |e| ==> !IsMarkupChar(e[i])
    ensures ReplaceChar(e, '<', "&lt;") == e && ReplaceChar(e, '>', "&gt;") == e
    ensures ReplaceChar(e, '"', "&quot;") == e && ReplaceChar(e, '\'', "&#x27;") == e
  {
    ReplaceCharAbsent(e, '<', "&lt;");
    ReplaceCharAbsent(e, '>', "&gt;");
    ReplaceCharAbsent(e, '"', "&quot;");
    ReplaceCharAbsent(e, '\'', "&#x27;");
  }

  /** The chained `str.replace` calls agree with escaping each character on its own. */
  lemma {:induction false} EscapeIsPerChar(s: string)
    ensures Escape(s) == EscapeEach(s)
  {
    if s != [] {
      var head, tail := [s[0]], s[1..];
      assert s == head + tail;
      ReplaceCharAppend(head, tail, '&', "&amp;");
      var amp1, amp2 := ReplaceChar(head, '&', "&amp;"), ReplaceChar(tail, '&', "&amp;");
      ReplaceCharAppend(amp1, amp2, '<', "&lt;");
      var lt1, lt2 := ReplaceChar(amp1, '<', "&lt;"), ReplaceChar(amp2, '<', "&lt;");
      ReplaceCharAppend(lt1, lt2, '>', "&gt;");
      var gt1, gt2 := ReplaceChar(lt1, '>', "&gt;"), ReplaceChar(lt2, '>', "&gt;");
      ReplaceCharAppend(gt1, gt2, '"', "&quot;");
      var q1, q2 := ReplaceChar(gt1, '"', "&quot;"), ReplaceChar(gt2, '"', "&quot;");
      ReplaceCharAppend(q1, q2, '\'', "&#x27;");
      EscapeOneChar(s[0]);
      EscapeIsPerChar(tail);
    }
  }

  lemma {:induction false} EscapeEachNoMarkup(s: string)
    ensures forall i :: 0 <= i < |EscapeEach(s)| ==> !IsMarkupChar(EscapeEach(s)[i])
  {
    if s != [] {
      EscapeEachNoMarkup(s[1..]);
      var e, rest := EscapeChar(s[0]), EscapeEach(s[1..]);
      assert forall i :: 0 <= i < |e| ==> !IsMarkupChar(e[i]);
      assert EscapeEach(s) == e + rest;
    }
  }

  /** Escaped text never contains a character that could open or close markup
      or end a quoted attribute. */
  lemma EscapeHasNoMarkup(s: string)
    ensures forall i :: 0 <= i < |Escape(s)| ==> !IsMarkupChar(Escape(s)[i])
  {
    EscapeIsPerChar(s);
    EscapeEachNoMarkup(s);
  }

  /** Unescape reads back the entity of one character in front of any text. */
  lemma UnescapeEntity(c: char, rest: string)
    ensures Unescape(EscapeChar(c) + rest) == [c] + Unescape(rest)
  {
    var e := EscapeChar(c);
    var t := e + rest;
    assert t[..|e|] == e && t[|e|..] == rest;
    if c == '&' {
      assert StartsWith(t, "&amp;");
    } else if IsMarkupChar(c) {
      assert t[0] == '&' && t[1] == e[1];
      assert !StartsWith(t, "&amp;");
      UnescapeMarkupEntity(c, t);
    } else {
      assert t[0] == c;
      assert t[1..] == rest;
    }
  }

  lemma UnescapeMarkupEntity(c: char, t: string)
    requires IsMarkupChar(c) && StartsWith(t, EscapeChar(c)) && !StartsWith(t, "&amp;")
    ensures Unescape(t) == [c] + Unescape(t[|EscapeChar(c)|..])
  {
    var e := EscapeChar(c);
    assert t[0] == '&' && t[1] == e[1];
    if c != '<' {
      assert !StartsWith(t, "&lt;");
      if c != '>' {
        assert !StartsWith(t, "&gt;");
        if c != '"' {
          assert !StartsWith(t, "&quot;");
        }
      }
    }
  }

  lemma {:induction false} UnescapeEscapeEach(s: string)
    ensures Unescape(EscapeEach(s)) == s
  {
    if s != [] {
      UnescapeEntity(s[0], EscapeEach(s[1..]));
      UnescapeEscapeEach(s[1..]);
      assert [s[0]] + s[1..] == s;
    }
  }

  /** Escaping loses nothing: the original text can be read back. */
  lemma UnescapeEscape(s: string)
    ensures Unescape(Escape(s)) == s
  {
    EscapeIsPerChar(s);
    UnescapeEscapeEach(s);
  }

  lemma {:induction false} EscapeEachPlain(s: string)
    requires forall i :: 0 <= i < |s| ==> s[i] != '&' && !IsMarkupChar(s[i])
    ensures EscapeEach(s) == s
  {
    if s != [] {
      EscapeEachPlain(s[1..]);
    }
  }

  /** Text without `&` and markup characters is left as it is. */
  lemma EscapePlain(s: string)
    requires forall i :: 0 <= i < |s| ==> s[i] != '&' && !IsMarkupChar(s[i])
    ensures Escape(s) == s
  {
    EscapeIsPerChar(s);
    EscapeEachPlain(s);
  }
}
