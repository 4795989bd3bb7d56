/** escapeHtml of results.js: every `&`, `<`, `>`, `"` and `'` of a
    candidate's name or party is replaced by its character reference before
    the text is spliced into the results table. */
module HtmlEscape {
  import opened Text

  /** The five characters the regular expression `[&<>"']` matches. */
  predicate IsSpecial(c: char) {
    c == '&' || c == '<' || c == '>' || c == '"' || c == '\''
  }

  /** The characters that could open a tag or close an attribute value. */
  predicate IsMarkup(c: char) {
    c == '<' || c == '>' || c == '"' || c == '\''
  }

  /** The replacement table. */
  function Entity(c: char): (r: string)
    requires IsSpecial(c)
    ensures 4 <= |r| && r[0] == '&' && r[|r| - 1] == ';'
    ensures forall k :: 1 <= k < |r| ==> !IsSpecial(r[k])
  {
    if c == '&' then "&amp;"
    else if c == '<' then "&lt;"
    else if c == '>' then "&gt;"
    else if c == '"' then "&quot;"
    else "&#39;"
  }

  function EscapeChar(c: char): (r: string)
    ensures !IsSpecial(c) ==> r == [c]
  {
    if IsSpecial(c) then Entity(c) else [c]
  }

  /** `s.replace(/[&<>"']/g, …)`: each character replaced independently. */
  function Escape(s: string): (r: string)
    ensures |r| >= |s|
    ensures forall k :: 0 <= k < |r| ==> !IsMarkup(r[k])
  {
    if s == [] then []
    else
      var head := EscapeChar(s[0]);
      var tail := Escape(s[1..]);
      assert forall k :: 0 <= k < |head| ==> (head + tail)[k] == head[k];
      assert forall k :: |head| <= k < |head| + |tail| ==> (head + tail)[k] == tail[k - |head|];
      head + tail
  }

  /** `escapeHtml(s)`: a missing value and the empty string render as the
      empty string; anything else is escaped. The result holds no
      character that could open a tag or end an attribute value, and the
      browser decodes it back to the original text. */
  function EscapeHtml(s: Option<string>): (r: string)
    ensures s.None? ==> r == ""
    ensures forall k :: 0 <= k < |r| ==> !IsMarkup(r[k])
    ensures s.Some? ==> Unescape(r) == s.value
  {
    match s
    case None => ""
    case Some(text) =>
      if text == "" then ""
      else
        UnescapeEscape(text);
        Escape(text)
  }

  // ---------------------------------------------------------------------
  // The decoding a browser applies to the five references

  const AMP := "&amp;"
  const LT := "&lt;"
  const GT := "&gt;"
  const QUOT := "&quot;"
  const APOS := "&#39;"

  predicate StartsWith(r: string, p: string) {
    |p| <= |r| && r[..|p|] == p
  }

  /** Decodes the five references and leaves every other character as it
      is. */
  function Unescape(r: string): (s: string)
    decreases |r|
  {
    if r == [] then []
    else if StartsWith(r, AMP) then ['&'] + Unescape(r[|AMP|..])
    else if StartsWith(r, LT) then ['<'] + Unescape(r[|LT|..])
    else if StartsWith(r, GT) then ['>'] + Unescape(r[|GT|..])
    else if StartsWith(r, QUOT) then ['"'] + Unescape(r[|QUOT|..])
    else if StartsWith(r, APOS) then ['\''] + Unescape(r[|APOS|..])
    else [r[0]] + Unescape(r[1..])
  }

  lemma UnescapeAfter(p: string, rest: string, c: char)
    requires p == EscapeChar(c)
    ensures Unescape(p + rest) == [c] + Unescape(rest)
  {
    var r := p + rest;
    assert r[..|p|] == p;
    assert r[|p|..] == rest;
    if !IsSpecial(c) {
      assert r[0] == c;
      assert !StartsWith(r, AMP) && !StartsWith(r, LT) && !StartsWith(r, GT);
      assert !StartsWith(r, QUOT) && !StartsWith(r, APOS);
    } else if c == '&' {
      assert StartsWith(r, AMP);
    } else if c == '<' {
      assert r[1] == 'l';
      assert !StartsWith(r, AMP) && StartsWith(r, LT);
    } else if c == '>' {
      assert r[1] == 'g';
      assert !StartsWith(r, AMP) && !StartsWith(r, LT) && StartsWith(r, GT);
    } else if c == '"' {
      assert r[1] == 'q';
      assert !StartsWith(r, AMP) && !StartsWith(r, LT) && !StartsWith(r, GT) && StartsWith(r, QUOT);
    } else {
      assert r[1] == '#';
      assert !StartsWith(r, AMP) && !StartsWith(r, LT) && !StartsWith(r, GT) && !StartsWith(r, QUOT);
      assert StartsWith(r, APOS);
    }
  }

  /** Decoding undoes escaping. */
  lemma {:induction false} UnescapeEscape(s: string)
    ensures Unescape(Escape(s)) == s
  {
    if s != [] {
      UnescapeEscape(s[1..]);
      UnescapeAfter(EscapeChar(s[0]), Escape(s[1..]), s[0]);
      assert s == [s[0]] + s[1..];
    }
  }

  /** Escaping works character by character, so it distributes over
      concatenation. */
  lemma {:induction false} EscapeAppend(a: string, b: string)
    ensures Escape(a + b) == Escape(a) + Escape(b)
  {
    if a != [] {
      assert (a + b)[1..] == a[1..] + b;
      EscapeAppend(a[1..], b);
    } else {
      assert a + b == b;
    }
  }

  /** Every `&` in the output opens one of the five references. */
  predicate OpensReference(r: string, k: nat) {
    k <= |r| && (StartsWith(r[k..], AMP) || StartsWith(r[k..], LT) || StartsWith(r[k..], GT)
      || StartsWith(r[k..], QUOT) || StartsWith(r[k..], APOS))
  }

  lemma {:induction false} AmpersandOpensReference(s: string, k: nat)
    requires k < |Escape(s)| && Escape(s)[k] == '&'
    ensures OpensReference(Escape(s), k)
  {
    var head := EscapeChar(s[0]);
    var tail := Escape(s[1..]);
    var r := Escape(s);
    assert r == head + tail;
    if k < |head| {
      assert k == 0 && IsSpecial(s[0]);
      assert r[k..][..|head|] == head;
    } else {
      AmpersandOpensReference(s[1..], k - |head|);
      assert r[k..] == tail[k - |head|..];
    }
  }

  /** Text without special characters is left alone, and text with one is
      made strictly longer. */
  lemma {:induction false} EscapeChangesOnlySpecials(s: string)
    ensures (forall k :: 0 <= k < |s| ==> !IsSpecial(s[k])) <==> Escape(s) == s
    ensures (exists k :: 0 <= k < |s| && IsSpecial(s[k])) <==> |Escape(s)| > |s|
  {
    if s != [] {
      EscapeChangesOnlySpecials(s[1..]);
      assert forall k :: 1 <= k < |s| ==> s[k] == s[1..][k - 1];
      if IsSpecial(s[0]) {
        assert |Escape(s)| > |s|;
      } else {
        assert Escape(s) == [s[0]] + Escape(s[1..]);
        if Escape(s[1..]) == s[1..] {
          assert Escape(s) == s;
        } else {
          assert Escape(s)[1..] == Escape(s[1..]);
        }
      }
    }
  }
}
