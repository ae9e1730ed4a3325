/** HTML escaping as `escapeHtml` does it: the five characters that can end a
    text run or an attribute value are replaced by character references. */
module HtmlEscape {
  import opened Text

  /** The characters `escapeHtml` rewrites. */
  predicate IsSpecial(c: char) {
    c == '&' || c == '<' || c == '>' || c == '"' || c == '\''
  }

  /** Characters that could close a tag or an attribute value; `&` is not one
      of them, since every `&` left in escaped text starts a reference. */
  predicate IsMarkup(c: char) {
    c == '<' || c == '>' || c == '"' || c == '\''
  }

  /** The replacement for one character. */
  function EscapeChar(c: char): (r: string)
    ensures IsSpecial(c) ==> |r| >= 4 && r[0] == '&' && r[|r| - 1] == ';'
    ensures !IsSpecial(c) ==> r == [c]
    ensures forall i :: 0 <= i < |r| ==> !IsMarkup(r[i])
  {
    match c
    case '&' => "&amp;"
    case '<' => "&lt;"
    case '>' => "&gt;"
    case '"' => "&quot;"
    case '\'' => "&#039;"
    case _ => [c]
  }

  /** `escapeHtml(text)`, read character by character: every character of
      `s` is replaced by its escape, left to right. The result holds no raw
      markup character, and text without special characters is unchanged. */
  function EscapeHtml(s: string): (r: string)
    ensures forall i :: 0 <= i < |r| ==> !IsMarkup(r[i])
    ensures (forall i :: 0 <= i < |s| ==> !IsSpecial(s[i])) ==> r == s
    ensures |s| <= |r|
  {
    if s == [] then [] else EscapeChar(s[0]) + EscapeHtml(s[1..])
  }

  /** Escaping distributes over concatenation. */
  lemma {:induction false} EscapeHtmlConcat(a: string, b: string)
    ensures EscapeHtml(a + b) == EscapeHtml(a) + EscapeHtml(b)
  {
    if a == [] {
      assert a + b == b;
    } else {
      assert (a + b)[0] == a[0];
      assert (a + b)[1..] == a[1..] + b;
      EscapeHtmlConcat(a[1..], b);
    }
  }

  // The source's own reading: five global `replace` calls in a chain.

  /** `s.replace(/c/g, rep)` for a single character `c`: every `c` becomes
      `rep`, everything else stays. */
  function ReplaceAll(s: string, c: char, rep: string): (r: string)
    ensures c !in s ==> r == s
    ensures c !in rep ==> c !in r
  {
    if s == [] then []
    else (if s[0] == c then rep else [s[0]]) + ReplaceAll(s[1..], c, rep)
  }

  lemma {:induction false} ReplaceAllConcat(a: string, b: string, c: char, rep: string)
    ensures ReplaceAll(a + b, c, rep) == ReplaceAll(a, c, rep) + ReplaceAll(b, c, rep)
  {
    if a == [] {
      assert a + b == b;
    } else {
      assert (a + b)[0] == a[0];
      assert (a + b)[1..] == a[1..] + b;
      ReplaceAllConcat(a[1..], b, c, rep);
    }
  }

  /** `escapeHtml` exactly as written: `&` first, then `<`, `>`, `"`, `'`.
      Its result holds none of the four markup characters. */
  function ChainedReplace(text: string): (r: string)
    ensures '<' !in r && '>' !in r && '"' !in r && '\'' !in r
  {
    ChainLeavesNoMarkup(text);
    ReplaceAll(ReplaceAll(ReplaceAll(ReplaceAll(ReplaceAll(text,
      '&', "&amp;"), '<', "&lt;"), '>', "&gt;"), '"', "&quot;"), '\'', "&#039;")
  }

  /** The five calls of the chain leave no markup character behind. */
  lemma ChainLeavesNoMarkup(text: string)
    ensures var r := ReplaceAll(ReplaceAll(ReplaceAll(ReplaceAll(ReplaceAll(text,
      '&', "&amp;"), '<', "&lt;"), '>', "&gt;"), '"', "&quot;"), '\'', "&#039;");
      '<' !in r && '>' !in r && '"' !in r && '\'' !in r
  {
    var s2 := ReplaceAll(ReplaceAll(text, '&', "&amp;"), '<', "&lt;");
    ChainTail(s2, "&gt;", "&quot;", "&#039;");
  }

  /** Once `<` is gone, replacements holding no markup keep every markup
      character they remove out of the result. */
  lemma ChainTail(s2: string, gt: string, quot: string, apos: string)
    requires '<' !in s2
    requires '<' !in gt && '>' !in gt
    requires '<' !in quot && '>' !in quot && '"' !in quot
    requires '<' !in apos && '>' !in apos && '"' !in apos && '\'' !in apos
    ensures var r := ReplaceAll(ReplaceAll(ReplaceAll(s2, '>', gt), '"', quot), '\'', apos);
      '<' !in r && '>' !in r && '"' !in r && '\'' !in r
  {
    var s3 := ReplaceAll(s2, '>', gt);
    ReplaceAllKeepsAbsent(s2, '>', gt, '<');
    var s4 := ReplaceAll(s3, '"', quot);
    ReplaceAllKeepsAbsent(s3, '"', quot, '<');
    ReplaceAllKeepsAbsent(s3, '"', quot, '>');
    ReplaceAllKeepsAbsent(s4, '\'', apos, '<');
    ReplaceAllKeepsAbsent(s4, '\'', apos, '>');
    ReplaceAllKeepsAbsent(s4, '\'', apos, '"');
  }

  /** A later `replace` never brings back a character an earlier one removed,
      as long as its own replacement does not hold it. */
  lemma {:induction false} ReplaceAllKeepsAbsent(s: string, c: char, rep: string, x: char)
    requires x !in s && x !in rep
    ensures x !in ReplaceAll(s, c, rep)
    decreases |s|
  {
    if s != [] {
      ReplaceAllKeepsAbsent(s[1..], c, rep, x);
    }
  }

  /** The chain as a table, in the order the calls are made. */
  const Replacements: seq<(char, string)> :=
    [('&', "&amp;"), ('<', "&lt;"), ('>', "&gt;"), ('"', "&quot;"), ('\'', "&#039;")]

  /** The replacements from position `k` of the table on, in order. */
  function ReplaceFrom(s: string, k: nat): string
    decreases |Replacements| - k
  {
    if k >= |Replacements| then s
    else ReplaceFrom(ReplaceAll(s, Replacements[k].0, Replacements[k].1), k + 1)
  }

  lemma ChainedReplaceIsTable(s: string)
    ensures ChainedReplace(s) == ReplaceFrom(s, 0)
  {
    var s1 := ReplaceAll(s, '&', "&amp;");
    var s2 := ReplaceAll(s1, '<', "&lt;");
    var s3 := ReplaceAll(s2, '>', "&gt;");
    var s4 := ReplaceAll(s3, '"', "&quot;");
    var s5 := ReplaceAll(s4, '\'', "&#039;");
    assert ReplaceFrom(s5, 5) == s5;
    assert ReplaceFrom(s4, 4) == s5;
    assert ReplaceFrom(s3, 3) == s5;
    assert ReplaceFrom(s2, 2) == s5;
    assert ReplaceFrom(s1, 1) == s5;
  }

  lemma {:induction false} ReplaceFromConcat(a: string, b: string, k: nat)
    ensures ReplaceFrom(a + b, k) == ReplaceFrom(a, k) + ReplaceFrom(b, k)
    decreases |Replacements| - k
  {
    if k < |Replacements| {
      var (c, rep) := Replacements[k];
      ReplaceAllConcat(a, b, c, rep);
      ReplaceFromConcat(ReplaceAll(a, c, rep), ReplaceAll(b, c, rep), k + 1);
    }
  }

  lemma ReplaceAllOne(c: char, x: char, rep: string)
    ensures ReplaceAll([c], x, rep) == if c == x then rep else [c]
  {
    assert [c][1..] == [];
  }

  /** Replacements for characters that do not occur change nothing. */
  lemma {:induction false} ReplaceFromAbsent(s: string, k: nat)
    requires forall j :: k <= j < |Replacements| ==> Replacements[j].0 !in s
    ensures ReplaceFrom(s, k) == s
    decreases |Replacements| - k
  {
    if k < |Replacements| {
      ReplaceFromAbsent(s, k + 1);
    }
  }

  /** Each entry of the table produces the escape of its character, and no
      later entry's character occurs in it. */
  lemma ReplacementsAreEscapes()
    ensures forall k :: 0 <= k < |Replacements| ==> Replacements[k].1 == EscapeChar(Replacements[k].0)
    ensures forall k, j :: 0 <= k < j < |Replacements| ==> Replacements[j].0 !in Replacements[k].1
    ensures forall c :: IsSpecial(c) <==> exists k :: 0 <= k < |Replacements| && Replacements[k].0 == c
  {
    assert Replacements[0].0 == '&' && Replacements[1].0 == '<' && Replacements[2].0 == '>';
    assert Replacements[3].0 == '"' && Replacements[4].0 == '\'';
  }

  /** On one character the table fires at most once: the entries before the
      one for that character keep it, that entry rewrites it, and the later
      entries find nothing to replace in the reference it produced. */
  lemma {:induction false} ReplaceFromChar(c: char, k: nat)
    requires k <= |Replacements|
    requires forall j :: 0 <= j < k ==> Replacements[j].0 != c
    ensures ReplaceFrom([c], k) == EscapeChar(c)
    decreases |Replacements| - k
  {
    ReplacementsAreEscapes();
    if k < |Replacements| {
      var (x, rep) := Replacements[k];
      ReplaceAllOne(c, x, rep);
      if c == x {
        ReplaceFromAbsent(rep, k + 1);
      } else {
        ReplaceFromChar(c, k + 1);
      }
    }
  }

  /** The chained-replace reading and the per-character reading agree on
      every string: replacing `&` first keeps the later replacements from
      touching the ampersands that the earlier ones introduce. */
  lemma {:induction false} ChainedReplaceIsEscapeHtml(text: string)
    ensures ChainedReplace(text) == EscapeHtml(text)
  {
    ChainedReplaceIsTable(text);
    TableIsEscapeHtml(text);
  }

  lemma {:induction false} TableIsEscapeHtml(text: string)
    ensures ReplaceFrom(text, 0) == EscapeHtml(text)
  {
    if text != [] {
      assert text == [text[0]] + text[1..];
      ReplaceFromConcat([text[0]], text[1..], 0);
      ReplaceFromChar(text[0], 0);
      TableIsEscapeHtml(text[1..]);
    } else {
      ReplaceFromAbsent(text, 0);
    }
  }

  /** Running the replacement for `&` after the one for another special
      character would escape the ampersand of the reference just inserted:
      `<` would come out as `&amp;lt;` instead of `&lt;`. */
  lemma AmpersandLastDoubleEscapes(c: char)
    requires IsSpecial(c) && c != '&'
    ensures ReplaceAll(ReplaceAll([c], c, EscapeChar(c)), '&', "&amp;") == "&amp;" + EscapeChar(c)[1..]
    ensures EscapeHtml([c]) == EscapeChar(c) != "&amp;" + EscapeChar(c)[1..]
  {
    var rep := EscapeChar(c);
    assert '&' !in rep[1..];
    ReplaceAllOne(c, c, rep);
    assert rep == ['&'] + rep[1..];
    ReplaceAllConcat(['&'], rep[1..], '&', "&amp;");
    ReplaceAllOne('&', '&', "&amp;");
    assert [c][1..] == [];
  }

  // Escaping loses nothing: decoding the five references gives the text back.

  /** Decodes the five references `escapeHtml` produces; every other
      character, including an `&` that starts no such reference, is kept. */
  function Unescape(s: string): (r: string)
    ensures |r| <= |s|
    decreases |s|
  {
    if s == [] then []
    else if s[0] != '&' then [s[0]] + Unescape(s[1..])
    else if StartsWith(s, "&amp;") then "&" + Unescape(s[5..])
    else if StartsWith(s, "&lt;") then "<" + Unescape(s[4..])
    else if StartsWith(s, "&gt;") then ">" + Unescape(s[4..])
    else if StartsWith(s, "&quot;") then "\"" + Unescape(s[6..])
    else if StartsWith(s, "&#039;") then "'" + Unescape(s[6..])
    else "&" + Unescape(s[1..])
  }

  // Decoding the escape of one character followed by anything decodes that
  // character and then the rest; one lemma per reference, since each must
  // rule out the references `Unescape` tries before it.

  lemma UnescapeAfterAmpersand(rest: string)
    ensures Unescape("&amp;" + rest) == ['&'] + Unescape(rest)
  {
    var s := "&amp;" + rest;
    assert s[..5] == "&amp;" && s[5..] == rest;
  }

  lemma UnescapeAfterLessThan(rest: string)
    ensures Unescape("&lt;" + rest) == ['<'] + Unescape(rest)
  {
    var s := "&lt;" + rest;
    assert !StartsWith(s, "&amp;") by { assert s[1] != "&amp;"[1]; }
    assert s[..4] == "&lt;" && s[4..] == rest;
  }

  lemma UnescapeAfterGreaterThan(rest: string)
    ensures Unescape("&gt;" + rest) == ['>'] + Unescape(rest)
  {
    var s := "&gt;" + rest;
    assert !StartsWith(s, "&amp;") by { assert s[1] != "&amp;"[1]; }
    assert !StartsWith(s, "&lt;") by { assert s[1] != "&lt;"[1]; }
    assert s[..4] == "&gt;" && s[4..] == rest;
  }

  lemma UnescapeAfterQuote(rest: string)
    ensures Unescape("&quot;" + rest) == ['"'] + Unescape(rest)
  {
    var s := "&quot;" + rest;
    assert !StartsWith(s, "&amp;") by { assert s[1] != "&amp;"[1]; }
    assert !StartsWith(s, "&lt;") by { assert s[1] != "&lt;"[1]; }
    assert !StartsWith(s, "&gt;") by { assert s[1] != "&gt;"[1]; }
    assert s[..6] == "&quot;" && s[6..] == rest;
  }

  lemma UnescapeAfterApostrophe(rest: string)
    ensures Unescape("&#039;" + rest) == ['\''] + Unescape(rest)
  {
    var s := "&#039;" + rest;
    assert !StartsWith(s, "&amp;") by { assert s[1] != "&amp;"[1]; }
    assert !StartsWith(s, "&lt;") by { assert s[1] != "&lt;"[1]; }
    assert !StartsWith(s, "&gt;") by { assert s[1] != "&gt;"[1]; }
    assert !StartsWith(s, "&quot;") by { assert s[1] != "&quot;"[1]; }
    assert s[..6] == "&#039;" && s[6..] == rest;
  }

  /** A character that starts no reference decodes as itself. */
  lemma UnescapeAfterPlain(c: char, rest: string)
    requires c != '&'
    ensures Unescape([c] + rest) == [c] + Unescape(rest)
  {
    var s := [c] + rest;
    assert s[0] == c && s[1..] == rest;
  }

  lemma UnescapeEscapeChar(c: char, rest: string)
    ensures Unescape(EscapeChar(c) + rest) == [c] + Unescape(rest)
  {
    match c
    case '&' => UnescapeAfterAmpersand(rest);
    case '<' => UnescapeAfterLessThan(rest);
    case '>' => UnescapeAfterGreaterThan(rest);
    case '"' => UnescapeAfterQuote(rest);
    case '\'' => UnescapeAfterApostrophe(rest);
    case _ => UnescapeAfterPlain(c, rest);
  }

  lemma {:induction false} UnescapeEscapeHtml(s: string)
    ensures Unescape(EscapeHtml(s)) == s
  {
    if s != [] {
      UnescapeEscapeChar(s[0], EscapeHtml(s[1..]));
      UnescapeEscapeHtml(s[1..]);
    }
  }

  /** The example the escaping order is meant for. */
  lemma EscapeMarkupAndAmpersand()
    ensures EscapeHtml("<a>&") == "&lt;a&gt;&amp;"
  {
  }
}
