/** The snippet formatter: renders a piece of code as a Markdown fenced
    block, an HTML `<pre><code>` element or plain text. */
module Snippet {
  import opened Text
  import opened HtmlEscape

  datatype Option<T> = None | Some(value: T)

  /** The `format` setting: the three values the extension names, or any
      other string a user may have configured. */
  datatype SnippetFormat = Markdown | Html | Plain | Other(setting: string)

  /** The formats a setting can produce: `Other` never carries one of the
      three known values, which have their own constructors. */
  type Format = f: SnippetFormat | !f.Other? || f.setting !in {"markdown", "html", "plain"} witness Markdown

  function SettingValue(format: SnippetFormat): string {
    match format
    case Markdown => "markdown"
    case Html => "html"
    case Plain => "plain"
    case Other(setting) => setting
  }

  /** Reads the `format` setting. Every string maps to a format that gives it
      back, and only strings outside the three known values become `Other`. */
  function FormatOfSetting(setting: string): (f: Format)
    ensures SettingValue(f) == setting
    ensures f.Other? <==> setting !in {"markdown", "html", "plain"}
  {
    if setting == "markdown" then Markdown
    else if setting == "html" then Html
    else if setting == "plain" then Plain
    else Other(setting)
  }

  /** `createSnippet`: Plain gives the content unchanged, Html the HTML
      element, and Markdown as well as every unrecognised format the fenced
      block. */
  function CreateSnippet(format: Format, language: string, relativePath: string,
                         content: string, includeFilePath: bool): (r: string)
    ensures format == Plain ==> r == content
    ensures format == Html ==> r == CreateHtmlSnippet(language, relativePath, content, includeFilePath)
    ensures format != Html && format != Plain ==>
              r == CreateMarkdownSnippet(language, relativePath, content, includeFilePath)
  {
    match format
    case Markdown => CreateMarkdownSnippet(language, relativePath, content, includeFilePath)
    case Html => CreateHtmlSnippet(language, relativePath, content, includeFilePath)
    case Plain => content
    case Other(_) => CreateMarkdownSnippet(language, relativePath, content, includeFilePath)
  }

  /** A setting outside the three known values renders exactly as Markdown. */
  lemma UnknownSettingIsMarkdown(setting: string, language: string, relativePath: string,
                                 content: string, includeFilePath: bool)
    requires setting !in {"markdown", "html", "plain"}
    ensures CreateSnippet(FormatOfSetting(setting), language, relativePath, content, includeFilePath)
         == CreateSnippet(Markdown, language, relativePath, content, includeFilePath)
  {
  }

  // Markdown

  const Fence := "```"

  /** The label after the opening fence: the language, then `:` and the path
      when the path is included. */
  function InfoString(language: string, relativePath: string, includePath: bool): string {
    if includePath then language + ":" + relativePath else language
  }

  /** `createMarkdownSnippet`: the opening fence with its label on the first
      line, the content verbatim (never escaped), and the closing fence on a
      line of its own. */
  function CreateMarkdownSnippet(language: string, relativePath: string, content: string,
                                 includePath: bool): (r: string)
    ensures StartsWith(r, Fence + InfoString(language, relativePath, includePath) + "\n")
    ensures EndsWith(r, "\n" + Fence)
    ensures var head := |Fence + InfoString(language, relativePath, includePath) + "\n"|;
            |r| == head + |content| + 4 && r[head..|r| - 4] == content
  {
    if includePath then
      Fence + language + ":" + relativePath + "\n" + content + "\n" + Fence
    else
      Fence + language + "\n" + content + "\n" + Fence
  }

  /** Including the path only lengthens the label: the block with the path is
      the block without it for the language `language:relativePath`. */
  lemma MarkdownPathOnlyInLabel(language: string, relativePath: string, content: string)
    ensures CreateMarkdownSnippet(language, relativePath, content, true)
         == CreateMarkdownSnippet(language + ":" + relativePath, relativePath, content, false)
  {
  }

  datatype FencedBlock = FencedBlock(info: string, content: string)

  /** Reads a fenced block back: the label runs from the opening fence to the
      first newline, the content from there to the newline before the last
      three characters, which it takes to be the closing fence. This is not
      a Markdown parser: a Markdown renderer ends the block at the first
      fence line, even one inside the content. */
  function ParseMarkdown(r: string): Option<FencedBlock> {
    if !StartsWith(r, Fence) || !EndsWith(r, "\n" + Fence) then None
    else
      var i := IndexOf(r[3..], '\n');
      if i < 0 || 3 + i + 1 > |r| - 4 then None
      else Some(FencedBlock(r[3..3 + i], r[3 + i + 1..|r| - 4]))
  }

  /** The fences frame the text between them. */
  lemma FenceFrame(body: string)
    ensures var r := Fence + body + "\n" + Fence;
            StartsWith(r, Fence) && EndsWith(r, "\n" + Fence) &&
            r[3..] == body + "\n" + Fence && r[3..|r| - 4] == body
  {
    var r := Fence + body + "\n" + Fence;
    assert r == Fence + (body + "\n" + Fence);
    PrefixAndSuffixOfConcat(Fence, body + "\n" + Fence);
    assert r == Fence + body + ("\n" + Fence);
    PrefixAndSuffixOfConcat(Fence + body, "\n" + Fence);
  }

  /** A fenced block with a single-line label parses back to that label and
      content. */
  lemma ParseFencedBlock(info: string, content: string)
    requires '\n' !in info
    ensures ParseMarkdown(Fence + (info + "\n" + content) + "\n" + Fence) == Some(FencedBlock(info, content))
  {
    var body := info + "\n" + content;
    var r := Fence + body + "\n" + Fence;
    FenceFrame(body);
    var tail := content + "\n" + Fence;
    assert r[3..] == info + ['\n'] + tail;
    IndexOfAfter(info, '\n', tail);
    assert body[..|info|] == info && body[|info| + 1..] == content;
    assert r[3..3 + |info|] == r[3..|r| - 4][..|info|];
    assert r[3 + |info| + 1..|r| - 4] == r[3..|r| - 4][|info| + 1..];
  }

  lemma InfoStringSingleLine(language: string, relativePath: string, includePath: bool)
    requires '\n' !in language
    requires includePath ==> '\n' !in relativePath
    ensures '\n' !in InfoString(language, relativePath, includePath)
  {
    if includePath {
      var info := InfoString(language, relativePath, includePath);
      assert forall k :: 0 <= k < |info| ==>
        info[k] == (if k < |language| then language[k]
                    else if k == |language| then ':'
                    else relativePath[k - |language| - 1]);
    }
  }

  /** A block can be read back through `ParseMarkdown`, which takes the
      closing fence to be the end of the snippet: its label and its content
      come out as they went in, as long as the label is a single line. */
  lemma MarkdownRoundTrip(language: string, relativePath: string, content: string, includePath: bool)
    requires '\n' !in language
    requires includePath ==> '\n' !in relativePath
    ensures ParseMarkdown(CreateMarkdownSnippet(language, relativePath, content, includePath))
         == Some(FencedBlock(InfoString(language, relativePath, includePath), content))
  {
    var info := InfoString(language, relativePath, includePath);
    InfoStringSingleLine(language, relativePath, includePath);
    assert CreateMarkdownSnippet(language, relativePath, content, includePath)
        == Fence + (info + "\n" + content) + "\n" + Fence;
    ParseFencedBlock(info, content);
  }

  /** Content holding a fence line puts that fence line into the snippet
      before the closing fence, so a Markdown renderer would end the block
      there; the source does not guard against this. */
  lemma FenceLineInContent(language: string, relativePath: string, a: string, b: string,
                           includePath: bool)
    ensures var r := CreateMarkdownSnippet(language, relativePath, a + "\n" + Fence + "\n" + b, includePath);
            var k := |Fence + InfoString(language, relativePath, includePath) + "\n"| + |a|;
            OccursAt(r, "\n" + Fence + "\n", k) && k + 5 <= |r| - 4
  {
    var content := a + "\n" + Fence + "\n" + b;
    var r := CreateMarkdownSnippet(language, relativePath, content, includePath);
    var head := |Fence + InfoString(language, relativePath, includePath) + "\n"|;
    assert content[|a|..|a| + 5] == "\n" + Fence + "\n";
    assert r[head + |a|..head + |a| + 5] == r[head..|r| - 4][|a|..|a| + 5];
  }

  // HTML

  /** The start of the element up to the language: `<pre><code class="`
      followed by the `language-` prefix of the class name. */
  const CodeOpen := "<pre><code class=\"language-"
  const FilenameAttr := " data-filename=\""
  const CodeClose := "</code></pre>"

  /** `createHtmlSnippet`: the `class` attribute carries the language as
      given; the optional `data-filename` attribute and the element's text are
      escaped, so the text holds no `<` that could end the element early. */
  function CreateHtmlSnippet(language: string, relativePath: string, content: string,
                             includePath: bool): (r: string)
    ensures StartsWith(r, CodeOpen + language + "\"")
    ensures EndsWith(r, ">" + EscapeHtml(content) + CodeClose)
  {
    var filenameAttr := if includePath then FilenameAttr + EscapeHtml(relativePath) + "\"" else "";
    var tail := ">" + EscapeHtml(content) + CodeClose;
    PrefixAndSuffixOfConcat(CodeOpen + language + "\"", filenameAttr + tail);
    PrefixAndSuffixOfConcat(CodeOpen + language + "\"" + filenameAttr, tail);
    CodeOpen + language + "\"" + filenameAttr + tail
  }

  /** The start tag: the `class` attribute, then the `data-filename`
      attribute holding the escaped path when the path is included, then
      `>`. */
  lemma HtmlStartTag(language: string, relativePath: string, content: string, includePath: bool)
    ensures StartsWith(CreateHtmlSnippet(language, relativePath, content, includePath),
                       CodeOpen + language + "\"" +
                       (if includePath then FilenameAttr + EscapeHtml(relativePath) + "\"" else "") + ">")
    ensures |CreateHtmlSnippet(language, relativePath, content, includePath)|
         == |CodeOpen + language + "\"" +
             (if includePath then FilenameAttr + EscapeHtml(relativePath) + "\"" else "") + ">"|
            + |EscapeHtml(content)| + |CodeClose|
  {
    var attr := if includePath then FilenameAttr + EscapeHtml(relativePath) + "\"" else "";
    StartTagPrefix(CodeOpen + language + "\"" + attr, EscapeHtml(content) + CodeClose);
    assert ">" + EscapeHtml(content) + CodeClose == ">" + (EscapeHtml(content) + CodeClose);
  }

  lemma StartTagPrefix(open: string, rest: string)
    ensures StartsWith(open + (">" + rest), open + ">")
  {
    assert open + (">" + rest) == (open + ">") + rest;
    PrefixAndSuffixOfConcat(open + ">", rest);
  }

  datatype CodeElement = CodeElement(language: string, fileName: Option<string>, content: string)

  /** Reads an element back: the language up to the first `"`, then either a
      `data-filename` attribute or the end of the start tag, then the text up
      to the end tag; the attribute value and the text are decoded. */
  function ParseHtml(r: string): Option<CodeElement> {
    if |r| < |CodeOpen| + |CodeClose| || !StartsWith(r, CodeOpen) || !EndsWith(r, CodeClose) then None
    else ParseCodeBody(r[|CodeOpen|..|r| - |CodeClose|])
  }

  /** The part between `CodeOpen` and `CodeClose`. */
  function ParseCodeBody(body: string): Option<CodeElement> {
    var q := IndexOf(body, '"');
    if q < 0 then None else ParseAfterClass(body[..q], body[q + 1..])
  }

  /** The part after the closing quote of the `class` attribute. */
  function ParseAfterClass(language: string, rest: string): Option<CodeElement> {
    if StartsWith(rest, FilenameAttr) then
      var attr := rest[|FilenameAttr|..];
      var e := IndexOf(attr, '"');
      if e < 0 || e + 1 >= |attr| || attr[e + 1] != '>' then None
      else Some(CodeElement(language, Some(Unescape(attr[..e])), Unescape(attr[e + 2..])))
    else if |rest| > 0 && rest[0] == '>' then
      Some(CodeElement(language, None, Unescape(rest[1..])))
    else None
  }

  lemma ParseHtmlUnwraps(body: string)
    ensures ParseHtml(CodeOpen + body + CodeClose) == ParseCodeBody(body)
  {
    var r := CodeOpen + body + CodeClose;
    PrefixAndSuffixOfConcat(CodeOpen + body, CodeClose);
    PrefixAndSuffixOfConcat(CodeOpen, body);
    assert r[..|CodeOpen|] == CodeOpen;
    assert r[|CodeOpen|..|r| - |CodeClose|] == body;
  }

  lemma ParseCodeBodySplits(language: string, rest: string)
    requires '"' !in language
    ensures ParseCodeBody(language + "\"" + rest) == ParseAfterClass(language, rest)
  {
    var body := language + "\"" + rest;
    IndexOfAfter(language, '"', rest);
    assert body[..|language|] == language;
    assert body[|language| + 1..] == rest;
  }

  /** A `data-filename` value without `"` ends at the first `"`, and the
      text starts after the `>` that follows it. */
  lemma ParseFileNameAttr(language: string, escName: string, escText: string)
    requires '"' !in escName
    ensures ParseAfterClass(language, FilenameAttr + (escName + "\">" + escText))
         == Some(CodeElement(language, Some(Unescape(escName)), Unescape(escText)))
  {
    var attr := escName + "\">" + escText;
    PrefixAndSuffixOfConcat(FilenameAttr, attr);
    assert (FilenameAttr + attr)[|FilenameAttr|..] == attr;
    assert attr == escName + ['"'] + (">" + escText);
    IndexOfAfter(escName, '"', ">" + escText);
    assert attr[..|escName|] == escName;
    assert attr[|escName| + 1] == '>';
    assert attr[|escName| + 2..] == escText;
  }

  lemma ParseWithFileName(language: string, name: string, text: string)
    ensures ParseAfterClass(language, FilenameAttr + (EscapeHtml(name) + "\">" + EscapeHtml(text)))
         == Some(CodeElement(language, Some(name), text))
  {
    var escName := EscapeHtml(name);
    assert '"' !in escName by {
      assert forall i :: 0 <= i < |escName| ==> !IsMarkup(escName[i]);
    }
    ParseFileNameAttr(language, escName, EscapeHtml(text));
    UnescapeEscapeHtml(name);
    UnescapeEscapeHtml(text);
  }

  lemma ParseWithoutFileName(language: string, text: string)
    ensures ParseAfterClass(language, ">" + EscapeHtml(text)) == Some(CodeElement(language, None, text))
  {
    var rest := ">" + EscapeHtml(text);
    assert rest[1..] == EscapeHtml(text);
    assert !StartsWith(rest, FilenameAttr) by {
      assert rest[0] != FilenameAttr[0];
    }
    UnescapeEscapeHtml(text);
  }

  /** The snippet is `CodeOpen`, the element body and `CodeClose`. */
  lemma HtmlSnippetBody(language: string, attr: string, text: string)
    ensures CodeOpen + language + "\"" + attr + (">" + text + CodeClose)
         == CodeOpen + (language + "\"" + (attr + ">" + text)) + CodeClose
  {
  }

  lemma FileNameAttrBody(escName: string, text: string)
    ensures FilenameAttr + escName + "\"" + ">" + text == FilenameAttr + (escName + "\">" + text)
  {
  }

  /** The element can be read back: the language, the file name when it is
      included and the content come out as they went in. Escaping is what
      makes this hold for any file name and content; the language, which is
      not escaped, must not contain `"`. */
  lemma HtmlRoundTrip(language: string, relativePath: string, content: string, includePath: bool)
    requires '"' !in language
    ensures ParseHtml(CreateHtmlSnippet(language, relativePath, content, includePath))
         == Some(CodeElement(language, if includePath then Some(relativePath) else None, content))
  {
    var text := EscapeHtml(content);
    var attr := if includePath then FilenameAttr + EscapeHtml(relativePath) + "\"" else "";
    HtmlSnippetBody(language, attr, text);
    ParseHtmlUnwraps(language + "\"" + (attr + ">" + text));
    ParseCodeBodySplits(language, attr + ">" + text);
    if includePath {
      FileNameAttrBody(EscapeHtml(relativePath), text);
      ParseWithFileName(language, relativePath, content);
    } else {
      assert attr + ">" + text == ">" + text;
      ParseWithoutFileName(language, content);
    }
  }

  /** What a reader gets back as the code from a snippet of a given format. */
  function ContentOf(format: SnippetFormat, snippet: string): Option<string> {
    match format
    case Plain => Some(snippet)
    case Html =>
      var e := ParseHtml(snippet);
      if e.Some? then Some(e.value.content) else None
    case _ =>
      var b := ParseMarkdown(snippet);
      if b.Some? then Some(b.value.content) else None
  }

  /** Every format keeps the code intact for the model's readers: it can be
      read back from the snippet exactly through `ContentOf`. */
  lemma SnippetKeepsContent(format: Format, language: string, relativePath: string,
                            content: string, includeFilePath: bool)
    requires '\n' !in language && '"' !in language
    requires includeFilePath ==> '\n' !in relativePath
    ensures ContentOf(format, CreateSnippet(format, language, relativePath, content, includeFilePath))
         == Some(content)
  {
    match format
    case Plain =>
    case Html =>
      HtmlRoundTrip(language, relativePath, content, includeFilePath);
    case _ =>
      MarkdownRoundTrip(language, relativePath, content, includeFilePath);
  }
}
