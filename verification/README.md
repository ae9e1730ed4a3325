# copy-code-as-snippet: a verified model of the snippet core

The extension copies the code in the active editor to the clipboard as a
snippet: a Markdown fenced block, an HTML `<pre><code>` element or the plain
text. This project models the pure part of `src/extension.ts` that decides what
goes on the clipboard, and proves properties of it in Dafny:

- the **language resolver** `detectLanguage`. It picks the language tag from
  the file's path and the language id the editor reports: Groovy for an
  Android `build.gradle`, `dockerfile` for a `Dockerfile`, `docker-compose`
  for a Compose YAML file, and otherwise the editor's id unchanged;
- the **snippet formatter**: `createSnippet` with its three renderers, and
  `escapeHtml`.

Modules, one per file:

| file | module | contents |
|---|---|---|
| `text.dfy` | `Text` | `Contains`, the `includes` the code calls, and the helper scans `IndexOf` and `LastIndexOf` that the path model and the snippet readers use |
| `posix_path.dfy` | `PosixPath` | `path.basename` and `path.extname` with POSIX semantics |
| `language.dfy` | `LanguageResolver` | `detectLanguage`, and the same rules as an ordered rule table with first-match evaluation |
| `html_escape.dfy` | `HtmlEscape` | `escapeHtml`, both per character and as the chain of five `replace` calls, plus a decoder |
| `snippet.dfy` | `Snippet` | the format setting, `createSnippet`, the Markdown and HTML renderers, and a reader for each output |
| `scenarios.dfy` | `Scenarios` | the inputs and expected snippets of the extension's test suite |

The source promises no inverse for the renderers, so the model supplies
reference definitions to state what it means for a snippet to keep its code
intact:
- `ParseMarkdown` reads a fenced block back;
- `ParseHtml` reads a code element back;
- `Unescape` decodes the five character references `escapeHtml` produces.

Round-trip lemmas connect each renderer to its reader. `SnippetKeepsContent`
shows that in every format the code comes back exactly through these readers.
`ParseMarkdown` takes the closing fence to be the end of the snippet, which a
Markdown renderer does not: `FenceLineInContent` shows that code holding a
fence line puts that line into the snippet before the closing fence.

Two points of the model deserve a note:

- **Android test.** The Android test is a plain substring test on the whole
  path (`filePath.includes("android")`, `src/extension.ts:108`), not a
  path-segment test. `Contains` models `includes`, and
  `AndroidInsideDirectoryName` shows that `myandroidapp/build.gradle` is
  labelled Groovy.
- **`path.extname`.** Node's `path.extname` returns `""` for the base name
  `..` as well as for names without a dot after the first character.
  `ComponentExtension` follows Node.

## Model

| member | source | states |
|---|---|---|
| Text.ContainsIffOccurs | src/extension.ts:108 | the left-to-right `includes` scan succeeds exactly when the fragment occurs at some index of the string |
| Text.Contains | src/extension.ts:108 | `includes` (also called at line 118): the empty fragment is in every string, and a string never contains a fragment longer than itself |
| Text.ContainsInConcat | src/extension.ts:108 | an occurrence in either part of a concatenation is an occurrence in the whole |
| PosixPath.TrimTrailingSlashes | src/extension.ts:105 | the result is a prefix of the path with no trailing `/`, and everything removed was `/` |
| PosixPath.Basename | src/extension.ts:105 | `path.basename` holds no `/`; it is a suffix of the path once trailing `/` are removed, and it is either that whole trimmed path or is preceded by a `/` |
| PosixPath.Extname | src/extension.ts:106 | `path.extname` of a path holds no `/`; when not empty it starts with its only `.` and is a proper suffix of the base name |
| PosixPath.ComponentExtension | src/extension.ts:106 | `path.extname` of a component is empty exactly when the component is `..` or has no `.` after its first character; otherwise it is a proper suffix that starts with its only `.` |
| PosixPath.BasenameOfJoin | src/extension.ts:105 | a `/`-free file name after a directory prefix is the base name of the joined path |
| PosixPath.ComponentExtensionOfJoin | src/extension.ts:106 | `stem + ext`, where `ext` is a dot followed by at least one non-dot, has extension `ext` |
| PosixPath.ExtnameOfJoin | src/extension.ts:105-106 | a file `stem + ext` in any directory has base name `stem + ext` and extension `ext` |
| LanguageResolver.DetectLanguage | src/extension.ts:104-126 | the tag is always `groovy`, `dockerfile`, `docker-compose` or the editor's id, and a base name `Dockerfile` always gives `dockerfile` |
| LanguageResolver.FirstMatch | src/extension.ts:104-126 | first-match evaluation: the default when no rule holds; otherwise the tag of the first rule that holds, and never a tag whose rule fails |
| LanguageResolver.FirstMatchOfThree | src/extension.ts:104-126 | a three-rule table evaluates as three nested conditionals |
| LanguageResolver.AndroidRule | src/extension.ts:108-110 | the first rule holds exactly when the path contains `android` and the base name is `build.gradle`, and it gives `groovy` |
| LanguageResolver.DockerfileRule | src/extension.ts:113-115 | the second rule holds exactly when the base name is `Dockerfile`, and it gives `dockerfile` |
| LanguageResolver.ComposeRule | src/extension.ts:117-121 | the third rule holds exactly when the extension is `.yml` or `.yaml` and the base name contains `docker-compose`, and it gives `docker-compose` |
| LanguageResolver.DetectLanguageIsRuleTable | src/extension.ts:104-126 | `detectLanguage` equals first-match evaluation of the rule table on every path and default |
| LanguageResolver.NameLengths | src/extension.ts:108-121 | the first two rules accept base names of length 12 and 10; the third needs a base name of at least 14 characters |
| LanguageResolver.RulesExclusive | src/extension.ts:104-126 | no path satisfies two rules |
| LanguageResolver.MatchingRuleDecides | src/extension.ts:104-126 | whichever rule holds decides the tag, so the order of the checks does not matter |
| LanguageResolver.NoRuleKeepsDefault | src/extension.ts:125 | when no rule holds, the editor's language id is returned unchanged |
| LanguageResolver.AndroidBuildGradle | src/extension.ts:108-110 | `build.gradle` in a directory whose path contains `android` is `groovy`, whatever the default |
| LanguageResolver.DockerfileAnywhere | src/extension.ts:113-115 | `Dockerfile` in any directory is `dockerfile`, whatever the default |
| LanguageResolver.ComposeFile | src/extension.ts:117-121 | a `.yml`/`.yaml` file whose name contains `docker-compose` is `docker-compose` in any directory |
| LanguageResolver.AndroidInsideDirectoryName | src/extension.ts:108 | `android` inside a longer directory name still triggers the Groovy rule |
| HtmlEscape.EscapeChar | src/extension.ts:216-223 | a special character becomes a reference from `&` to `;`, any other character stays itself, and no replacement holds `<`, `>`, `"` or `'` |
| HtmlEscape.EscapeHtml | src/extension.ts:216-223 | the escaped text holds no raw `<`, `>`, `"` or `'`, is never shorter, and text without special characters is unchanged |
| HtmlEscape.EscapeHtmlConcat | src/extension.ts:216-223 | escaping distributes over concatenation |
| HtmlEscape.ReplaceAll | src/extension.ts:218 | a global `replace` of an absent character changes nothing, and leaves none of that character when the replacement has none |
| HtmlEscape.ReplaceAllConcat | src/extension.ts:218 | a global `replace` distributes over concatenation |
| HtmlEscape.ChainedReplace | src/extension.ts:216-223 | `escapeHtml` as written, five chained global replacements: its result holds no `<`, `>`, `"` or `'` |
| HtmlEscape.ChainLeavesNoMarkup | src/extension.ts:217-222 | after the five calls no markup character is left |
| HtmlEscape.ReplaceAllKeepsAbsent | src/extension.ts:219-222 | a later `replace` whose replacement lacks a character never brings back that character once it is gone |
| HtmlEscape.ChainedReplaceIsTable | src/extension.ts:217-222 | the five chained calls equal the table of replacements applied in order |
| HtmlEscape.ReplaceFromConcat | src/extension.ts:217-222 | the replacement chain distributes over concatenation |
| HtmlEscape.ReplaceFromAbsent | src/extension.ts:217-222 | replacements whose characters do not occur change nothing |
| HtmlEscape.ReplacementsAreEscapes | src/extension.ts:217-222 | each replacement is the escape of its character, no later replacement's character occurs in it, and the table's characters are exactly the special ones |
| HtmlEscape.ReplaceFromChar | src/extension.ts:217-222 | on a single character the chain produces exactly that character's escape |
| HtmlEscape.TableIsEscapeHtml | src/extension.ts:217-222 | the replacement chain equals the per-character escape on every string |
| HtmlEscape.ChainedReplaceIsEscapeHtml | src/extension.ts:217-222 | `escapeHtml` as written (five chained replacements, `&` first) equals the per-character escape on every string |
| HtmlEscape.AmpersandLastDoubleEscapes | src/extension.ts:217-222 | replacing `&` after another special character would double-escape it (`<` would become `&amp;lt;`), unlike `escapeHtml` |
| HtmlEscape.EscapeMarkupAndAmpersand | src/extension.ts:216-223 | `<a>&` escapes to `&lt;a&gt;&amp;` |
| HtmlEscape.Unescape | src/extension.ts:216-223 | decoding never lengthens the text |
| HtmlEscape.UnescapeAfterAmpersand | src/extension.ts:218 | `&amp;` decodes to `&` whatever follows |
| HtmlEscape.UnescapeAfterLessThan | src/extension.ts:219 | `&lt;` decodes to `<` whatever follows |
| HtmlEscape.UnescapeAfterGreaterThan | src/extension.ts:220 | `&gt;` decodes to `>` whatever follows |
| HtmlEscape.UnescapeAfterQuote | src/extension.ts:221 | `&quot;` decodes to `"` whatever follows |
| HtmlEscape.UnescapeAfterApostrophe | src/extension.ts:222 | `&#039;` decodes to `'` whatever follows |
| HtmlEscape.UnescapeAfterPlain | src/extension.ts:216-223 | a character other than `&` decodes to itself |
| HtmlEscape.UnescapeEscapeChar | src/extension.ts:216-223 | decoding the escape of any character gives that character back, whatever follows |
| HtmlEscape.UnescapeEscapeHtml | src/extension.ts:216-223 | escaping loses nothing: decoding the escaped text gives the text back |
| Snippet.FormatOfSetting | src/extension.ts:9-13 | every setting string maps to a format that gives it back, and only strings other than `markdown`, `html` and `plain` fall outside the enum; the result type `Format` rules out `Other` carrying one of those three strings |
| Snippet.CreateSnippet | src/extension.ts:137-169 | Plain returns the content verbatim, Html the HTML element, and Markdown and every other setting value the fenced block; it takes only `Format` values, the ones a setting can produce |
| Snippet.UnknownSettingIsMarkdown | src/extension.ts:161-167 | an unrecognised format renders exactly as Markdown |
| Snippet.CreateMarkdownSnippet | src/extension.ts:179-188 | the block opens with the fence and its label on one line, holds the content verbatim, and closes with a fence on its own line |
| Snippet.MarkdownPathOnlyInLabel | src/extension.ts:185-187 | including the path only turns the label into `language:path` |
| Snippet.InfoStringSingleLine | src/extension.ts:186 | the label is a single line when the language and the path are |
| Snippet.ParseFencedBlock | src/extension.ts:185-187 | a fenced block with a single-line label reads back as that label and content |
| Snippet.MarkdownRoundTrip | src/extension.ts:179-188 | a Markdown snippet reads back through `ParseMarkdown`, which takes the closing fence to be the end of the snippet, to its label and exactly its content |
| Snippet.CreateHtmlSnippet | src/extension.ts:198-209 | the element starts with `<pre><code class="language-` and the unescaped language, and ends with `>`, the escaped content and `</code></pre>` |
| Snippet.HtmlStartTag | src/extension.ts:204-208 | the start tag carries the class, then the escaped `data-filename` attribute only when the path is included, then `>`; the element is exactly that start tag, the escaped content and `</code></pre>`, as its length shows |
| Snippet.ParseHtmlUnwraps | src/extension.ts:208 | reading an element strips exactly the fixed opening and closing markup |
| Snippet.ParseCodeBodySplits | src/extension.ts:204-208 | a language without `"` is read up to the quote that closes the class attribute |
| Snippet.ParseFileNameAttr | src/extension.ts:205-208 | an attribute value without `"` is read up to its closing quote and decoded as the file name, and the text after the `>` that follows is decoded as the code |
| Snippet.ParseWithFileName | src/extension.ts:205-208 | an escaped file name and escaped text read back as the original name and text |
| Snippet.ParseWithoutFileName | src/extension.ts:207-208 | without the attribute, the escaped text reads back as the original text |
| Snippet.HtmlRoundTrip | src/extension.ts:198-209 | an HTML snippet reads back to its language, its file name exactly when it is included, and exactly its content |
| Snippet.FenceLineInContent | src/extension.ts:185-187 | code holding a fence line puts a line of three backticks into the snippet before the closing fence, where a Markdown renderer would end the block |
| Snippet.SnippetKeepsContent | src/extension.ts:137-169 | in every format the code can be read back from the snippet exactly through the model's reader for that format |
| Scenarios.NoSpecialNameKeepsDefault | src/extension.ts:104-126 | a base name other than `build.gradle` and `Dockerfile`, with an extension other than `.yml` and `.yaml`, keeps the editor's id |
| Scenarios.OrdinaryFileKeepsDefault | src/extension.ts:104-126 | the same for a file `stem + ext` in any directory |
| Scenarios.WorkspaceFileLanguage | src/test/extension.test.ts:128-130 | `/workspace/project/src/test.js` reported as `javascript` stays `javascript` |
| Scenarios.AndroidGradleLanguage | src/test/extension.test.ts:182-184 | `android/build.gradle` under any root (`/workspace/project/` in the test) reported as `gradle` becomes `groovy` |
| Scenarios.OutsideFileLanguage | src/test/extension.test.ts:231-233 | `/some/path/outside/workspace/test.js` reported as `javascript` stays `javascript` |
| Scenarios.JavaScriptSnippet | src/test/extension.test.ts:163-165 | the Markdown snippet is "```javascript:" + path + newline + code + newline + "```" for any path and code; the outside-workspace case at lines 258-259 is the same shape with the absolute path |
| Scenarios.GroovySnippet | src/test/extension.test.ts:219-220 | the Android build script renders as "```groovy:" + path + newline + code + newline + "```" |
| Scenarios.AndroidBuildScriptSnippet | src/test/extension.test.ts:178-221 | the Android build script under any root, reported as `gradle` with the default `markdown` setting, gives "```groovy:android/build.gradle" + newline + code + newline + "```" for any code |
| Scenarios.GroovyBuildScriptBlock | src/test/extension.test.ts:219-220 | the Markdown block for `android/build.gradle` labelled `groovy`, with its first line spelled out as in the test |
| Scenarios.QuoteInNameEscaped | src/extension.ts:206 | a `"` in an otherwise plain file name becomes `&quot;` and nothing else changes |
| Scenarios.EscapeAroundQuote | src/extension.ts:221 | escaping a name with a `"` gives the escaped text before it, `&quot;`, and the escaped text after it |
| Scenarios.HtmlQuotedFileName | src/extension.ts:205-208 | in an HTML snippet, a `"` anywhere in the file name appears in `data-filename` as `&quot;`, between the escaped text before and after it |

## Left out

- `activate` (src/extension.ts:19-96) is host plumbing and is not modelled. It covers:
  - the one-time activation guard;
  - registering the command;
  - reading the active editor and its selection;
  - reading the `includeFilePath` and `format` settings and their defaults;
  - the clipboard write and the information and error messages.
- The formatter takes `relativePath`, `content`, `includeFilePath` and the format as parameters.
- `FormatOfSetting` shows how a raw setting string becomes a format.
- The workspace-relative path (src/extension.ts:48-52) is not modelled. It comes from `vscode.workspace.getWorkspaceFolder` and Node's `path.relative`, and the formatter only receives its result.
- `deactivate` (src/extension.ts:228) does nothing and is not modelled.
- `Basename` and `ComponentExtension` follow Node's POSIX `path` functions only. The Windows separator `\` and drive letters are not modelled.
- Strings are sequences of Dafny `char`, which are Unicode scalar values, while JavaScript strings are sequences of UTF-16 code units. A character above U+FFFF is one `char` here but two code units in the source, and a lone surrogate cannot be represented. Every character the core compares against (`/`, `.`, the five escaped characters, the fixed names and fences) is ASCII, so the results are the same under either reading.
- `ParseMarkdown` is not a Markdown parser. It takes the last three characters to be the closing fence, so `MarkdownRoundTrip` and `SnippetKeepsContent` hold for code that contains a fence line too. A Markdown renderer ends the block at that inner fence line, so such code does not render as one block. The source does not guard against this, and `FenceLineInContent` shows where the inner fence lands.
- `MarkdownRoundTrip`: holds only when the language and the included path contain no newline. The source does not check this, and a newline in the label would end the label line early.
- `HtmlRoundTrip`: holds only when the language contains no `"`. The source writes the language into the `class` attribute without escaping it, so a `"` in the language would end the attribute early.
- `SnippetKeepsContent`: carries both restrictions above.
- `Scenarios.JavaScriptSnippet` and `Scenarios.GroovySnippet`: state the expected test strings with the path and code as parameters. They do not spell out each expected literal as one string.
- `Scenarios.AndroidGradleLanguage`: stated for any root, of which the test's `/workspace/project/` is one.
