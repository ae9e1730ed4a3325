/** The copy command on the inputs of the extension's tests: the language the
    resolver picks for a file, the snippet the formatter builds, and for the
    Android build script the two together. */
module Scenarios {
  import opened Text
  import opened PosixPath
  import opened LanguageResolver
  import opened HtmlEscape
  import opened Snippet

  /** Every rule looks at the base name or the extension, so a file whose
      base name is neither `build.gradle` nor `Dockerfile` and whose extension
      is not a YAML one keeps the language id the editor reported. */
  lemma NoSpecialNameKeepsDefault(filePath: string, defaultLanguage: string)
    requires Basename(filePath) != "build.gradle" && Basename(filePath) != "Dockerfile"
    requires Extname(filePath) != ".yml" && Extname(filePath) != ".yaml"
    ensures DetectLanguage(filePath, defaultLanguage) == defaultLanguage
  {
  }

  /** The same for a path built from a directory and a file name with an
      extension. */
  lemma OrdinaryFileKeepsDefault(dir: string, stem: string, ext: string, defaultLanguage: string)
    requires dir == [] || dir[|dir| - 1] == '/'
    requires stem != [] && '/' !in stem
    requires |ext| >= 2 && ext[0] == '.' && '.' !in ext[1..] && '/' !in ext
    requires ext != ".yml" && ext != ".yaml"
    requires stem + ext != "build.gradle" && stem + ext != "Dockerfile"
    ensures DetectLanguage(dir + (stem + ext), defaultLanguage) == defaultLanguage
  {
    ExtnameOfJoin(dir, stem, ext);
    NoSpecialNameKeepsDefault(dir + (stem + ext), defaultLanguage);
  }

  /** The editor's `javascript` id passes through for a file inside the
      workspace. */
  lemma WorkspaceFileLanguage()
    ensures DetectLanguage("/workspace/project/src/test.js", "javascript") == "javascript"
  {
    assert "/workspace/project/src/" + ("test" + ".js") == "/workspace/project/src/test.js";
    OrdinaryFileKeepsDefault("/workspace/project/src/", "test", ".js", "javascript");
  }

  /** An Android `build.gradle` is labelled Groovy although the editor reports
      `gradle`, under any workspace root (`/workspace/project/` in the
      scenario). */
  lemma AndroidGradleLanguage(root: string)
    ensures DetectLanguage(root + "android/" + "build.gradle", "gradle") == "groovy"
  {
    assert StartsWith("android/", "android");
    ContainsInConcat(root, "android/", "android");
    AndroidBuildGradle(root + "android/", "gradle");
  }

  /** The same pass-through for a file outside any workspace. */
  lemma OutsideFileLanguage()
    ensures DetectLanguage("/some/path/outside/workspace/test.js", "javascript") == "javascript"
  {
    assert "/some/path/outside/workspace/" + ("test" + ".js") == "/some/path/outside/workspace/test.js";
    OrdinaryFileKeepsDefault("/some/path/outside/workspace/", "test", ".js", "javascript");
  }

  /** The Markdown snippet for a JavaScript file: the label is the language
      id, a colon and the path as given (workspace-relative, or absolute when
      there is no workspace), and the code follows verbatim. */
  lemma JavaScriptSnippet(relativePath: string, content: string)
    ensures CreateSnippet(Markdown, "javascript", relativePath, content, true)
         == "```javascript:" + relativePath + "\n" + content + "\n```"
  {
    assert Fence + "javascript" + ":" == "```javascript:";
  }

  /** The Markdown snippet for an Android build script is labelled Groovy. */
  lemma GroovySnippet(relativePath: string, content: string)
    ensures CreateSnippet(Markdown, "groovy", relativePath, content, true)
         == "```groovy:" + relativePath + "\n" + content + "\n```"
  {
    assert Fence + "groovy" + ":" == "```groovy:";
  }

  /** The Android build script end to end: the resolver turns `gradle` into
      `groovy`, and the default `markdown` setting gives the labelled block. */
  lemma AndroidBuildScriptSnippet(root: string, code: string)
    ensures CreateSnippet(FormatOfSetting("markdown"), DetectLanguage(root + "android/" + "build.gradle", "gradle"),
                          "android/build.gradle", code, true)
         == "```groovy:android/build.gradle\n" + code + "\n```"
  {
    AndroidGradleLanguage(root);
    assert FormatOfSetting("markdown") == Markdown;
    GroovyBuildScriptBlock(code);
  }

  /** The block for the build script, its label spelled out. */
  lemma GroovyBuildScriptBlock(code: string)
    ensures CreateSnippet(Markdown, "groovy", "android/build.gradle", code, true)
         == "```groovy:android/build.gradle\n" + code + "\n```"
  {
    LabelledBlock("groovy", "android/build.gradle", "```groovy:android/build.gradle\n", code);
  }

  /** A block whose whole first line, fence and label, is given as one string. */
  lemma LabelledBlock(language: string, path: string, firstLine: string, code: string)
    requires firstLine == Fence + language + ":" + path + "\n"
    ensures CreateSnippet(Markdown, language, path, code, true) == firstLine + code + "\n```"
  {
  }

  /** A `"` in a file name otherwise free of special characters becomes
      `&quot;` and nothing else changes. */
  lemma QuoteInNameEscaped(a: string, b: string)
    requires forall i :: 0 <= i < |a| ==> !IsSpecial(a[i])
    requires forall i :: 0 <= i < |b| ==> !IsSpecial(b[i])
    ensures EscapeHtml(a + "\"" + b) == a + "&quot;" + b
  {
    EscapeAroundQuote(a, b);
  }

  /** A `"` is replaced by `&quot;` and the text on either side is escaped
      on its own. */
  lemma EscapeAroundQuote(a: string, b: string)
    ensures EscapeHtml(a + "\"" + b) == EscapeHtml(a) + "&quot;" + EscapeHtml(b)
  {
    EscapeHtmlConcat(a + "\"", b);
    EscapeHtmlConcat(a, "\"");
    assert EscapeHtml("\"") == "&quot;" by {
      assert "\""[1..] == [];
    }
  }

  /** An HTML snippet whose path holds a quote: the `data-filename` value
      carries `&quot;` in its place, so the quote cannot close the attribute
      early; the text around it is escaped as usual. */
  lemma HtmlQuotedFileName(language: string, a: string, b: string, content: string)
    ensures StartsWith(CreateSnippet(Html, language, a + "\"" + b, content, true),
                       CodeOpen + language + "\"" +
                       (FilenameAttr + (EscapeHtml(a) + "&quot;" + EscapeHtml(b)) + "\"") + ">")
  {
    HtmlStartTag(language, a + "\"" + b, content, true);
    EscapeAroundQuote(a, b);
  }
}
