/** The language resolver: picks the language tag written into a snippet from
    the file's path and the language id the editor reports for it. */
module LanguageResolver {
  import opened Text
  import opened PosixPath

  /** `detectLanguage`: three special cases tried in order, then the editor's
      language id unchanged. The Android test looks for `android` anywhere in
      the whole path, not for a path component. */
  function DetectLanguage(filePath: string, defaultLanguage: string): (r: string)
    ensures r in {"groovy", "dockerfile", "docker-compose", defaultLanguage}
    ensures Basename(filePath) == "Dockerfile" ==> r == "dockerfile"
  {
    var fileName := Basename(filePath);
    var fileExtension := Extname(filePath);
    if Contains(filePath, "android") && fileName == "build.gradle" then
      "groovy"
    else if fileName == "Dockerfile" then
      "dockerfile"
    else if (fileExtension == ".yml" || fileExtension == ".yaml") && Contains(fileName, "docker-compose") then
      "docker-compose"
    else
      defaultLanguage
  }

  // The same rules written as data: an ordered table of (test, tag) pairs
  // where the first test that holds decides the tag.

  /** What a rule inspects: the whole path, its base name and its
      extension, computed once as `detectLanguage` does. */
  datatype Subject = Subject(path: string, name: string, extension: string)

  function SubjectOf(filePath: string): Subject {
    Subject(filePath, Basename(filePath), Extname(filePath))
  }

  datatype Test =
    | PathContainsAndNameIs(fragment: string, name: string)
    | NameIs(name: string)
    | ExtensionInAndNameContains(extensions: set<string>, fragment: string)

  datatype Rule = Rule(test: Test, tag: string)

  predicate Holds(test: Test, s: Subject) {
    match test
    case PathContainsAndNameIs(fragment, name) => Contains(s.path, fragment) && s.name == name
    case NameIs(name) => s.name == name
    case ExtensionInAndNameContains(extensions, fragment) => s.extension in extensions && Contains(s.name, fragment)
  }

  const Rules: seq<Rule> := [
    Rule(PathContainsAndNameIs("android", "build.gradle"), "groovy"),
    Rule(NameIs("Dockerfile"), "dockerfile"),
    Rule(ExtensionInAndNameContains({".yml", ".yaml"}, "docker-compose"), "docker-compose")
  ]

  /** First-match-wins evaluation of a rule table: the tag of the earliest
      rule whose test holds, or `defaultTag` when none holds. */
  function FirstMatch(rules: seq<Rule>, s: Subject, defaultTag: string): (r: string)
    ensures (forall i :: 0 <= i < |rules| ==> !Holds(rules[i].test, s)) ==> r == defaultTag
    ensures r == defaultTag || exists i :: 0 <= i < |rules| && rules[i].tag == r && Holds(rules[i].test, s)
    ensures forall i :: 0 <= i < |rules| && Holds(rules[i].test, s) &&
                          (forall j :: 0 <= j < i ==> !Holds(rules[j].test, s))
                        ==> r == rules[i].tag
  {
    if rules == [] then
      defaultTag
    else if Holds(rules[0].test, s) then
      rules[0].tag
    else
      FirstMatch(rules[1..], s, defaultTag)
  }

  /** A three-rule table spelled out as nested conditionals. */
  lemma FirstMatchOfThree(rules: seq<Rule>, s: Subject, defaultTag: string)
    requires |rules| == 3
    ensures FirstMatch(rules, s, defaultTag) ==
              if Holds(rules[0].test, s) then rules[0].tag
              else if Holds(rules[1].test, s) then rules[1].tag
              else if Holds(rules[2].test, s) then rules[2].tag
              else defaultTag
  {
    assert rules[1..][0] == rules[1] && rules[1..][1..][0] == rules[2];
    assert rules[1..][1..][1..] == [];
  }

  // What each rule of the table tests, and the tag it gives.

  lemma AndroidRule(s: Subject)
    ensures Rules[0].tag == "groovy"
    ensures Holds(Rules[0].test, s) <==> Contains(s.path, "android") && s.name == "build.gradle"
  {
  }

  lemma DockerfileRule(s: Subject)
    ensures Rules[1].tag == "dockerfile"
    ensures Holds(Rules[1].test, s) <==> s.name == "Dockerfile"
  {
  }

  lemma ComposeRule(s: Subject)
    ensures Rules[2].tag == "docker-compose"
    ensures Holds(Rules[2].test, s) <==>
              (s.extension == ".yml" || s.extension == ".yaml") && Contains(s.name, "docker-compose")
  {
  }

  /** The conditionals of `detectLanguage` are exactly the rule table. */
  lemma DetectLanguageIsRuleTable(filePath: string, defaultLanguage: string)
    ensures DetectLanguage(filePath, defaultLanguage) == FirstMatch(Rules, SubjectOf(filePath), defaultLanguage)
  {
    var s := SubjectOf(filePath);
    FirstMatchOfThree(Rules, s, defaultLanguage);
    AndroidRule(s);
    DockerfileRule(s);
    ComposeRule(s);
  }

  /** No path satisfies two rules: the base names `build.gradle` and
      `Dockerfile` differ, and both are too short to contain `docker-compose`. */
  lemma RulesExclusive(s: Subject, i: int, j: int)
    requires 0 <= i < j < |Rules|
    requires Holds(Rules[i].test, s)
    ensures !Holds(Rules[j].test, s)
  {
    NameLengths(s);
  }

  /** The base names the first two rules accept are 12 and 10 characters
      long; the third needs at least the 14 of `docker-compose`. */
  lemma NameLengths(s: Subject)
    ensures Holds(Rules[0].test, s) ==> |s.name| == 12
    ensures Holds(Rules[1].test, s) ==> |s.name| == 10
    ensures Holds(Rules[2].test, s) ==> |s.name| >= 14
  {
    AndroidRule(s);
    DockerfileRule(s);
    ComposeRule(s);
  }

  /** Since the rules exclude each other, their order is immaterial: any rule
      whose test holds decides the result. */
  lemma MatchingRuleDecides(filePath: string, defaultLanguage: string, i: int)
    requires 0 <= i < |Rules| && Holds(Rules[i].test, SubjectOf(filePath))
    ensures DetectLanguage(filePath, defaultLanguage) == Rules[i].tag
  {
    var s := SubjectOf(filePath);
    DetectLanguageIsRuleTable(filePath, defaultLanguage);
    forall j | 0 <= j < i
      ensures !Holds(Rules[j].test, s)
    {
      if Holds(Rules[j].test, s) {
        RulesExclusive(s, j, i);
      }
    }
  }

  /** When no rule holds, the editor's language id passes through. */
  lemma NoRuleKeepsDefault(filePath: string, defaultLanguage: string)
    requires forall i :: 0 <= i < |Rules| ==> !Holds(Rules[i].test, SubjectOf(filePath))
    ensures DetectLanguage(filePath, defaultLanguage) == defaultLanguage
  {
    DetectLanguageIsRuleTable(filePath, defaultLanguage);
  }

  /** `build.gradle` in any directory whose path mentions `android` is Groovy,
      whatever the editor reported. */
  lemma AndroidBuildGradle(dir: string, defaultLanguage: string)
    requires dir == [] || dir[|dir| - 1] == '/'
    requires Contains(dir, "android")
    ensures DetectLanguage(dir + "build.gradle", defaultLanguage) == "groovy"
  {
    BasenameOfJoin(dir, "build.gradle");
    ContainsInConcat(dir, "build.gradle", "android");
  }

  /** A file named `Dockerfile` is a Dockerfile in any directory. */
  lemma DockerfileAnywhere(dir: string, defaultLanguage: string)
    requires dir == [] || dir[|dir| - 1] == '/'
    ensures DetectLanguage(dir + "Dockerfile", defaultLanguage) == "dockerfile"
  {
    BasenameOfJoin(dir, "Dockerfile");
  }

  /** A `.yml` or `.yaml` file whose name mentions `docker-compose` is a
      Compose file in any directory. */
  lemma ComposeFile(dir: string, stem: string, ext: string, defaultLanguage: string)
    requires dir == [] || dir[|dir| - 1] == '/'
    requires '/' !in stem && Contains(stem, "docker-compose")
    requires ext == ".yml" || ext == ".yaml"
    ensures DetectLanguage(dir + (stem + ext), defaultLanguage) == "docker-compose"
  {
    assert '.' !in ext[1..];
    ExtnameOfJoin(dir, stem, ext);
    ContainsInConcat(stem, ext, "docker-compose");
    ComposeRule(SubjectOf(dir + (stem + ext)));
    MatchingRuleDecides(dir + (stem + ext), defaultLanguage, 2);
  }

  /** The Android test is a substring test: a directory that merely has
      `android` inside its name, such as `myandroidapp` (`before` = `my`,
      `after` = `app`), triggers it. */
  lemma AndroidInsideDirectoryName(before: string, after: string, defaultLanguage: string)
    ensures DetectLanguage(before + "android" + after + "/" + "build.gradle", defaultLanguage) == "groovy"
  {
    assert Contains("android", "android");
    ContainsInConcat(before, "android", "android");
    ContainsInConcat(before + "android", after, "android");
    ContainsInConcat(before + "android" + after, "/", "android");
    AndroidBuildGradle(before + "android" + after + "/", defaultLanguage);
  }
}
