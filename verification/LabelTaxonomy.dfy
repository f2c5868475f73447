/** Canonical labels: the closed form every label of a configuration is brought to. */
module LabelTaxonomy {
  import opened JsText
  import opened Options

  const CATEGORIES := ["lang:", "framework:", "infra:", "topic:", "org:", "version:", "unrecognized:"]

  predicate IsLower(c: char) {
    'a' <= c <= 'z'
  }

  predicate IsDigit(c: char) {
    '0' <= c <= '9'
  }

  predicate IsSlugChar(c: char) {
    IsLower(c) || IsDigit(c) || c == '_' || c == '-'
  }

  /** `[a-z][a-z0-9_-]*` */
  predicate IsSlug(s: string) {
    s != "" && IsLower(s[0]) && forall i :: 0 <= i < |s| ==> IsSlugChar(s[i])
  }

  /** `CANONICAL_LABEL_REGEX` */
  predicate IsCanonical(s: string) {
    s == "default" || exists i :: 0 <= i < |CATEGORIES| && CATEGORIES[i] <= s && IsSlug(s[|CATEGORIES[i]|..])
  }

  // The recognition map, one part for each category; the values leave out the category's prefix.

  const LANGUAGES: map<string, string> := map[
    "python" := "python", "py" := "python", "typescript" := "typescript", "ts" := "typescript",
    "javascript" := "javascript", "js" := "javascript", "go" := "go", "golang" := "go", "rust" := "rust",
    "java" := "java", "kotlin" := "kotlin", "kt" := "kotlin", "ruby" := "ruby", "scala" := "scala"
  ]

  const FRAMEWORKS: map<string, string> := map[
    "fastapi" := "fastapi", "django" := "django", "flask" := "flask", "react" := "react", "nextjs" := "nextjs",
    "next" := "nextjs", "preact" := "preact", "solid" := "solid", "spring" := "spring", "springboot" := "spring"
  ]

  const INFRASTRUCTURE: map<string, string> := map[
    "terraform" := "terraform", "tf" := "terraform", "helm" := "helm", "kubernetes" := "kubernetes",
    "k8s" := "kubernetes", "docker" := "docker", "argocd" := "argocd"
  ]

  const TOPICS: map<string, string> := map[
    "security" := "security", "security_policy" := "security_policy", "securitypolicy" := "security_policy",
    "performance" := "performance", "accessibility" := "accessibility", "a11y" := "accessibility",
    "observability" := "observability", "compliance" := "compliance"
  ]

  /** `RECOGNITION_MAP[lowered]`, its own entries only. */
  function Recognized(lowered: string): Option<string> {
    if lowered in LANGUAGES then Some("lang:" + LANGUAGES[lowered])
    else if lowered in FRAMEWORKS then Some("framework:" + FRAMEWORKS[lowered])
    else if lowered in INFRASTRUCTURE then Some("infra:" + INFRASTRUCTURE[lowered])
    else if lowered in TOPICS then Some("topic:" + TOPICS[lowered])
    else if lowered == "default" then Some("default")
    else None
  }

  /** `KNOWN_CANONICAL` */
  ghost predicate IsKnown(s: string) {
    exists raw :: Recognized(raw) == Some(s)
  }

  /** The lower-case names that every plain object inherits; a lookup finds those too. */
  const INHERITED: set<string> := {"constructor", "__proto__"}

  /** A label is meant to be a string, but an inherited property is not one. */
  datatype Label = Text(s: string) | Inherited(name: string)

  function LastDigits(s: string): (n: nat)
    ensures n <= |s|
    ensures forall i :: |s| - n <= i < |s| ==> IsDigit(s[i])
    ensures n < |s| ==> !IsDigit(s[|s| - n - 1])
  {
    if s == "" || !IsDigit(s[|s| - 1]) then 0 else 1 + LastDigits(s[..|s| - 1])
  }

  /** `^[a-z][a-z0-9_]*?v\d+$`: the `v` can only be the one before the last run of digits. */
  predicate IsVersion(s: string) {
    var n := LastDigits(s);
    && n > 0 && n + 2 <= |s|
    && s[|s| - n - 1] == 'v'
    && IsLower(s[0])
    && forall i :: 0 <= i < |s| - n - 1 ==> IsLower(s[i]) || IsDigit(s[i]) || s[i] == '_'
  }

  /** `replace(/[^a-z0-9_-]/g, "_")`: an underscore for each UTF-16 unit, so two for a character of an outer plane. */
  function Sanitized(s: string): (t: string)
    ensures t == "" <==> s == ""
    ensures forall i :: 0 <= i < |t| ==> IsSlugChar(t[i])
  {
    if s == "" then ""
    else (if IsSlugChar(s[0]) then [s[0]] else if s[0] > '\U{ffff}' then "__" else "_") + Sanitized(s[1..])
  }

  type CaseMap = string -> string

  /** All that is assumed of `toLowerCase`: it leaves canonical labels alone. */
  ghost predicate KeepsCanonical(lower: CaseMap) {
    forall s :: IsCanonical(s) ==> lower(s) == s
  }

  ghost function CanonicalizeLabel(lower: CaseMap, raw: string): Label {
    if Trim(raw) == "" then Text("unrecognized:empty")
    else
      var lowered := lower(Trim(raw));
      if IsKnown(lowered) || IsCanonical(lowered) then Text(lowered)
      else if Recognized(lowered).Some? then Text(Recognized(lowered).value)
      else if lowered in INHERITED then Inherited(lowered)
      else if IsVersion(lowered) then Text("version:" + lowered)
      else
        var safe := Sanitized(lowered);
        Text("unrecognized:" + if safe == "" then "x" else if !IsLower(safe[0]) then "x_" + safe else safe)
  }

  // ----- closure

  lemma {:induction false} CategorySlug(i: nat, slug: string)
    requires i < |CATEGORIES| && IsSlug(slug)
    ensures IsCanonical(CATEGORIES[i] + slug)
  {
    assert (CATEGORIES[i] + slug)[|CATEGORIES[i]|..] == slug;
  }

  lemma {:induction false} LanguageSlug(raw: string)
    requires raw in LANGUAGES
    ensures IsSlug(LANGUAGES[raw])
  {
  }

  lemma {:induction false} FrameworkSlug(raw: string)
    requires raw in FRAMEWORKS
    ensures IsSlug(FRAMEWORKS[raw])
  {
  }

  lemma {:induction false} InfrastructureSlug(raw: string)
    requires raw in INFRASTRUCTURE
    ensures IsSlug(INFRASTRUCTURE[raw])
  {
  }

  lemma {:induction false} TopicSlug(raw: string)
    requires raw in TOPICS
    ensures IsSlug(TOPICS[raw])
  {
  }

  lemma {:induction false} RecognizedIsCanonical(raw: string)
    requires Recognized(raw).Some?
    ensures IsCanonical(Recognized(raw).value)
  {
    if raw in LANGUAGES {
      LanguageSlug(raw);
      CategorySlug(0, LANGUAGES[raw]);
    } else if raw in FRAMEWORKS {
      FrameworkSlug(raw);
      CategorySlug(1, FRAMEWORKS[raw]);
    } else if raw in INFRASTRUCTURE {
      InfrastructureSlug(raw);
      CategorySlug(2, INFRASTRUCTURE[raw]);
    } else if raw in TOPICS {
      TopicSlug(raw);
      CategorySlug(3, TOPICS[raw]);
    }
  }

  ghost function Normalized(lower: CaseMap, raw: string): string {
    lower(Trim(raw))
  }

  /**
   * The result is a canonical string exactly when the trimmed, lower-cased label is not the name of an
   * inherited property: for `constructor` and `__proto__` the map lookup answers with something else.
   */
  lemma {:induction false} CanonicalExactly(lower: CaseMap, raw: string)
    requires KeepsCanonical(lower)
    ensures var r := CanonicalizeLabel(lower, raw);
      (r.Text? && IsCanonical(r.s)) <==> Trim(raw) == "" || Normalized(lower, raw) !in INHERITED
  {
    var lowered := Normalized(lower, raw);
    if lowered in INHERITED {
      InheritedIsUnknown(lowered);
    }
    if Trim(raw) == "" {
      CategorySlug(6, "empty");
    } else if IsKnown(lowered) {
      var key :| Recognized(key) == Some(lowered);
      RecognizedIsCanonical(key);
    } else if IsCanonical(lowered) {
    } else if Recognized(lowered).Some? {
      RecognizedIsCanonical(lowered);
    } else if lowered in INHERITED {
    } else if IsVersion(lowered) {
      VersionIsSlug(lowered);
      CategorySlug(5, lowered);
    } else {
      SanitizedIsSlug(lowered);
    }
  }

  lemma {:induction false} VersionIsSlug(s: string)
    requires IsVersion(s)
    ensures IsSlug(s)
  {
  }

  lemma {:induction false} SanitizedIsSlug(s: string)
    ensures var safe := Sanitized(s);
      IsCanonical("unrecognized:" + if safe == "" then "x" else if !IsLower(safe[0]) then "x_" + safe else safe)
  {
    var safe := Sanitized(s);
    CategorySlug(6, if safe == "" then "x" else if !IsLower(safe[0]) then "x_" + safe else safe);
  }

  lemma {:induction false} InheritedIsUnknown(s: string)
    requires s in INHERITED
    ensures !IsCanonical(s) && !IsKnown(s) && Recognized(s).None?
  {
    InheritedNames(s);
    if IsCanonical(s) {
      CanonicalHasColon(s);
    }
    if IsKnown(s) {
      var key :| Recognized(key) == Some(s);
      RecognizedIsCanonical(key);
    }
  }

  lemma {:induction false} InheritedNames(s: string)
    requires s in INHERITED
    ensures ':' !in s && s != "default" && Recognized(s).None?
  {
    InheritedInNone(s);
  }

  lemma {:induction false} InheritedInNone(s: string)
    requires s in INHERITED
    ensures s !in LANGUAGES && s !in FRAMEWORKS && s !in INFRASTRUCTURE && s !in TOPICS
  {
    assert |s| == 11 ==> s[0] == 'c' && s[1] == 'o' && s[2] == 'n';
    assert |s| == 9 ==> s[0] == '_';
  }

  lemma {:induction false} CanonicalHasColon(s: string)
    requires IsCanonical(s) && s != "default"
    ensures ':' in s
  {
    var i :| 0 <= i < |CATEGORIES| && CATEGORIES[i] <= s && IsSlug(s[|CATEGORIES[i]|..]);
    var c := CATEGORIES[i];
    CategoryEnd(i);
    assert s[|c| - 1] == c[|c| - 1];
  }

  lemma {:induction false} CategoryEnd(i: nat)
    requires i < |CATEGORIES|
    ensures CATEGORIES[i] != "" && CATEGORIES[i][|CATEGORIES[i]| - 1] == ':'
  {
  }

  lemma {:induction false} CanonicalIsTrimmed(s: string)
    requires IsCanonical(s)
    ensures s != "" && Trim(s) == s
  {
    CanonicalEnds(s);
    SlugNotSpace(s[0]);
    SlugNotSpace(s[|s| - 1]);
    TrimmedStays(s);
  }

  lemma {:induction false} CanonicalEnds(s: string)
    requires IsCanonical(s)
    ensures s != "" && IsSlugChar(s[0]) && IsSlugChar(s[|s| - 1])
  {
    if s != "default" {
      var i :| 0 <= i < |CATEGORIES| && CATEGORIES[i] <= s && IsSlug(s[|CATEGORIES[i]|..]);
      CategoryStart(i);
      var slug, n := s[|CATEGORIES[i]|..], |CATEGORIES[i]|;
      assert slug[|slug| - 1] == s[n + (|slug| - 1)];
    }
  }

  lemma {:induction false} CategoryStart(i: nat)
    requires i < |CATEGORIES|
    ensures CATEGORIES[i] != "" && IsLower(CATEGORIES[i][0])
  {
  }

  lemma {:induction false} SlugNotSpace(c: char)
    requires IsSlugChar(c)
    ensures !IsSpace(c)
  {
  }

  lemma {:induction false} TrimmedStays(s: string)
    requires s != "" && !IsSpace(s[0]) && !IsSpace(s[|s| - 1])
    ensures Trim(s) == s
  {
  }

  /** A canonical label passes through, so parsing a configuration again keeps its labels. */
  lemma {:induction false} CanonicalizeIdempotent(lower: CaseMap, raw: string)
    requires KeepsCanonical(lower) && CanonicalizeLabel(lower, raw).Text?
    ensures CanonicalizeLabel(lower, CanonicalizeLabel(lower, raw).s) == CanonicalizeLabel(lower, raw)
  {
    CanonicalExactly(lower, raw);
    var s := CanonicalizeLabel(lower, raw).s;
    if Trim(raw) != "" && Normalized(lower, raw) in INHERITED {
      InheritedIsUnknown(Normalized(lower, raw));
    }
    CanonicalIsTrimmed(s);
  }

  /** The labels that canonicalisation leaves alone are the canonical ones. */
  lemma {:induction false} FixedExactly(lower: CaseMap, s: string)
    requires KeepsCanonical(lower)
    ensures CanonicalizeLabel(lower, s) == Text(s) <==> IsCanonical(s)
  {
    if IsCanonical(s) {
      CanonicalIsTrimmed(s);
    } else if CanonicalizeLabel(lower, s) == Text(s) {
      CanonicalExactly(lower, s);
      if Trim(s) != "" && Normalized(lower, s) in INHERITED {
        InheritedIsUnknown(Normalized(lower, s));
      }
    }
  }

  // ----- the label fields of a configuration

  datatype Parsed = Labels(labels: seq<string>) | Refused

  ghost function CanonicalizeAll(lower: CaseMap, raws: seq<string>): seq<Label> {
    if raws == [] then [] else [CanonicalizeLabel(lower, raws[0])] + CanonicalizeAll(lower, raws[1..])
  }

  /** Strings of labels that are all text. */
  function Texts(labels: seq<Label>): Option<seq<string>> {
    if labels == [] then Some([])
    else if labels[0].Inherited? || Texts(labels[1..]).None? then None
    else Some([labels[0].s] + Texts(labels[1..]).value)
  }

  /** `labelField`: canonicalise every element, then require an array of at most 50 strings. */
  ghost function LabelField(lower: CaseMap, raws: seq<string>): Parsed {
    var texts := Texts(CanonicalizeAll(lower, raws));
    if texts.None? || |raws| > 50 then Refused else Labels(texts.value)
  }

  lemma {:induction false} TextsAgain(lower: CaseMap, raws: seq<string>)
    requires KeepsCanonical(lower) && Texts(CanonicalizeAll(lower, raws)).Some?
    ensures var texts := Texts(CanonicalizeAll(lower, raws)).value;
      |texts| == |raws| && Texts(CanonicalizeAll(lower, texts)) == Some(texts)
  {
    if raws != [] {
      var labels := CanonicalizeAll(lower, raws);
      assert labels[1..] == CanonicalizeAll(lower, raws[1..]);
      TextsAgain(lower, raws[1..]);
      CanonicalizeIdempotent(lower, raws[0]);
      var texts := Texts(labels).value;
      assert texts[1..] == Texts(labels[1..]).value;
      assert CanonicalizeAll(lower, texts)[1..] == CanonicalizeAll(lower, texts[1..]);
    }
  }

  /** A label list that has been parsed once parses to itself at every later boundary. */
  lemma {:induction false} LabelFieldStable(lower: CaseMap, raws: seq<string>)
    requires KeepsCanonical(lower) && LabelField(lower, raws).Labels?
    ensures LabelField(lower, LabelField(lower, raws).labels) == LabelField(lower, raws)
  {
    TextsAgain(lower, raws);
  }
}
