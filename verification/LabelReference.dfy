/** Canonicalisation told branch by branch: the patterns character by character, the table entry by entry. */
module LabelReference {
  import opened JsText
  import opened LabelTaxonomy
  import opened Options

  // ----- the table

  lemma {:induction false} LanguageTable()
    ensures LANGUAGES.Keys == {
      "python", "py", "typescript", "ts", "javascript", "js", "go", "golang", "rust", "java", "kotlin", "kt", "ruby",
      "scala"
    }
    ensures LANGUAGES["python"] == LANGUAGES["py"] == "python"
    ensures LANGUAGES["typescript"] == LANGUAGES["ts"] == "typescript"
    ensures LANGUAGES["javascript"] == LANGUAGES["js"] == "javascript"
    ensures LANGUAGES["go"] == LANGUAGES["golang"] == "go"
    ensures LANGUAGES["rust"] == "rust"
    ensures LANGUAGES["java"] == "java"
    ensures LANGUAGES["kotlin"] == LANGUAGES["kt"] == "kotlin"
    ensures LANGUAGES["ruby"] == "ruby"
    ensures LANGUAGES["scala"] == "scala"
  {
  }

  lemma {:induction false} FrameworkTable()
    ensures FRAMEWORKS.Keys == {
      "fastapi", "django", "flask", "react", "nextjs", "next", "preact", "solid", "spring", "springboot"
    }
    ensures FRAMEWORKS["fastapi"] == "fastapi"
    ensures FRAMEWORKS["django"] == "django"
    ensures FRAMEWORKS["flask"] == "flask"
    ensures FRAMEWORKS["react"] == "react"
    ensures FRAMEWORKS["nextjs"] == FRAMEWORKS["next"] == "nextjs"
    ensures FRAMEWORKS["preact"] == "preact"
    ensures FRAMEWORKS["solid"] == "solid"
    ensures FRAMEWORKS["spring"] == FRAMEWORKS["springboot"] == "spring"
  {
  }

  lemma {:induction false} InfrastructureTable()
    ensures INFRASTRUCTURE.Keys == {
      "terraform", "tf", "helm", "kubernetes", "k8s", "docker", "argocd"
    }
    ensures INFRASTRUCTURE["terraform"] == INFRASTRUCTURE["tf"] == "terraform"
    ensures INFRASTRUCTURE["helm"] == "helm"
    ensures INFRASTRUCTURE["kubernetes"] == INFRASTRUCTURE["k8s"] == "kubernetes"
    ensures INFRASTRUCTURE["docker"] == "docker"
    ensures INFRASTRUCTURE["argocd"] == "argocd"
  {
  }

  lemma {:induction false} TopicTable()
    ensures TOPICS.Keys == {
      "security", "security_policy", "securitypolicy", "performance", "accessibility", "a11y", "observability",
      "compliance"
    }
    ensures TOPICS["security"] == "security"
    ensures TOPICS["security_policy"] == TOPICS["securitypolicy"] == "security_policy"
    ensures TOPICS["performance"] == "performance"
    ensures TOPICS["accessibility"] == TOPICS["a11y"] == "accessibility"
    ensures TOPICS["observability"] == "observability"
    ensures TOPICS["compliance"] == "compliance"
  {
  }

  /** A name of the table stands for its slug in its category; only the sentinel stands for itself. */
  lemma {:induction false} RecognizedExactly(raw: string, s: string)
    ensures Recognized(raw) == Some(s) <==>
      || (raw in LANGUAGES && s == "lang:" + LANGUAGES[raw])
      || (raw !in LANGUAGES && raw in FRAMEWORKS && s == "framework:" + FRAMEWORKS[raw])
      || (raw !in LANGUAGES && raw !in FRAMEWORKS && raw in INFRASTRUCTURE && s == "infra:" + INFRASTRUCTURE[raw])
      || (raw !in LANGUAGES && raw !in FRAMEWORKS && raw !in INFRASTRUCTURE && raw in TOPICS
          && s == "topic:" + TOPICS[raw])
      || (raw !in LANGUAGES && raw !in FRAMEWORKS && raw !in INFRASTRUCTURE && raw !in TOPICS
          && raw == s == "default")
  {
  }

  // ----- the patterns

  ghost predicate SlugFrom(s: string, i: nat) {
    && i < |s| && 'a' <= s[i] <= 'z'
    && forall k :: i <= k < |s| ==>
         'a' <= s[k] <= 'z' || '0' <= s[k] <= '9' || s[k] == '_' || s[k] == '-'
  }

  /** A category's name up to position `c`, a colon there, and a slug behind it. */
  ghost predicate Categorized(s: string, c: nat) {
    && c < |s| && s[c] == ':' && SlugFrom(s, c + 1)
    && s[..c] in {"lang", "framework", "infra", "topic", "org", "version", "unrecognized"}
  }

  lemma {:induction false} PatternExactly(s: string)
    ensures IsCanonical(s) <==> s == "default" || exists c: nat :: Categorized(s, c)
  {
    forall i | 0 <= i < |CATEGORIES| && CATEGORIES[i] <= s && IsSlug(s[|CATEGORIES[i]|..])
      ensures Categorized(s, |CATEGORIES[i]| - 1)
    {
      CategoryName(i);
      NameBefore(s, CATEGORIES[i]);
    }
    forall c: nat | Categorized(s, c)
      ensures IsCanonical(s)
    {
      var i := CategoryOf(s[..c]);
      assert s[..c + 1] == s[..c] + ":" == CATEGORIES[i];
      assert s[c + 1..][0] == s[c + 1];
    }
  }

  lemma {:induction false} CategoryName(i: nat)
    requires i < |CATEGORIES|
    ensures CATEGORIES[i] != "" && CATEGORIES[i][|CATEGORIES[i]| - 1] == ':'
    ensures CATEGORIES[i][..|CATEGORIES[i]| - 1]
         in {"lang", "framework", "infra", "topic", "org", "version", "unrecognized"}
  {
    assert "lang:"[..4] == "lang" && "framework:"[..9] == "framework" && "infra:"[..5] == "infra";
    assert "topic:"[..5] == "topic" && "org:"[..3] == "org" && "version:"[..7] == "version";
    assert "unrecognized:"[..12] == "unrecognized";
  }

  lemma {:induction false} NameBefore(s: string, n: string)
    requires n <= s && n != "" && n[|n| - 1] == ':' && IsSlug(s[|n|..])
    ensures s[|n| - 1] == ':' && s[..|n| - 1] == n[..|n| - 1] && SlugFrom(s, |n|)
  {
    assert s[|n| - 1] == n[|n| - 1] && s[|n|..][0] == s[|n|];
    forall k | |n| <= k < |s|
      ensures IsSlugChar(s[k])
    {
      assert s[|n|..][k - |n|] == s[k];
    }
  }

  lemma {:induction false} CategoryOf(name: string) returns (i: nat)
    requires name in {"lang", "framework", "infra", "topic", "org", "version", "unrecognized"}
    ensures i < |CATEGORIES| && CATEGORIES[i] == name + ":"
  {
    i := if name == "lang" then 0 else if name == "framework" then 1 else if name == "infra" then 2
         else if name == "topic" then 3 else if name == "org" then 4 else if name == "version" then 5 else 6;
  }

  /** A letter, then letters, digits and underscores up to a `v` at position `k`, then only digits, and some. */
  ghost predicate VersionAt(s: string, k: nat) {
    && 1 <= k < |s| - 1 && s[k] == 'v' && 'a' <= s[0] <= 'z'
    && (forall i :: 0 <= i < k ==> 'a' <= s[i] <= 'z' || '0' <= s[i] <= '9' || s[i] == '_')
    && forall i :: k < i < |s| ==> '0' <= s[i] <= '9'
  }

  lemma {:induction false} VersionExactly(s: string)
    ensures IsVersion(s) <==> exists k: nat :: VersionAt(s, k)
  {
    if IsVersion(s) {
      assert VersionAt(s, |s| - LastDigits(s) - 1);
    }
    forall k: nat | VersionAt(s, k)
      ensures IsVersion(s)
    {
      DigitsFrom(s, k + 1);
    }
  }

  lemma {:induction false} DigitsFrom(s: string, k: nat)
    requires 0 < k <= |s| && !IsDigit(s[k - 1]) && forall i :: k <= i < |s| ==> IsDigit(s[i])
    ensures LastDigits(s) == |s| - k
    decreases |s|
  {
    if k < |s| {
      DigitsFrom(s[..|s| - 1], k);
    }
  }

  /** Characters are replaced one by one; an outer one gives two underscores, any other that is no slug's gives one. */
  lemma {:induction false} SanitizedAppend(s: string, c: char)
    ensures Sanitized("") == ""
    ensures Sanitized(s + [c]) == Sanitized(s) +
      if 'a' <= c <= 'z' || '0' <= c <= '9' || c == '_' || c == '-' then [c]
      else if c as int >= 0x1_0000 then "__" else "_"
  {
    if s == "" {
      assert s + [c] == [c] && [c][1..] == "";
      assert Sanitized([c][1..]) == "";
    } else {
      SanitizedAppend(s[1..], c);
      assert (s + [c])[1..] == s[1..] + [c];
    }
  }

  // ----- the branches

  /** What is left to say of a label that no branch knows: its characters, and a letter in front if they lack one. */
  function Unrecognized(safe: string): string {
    if safe == "" then "unrecognized:x"
    else if 'a' <= safe[0] <= 'z' then "unrecognized:" + safe
    else "unrecognized:x_" + safe
  }

  lemma {:induction false} LastBranch(safe: string)
    ensures "unrecognized:" + (if safe == "" then "x" else if !IsLower(safe[0]) then "x_" + safe else safe)
         == Unrecognized(safe)
  {
    assert "unrecognized:" + "x" == "unrecognized:x";
    assert "unrecognized:" + ("x_" + safe) == "unrecognized:x_" + safe;
  }

  lemma {:induction false} Branches(lower: CaseMap, raw: string)
    ensures var s, r := lower(Trim(raw)), CanonicalizeLabel(lower, raw);
      if Trim(raw) == "" then r == Text("unrecognized:empty")
      else if IsCanonical(s) then r == Text(s)
      else if Recognized(s).Some? then r == Text(Recognized(s).value)
      else if s in INHERITED then r == Inherited(s)
      else if IsVersion(s) then r == Text("version:" + s)
      else r == Text(Unrecognized(Sanitized(s)))
  {
    KnownIsCanonical(lower(Trim(raw)));
    LastBranch(Sanitized(lower(Trim(raw))));
  }

  /** What canonicalisation answers, by what the trimmed, lower-cased label is. */
  lemma {:induction false} CanonicalizeExactly(lower: CaseMap, raw: string)
    ensures var s, r := lower(Trim(raw)), CanonicalizeLabel(lower, raw);
      if forall k :: 0 <= k < |raw| ==> IsSpace(raw[k]) then r == Text("unrecognized:empty")
      else if s == "default" || exists c: nat :: Categorized(s, c) then r == Text(s)
      else if Recognized(s).Some? then r == Text(Recognized(s).value)
      else if s == "constructor" || s == "__proto__" then r == Inherited(s)
      else if exists k: nat :: VersionAt(s, k) then r == Text("version:" + s)
      else r == Text(Unrecognized(Sanitized(s)))
  {
    var s := lower(Trim(raw));
    BlankExactly(raw);
    PatternExactly(s);
    VersionExactly(s);
    Branches(lower, raw);
  }

  lemma {:induction false} BlankExactly(raw: string)
    ensures Trim(raw) == "" <==> forall k :: 0 <= k < |raw| ==> IsSpace(raw[k])
  {
    var i, j := TrimExactly(raw);
  }

  lemma {:induction false} KnownIsCanonical(s: string)
    ensures IsKnown(s) ==> IsCanonical(s)
  {
    if IsKnown(s) {
      var key :| Recognized(key) == Some(s);
      RecognizedIsCanonical(key);
    }
  }

  // ----- a label field

  /** A field is accepted if and only if it has at most 50 labels and each of them has a text; it holds those texts. */
  lemma {:induction false} LabelFieldExactly(lower: CaseMap, raws: seq<string>, texts: seq<string>)
    ensures LabelField(lower, raws) == Labels(texts) <==>
      && |raws| <= 50 && |texts| == |raws|
      && forall i :: 0 <= i < |raws| ==> CanonicalizeLabel(lower, raws[i]) == Text(texts[i])
  {
    TextsExactly(lower, raws, texts);
  }

  lemma {:induction false} TextsExactly(lower: CaseMap, raws: seq<string>, texts: seq<string>)
    ensures Texts(CanonicalizeAll(lower, raws)) == Some(texts) <==>
      |texts| == |raws| && forall i :: 0 <= i < |raws| ==> CanonicalizeLabel(lower, raws[i]) == Text(texts[i])
    decreases |raws|
  {
    if raws != [] {
      var first, rest := CanonicalizeLabel(lower, raws[0]), CanonicalizeAll(lower, raws[1..]);
      assert CanonicalizeAll(lower, raws) == [first] + rest && ([first] + rest)[1..] == rest;
      if texts != [] {
        TextsExactly(lower, raws[1..], texts[1..]);
        assert texts == [texts[0]] + texts[1..];
      }
    }
  }
}
