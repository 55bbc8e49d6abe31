/**
 * What the discovery learns from the text a Java launcher writes to its
 * error stream for `java -version`: the version (regex
 * `(?:version|openjdk version)\s+"([^"]+)"`), the vendor (the first of a fixed
 * list of markers found, ignoring case) and the runtime name (regex
 * `([\w-]+)\s+version`), both regexes matched ignoring case.
 */
module VersionParsing {
  import opened Wrappers
  import opened Text

  /** The version the source reports when it cannot learn one ("unknown" in Chinese). */
  const UnknownVersion: string := "\U{672A}\U{77E5}"

  /** What probing a launcher gives: the start failed or threw, or its error-stream text. */
  datatype Probe = Failed | Completed(stderr: string)

  /** The (version, vendor, runtimeName) triple; None stands for the source's null. */
  datatype VersionInfo = VersionInfo(version: string, vendor: Option<string>, runtimeName: Option<string>)

  /** The length of the longest run of characters satisfying `p` that starts at `j`. */
  function Span(s: string, j: nat, p: char -> bool): (n: nat)
    requires j <= |s|
    decreases |s| - j
    ensures j + n <= |s|
    ensures forall k | j <= k < j + n :: p(s[k])
    ensures j + n == |s| || !p(s[j + n])
  {
    if j < |s| && p(s[j]) then 1 + Span(s, j + 1, p) else 0
  }

  predicate IsNotQuote(c: char) {
    c != '"'
  }

  /** The regex class `[\w-]` over ASCII: letters, digits, underscore and hyphen. */
  predicate IsNameChar(c: char) {
    ('a' <= c <= 'z') || ('A' <= c <= 'Z') || ('0' <= c <= '9') || c == '_' || c == '-'
  }

  /**
   * The text from `j` reads `\s+"v"`: a non-empty whitespace run up to `q`,
   * a quote at `q`, the non-empty quote-free token `v` and a closing quote.
   */
  predicate QuotedTokenAt(s: string, j: nat, q: nat, v: string) {
    && j < q && q + |v| + 1 < |s|
    && IsBlank(s[j..q]) && s[q] == '"'
    && v != "" && '"' !in v
    && s[q + 1..q + 1 + |v|] == v && s[q + 1 + |v|] == '"'
  }

  /** The text from `j` reads `\s+"v"` for some end of the whitespace run. */
  ghost predicate QuotedTokenFrom(s: string, j: nat, v: string) {
    exists q :: QuotedTokenAt(s, j, q, v)
  }

  /**
   * The tail `\s+"([^"]+)"` matched at `j`: some whitespace, a quote, a
   * non-empty run of non-quotes (captured) and a closing quote.
   */
  function QuotedAfter(s: string, j: nat): (r: Option<string>)
    requires j <= |s|
    ensures r.Some? ==> r.value != "" && '"' !in r.value
    ensures r.Some? ==> QuotedTokenFrom(s, j, r.value)
  {
    var q := j + Span(s, j, IsWhiteSpace);
    if q == j || q == |s| || s[q] != '"' then None
    else
      var n := Span(s, q + 1, IsNotQuote);
      if n == 0 || q + 1 + n == |s| then None
      else
        var v := s[q + 1..q + 1 + n];
        assert QuotedTokenAt(s, j, q, v) by {
          assert forall i | 0 <= i < |v| :: v[i] == s[q + 1 + i];
        }
        Some(v)
  }

  /** The first alternative of the version regex, `version\s+"([^"]+)"`, at `i`. */
  function VersionAt(s: string, i: nat): Option<string> {
    if OccursAt(s, "version", i) then QuotedAfter(s, i + 7) else None
  }

  /** The whole version regex at `i`: the first alternative, else `openjdk version\s+"([^"]+)"`. */
  function VersionPatternAt(s: string, i: nat): (r: Option<string>)
    ensures r.Some? ==> r.value != "" && '"' !in r.value
    ensures r.Some? ==>
      || (OccursAt(s, "version", i) && QuotedTokenFrom(s, i + 7, r.value))
      || (OccursAt(s, "openjdk version", i) && QuotedTokenFrom(s, i + 15, r.value))
  {
    var first := VersionAt(s, i);
    if first.Some? then first
    else if OccursAt(s, "openjdk version", i) then QuotedAfter(s, i + 15)
    else None
  }

  /** The tail `\s+version` of the runtime-name regex at `e`. */
  predicate VersionFollows(s: string, e: nat)
    requires e <= |s|
  {
    var w := Span(s, e, IsWhiteSpace);
    w > 0 && OccursAt(s, "version", e + w)
  }

  /** The regex `([\w-]+)\s+version` at `p`: the captured name. */
  function RuntimeNameAt(s: string, p: nat): (r: Option<string>)
    ensures r.Some? ==> r.value != "" && forall c | c in r.value :: IsNameChar(c)
  {
    if p > |s| then None
    else
      var n := Span(s, p, IsNameChar);
      if n > 0 && VersionFollows(s, p + n) then Some(s[p..p + n]) else None
  }

  /**
   * Regex.Match's scan: the leftmost start position in [from, to) where the
   * pattern `m` matches, with its capture.
   */
  function Leftmost(m: nat -> Option<string>, from: nat, to: nat): (r: Option<(nat, string)>)
    decreases to - from
    ensures r.Some? ==> from <= r.value.0 < to && m(r.value.0) == Some(r.value.1)
    ensures forall j: nat | from <= j < to && (r.None? || j < r.value.0) :: m(j).None?
  {
    if from >= to then None
    else if m(from).Some? then Some((from, m(from).value))
    else Leftmost(m, from + 1, to)
  }

  /** The capture of a match, without its position. */
  function Capture(r: Option<(nat, string)>): Option<string> {
    match r
    case Some((_, v)) => Some(v)
    case None => None
  }

  /** The version regex over `s`, as a function of the start position. */
  function VersionPattern(s: string): nat -> Option<string> {
    (i: nat) => VersionPatternAt(s, i)
  }

  /** Its first alternative alone. */
  function VersionAlternative(s: string): nat -> Option<string> {
    (i: nat) => VersionAt(s, i)
  }

  /** The runtime-name regex over `s`. */
  function RuntimeNamePattern(s: string): nat -> Option<string> {
    (p: nat) => RuntimeNameAt(s, p)
  }

  function FindVersion(s: string): Option<(nat, string)> {
    Leftmost(VersionPattern(s), 0, |s| + 1)
  }

  function FindRuntimeName(s: string): Option<(nat, string)> {
    Leftmost(RuntimeNamePattern(s), 0, |s| + 1)
  }

  /** A marker to look for in the launcher output and the vendor name it stands for. */
  datatype VendorRule = VendorRule(marker: string, vendor: string)

  /** The vendor markers in the order they are tried. */
  const VendorRules: seq<VendorRule> := [
    VendorRule("Eclipse Adoptium", "Eclipse Temurin"),
    VendorRule("AdoptOpenJDK", "AdoptOpenJDK"),
    VendorRule("Microsoft", "Microsoft"),
    VendorRule("Amazon", "Amazon Corretto"),
    VendorRule("Zulu", "Zulu"),
    VendorRule("BellSoft", "BellSoft Liberica"),
    VendorRule("Semeru", "IBM Semeru"),
    VendorRule("Oracle", "Oracle"),
    VendorRule("JetBrains", "JetBrains")
  ]

  /**
   * The if/else chain over the vendor markers from rule `k` on: the first
   * rule whose marker the text contains, ignoring case.
   */
  function FirstVendorRule(err: string, k: nat): (r: Option<nat>)
    decreases |VendorRules| - k
    ensures r.Some? ==> k <= r.value < |VendorRules| && ContainsIgnoreCase(err, VendorRules[r.value].marker)
    ensures forall j | k <= j < |VendorRules| && (r.None? || j < r.value) :: !ContainsIgnoreCase(err, VendorRules[j].marker)
  {
    if k >= |VendorRules| then None
    else if IndexOfIgnoreCase(err, VendorRules[k].marker) >= 0 then Some(k)
    else FirstVendorRule(err, k + 1)
  }

  /**
   * The vendor of the first rule whose marker the text contains, ignoring
   * case; None exactly when it contains none of them.
   */
  function DetectVendor(err: string): (r: Option<string>)
    ensures r.None? <==> forall k | 0 <= k < |VendorRules| :: !ContainsIgnoreCase(err, VendorRules[k].marker)
    ensures r.Some? ==> exists k | 0 <= k < |VendorRules| ::
      && r.value == VendorRules[k].vendor
      && ContainsIgnoreCase(err, VendorRules[k].marker)
      && forall j | 0 <= j < k :: !ContainsIgnoreCase(err, VendorRules[j].marker)
  {
    match FirstVendorRule(err, 0)
    case Some(k) => Some(VendorRules[k].vendor)
    case None => None
  }

  /**
   * GetVersionInfo after the process has (or has not) run: a failed probe
   * degrades to the unknown version with no vendor and no runtime name; a
   * completed one has each field parsed independently of the others.
   */
  function GetVersionInfo(p: Probe): (r: VersionInfo)
    ensures p.Failed? ==> r == VersionInfo(UnknownVersion, None, None)
    ensures r.version == UnknownVersion || (r.version != "" && '"' !in r.version)
    ensures p.Completed? && FindVersion(p.stderr).None? ==> r.version == UnknownVersion
    ensures r.vendor.Some? ==> exists k | 0 <= k < |VendorRules| :: r.vendor.value == VendorRules[k].vendor
    ensures r.runtimeName.Some? ==>
      r.runtimeName.value != "" && forall c | c in r.runtimeName.value :: IsNameChar(c)
    ensures p.Completed? && FindVersion(p.stderr).Some? ==> r.version == FindVersion(p.stderr).value.1
    ensures p.Completed? ==> r.vendor == DetectVendor(p.stderr)
    ensures p.Completed? ==> r.runtimeName == Capture(FindRuntimeName(p.stderr))
  {
    match p
    case Failed => VersionInfo(UnknownVersion, None, None)
    case Completed(err) =>
      var version := match FindVersion(err) case Some((_, v)) => v case None => UnknownVersion;
      var runtimeName := match FindRuntimeName(err) case Some((_, n)) => Some(n) case None => None;
      VersionInfo(version, DetectVendor(err), runtimeName)
  }
}

module VersionParsingFacts {
  import opened Wrappers
  import opened Text
  import opened VersionParsing

  /** A position where `m` matches, with no match before it, is what Leftmost finds. */
  lemma LeftmostIs(m: nat -> Option<string>, from: nat, to: nat, p: nat, v: string)
    requires from <= p < to && m(p) == Some(v)
    requires forall j: nat | from <= j < p :: m(j).None?
    ensures Leftmost(m, from, to) == Some((p, v))
  {
  }

  /** A pattern that matches nowhere in [from, to) has no leftmost match. */
  lemma LeftmostNone(m: nat -> Option<string>, from: nat, to: nat)
    requires forall j: nat | from <= j < to :: m(j).None?
    ensures Leftmost(m, from, to).None?
  {
  }

  /**
   * The second alternative of the version regex (`openjdk version ...`) never
   * changes the captured version: wherever it matches, the first alternative
   * matches eight characters later with the same capture, and nothing in
   * between can match. So the version is the capture of the leftmost
   * `version\s+"([^"]+)"`.
   */
  lemma VersionAlternativeRedundant(s: string)
    ensures Capture(FindVersion(s)) == Capture(Leftmost(VersionAlternative(s), 0, |s| + 1))
  {
    match FindVersion(s)
    case None => NoPatternNoVersion(s);
    case Some((pa, v)) =>
      if VersionAt(s, pa).Some? {
        FirstAlternativeAt(s, pa, v);
      } else {
        SecondAlternativeAt(s, pa, v);
      }
  }

  /** Where the pattern matches nowhere, neither does its first alternative. */
  lemma NoPatternNoVersion(s: string)
    requires FindVersion(s).None?
    ensures Leftmost(VersionAlternative(s), 0, |s| + 1).None?
  {
    var pattern := VersionPattern(s);
    var first := VersionAlternative(s);
    forall j: nat | j < |s| + 1 ensures first(j).None? {
      assert pattern(j).None?;
    }
    LeftmostNone(first, 0, |s| + 1);
  }

  /** No match of the first alternative comes before the leftmost match of the pattern. */
  lemma NoVersionBefore(s: string, pa: nat, v: string)
    requires FindVersion(s) == Some((pa, v))
    ensures pa <= |s| && VersionPattern(s)(pa) == Some(v)
    ensures forall j: nat | j < pa :: VersionAlternative(s)(j).None?
  {
    forall j: nat | j < pa ensures VersionAlternative(s)(j).None? {
      assert VersionPattern(s)(j).None?;
    }
  }

  /** The leftmost pattern match is by the first alternative: both searches agree. */
  lemma FirstAlternativeAt(s: string, pa: nat, v: string)
    requires FindVersion(s) == Some((pa, v)) && VersionAt(s, pa).Some?
    ensures Leftmost(VersionAlternative(s), 0, |s| + 1) == Some((pa, v))
  {
    NoVersionBefore(s, pa, v);
    assert VersionAlternative(s)(pa) == Some(v);
    AlternativeLeftmostAt(s, pa, v);
  }

  /** The leftmost pattern match is by the second alternative: the first finds the same text 8 later. */
  lemma SecondAlternativeAt(s: string, pa: nat, v: string)
    requires FindVersion(s) == Some((pa, v)) && VersionAt(s, pa).None?
    ensures Leftmost(VersionAlternative(s), 0, |s| + 1) == Some((pa + 8, v))
  {
    NoVersionBefore(s, pa, v);
    PatternFromOpenJdk(s, pa);
    NoVersionInOpenJdk(s, pa);
    assert VersionAlternative(s)(pa).None?;
    AlternativeLeftmostAt(s, pa + 8, v);
  }

  /** A match of the first alternative with none before it is what its search finds. */
  lemma AlternativeLeftmostAt(s: string, p: nat, v: string)
    requires p <= |s| && VersionAlternative(s)(p) == Some(v)
    requires forall j: nat | j < p :: VersionAlternative(s)(j).None?
    ensures Leftmost(VersionAlternative(s), 0, |s| + 1) == Some((p, v))
  {
    LeftmostIs(VersionAlternative(s), 0, |s| + 1, p, v);
  }

  /** Inside an occurrence of "openjdk " the first alternative matches nowhere. */
  lemma NoVersionInOpenJdk(s: string, i: nat)
    requires OccursAt(s, "openjdk version", i)
    ensures forall j: nat | i < j < i + 8 :: VersionAlternative(s)(j).None?
  {
    forall j: nat | i < j < i + 8 ensures VersionAlternative(s)(j).None? {
      OpenJdkHasNoVersionBefore(s, i, j);
    }
  }

  /** Where only the second alternative matches, the first matches eight characters later with the same capture. */
  lemma PatternFromOpenJdk(s: string, i: nat)
    requires VersionPatternAt(s, i).Some? && VersionAt(s, i).None?
    ensures OccursAt(s, "openjdk version", i)
    ensures VersionAlternative(s)(i + 8) == VersionPatternAt(s, i)
  {
    OpenJdkContainsVersion(s, i);
  }

  /** Each character of an ignore-case occurrence of "openjdk version" folds like the literal's. */
  lemma OpenJdkCharsAt(s: string, i: nat, k: nat)
    requires OccursAt(s, "openjdk version", i) && k < 15
    ensures ToUpperAscii(s[i + k]) == ToUpperAscii("openjdk version"[k])
  {
    assert Fold(s[i..i + 15])[k] == Fold("openjdk version")[k];
  }

  /** "openjdk version" contains "version" eight characters in. */
  lemma OpenJdkContainsVersion(s: string, i: nat)
    requires OccursAt(s, "openjdk version", i)
    ensures OccursAt(s, "version", i + 8)
  {
    assert Fold(s[i + 8..i + 15]) == Fold("version") by {
      forall k | 0 <= k < 7 ensures Fold(s[i + 8..i + 15])[k] == Fold("version")[k] {
        OpenJdkCharsAt(s, i, 8 + k);
      }
    }
  }

  /** No "version" starts inside the "openjdk " part. */
  lemma OpenJdkHasNoVersionBefore(s: string, i: nat, j: nat)
    requires OccursAt(s, "openjdk version", i) && i < j < i + 8
    ensures !OccursAt(s, "version", j)
  {
    OpenJdkCharsAt(s, i, j - i);
    assert ToUpperAscii(s[j]) != 'V';
    assert Fold("version")[0] == 'V';
    assert j + 7 <= |s| ==> Fold(s[j..j + 7])[0] == ToUpperAscii(s[j]);
  }

  /**
   * The runtime name is a whole word of the text: the leftmost match never
   * starts inside a run of name characters and it takes the whole run
   * (RuntimeNameFollowedByVersion adds that whitespace and "version" follow it).
   */
  lemma RuntimeNameIsWholeWord(s: string, p: nat, name: string)
    requires FindRuntimeName(s) == Some((p, name))
    ensures p + |name| <= |s| && name == s[p..p + |name|]
    ensures p == 0 || !IsNameChar(s[p - 1])
    ensures p + |name| == |s| || !IsNameChar(s[p + |name|])
  {
    var m := RuntimeNamePattern(s);
    assert m(p) == Some(name);
    RuntimeNameShape(s, p, name);
    if p > 0 && IsNameChar(s[p - 1]) {
      var q: nat := p - 1;
      RuntimeNameExtendsLeft(s, p, name);
      // the match one position earlier contradicts the leftmost choice of p
      ghost var earlier := m(q);
    }
  }

  /** A name match at `p` is a maximal run of name characters, as long as the captured name. */
  lemma RuntimeNameShape(s: string, p: nat, name: string)
    requires RuntimeNameAt(s, p) == Some(name)
    ensures p + |name| <= |s| && name == s[p..p + |name|]
    ensures p + |name| == |s| || !IsNameChar(s[p + |name|])
    ensures |name| == Span(s, p, IsNameChar)
  {
    var n := Span(s, p, IsNameChar);
    assert name == s[p..p + n];
  }

  /** A name match at `p` is followed by a run of whitespace and then "version". */
  lemma RuntimeNameFollowedByVersion(s: string, p: nat, name: string)
    requires RuntimeNameAt(s, p) == Some(name)
    ensures p + Span(s, p, IsNameChar) <= |s| && VersionFollows(s, p + Span(s, p, IsNameChar))
  {
  }

  /** A name match preceded by a name character is also a match one position earlier. */
  lemma RuntimeNameExtendsLeft(s: string, p: nat, name: string)
    requires RuntimeNameAt(s, p) == Some(name)
    requires p > 0 && IsNameChar(s[p - 1])
    ensures RuntimeNameAt(s, p - 1).Some?
  {
    RuntimeNameFollowedByVersion(s, p, name);
    var e := p + Span(s, p, IsNameChar);
    var q: nat := p - 1;
    assert q + Span(s, q, IsNameChar) == e;
    RuntimeNameAtIntro(s, q, e);
  }

  /** A run of name characters from `p` to `e` followed by whitespace and "version" is a match. */
  lemma RuntimeNameAtIntro(s: string, p: nat, e: nat)
    requires p < e <= |s| && p + Span(s, p, IsNameChar) == e
    requires VersionFollows(s, e)
    ensures RuntimeNameAt(s, p) == Some(s[p..e])
  {
  }

  /** No two vendor rules name the same vendor. */
  lemma VendorNamesDistinct()
    ensures forall i, j | 0 <= i < j < |VendorRules| :: VendorRules[i].vendor != VendorRules[j].vendor
  {
  }

  /**
   * Vendor precedence: when the text carries the markers of two rules, the
   * vendor is never the later rule's, wherever the markers stand in the text.
   */
  lemma VendorPrecedence(err: string, a: nat, b: nat)
    requires a < b < |VendorRules|
    requires ContainsIgnoreCase(err, VendorRules[a].marker)
    requires ContainsIgnoreCase(err, VendorRules[b].marker)
    ensures DetectVendor(err).Some? && DetectVendor(err) != Some(VendorRules[b].vendor)
  {
    var k := FirstVendorRule(err, 0);
    assert k.Some? && k.value <= a;
    VendorNamesDistinct();
  }

  /** A run of exactly `k` characters satisfying `p`, ended by the text or by another character, is the span. */
  lemma {:induction false} SpanExact(s: string, j: nat, k: nat, p: char -> bool)
    requires j + k <= |s| && forall i | j <= i < j + k :: p(s[i])
    requires j + k == |s| || !p(s[j + k])
    ensures Span(s, j, p) == k
    decreases k
  {
    if k > 0 {
      SpanExact(s, j + 1, k - 1, p);
    }
  }

  /**
   * Converse of QuotedAfter's contract: whitespace, a quote, a non-empty
   * quote-free token and a closing quote from `j` on are matched, and the
   * token is what is captured.
   */
  lemma QuotedAfterIntro(s: string, j: nat, q: nat, v: string)
    requires QuotedTokenAt(s, j, q, v)
    ensures QuotedAfter(s, j) == Some(v)
  {
    forall i | j <= i < q ensures IsWhiteSpace(s[i]) {
      assert s[j..q][i - j] == s[i];
    }
    SpanExact(s, j, q - j, IsWhiteSpace);
    forall i | q + 1 <= i < q + 1 + |v| ensures IsNotQuote(s[i]) {
      assert v[i - q - 1] == s[i];
    }
    SpanExact(s, q + 1, |v|, IsNotQuote);
  }

  /** `version` followed by `\s+"v"` is a match of the version regex capturing `v`. */
  lemma VersionPatternIntro(s: string, i: nat, q: nat, v: string)
    requires OccursAt(s, "version", i) && QuotedTokenAt(s, i + 7, q, v)
    ensures VersionPatternAt(s, i) == Some(v)
  {
    QuotedAfterIntro(s, i + 7, q, v);
  }

  /** `openjdk version` followed by `\s+"v"` is a match of the version regex capturing `v`. */
  lemma OpenJdkPatternIntro(s: string, i: nat, q: nat, v: string)
    requires OccursAt(s, "openjdk version", i) && QuotedTokenAt(s, i + 15, q, v)
    ensures VersionPatternAt(s, i) == Some(v)
  {
    OpenJdkCharsAt(s, i, 0);
    assert Fold("version")[0] == 'V';
    assert Fold(s[i..i + 7])[0] == ToUpperAscii(s[i]);
    assert !OccursAt(s, "version", i);
    QuotedAfterIntro(s, i + 15, q, v);
  }

  /** The first line of a typical OpenJDK banner yields the quoted version. */
  lemma OpenJdkBannerVersion()
    ensures GetVersionInfo(Completed("openjdk version \"21.0.1\" 2023-10-17")).version == "21.0.1"
  {
    var s := "openjdk version \"21.0.1\" 2023-10-17";
    assert s[0..15] == "openjdk version";
    assert OccursAt(s, "openjdk version", 0);
    assert s[15..16] == " " && s[17..23] == "21.0.1";
    assert QuotedTokenAt(s, 15, 16, "21.0.1");
    OpenJdkPatternIntro(s, 0, 16, "21.0.1");
    LeftmostIs(VersionPattern(s), 0, |s| + 1, 0, "21.0.1");
  }
}
