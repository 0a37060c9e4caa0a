/**
 Which of two versions is newer: semantic version precedence as the runtime service
 computes it.  Text is ASCII.
 */
module VersionOrder {
  import opened Common
  import opened Ordering
  import opened Decimal
  import opened Text

  // ---------------------------------------------------------------------------
  // Pre-release identifiers
  // ---------------------------------------------------------------------------

  /** One round of the loop in `_compare_prerelease`: 0 means `continue`. */
  function CompareIdentifier(a: string, b: string): int {
    if a == b then 0
    else if IsNumber(a) && IsNumber(b) then
      (if ToNat(a) != ToNat(b) then (if ToNat(a) > ToNat(b) then 1 else -1) else 0)
    else if IsNumber(a) then -1
    else if IsNumber(b) then 1
    else if CompareText(a, b) > 0 then 1 else -1
  }

  lemma {:induction false} IdentifiersRank()
    ensures Ranks(CompareIdentifier)
  {
    TextRanks();
    forall a, b
      ensures CompareIdentifier(a, b) == -CompareIdentifier(b, a)
    {
      TextTie(a, b);
      assert CompareText(a, b) == -CompareText(b, a);
    }
    forall a, b, c | CompareIdentifier(a, b) <= 0 && CompareIdentifier(b, c) <= 0
      ensures CompareIdentifier(a, c) <= 0
    {
      TextTie(a, b);
      TextTie(b, c);
      TextTie(a, c);
      assert CompareText(a, b) <= 0 && CompareText(b, c) <= 0 ==> CompareText(a, c) <= 0;
    }
  }

  /** The loop over `zip` and the comparison of lengths after it. */
  method CompareIdentifierLists(candidate: seq<string>, current: seq<string>) returns (r: int)
    ensures r == Lex(CompareIdentifier, candidate, current)
  {
    var n := if |candidate| < |current| then |candidate| else |current|;
    for i := 0 to n
      invariant forall k :: 0 <= k < i ==> CompareIdentifier(candidate[k], current[k]) == 0
    {
      var a, b := candidate[i], current[i];
      if a == b {
        continue;
      }
      if IsNumber(a) && IsNumber(b) {
        var x, y := ToNat(a), ToNat(b);
        if x != y {
          LexDecided(CompareIdentifier, candidate, current, i);
          return if x > y then 1 else -1;
        }
        continue;
      }
      LexDecided(CompareIdentifier, candidate, current, i);
      if IsNumber(a) {
        return -1;
      }
      if IsNumber(b) {
        return 1;
      }
      return if CompareText(a, b) > 0 then 1 else -1;
    }
    LexDecided(CompareIdentifier, candidate, current, n);
    if |candidate| == |current| {
      return 0;
    }
    return if |candidate| > |current| then 1 else -1;
  }

  /** `_compare_prerelease`: a release, `None`, is above all its pre-releases. */
  function ComparePrerelease(a: Option<string>, b: Option<string>): int {
    match (a, b)
    case (None, None) => 0
    case (None, Some(_)) => 1
    case (Some(_), None) => -1
    case (Some(x), Some(y)) => Lex(CompareIdentifier, Split(x, '.'), Split(y, '.'))
  }

  lemma {:induction false} PrereleasesRank()
    ensures Ranks(ComparePrerelease)
  {
    IdentifiersRank();
    forall a, b
      ensures ComparePrerelease(a, b) == -ComparePrerelease(b, a)
    {
      if a.Some? && b.Some? {
        LexAntisymmetric(CompareIdentifier, Split(a.value, '.'), Split(b.value, '.'));
      }
    }
    forall a, b, c | ComparePrerelease(a, b) <= 0 && ComparePrerelease(b, c) <= 0
      ensures ComparePrerelease(a, c) <= 0
    {
      if a.Some? && b.Some? && c.Some? {
        LexTransitive(CompareIdentifier, Split(a.value, '.'), Split(b.value, '.'), Split(c.value, '.'));
      }
    }
  }

  // ---------------------------------------------------------------------------
  // Section 11.4 of Semantic Versioning 2.0.0
  // ---------------------------------------------------------------------------

  /** 11.4.1 to 11.4.3: numeric identifiers numerically, others in ASCII order,
      numeric below non-numeric. */
  ghost predicate HigherField(a: string, b: string) {
    || (IsNumber(a) && IsNumber(b) && ToNat(a) > ToNat(b))
    || (!IsNumber(a) && IsNumber(b))
    || (!IsNumber(a) && !IsNumber(b) && After(a, b))
  }

  ghost predicate LevelField(a: string, b: string) {
    !HigherField(a, b) && !HigherField(b, a)
  }

  /** 11.4: left to right until a difference is found; 11.4.4: if there is none, the
      larger set of fields is higher. */
  ghost predicate HigherFields(a: seq<string>, b: seq<string>) {
    exists k ::
      && 0 <= k <= |a| && k <= |b|
      && (forall i :: 0 <= i < k ==> LevelField(a[i], b[i]))
      && ((k < |a| && k < |b| && HigherField(a[k], b[k])) || (k == |b| < |a|))
  }

  lemma {:induction false} FieldsMatch(a: string, b: string)
    ensures CompareIdentifier(a, b) > 0 <==> HigherField(a, b)
    ensures CompareIdentifier(a, b) == 0 <==> LevelField(a, b)
  {
    IdentifiersRank();
    TextRanks();
    TextTie(a, b);
    TextTie(a, a);
    TextOrderExactly(a, b);
    TextOrderExactly(b, a);
    assert CompareText(a, b) == -CompareText(b, a);
    assert CompareIdentifier(a, b) == -CompareIdentifier(b, a);
  }

  /** The first position where two lists are decided. */
  function Decision(a: seq<string>, b: seq<string>): (k: nat)
    ensures DecidedAt(CompareIdentifier, a, b, k)
    decreases |a|
  {
    if a == [] || b == [] || CompareIdentifier(a[0], b[0]) != 0 then 0
    else
      var k := Decision(a[1..], b[1..]);
      assert forall i :: 0 < i < k + 1 ==> a[i] == a[1..][i - 1] && b[i] == b[1..][i - 1];
      k + 1
  }

  /** The comparison is the precedence of the standard, on lists of any length. */
  lemma {:induction false} PrecedenceIsSemVer(a: seq<string>, b: seq<string>)
    ensures Lex(CompareIdentifier, a, b) > 0 <==> HigherFields(a, b)
  {
    var d := Decision(a, b);
    LexDecided(CompareIdentifier, a, b, d);
    forall i | 0 <= i < |a| && i < |b|
      ensures CompareIdentifier(a[i], b[i]) > 0 <==> HigherField(a[i], b[i])
      ensures CompareIdentifier(a[i], b[i]) == 0 <==> LevelField(a[i], b[i])
    {
      FieldsMatch(a[i], b[i]);
    }
    if HigherFields(a, b) {
      var k :| && 0 <= k <= |a| && k <= |b|
               && (forall i :: 0 <= i < k ==> LevelField(a[i], b[i]))
               && ((k < |a| && k < |b| && HigherField(a[k], b[k])) || (k == |b| < |a|));
      assert DecidedAt(CompareIdentifier, a, b, k);
      LexDecided(CompareIdentifier, a, b, k);
    }
  }

  /** Equal text, or numbers that differ in leading zeros only. */
  predicate SameField(a: string, b: string) {
    a == b || (IsNumber(a) && IsNumber(b) && ToNat(a) == ToNat(b))
  }

  /** Which lists tie, exactly. */
  lemma {:induction false} TiesExactly(a: seq<string>, b: seq<string>)
    ensures Lex(CompareIdentifier, a, b) == 0
            <==> |a| == |b| && forall i :: 0 <= i < |a| ==> SameField(a[i], b[i])
  {
    var d := Decision(a, b);
    LexDecided(CompareIdentifier, a, b, d);
    forall i | 0 <= i < |a| && i < |b|
      ensures CompareIdentifier(a[i], b[i]) == 0 <==> SameField(a[i], b[i])
    {
      TextTie(a[i], b[i]);
    }
  }

  /** An identifier without a leading zero if numeric, as the standard demands; the
      standard also forbids the empty one, which makes no difference here. */
  predicate ValidField(s: string) {
    IsNumber(s) ==> IsPlainNumber(s)
  }

  predicate ValidFields(a: seq<string>) {
    forall i :: 0 <= i < |a| ==> ValidField(a[i])
  }

  /** Without leading zeros only equal lists tie. */
  lemma {:induction false} ValidTiesAreEqual(a: seq<string>, b: seq<string>)
    requires ValidFields(a) && ValidFields(b)
    ensures Lex(CompareIdentifier, a, b) == 0 <==> a == b
  {
    TiesExactly(a, b);
    forall i | 0 <= i < |a| && i < |b| && SameField(a[i], b[i])
      ensures a[i] == b[i]
    {
      if a[i] != b[i] {
        PlainNumbersAreUnique(a[i], b[i]);
      }
    }
  }

  // ---------------------------------------------------------------------------
  // Whole versions
  // ---------------------------------------------------------------------------

  datatype ParsedVersion = ParsedVersion(major: nat, minor: nat, patch: nat, prerelease: Option<string>)

  predicate IsNewer(candidate: ParsedVersion, current: ParsedVersion) {
    if candidate.major != current.major then candidate.major > current.major
    else if candidate.minor != current.minor then candidate.minor > current.minor
    else if candidate.patch != current.patch then candidate.patch > current.patch
    else if candidate.prerelease.None? && current.prerelease.Some? then true
    else if candidate.prerelease.Some? && current.prerelease.None? then false
    else if candidate.prerelease.None? && current.prerelease.None? then false
    else ComparePrerelease(candidate.prerelease, current.prerelease) > 0
  }

  /** A strict weak order: irreflexive, transitive, and being level is transitive. */
  lemma {:induction false} IsNewerIsStrictWeakOrder(a: ParsedVersion, b: ParsedVersion, c: ParsedVersion)
    ensures !IsNewer(a, a)
    ensures IsNewer(a, b) ==> !IsNewer(b, a)
    ensures IsNewer(a, b) && IsNewer(b, c) ==> IsNewer(a, c)
    ensures !IsNewer(a, b) && !IsNewer(b, a) && !IsNewer(b, c) && !IsNewer(c, b) ==> !IsNewer(a, c) && !IsNewer(c, a)
  {
    PrereleasesRank();
    assert Ranks(ComparePrerelease);
    var x, y, z := a.prerelease, b.prerelease, c.prerelease;
    assert ComparePrerelease(x, x) == -ComparePrerelease(x, x);
    assert ComparePrerelease(x, y) == -ComparePrerelease(y, x);
    assert ComparePrerelease(y, z) == -ComparePrerelease(z, y);
    assert ComparePrerelease(x, z) == -ComparePrerelease(z, x);
    assert ComparePrerelease(x, y) <= 0 && ComparePrerelease(y, z) <= 0 ==> ComparePrerelease(x, z) <= 0;
    assert ComparePrerelease(z, y) <= 0 && ComparePrerelease(y, x) <= 0 ==> ComparePrerelease(z, x) <= 0;
    assert ComparePrerelease(y, z) <= 0 && ComparePrerelease(z, x) <= 0 ==> ComparePrerelease(y, x) <= 0;
    assert ComparePrerelease(z, x) <= 0 && ComparePrerelease(x, y) <= 0 ==> ComparePrerelease(z, y) <= 0;
  }

  /** Section 11.3: a release is above its pre-releases; 11.4 for two of those. */
  ghost predicate HigherPrerelease(a: Option<string>, b: Option<string>) {
    || (a.None? && b.Some?)
    || (a.Some? && b.Some? && HigherFields(Split(a.value, '.'), Split(b.value, '.')))
  }

  /** Section 11 of Semantic Versioning 2.0.0: major, minor and patch numerically, the
      first difference deciding; then the pre-releases. */
  ghost predicate Higher(a: ParsedVersion, b: ParsedVersion) {
    || a.major > b.major
    || (a.major == b.major && a.minor > b.minor)
    || (a.major == b.major && a.minor == b.minor && a.patch > b.patch)
    || (a.major == b.major && a.minor == b.minor && a.patch == b.patch && HigherPrerelease(a.prerelease, b.prerelease))
  }

  /** Newer is higher precedence, on every two versions. */
  lemma {:induction false} NewerIsHigher(a: ParsedVersion, b: ParsedVersion)
    ensures IsNewer(a, b) <==> Higher(a, b)
  {
    if a.prerelease.Some? && b.prerelease.Some? {
      PrecedenceIsSemVer(Split(a.prerelease.value, '.'), Split(b.prerelease.value, '.'));
    }
  }

  predicate Level(a: ParsedVersion, b: ParsedVersion) {
    !IsNewer(a, b) && !IsNewer(b, a)
  }

  ghost predicate SamePrerelease(a: Option<string>, b: Option<string>) {
    if a.None? || b.None? then a == b
    else
      var x, y := Split(a.value, '.'), Split(b.value, '.');
      |x| == |y| && forall i :: 0 <= i < |x| ==> SameField(x[i], y[i])
  }

  /** Which versions are level, exactly: the same numbers and, identifier by
      identifier, the same pre-release up to leading zeros. */
  lemma {:induction false} LevelExactly(a: ParsedVersion, b: ParsedVersion)
    ensures Level(a, b) <==>
              && a.major == b.major && a.minor == b.minor && a.patch == b.patch
              && SamePrerelease(a.prerelease, b.prerelease)
  {
    PrereleasesRank();
    assert ComparePrerelease(a.prerelease, b.prerelease) == -ComparePrerelease(b.prerelease, a.prerelease);
    if a.prerelease.Some? && b.prerelease.Some? {
      TiesExactly(Split(a.prerelease.value, '.'), Split(b.prerelease.value, '.'));
    }
  }

  predicate NoLeadingZeros(v: ParsedVersion) {
    v.prerelease.Some? ==> ValidFields(Split(v.prerelease.value, '.'))
  }

  /** Without leading zeros only equal versions are level, so "newer" is then total. */
  lemma {:induction false} LevelIsEqual(a: ParsedVersion, b: ParsedVersion)
    requires NoLeadingZeros(a) && NoLeadingZeros(b)
    ensures Level(a, b) <==> a == b
  {
    LevelExactly(a, b);
    if a.prerelease.Some? && b.prerelease.Some? {
      var x, y := Split(a.prerelease.value, '.'), Split(b.prerelease.value, '.');
      TiesExactly(x, y);
      ValidTiesAreEqual(x, y);
      SplitThenJoin(a.prerelease.value, '.');
      SplitThenJoin(b.prerelease.value, '.');
    }
  }

  // ---------------------------------------------------------------------------
  // Reading versions
  // ---------------------------------------------------------------------------

  predicate IsPrereleaseChar(c: char) {
    IsDigit(c) || 'A' <= c <= 'Z' || 'a' <= c <= 'z' || c == '.' || c == '-'
  }

  /** Hyphen, full stop, digits and the letters of ASCII. */
  lemma {:induction false} PrereleaseCharsExactly(c: char)
    ensures var n := c as int;
            IsPrereleaseChar(c) <==> n == 45 || n == 46 || 48 <= n <= 57 || 65 <= n <= 90 || 97 <= n <= 122
  {
  }

  predicate IsPrerelease(s: string) {
    s != [] && forall i :: 0 <= i < |s| ==> IsPrereleaseChar(s[i])
  }

  function FromTriple(t: Triple): Option<ParsedVersion> {
    if !IsPlainNumber(t.major) || !IsPlainNumber(t.minor) || !IsPlainNumber(t.patch) then None
    else if t.rest == [] then Some(ParsedVersion(ToNat(t.major), ToNat(t.minor), ToNat(t.patch), None))
    else if t.rest[0] == '-' && IsPrerelease(t.rest[1..]) then
      Some(ParsedVersion(ToNat(t.major), ToNat(t.minor), ToNat(t.patch), Some(t.rest[1..])))
    else None
  }

  function ReadVersion(text: string): Option<ParsedVersion> {
    match TakeTriple(text)
    case None => None
    case Some(t) => FromTriple(t)
  }

  /** `_parse_version`. */
  function ParseVersion(value: string): Option<ParsedVersion> {
    var text := Strip(value);
    if text != [] && text[0] == 'v' then ReadVersion(text[1..]) else ReadVersion(text)
  }

  function Render(v: ParsedVersion): string {
    Dotted(FromNat(v.major), FromNat(v.minor), FromNat(v.patch)) + Suffix(v.prerelease)
  }

  predicate WellFormed(v: ParsedVersion) {
    v.prerelease.Some? ==> IsPrerelease(v.prerelease.value)
  }

  function Suffix(prerelease: Option<string>): string {
    if prerelease.None? then "" else "-" + prerelease.value
  }

  lemma {:induction false} SuffixIsRead(a: string, b: string, c: string, prerelease: Option<string>)
    requires IsPlainNumber(a) && IsPlainNumber(b) && IsPlainNumber(c)
    requires prerelease.Some? ==> IsPrerelease(prerelease.value)
    ensures FromTriple(Triple(a, b, c, Suffix(prerelease)))
            == Some(ParsedVersion(ToNat(a), ToNat(b), ToNat(c), prerelease))
  {
    assert prerelease.Some? ==> Suffix(prerelease)[1..] == prerelease.value;
  }

  lemma {:induction false} ReadParts(a: string, b: string, c: string, prerelease: Option<string>)
    requires IsPlainNumber(a) && IsPlainNumber(b) && IsPlainNumber(c)
    requires prerelease.Some? ==> IsPrerelease(prerelease.value)
    ensures ReadVersion(Dotted(a, b, c) + Suffix(prerelease))
            == Some(ParsedVersion(ToNat(a), ToNat(b), ToNat(c), prerelease))
  {
    TakeTripleExact(a, b, c, Suffix(prerelease));
    SuffixIsRead(a, b, c, prerelease);
  }

  lemma {:induction false} ReadRendered(v: ParsedVersion)
    requires WellFormed(v)
    ensures ReadVersion(Render(v)) == Some(v)
  {
    FromNatIsPlain(v.major);
    FromNatIsPlain(v.minor);
    FromNatIsPlain(v.patch);
    PrintThenRead(v.major);
    PrintThenRead(v.minor);
    PrintThenRead(v.patch);
    ReadParts(FromNat(v.major), FromNat(v.minor), FromNat(v.patch), v.prerelease);
  }

  lemma {:induction false} ReadIsRendered(text: string)
    requires ReadVersion(text).Some?
    ensures WellFormed(ReadVersion(text).value) && Render(ReadVersion(text).value) == text
  {
    TakeTripleSound(text);
    var t := TakeTriple(text).value;
    ReadThenPrint(t.major);
    ReadThenPrint(t.minor);
    ReadThenPrint(t.patch);
    if t.rest != [] {
      assert t.rest == "-" + t.rest[1..];
    }
  }

  /** A value parses to `v` exactly when, stripped, it is `v` written out, with or
      without a leading `v`. */
  lemma {:induction false} ParseIsExact(value: string, v: ParsedVersion)
    ensures ParseVersion(value) == Some(v) <==>
              WellFormed(v) && (Strip(value) == Render(v) || Strip(value) == "v" + Render(v))
  {
    var text := Strip(value);
    if ParseVersion(value) == Some(v) {
      if text != [] && text[0] == 'v' {
        ReadIsRendered(text[1..]);
        assert text == "v" + text[1..];
      } else {
        ReadIsRendered(text);
      }
    }
    if WellFormed(v) {
      ReadRendered(v);
      FromNatIsPlain(v.major);
      assert Render(v)[0] == FromNat(v.major)[0];
      assert ("v" + Render(v))[1..] == Render(v);
    }
  }

  /** `_is_newer_version`: text that is not a version is never newer, nor older. */
  predicate IsNewerVersion(candidate: string, current: string) {
    var a, b := ParseVersion(candidate), ParseVersion(current);
    a.Some? && b.Some? && IsNewer(a.value, b.value)
  }

  /** The text of a version as the program may receive it. */
  predicate IsTextOf(text: string, v: ParsedVersion) {
    WellFormed(v) && (Strip(text) == Render(v) || Strip(text) == "v" + Render(v))
  }

  /** On the texts of two versions "newer" is higher precedence. */
  lemma {:induction false} NewerTextIsHigher(candidate: string, current: string, a: ParsedVersion, b: ParsedVersion)
    requires IsTextOf(candidate, a) && IsTextOf(current, b)
    ensures IsNewerVersion(candidate, current) <==> Higher(a, b)
  {
    ParseIsExact(candidate, a);
    ParseIsExact(current, b);
    NewerIsHigher(a, b);
  }

  /** On texts, too, "newer" is a strict weak order.  That being level is transitive
      needs a text in the middle that parses: any other is level with everything. */
  lemma {:induction false} NewerTextIsStrictWeakOrder(a: string, b: string, c: string)
    ensures !IsNewerVersion(a, a)
    ensures IsNewerVersion(a, b) && IsNewerVersion(b, c) ==> IsNewerVersion(a, c)
    ensures ParseVersion(b).Some?
            && !IsNewerVersion(a, b) && !IsNewerVersion(b, a) && !IsNewerVersion(b, c) && !IsNewerVersion(c, b)
            ==> !IsNewerVersion(a, c) && !IsNewerVersion(c, a)
    ensures ParseVersion(b).None? ==> !IsNewerVersion(a, b) && !IsNewerVersion(b, a)
  {
    var x, y, z := ParseVersion(a), ParseVersion(b), ParseVersion(c);
    if x.Some? {
      IsNewerIsStrictWeakOrder(x.value, x.value, x.value);
      if y.Some? && z.Some? {
        IsNewerIsStrictWeakOrder(x.value, y.value, z.value);
      }
    }
  }

  /** The version 1.0.0 with one identifier, read from its text. */
  lemma {:induction false} ParseOne(field: string)
    requires IsPrerelease(field) && !IsSpace(field[|field| - 1])
    ensures ParseVersion("1.0.0-" + field) == Some(ParsedVersion(1, 0, 0, Some(field)))
  {
    var text, v := "1.0.0-" + field, ParsedVersion(1, 0, 0, Some(field));
    assert FromNat(1) == "1" && FromNat(0) == "0";
    assert Render(v) == "1.0.0" + ("-" + field) == text;
    assert text[0] == '1' && text[|text| - 1] == field[|field| - 1];
    assert Strip(text) == text;
    ParseIsExact(text, v);
  }

  lemma {:induction false} OneInDigits()
    ensures IsNumber("01") && IsNumber("1") && ToNat("01") == ToNat("1")
  {
    assert "01"[..1] == "0" && "0"[..0] == [] && "1"[..0] == [];
    assert ToNat("0") == 0;
  }

  lemma {:induction false} OnesAreLevel()
    ensures Level(ParsedVersion(1, 0, 0, Some("01")), ParsedVersion(1, 0, 0, Some("1")))
  {
    OneInDigits();
    SplitWhole("01", '.');
    SplitWhole("1", '.');
    LevelExactly(ParsedVersion(1, 0, 0, Some("01")), ParsedVersion(1, 0, 0, Some("1")));
  }

  /** The pattern admits leading zeros, which the standard forbids: two texts that
      differ, both parse, and neither is newer. */
  lemma {:induction false} LeadingZeroTies()
    ensures ParseVersion("1.0.0-01").Some? && ParseVersion("1.0.0-1").Some?
    ensures !IsNewerVersion("1.0.0-01", "1.0.0-1") && !IsNewerVersion("1.0.0-1", "1.0.0-01")
  {
    ParseOne("01");
    ParseOne("1");
    assert "1.0.0-" + "01" == "1.0.0-01" && "1.0.0-" + "1" == "1.0.0-1";
    OnesAreLevel();
  }
}
