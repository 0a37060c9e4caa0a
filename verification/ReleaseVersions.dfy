/**
 Release version spelling: `X.Y.Z` and `X.Y.Z-(alpha|beta|rc).N`, the tag `v...`,
 and the PEP 440 spelling `X.Y.Z(a|b|rc)N`.  Text is ASCII.
 */
module ReleaseVersions {
  import opened Common
  import opened Decimal

  datatype Channel = Stable | Alpha | Beta | Rc

  datatype ReleaseVersion = ReleaseVersion(version: string, base: string, channel: Channel, serial: Option<nat>)

  /** What stands between base and serial. */
  function Infix(c: Channel): string
    requires !c.Stable?
  {
    match c
    case Alpha => "-alpha."
    case Beta => "-beta."
    case Rc => "-rc."
  }

  function Pep440Name(c: Channel): string
    requires !c.Stable?
  {
    match c
    case Alpha => "a"
    case Beta => "b"
    case Rc => "rc"
  }

  /** `\d+\.\d+\.\d+`. */
  ghost predicate IsBase(s: string) {
    exists a, b, c :: IsNumber(a) && IsNumber(b) && IsNumber(c) && s == Dotted(a, b, c)
  }

  /** The grammar: which text spells which base, channel and serial. */
  ghost predicate Spells(text: string, base: string, channel: Channel, serial: string) {
    && IsBase(base)
    && if channel.Stable? then serial == [] && text == base
       else IsSerial(serial) && text == base + (Infix(channel) + serial)
  }

  ghost predicate SpellsPep440(text: string, base: string, channel: Channel, serial: string) {
    IsBase(base) && !channel.Stable? && IsSerial(serial) && text == base + (Pep440Name(channel) + serial)
  }

  // ---------------------------------------------------------------------------
  // Parsing and printing
  // ---------------------------------------------------------------------------

  predicate StartsWith(s: string, prefix: string) {
    |prefix| <= |s| && s[..|prefix|] == prefix
  }

  /** A suffix `prefix + serial`, if that is what `s` is. */
  function SerialAfter(s: string, prefix: string): Option<string> {
    if StartsWith(s, prefix) && IsSerial(s[|prefix|..]) then Some(s[|prefix|..]) else None
  }

  /** Base, channel and serial as the version pattern captures them. */
  function MatchVersion(s: string): Option<(string, Channel, string)> {
    match TakeTriple(s)
    case None => None
    case Some(Triple(a, b, c, rest)) =>
      var base := Dotted(a, b, c);
      if rest == [] then Some((base, Stable, []))
      else if SerialAfter(rest, Infix(Alpha)).Some? then Some((base, Alpha, SerialAfter(rest, Infix(Alpha)).value))
      else if SerialAfter(rest, Infix(Beta)).Some? then Some((base, Beta, SerialAfter(rest, Infix(Beta)).value))
      else if SerialAfter(rest, Infix(Rc)).Some? then Some((base, Rc, SerialAfter(rest, Infix(Rc)).value))
      else None
  }

  function ParseVersion(version: string): Option<ReleaseVersion> {
    match MatchVersion(version)
    case None => None
    case Some((base, channel, serial)) =>
      Some(ReleaseVersion(version, base, channel, if IsSerial(serial) then Some(ToNat(serial)) else None))
  }

  /** The tag pattern, scanned on its own: `v`, three numbers, and optionally a channel
      name and a serial.  Its one group is the text after the `v`. */
  function MatchTag(tag: string): Option<string> {
    if !StartsWith(tag, "v") then None
    else
      match TakeTriple(tag[1..])
      case None => None
      case Some(Triple(_, _, _, rest)) => if rest == [] || IsTagSuffix(rest) then Some(tag[1..]) else None
  }

  /** `-(?:alpha|beta|rc)\.[1-9]\d*`: hyphen, letters, dot, serial. */
  predicate IsTagSuffix(rest: string) {
    && rest != [] && rest[0] == '-'
    && var name := TakeLetters(rest[1..]);
       && name in {"alpha", "beta", "rc"}
       && 1 + |name| < |rest| && rest[1 + |name|] == '.'
       && IsSerial(rest[2 + |name|..])
  }

  /** The letters at the front. */
  function TakeLetters(s: string): (letters: string)
    ensures |letters| <= |s| && s[..|letters|] == letters
  {
    if s == [] || !('a' <= s[0] <= 'z') then [] else [s[0]] + TakeLetters(s[1..])
  }

  function ParseTag(tag: string): Option<ReleaseVersion> {
    match MatchTag(tag)
    case None => None
    case Some(version) => ParseVersion(version)
  }

  function Tag(r: ReleaseVersion): string {
    "v" + r.version
  }

  function PypiVersion(r: ReleaseVersion): string {
    if r.channel.Stable? then r.version
    else r.base + (Pep440Name(r.channel) + (if r.serial.Some? then FromNat(r.serial.value) else "None"))
  }

  function MatchPep440(s: string): (r: Option<(string, Channel, string)>)
    ensures r.Some? ==> !r.value.1.Stable?
  {
    match TakeTriple(s)
    case None => None
    case Some(Triple(a, b, c, rest)) =>
      var base := Dotted(a, b, c);
      if SerialAfter(rest, Pep440Name(Alpha)).Some? then Some((base, Alpha, SerialAfter(rest, Pep440Name(Alpha)).value))
      else if SerialAfter(rest, Pep440Name(Beta)).Some? then
        Some((base, Beta, SerialAfter(rest, Pep440Name(Beta)).value))
      else if SerialAfter(rest, Pep440Name(Rc)).Some? then Some((base, Rc, SerialAfter(rest, Pep440Name(Rc)).value))
      else None
  }

  function CanonicalReleaseVersion(value: string): string {
    match MatchPep440(value)
    case None => value
    case Some((base, channel, serial)) => base + (Infix(channel) + serial)
  }

  // ---------------------------------------------------------------------------
  // The patterns match exactly the grammar, in exactly one way
  // ---------------------------------------------------------------------------

  lemma {:induction false} BaseThen(base: string, rest: string)
    requires IsBase(base) && NoDigitFirst(rest)
    ensures TakeTriple(base + rest).Some?
    ensures var t := TakeTriple(base + rest).value;
            base == Dotted(t.major, t.minor, t.patch) && t.rest == rest
  {
    var a, b, c :| IsNumber(a) && IsNumber(b) && IsNumber(c) && base == Dotted(a, b, c);
    TakeTripleExact(a, b, c, rest);
  }

  lemma {:induction false} TripleBase(s: string)
    requires TakeTriple(s).Some?
    ensures var t := TakeTriple(s).value;
            var base := Dotted(t.major, t.minor, t.patch);
            IsBase(base) && NoDigitFirst(t.rest) && s == base + t.rest
  {
    TakeTripleSound(s);
  }

  lemma {:induction false} SerialAfterExact(prefix: string, serial: string)
    requires IsSerial(serial)
    ensures SerialAfter(prefix + serial, prefix) == Some(serial)
  {
    assert (prefix + serial)[..|prefix|] == prefix && (prefix + serial)[|prefix|..] == serial;
  }

  lemma {:induction false} Differs(s: string, prefix: string, i: nat)
    requires i < |s| && i < |prefix|
    ensures s[i] != prefix[i] ==> SerialAfter(s, prefix).None?
  {
    if StartsWith(s, prefix) {
      assert s[..|prefix|][i] == s[i];
    }
  }

  lemma {:induction false} SerialAfterSound(s: string, prefix: string)
    requires SerialAfter(s, prefix).Some?
    ensures IsSerial(SerialAfter(s, prefix).value) && s == prefix + SerialAfter(s, prefix).value
  {
  }

  lemma {:induction false} MatchVersionExact(text: string, base: string, channel: Channel, serial: string)
    requires Spells(text, base, channel, serial)
    ensures MatchVersion(text) == Some((base, channel, serial))
  {
    if channel.Stable? {
      assert base + [] == base;
      BaseThen(base, []);
    } else {
      var rest := Infix(channel) + serial;
      BaseThen(base, rest);
      SerialAfterExact(Infix(channel), serial);
      assert rest[1] == Infix(channel)[1];
      Differs(rest, Infix(Alpha), 1);
      Differs(rest, Infix(Beta), 1);
      Differs(rest, Infix(Rc), 1);
    }
  }

  lemma {:induction false} MatchVersionSound(text: string)
    requires MatchVersion(text).Some?
    ensures var m := MatchVersion(text).value;
            Spells(text, m.0, m.1, m.2)
  {
    TripleBase(text);
    var t := TakeTriple(text).value;
    var base := Dotted(t.major, t.minor, t.patch);
    if t.rest == [] {
      assert base + t.rest == base;
    } else {
      var m := MatchVersion(text).value;
      SerialAfterSound(t.rest, Infix(m.1));
    }
  }

  /** `parse_version` accepts exactly the grammar, and reads it in the only way. */
  lemma {:induction false} ParseIsExact(text: string, base: string, channel: Channel, serial: string)
    ensures Spells(text, base, channel, serial) <==> MatchVersion(text) == Some((base, channel, serial))
    ensures Spells(text, base, channel, serial) ==>
              ParseVersion(text) == Some(ReleaseVersion(text, base, channel,
                                                        if channel.Stable? then None else Some(ToNat(serial))))
    ensures ParseVersion(text).None? ==> !Spells(text, base, channel, serial)
  {
    if Spells(text, base, channel, serial) {
      MatchVersionExact(text, base, channel, serial);
    }
    if MatchVersion(text).Some? {
      MatchVersionSound(text);
    }
  }

  lemma {:induction false} MatchPep440Exact(text: string, base: string, channel: Channel, serial: string)
    requires SpellsPep440(text, base, channel, serial)
    ensures MatchPep440(text) == Some((base, channel, serial))
  {
    var name := Pep440Name(channel);
    BaseThen(base, name + serial);
    SerialAfterExact(name, serial);
    Differs(name + serial, Pep440Name(Alpha), 0);
    Differs(name + serial, Pep440Name(Beta), 0);
  }

  lemma {:induction false} MatchPep440Sound(text: string)
    requires MatchPep440(text).Some?
    ensures var m := MatchPep440(text).value;
            SpellsPep440(text, m.0, m.1, m.2)
  {
    TripleBase(text);
    SerialAfterSound(TakeTriple(text).value.rest, Pep440Name(MatchPep440(text).value.1));
  }

  // ---------------------------------------------------------------------------
  // Round trips
  // ---------------------------------------------------------------------------

  /** A text never has both spellings: after the base one has a letter, the other a
      hyphen or nothing. */
  lemma {:induction false} SpellingsAreDisjoint(text: string)
    ensures MatchVersion(text).None? || MatchPep440(text).None?
  {
    if MatchPep440(text).Some? {
      var rest := TakeTriple(text).value.rest;
      SerialAfterSound(rest, Pep440Name(MatchPep440(text).value.1));
      Differs(rest, Infix(Alpha), 0);
      Differs(rest, Infix(Beta), 0);
      Differs(rest, Infix(Rc), 0);
    }
  }

  /** For every accepted version, the canonical form of its PyPI spelling is the
      version itself, letter by letter; this rests on the serial's decimal round trip. */
  lemma {:induction false} PypiRoundTrip(version: string)
    requires ParseVersion(version).Some?
    ensures CanonicalReleaseVersion(PypiVersion(ParseVersion(version).value)) == version
  {
    MatchVersionSound(version);
    var (base, channel, serial) := MatchVersion(version).value;
    if channel.Stable? {
      SpellingsAreDisjoint(version);
    } else {
      ReadThenPrint(serial);
      MatchPep440Exact(base + (Pep440Name(channel) + serial), base, channel, serial);
    }
  }

  /** The three channels on the text: what each is called in a version and on PyPI. */
  lemma {:induction false} PypiSpelling(base: string, serial: string)
    requires IsBase(base) && IsSerial(serial)
    ensures Published(base + ("-alpha." + serial)) == Some(base + ("a" + serial))
    ensures Published(base + ("-beta." + serial)) == Some(base + ("b" + serial))
    ensures Published(base + ("-rc." + serial)) == Some(base + ("rc" + serial))
    ensures Published(base) == Some(base)
  {
    ReadThenPrint(serial);
    MatchVersionExact(base + (Infix(Alpha) + serial), base, Alpha, serial);
    MatchVersionExact(base + (Infix(Beta) + serial), base, Beta, serial);
    MatchVersionExact(base + (Infix(Rc) + serial), base, Rc, serial);
    MatchVersionExact(base, base, Stable, []);
  }

  /** What a version text is published as, if it is accepted. */
  function Published(version: string): Option<string> {
    match ParseVersion(version)
    case None => None
    case Some(r) => Some(PypiVersion(r))
  }

  /** A serial counts from 1, without leading zeros. */
  lemma {:induction false} NoZeroSerial(base: string, c: Channel, digits: string)
    requires IsBase(base) && !c.Stable? && digits != [] && digits[0] == '0'
    ensures ParseVersion(base + (Infix(c) + digits)).None?
  {
    var rest := Infix(c) + digits;
    BaseThen(base, rest);
    assert rest[1] == Infix(c)[1] && rest[|Infix(c)|..] == digits;
    Differs(rest, Infix(Alpha), 1);
    Differs(rest, Infix(Beta), 1);
    Differs(rest, Infix(Rc), 1);
  }

  /** Different accepted versions have different PyPI spellings. */
  lemma {:induction false} PypiIsInjective(v: string, w: string)
    requires ParseVersion(v).Some? && ParseVersion(w).Some?
    requires PypiVersion(ParseVersion(v).value) == PypiVersion(ParseVersion(w).value)
    ensures v == w
  {
    PypiRoundTrip(v);
    PypiRoundTrip(w);
  }

  lemma {:induction false} TakeLettersExact(letters: string, rest: string)
    requires forall i :: 0 <= i < |letters| ==> 'a' <= letters[i] <= 'z'
    requires rest == [] || !('a' <= rest[0] <= 'z')
    ensures TakeLetters(letters + rest) == letters
  {
    if letters == [] {
      assert letters + rest == rest;
    } else {
      assert (letters + rest)[1..] == letters[1..] + rest;
      TakeLettersExact(letters[1..], rest);
      assert [letters[0]] + letters[1..] == letters;
    }
  }

  function ChannelName(c: Channel): string
    requires !c.Stable?
  {
    match c
    case Alpha => "alpha"
    case Beta => "beta"
    case Rc => "rc"
  }

  lemma {:induction false} InfixParts(c: Channel, serial: string)
    requires !c.Stable?
    ensures Infix(c) + serial == "-" + (ChannelName(c) + ("." + serial))
  {
    assert Infix(c) == "-" + ChannelName(c) + ".";
  }

  /** The tag's suffix pattern accepts exactly what the version's does. */
  lemma {:induction false} TagSuffixExact(c: Channel, serial: string)
    requires !c.Stable? && IsSerial(serial)
    ensures IsTagSuffix(Infix(c) + serial)
  {
    var name, rest := ChannelName(c), Infix(c) + serial;
    InfixParts(c, serial);
    assert rest[1..] == name + ("." + serial);
    TakeLettersExact(name, "." + serial);
    assert rest[1 + |name|] == '.' && rest[2 + |name|..] == serial;
  }

  lemma {:induction false} TagSuffixSound(rest: string) returns (c: Channel, serial: string)
    requires IsTagSuffix(rest)
    ensures !c.Stable? && IsSerial(serial) && rest == Infix(c) + serial
  {
    var name := TakeLetters(rest[1..]);
    c := if name == "alpha" then Alpha else if name == "beta" then Beta else Rc;
    serial := rest[2 + |name|..];
    assert rest[1..][..|name|] == name;
    assert rest == [rest[0]] + rest[1..][..|name|] + [rest[1 + |name|]] + serial;
    InfixParts(c, serial);
  }

  /** The tag pattern accepts exactly `v` and a version, and its group is that version. */
  lemma {:induction false} TagIsExact(tag: string, version: string)
    ensures MatchTag(tag) == Some(version) <==> tag == "v" + version && ParseVersion(version).Some?
  {
    if MatchTag(tag) == Some(version) {
      assert tag[..1] == "v" && tag == tag[..1] + tag[1..];
      TripleBase(version);
      var t := TakeTriple(version).value;
      var base := Dotted(t.major, t.minor, t.patch);
      if t.rest == [] {
        assert base + t.rest == base;
        MatchVersionExact(version, base, Stable, []);
      } else {
        var c, serial := TagSuffixSound(t.rest);
        MatchVersionExact(version, base, c, serial);
      }
    }
    if tag == "v" + version && ParseVersion(version).Some? {
      assert tag[..1] == "v" && tag[1..] == version;
      MatchVersionSound(version);
      var (base, channel, serial) := MatchVersion(version).value;
      if channel.Stable? {
        assert base + [] == base;
        BaseThen(base, []);
      } else {
        BaseThen(base, Infix(channel) + serial);
        TagSuffixExact(channel, serial);
      }
    }
  }

  /** So the tag of a version parses to the same record, and nothing else is a tag. */
  lemma {:induction false} TagRoundTrip(version: string)
    requires ParseVersion(version).Some?
    ensures ParseTag(Tag(ParseVersion(version).value)) == ParseVersion(version)
  {
    TagIsExact("v" + version, version);
  }

  /** Canonical text is either a version that `parse_version` accepts or text the
      PEP 440 pattern does not match, and canonicalising again changes nothing. */
  lemma {:induction false} CanonicalIsIdempotent(value: string)
    ensures MatchPep440(CanonicalReleaseVersion(value)).None?
    ensures CanonicalReleaseVersion(CanonicalReleaseVersion(value)) == CanonicalReleaseVersion(value)
    ensures CanonicalReleaseVersion(value) != value ==> ParseVersion(CanonicalReleaseVersion(value)).Some?
  {
    if MatchPep440(value).Some? {
      MatchPep440Sound(value);
      var (base, channel, serial) := MatchPep440(value).value;
      MatchVersionExact(CanonicalReleaseVersion(value), base, channel, serial);
      SpellingsAreDisjoint(CanonicalReleaseVersion(value));
    }
  }
}
