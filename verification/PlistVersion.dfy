/** Reduction of a release version to the dotted-integer form of the macOS bundle version keys. */
module PlistVersion {
  const FALLBACK := "0.0.0"

  /** White space as Unicode defines it. */
  predicate IsSpace(c: char) {
    || c == ' ' || '\t' <= c <= '\r' || c == '\U{0085}' || c == '\U{00A0}' || c == '\U{1680}'
    || '\U{2000}' <= c <= '\U{200A}' || c == '\U{2028}' || c == '\U{2029}' || c == '\U{202F}'
    || c == '\U{205F}' || c == '\U{3000}'
  }

  function TrimLeft(s: string): string {
    if s != [] && IsSpace(s[0]) then TrimLeft(s[1..]) else s
  }

  function TrimRight(s: string): string {
    if s != [] && IsSpace(s[|s| - 1]) then TrimRight(s[..|s| - 1]) else s
  }

  function TrimSpace(s: string): string {
    TrimRight(TrimLeft(s))
  }

  function TrimPrefix(s: string, c: char): string {
    if s != [] && s[0] == c then s[1..] else s
  }

  /** The text before the first sign character. */
  function BeforeSign(s: string): string {
    if s == [] || s[0] == '-' || s[0] == '+' then [] else [s[0]] + BeforeSign(s[1..])
  }

  function Split(s: string): (parts: seq<string>)
    ensures parts != []
  {
    if s == [] then [[]]
    else
      var rest := Split(s[1..]);
      if s[0] == '.' then [[]] + rest else [[s[0]] + rest[0]] + rest[1..]
  }

  function Join(parts: seq<string>): string {
    if parts == [] then []
    else if |parts| == 1 then parts[0]
    else parts[0] + "." + Join(parts[1..])
  }

  predicate IsDigit(c: char) {
    '0' <= c <= '9'
  }

  function DigitValue(c: char): nat
    requires IsDigit(c)
  {
    c as int - '0' as int
  }

  function DigitChar(d: nat): (c: char)
    requires d < 10
    ensures IsDigit(c) && DigitValue(c) == d
  {
    ('0' as int + d) as char
  }

  predicate AllDigits(s: string) {
    forall i :: 0 <= i < |s| ==> IsDigit(s[i])
  }

  function Atoi(s: string): nat
    requires AllDigits(s)
  {
    if s == [] then 0 else Atoi(s[..|s| - 1]) * 10 + DigitValue(s[|s| - 1])
  }

  function Itoa(n: nat): string {
    if n < 10 then [DigitChar(n)] else Itoa(n / 10) + [DigitChar(n % 10)]
  }

  /** A component the source accepts: one to nine digits. */
  predicate IsComponent(part: string) {
    0 < |part| <= 9 && AllDigits(part)
  }

  function Canonical(part: string): string
    requires AllDigits(part)
  {
    Itoa(Atoi(part))
  }

  predicate AllComponents(parts: seq<string>) {
    forall i :: 0 <= i < |parts| ==> IsComponent(parts[i])
  }

  function CanonicalAll(parts: seq<string>): (r: seq<string>)
    requires AllComponents(parts)
    ensures |r| == |parts|
    ensures forall i :: 0 <= i < |r| ==> r[i] == Canonical(parts[i])
  {
    seq(|parts|, i requires 0 <= i < |parts| => Canonical(parts[i]))
  }

  /** The version without white space, leading "v" and prerelease or build suffix. */
  function Core(version: string): string {
    var trimmed := TrimSpace(version);
    var bare := if TrimPrefix(trimmed, 'v') != trimmed then TrimPrefix(trimmed, 'v') else TrimPrefix(trimmed, 'V');
    BeforeSign(bare)
  }

  function FirstThree(parts: seq<string>): seq<string> {
    if |parts| > 3 then parts[..3] else parts
  }

  /** The normalised version, and whether nothing had to be changed. */
  function Normalized(version: string): (string, bool) {
    var parts := FirstThree(Split(Core(version)));
    if AllComponents(parts)
    then (Join(CanonicalAll(parts)),
          Core(version) == version && parts == Split(Core(version)) && CanonicalAll(parts) == parts)
    else (FALLBACK, false)
  }

  method CheckDigits(part: string) returns (ok: bool)
    ensures ok <==> AllDigits(part)
  {
    for i := 0 to |part|
      invariant AllDigits(part[..i])
    {
      if part[i] < '0' || part[i] > '9' {
        assert !IsDigit(part[i]);
        return false;
      }
      assert part[..i + 1] == part[..i] + [part[i]];
    }
    assert part[..|part|] == part;
    return true;
  }

  /** The loop over the parts, each reprinted from its value. */
  method CanonicalParts(parts: seq<string>) returns (ok: bool, normalized: seq<string>, exact: bool)
    ensures ok <==> AllComponents(parts)
    ensures ok ==> normalized == CanonicalAll(parts) && (exact <==> normalized == parts)
  {
    ok, normalized, exact := true, [], true;
    hide Itoa, Atoi;
    for k := 0 to |parts|
      invariant forall j :: 0 <= j < k ==> IsComponent(parts[j])
      invariant |normalized| == k
      invariant forall j :: 0 <= j < k ==> normalized[j] == Canonical(parts[j])
      invariant exact <==> forall j :: 0 <= j < k ==> normalized[j] == parts[j]
    {
      var part := parts[k];
      if part == "" || |part| > 9 {
        return false, [], false;
      }
      var digits := CheckDigits(part);
      if !digits {
        return false, [], false;
      }
      var canonical := Itoa(Atoi(part));
      if canonical != part {
        exact := false;
      }
      normalized := normalized + [canonical];
    }
    assert normalized == CanonicalAll(parts);
  }

  method NormalizePlistVersion(version: string) returns (normal: string, exact: bool)
    ensures (normal, exact) == Normalized(version)
  {
    var trimmed := TrimSpace(version);
    exact := trimmed == version;
    var rest := TrimPrefix(trimmed, 'v');
    if rest != trimmed {
      trimmed, exact := rest, false;
    } else {
      rest := TrimPrefix(trimmed, 'V');
      if rest != trimmed {
        trimmed, exact := rest, false;
      }
    }
    rest := BeforeSign(trimmed);
    if rest != trimmed {
      trimmed, exact := rest, false;
    }
    CoreShrinks(version);
    assert trimmed == Core(version);
    assert exact <==> Core(version) == version;
    var parts := Split(trimmed);
    if |parts| > 3 {
      parts, exact := parts[..3], false;
    }
    var ok, normalized, canonical := CanonicalParts(parts);
    if !ok {
      return FALLBACK, false;
    }
    normal := Join(normalized);
    exact := exact && canonical;
  }

  lemma TrimLeftShrinks(s: string)
    ensures |TrimLeft(s)| <= |s| && (|TrimLeft(s)| == |s| ==> TrimLeft(s) == s)
  {
  }

  lemma TrimRightShrinks(s: string)
    ensures |TrimRight(s)| <= |s| && (|TrimRight(s)| == |s| ==> TrimRight(s) == s)
  {
  }

  lemma BeforeSignShrinks(s: string)
    ensures |BeforeSign(s)| <= |s| && (|BeforeSign(s)| == |s| ==> BeforeSign(s) == s)
  {
  }

  /** A step that removed anything cannot be undone by a later one, so the core equals the version exactly when
      no step removed anything. */
  lemma CoreShrinks(version: string)
    ensures var trimmed := TrimSpace(version);
            var bare := if TrimPrefix(trimmed, 'v') != trimmed then TrimPrefix(trimmed, 'v')
                else TrimPrefix(trimmed, 'V');
            Core(version) == version <==> trimmed == version && bare == trimmed && BeforeSign(bare) == bare
  {
    TrimLeftShrinks(version);
    TrimRightShrinks(TrimLeft(version));
    var trimmed := TrimSpace(version);
    var bare := if TrimPrefix(trimmed, 'v') != trimmed then TrimPrefix(trimmed, 'v') else TrimPrefix(trimmed, 'V');
    BeforeSignShrinks(bare);
  }

  /** The dotted-integer form: one to three components without leading zeros. */
  predicate IsCanonical(part: string) {
    IsComponent(part) && (|part| == 1 || part[0] != '0')
  }

  predicate AllCanonical(parts: seq<string>) {
    forall i :: 0 <= i < |parts| ==> IsCanonical(parts[i])
  }

  ghost predicate IsPlistVersion(s: string) {
    exists parts: seq<string> :: 1 <= |parts| <= 3 && AllCanonical(parts) && s == Join(parts)
  }

  lemma {:induction false} ItoaDigits(n: nat)
    ensures AllDigits(Itoa(n)) && Itoa(n) != []
    ensures n > 0 ==> Itoa(n)[0] != '0'
    ensures n < 10 <==> |Itoa(n)| == 1
  {
    if n >= 10 {
      ItoaDigits(n / 10);
    }
  }

  lemma {:induction false} AtoiOfItoa(n: nat)
    ensures AllDigits(Itoa(n)) && Atoi(Itoa(n)) == n
  {
    ItoaDigits(n);
    if n < 10 {
      assert Itoa(n)[..0] == [];
    } else {
      AtoiOfItoa(n / 10);
      assert Itoa(n)[..|Itoa(n)| - 1] == Itoa(n / 10);
    }
  }

  /** Nine digits stay below one thousand million, so the conversion cannot overflow. */
  lemma {:induction false} AtoiBound(s: string)
    requires AllDigits(s)
    ensures Atoi(s) < Pow10(|s|)
  {
    if s != [] {
      AtoiBound(s[..|s| - 1]);
    }
  }

  function Pow10(n: nat): nat {
    if n == 0 then 1 else 10 * Pow10(n - 1)
  }

  lemma ComponentFitsInt(part: string)
    requires IsComponent(part)
    ensures Atoi(part) < 1_000_000_000
  {
    AtoiBound(part);
    PowMonotone(|part|, 9);
    assert Pow10(9) == 10 * Pow10(8) && Pow10(6) == 10 * Pow10(5) && Pow10(3) == 1000;
  }

  lemma {:induction false} PowMonotone(a: nat, b: nat)
    requires a <= b
    ensures Pow10(a) <= Pow10(b)
    decreases b
  {
    if a < b {
      PowMonotone(a, b - 1);
    }
  }

  lemma {:induction false} CanonicalShortens(part: string)
    requires part != [] && AllDigits(part)
    ensures |Itoa(Atoi(part))| <= |part|
  {
    if |part| == 1 {
      assert part[..0] == [];
    } else {
      var prefix := part[..|part| - 1];
      CanonicalShortens(prefix);
      assert Atoi(part) / 10 == Atoi(prefix);
    }
  }

  lemma {:induction false} CanonicalIsFixed(part: string)
    requires part != [] && AllDigits(part) && (|part| == 1 || part[0] != '0')
    ensures Itoa(Atoi(part)) == part
    ensures part[0] != '0' ==> Atoi(part) > 0
  {
    var prefix, last := part[..|part| - 1], part[|part| - 1];
    assert part == prefix + [last];
    assert DigitChar(DigitValue(last)) == last;
    if |part| == 1 {
      assert Atoi(prefix) == 0;
    } else {
      CanonicalIsFixed(prefix);
      assert Atoi(part) / 10 == Atoi(prefix) && Atoi(part) % 10 == DigitValue(last);
    }
  }

  /** Canonicalisation keeps the number a component stands for. */
  lemma CanonicalKeepsValue(part: string)
    requires IsComponent(part)
    ensures IsCanonical(Canonical(part)) && Atoi(Canonical(part)) == Atoi(part)
    ensures IsCanonical(part) <==> Canonical(part) == part
  {
    ItoaDigits(Atoi(part));
    AtoiOfItoa(Atoi(part));
    CanonicalShortens(part);
    if IsCanonical(part) {
      CanonicalIsFixed(part);
    }
  }

  predicate NoDot(s: string) {
    forall i :: 0 <= i < |s| ==> s[i] != '.'
  }

  lemma {:induction false} SplitOfPlain(s: string)
    requires NoDot(s)
    ensures Split(s) == [s]
  {
    if s != [] {
      SplitOfPlain(s[1..]);
      assert Split(s)[0] == [s[0]] + s[1..] == s;
    }
  }

  lemma {:induction false} SplitAtDot(s: string, t: string)
    requires NoDot(s)
    ensures Split(s + "." + t) == [s] + Split(t)
  {
    var u := s + "." + t;
    if s == [] {
      assert u[1..] == t;
    } else {
      assert u[1..] == s[1..] + "." + t;
      SplitAtDot(s[1..], t);
      assert Split(u)[0] == [s[0]] + s[1..] == s;
      assert Split(u)[1..] == Split(t);
    }
  }

  lemma {:induction false} SplitOfJoin(parts: seq<string>)
    requires parts != [] && forall i :: 0 <= i < |parts| ==> NoDot(parts[i])
    ensures Split(Join(parts)) == parts
  {
    if |parts| == 1 {
      SplitOfPlain(parts[0]);
    } else {
      SplitOfJoin(parts[1..]);
      SplitAtDot(parts[0], Join(parts[1..]));
    }
  }

  lemma {:induction false} JoinOfSplit(s: string)
    ensures Join(Split(s)) == s
  {
    if s != [] {
      JoinOfSplit(s[1..]);
      var rest := Split(s[1..]);
      if s[0] == '.' {
        assert ([[]] + rest)[1..] == rest;
      } else {
        var first := [[s[0]] + rest[0]] + rest[1..];
        assert first[1..] == rest[1..];
        if |rest| > 1 {
          assert Join(first) == [s[0]] + rest[0] + "." + Join(rest[1..]);
        }
      }
      assert s == [s[0]] + s[1..];
    }
  }

  predicate DigitsAndDots(s: string) {
    forall i :: 0 <= i < |s| ==> IsDigit(s[i]) || s[i] == '.'
  }

  lemma {:induction false} JoinDigits(parts: seq<string>)
    requires forall i :: 0 <= i < |parts| ==> AllDigits(parts[i])
    ensures DigitsAndDots(Join(parts))
  {
    if |parts| > 1 {
      JoinDigits(parts[1..]);
      assert Join(parts) == parts[0] + "." + Join(parts[1..]);
    }
  }

  lemma {:induction false} BeforeSignOfDigits(s: string)
    requires DigitsAndDots(s)
    ensures BeforeSign(s) == s
  {
    if s != [] {
      BeforeSignOfDigits(s[1..]);
    }
  }

  lemma CoreOfDigits(s: string)
    requires DigitsAndDots(s)
    ensures Core(s) == s
  {
    BeforeSignOfDigits(s);
    assert s != [] ==> !IsSpace(s[0]) && !IsSpace(s[|s| - 1]);
  }

  /** The dotted-integer versions are exactly the inputs that come back unchanged and are reported as exact. */
  lemma PlistVersionsAreFixed(version: string)
    requires IsPlistVersion(version)
    ensures Normalized(version) == (version, true)
  {
    var parts: seq<string> :| 1 <= |parts| <= 3 && AllCanonical(parts) && version == Join(parts);
    JoinDigits(parts);
    CoreOfDigits(version);
    SplitOfJoin(parts);
    hide Split, Join, Core, Itoa, Atoi, TrimSpace, BeforeSign, TrimPrefix, DigitsAndDots, NoDot;
    forall i | 0 <= i < |parts|
      ensures Canonical(parts[i]) == parts[i]
    {
      CanonicalKeepsValue(parts[i]);
    }
    assert CanonicalAll(parts) == parts;
  }

  lemma FallbackIsPlistVersion()
    ensures IsPlistVersion(FALLBACK)
  {
    var parts := ["0", "0", "0"];
    assert parts[1..][1..] == ["0"];
    assert Join(parts) == FALLBACK;
    assert AllCanonical(parts);
  }

  /** Every result is a dotted-integer version. */
  lemma NormalizedIsPlistVersion(version: string)
    ensures IsPlistVersion(Normalized(version).0)
  {
    var parts := FirstThree(Split(Core(version)));
    if AllComponents(parts) {
      var normal := CanonicalAll(parts);
      forall i | 0 <= i < |normal|
        ensures IsCanonical(normal[i])
      {
        CanonicalKeepsValue(parts[i]);
      }
      assert 1 <= |normal| <= 3;
    } else {
      FallbackIsPlistVersion();
    }
  }

  lemma NormalizedIsIdempotent(version: string)
    ensures Normalized(Normalized(version).0) == (Normalized(version).0, true)
  {
    NormalizedIsPlistVersion(version);
    PlistVersionsAreFixed(Normalized(version).0);
  }

  /** The exact report is true exactly when the output is the input, which is exactly when the input already
      was a dotted-integer version. */
  lemma ExactMeansUnchanged(version: string)
    ensures Normalized(version).1 <==> Normalized(version).0 == version
    ensures Normalized(version).1 <==> IsPlistVersion(version)
  {
    if Normalized(version).1 {
      JoinOfSplit(version);
    }
    NormalizedIsPlistVersion(version);
    if IsPlistVersion(version) {
      PlistVersionsAreFixed(version);
    }
  }

  /** A version built from components, an optional prefix letter, surrounding blanks and a suffix keeps the
      numbers of its first three components. */
  lemma NormalizedKeepsNumbers(version: string)
    requires AllComponents(FirstThree(Split(Core(version))))
    ensures var parts, normal := FirstThree(Split(Core(version))), Split(Normalized(version).0);
            && |normal| == |parts|
            && forall i :: 0 <= i < |parts| ==> AllDigits(normal[i]) && Atoi(normal[i]) == Atoi(parts[i])
  {
    var parts := FirstThree(Split(Core(version)));
    var normal := CanonicalAll(parts);
    forall i | 0 <= i < |parts|
      ensures IsCanonical(normal[i]) && Atoi(normal[i]) == Atoi(parts[i])
    {
      CanonicalKeepsValue(parts[i]);
    }
    SplitOfJoin(normal);
  }

  predicate AllSpace(s: string) {
    forall i :: 0 <= i < |s| ==> IsSpace(s[i])
  }

  /** The 25 code points with the property White_Space of Unicode. */
  const WHITE_SPACE: set<int> := {
    0x09, 0x0A, 0x0B, 0x0C, 0x0D, 0x20, 0x85, 0xA0, 0x1680, 0x2000, 0x2001, 0x2002, 0x2003, 0x2004, 0x2005, 0x2006,
    0x2007, 0x2008, 0x2009, 0x200A, 0x2028, 0x2029, 0x202F, 0x205F, 0x3000}

  lemma SpaceIsBlank(c: char)
    ensures IsSpace(c) <==> c as int in WHITE_SPACE
  {
  }

  /** The text neither begins nor ends with a blank. */
  predicate Bare(s: string) {
    s != [] ==> !IsSpace(s[0]) && !IsSpace(s[|s| - 1])
  }

  predicate NoSign(s: string) {
    forall i :: 0 <= i < |s| ==> s[i] != '-' && s[i] != '+'
  }

  predicate IsLetter(s: string) {
    s == "" || s == "v" || s == "V"
  }

  predicate NoLetterFirst(s: string) {
    s != [] ==> s[0] != 'v' && s[0] != 'V'
  }

  predicate SignFirst(s: string) {
    s != [] ==> s[0] == '-' || s[0] == '+'
  }

  /** A version is read as its parts, with a letter before them and a suffix that a sign begins behind them, and blanks
      around it all. */
  ghost predicate ReadsAs(version: string, lead: string, letter: string, parts: seq<string>, suffix: string,
                          trail: string)
  {
    && version == lead + (letter + Join(parts) + suffix) + trail
    && AllSpace(lead) && AllSpace(trail) && Bare(letter + Join(parts) + suffix)
    && IsLetter(letter)
    && parts != [] && (forall i :: 0 <= i < |parts| ==> NoDot(parts[i])) && NoSign(Join(parts))
    && (letter == "" ==> NoLetterFirst(Join(parts) + suffix)) && SignFirst(suffix)
  }

  lemma {:induction false} TrimLeftOf(lead: string, s: string)
    requires AllSpace(lead) && (s != [] ==> !IsSpace(s[0]))
    ensures TrimLeft(lead + s) == s
  {
    if lead != [] {
      TrimLeftOf(lead[1..], s);
      assert (lead + s)[1..] == lead[1..] + s;
    } else {
      assert lead + s == s;
    }
  }

  lemma {:induction false} TrimLeftOfSpace(s: string)
    requires AllSpace(s)
    ensures TrimLeft(s) == []
  {
    if s != [] {
      TrimLeftOfSpace(s[1..]);
    }
  }

  lemma {:induction false} TrimRightOf(s: string, trail: string)
    requires AllSpace(trail) && (s != [] ==> !IsSpace(s[|s| - 1]))
    ensures TrimRight(s + trail) == s
    decreases |trail|
  {
    if trail != [] {
      TrimRightOf(s, trail[..|trail| - 1]);
      assert (s + trail)[..|s + trail| - 1] == s + trail[..|trail| - 1];
    } else {
      assert s + trail == s;
    }
  }

  lemma TrimSpaceOf(lead: string, s: string, trail: string)
    requires AllSpace(lead) && AllSpace(trail) && Bare(s)
    ensures TrimSpace(lead + s + trail) == s
  {
    if s == [] {
      assert lead + s + trail == lead + trail;
      TrimLeftOfSpace(lead + trail);
    } else {
      TrimLeftOf(lead, s + trail);
      assert lead + s + trail == lead + (s + trail);
      TrimRightOf(s, trail);
    }
  }

  lemma {:induction false} BeforeSignOf(s: string, suffix: string)
    requires NoSign(s) && SignFirst(suffix)
    ensures BeforeSign(s + suffix) == s
  {
    if s != [] {
      BeforeSignOf(s[1..], suffix);
      assert (s + suffix)[1..] == s[1..] + suffix;
    } else {
      assert s + suffix == suffix;
    }
  }

  /** The letter before the parts is taken off. */
  lemma LetterOf(letter: string, s: string)
    requires IsLetter(letter) && (letter == "" ==> NoLetterFirst(s))
    ensures var t := letter + s;
            (if TrimPrefix(t, 'v') != t then TrimPrefix(t, 'v') else TrimPrefix(t, 'V')) == s
  {
    var t := letter + s;
    if letter == "" {
      assert t == s;
    } else {
      assert t[1..] == s && |t| == |s| + 1;
    }
  }

  lemma CoreOf(version: string, lead: string, letter: string, parts: seq<string>, suffix: string, trail: string)
    requires ReadsAs(version, lead, letter, parts, suffix, trail)
    ensures Core(version) == Join(parts) && Split(Core(version)) == parts
  {
    hide TrimSpace, BeforeSign, TrimPrefix, Split, Join, NoSign, NoDot, AllSpace, Bare, IsSpace, IsLetter,
         NoLetterFirst, SignFirst;
    var text := Join(parts);
    TrimSpaceOf(lead, letter + text + suffix, trail);
    assert letter + text + suffix == letter + (text + suffix);
    LetterOf(letter, text + suffix);
    BeforeSignOf(text, suffix);
    SplitOfJoin(parts);
  }

  /** The first three parts at most, or as many as there are. */
  function Leading(parts: seq<string>): seq<string> {
    parts[..if |parts| < 3 then |parts| else 3]
  }

  /** Each part has one to nine digits and nothing else. */
  predicate AreNumbers(parts: seq<string>)
    ensures AreNumbers(parts) <==> AllComponents(parts)
  {
    forall i :: 0 <= i < |parts| ==>
      1 <= |parts[i]| <= 9 && forall j :: 0 <= j < |parts[i]| ==> '0' <= parts[i][j] <= '9'
  }

  /** However a version is read, the result is its first three parts, each reprinted, if they are components, and else
      "0.0.0"; whatever follows them, the letter, the suffix and the blanks do not matter. */
  lemma NormalizedAsRead(version: string, lead: string, letter: string, parts: seq<string>, suffix: string,
                         trail: string)
    requires ReadsAs(version, lead, letter, parts, suffix, trail)
    ensures var kept := Leading(parts);
            Normalized(version).0 == if AreNumbers(kept) then Join(CanonicalAll(kept)) else "0.0.0"
  {
    CoreOf(version, lead, letter, parts, suffix, trail);
    hide Core, Split, Join, ReadsAs, Canonical, IsComponent;
    assert parts[..|parts|] == parts;
  }

  lemma {:induction false} AtoiSkipsZero(s: string)
    requires AllDigits(s) && s != [] && s[0] == '0'
    ensures Atoi(s) == Atoi(s[1..])
  {
    if |s| == 1 {
      assert s[..0] == [] && s[1..] == [];
    } else {
      AtoiSkipsZero(s[..|s| - 1]);
      assert s[1..][..|s| - 2] == s[..|s| - 1][1..];
    }
  }

  /** A part is reprinted without its leading zeros; of zeros alone one is left. */
  lemma {:induction false} ReprintedWithoutZeros(part: string) returns (zeros: nat)
    requires AllDigits(part) && part != []
    ensures zeros < |part| && forall i :: 0 <= i < zeros ==> part[i] == '0'
    ensures Canonical(part) == part[zeros..] && (part[zeros] == '0' ==> zeros == |part| - 1)
  {
    if part[0] == '0' && |part| > 1 {
      zeros := ReprintedWithoutZeros(part[1..]);
      AtoiSkipsZero(part);
      assert part[1..][zeros..] == part[zeros + 1..];
      zeros := zeros + 1;
    } else {
      zeros := 0;
      CanonicalIsFixed(part);
      assert part[0..] == part;
    }
  }

  /** Parts are joined with dots between them. */
  lemma JoinedWithDots(a: string, b: string, c: string)
    ensures Join([a]) == a && Join([a, b]) == a + "." + b && Join([a, b, c]) == a + "." + b + "." + c
  {
    assert [a, b][1..] == [b] && [a, b, c][1..] == [b, c] && [b, c][1..] == [c];
    assert Join([b, c]) == b + "." + c;
    assert Join([a, b, c]) == a + "." + Join([b, c]);
  }

  lemma {:induction false} TrimLeftSplits(s: string) returns (lead: string)
    ensures s == lead + TrimLeft(s) && AllSpace(lead)
    ensures TrimLeft(s) != [] ==> !IsSpace(TrimLeft(s)[0])
  {
    if s != [] && IsSpace(s[0]) {
      lead := TrimLeftSplits(s[1..]);
      lead := [s[0]] + lead;
      assert s == [s[0]] + s[1..];
    } else {
      lead := [];
    }
  }

  lemma {:induction false} TrimRightSplits(s: string) returns (trail: string)
    ensures s == TrimRight(s) + trail && AllSpace(trail)
    ensures TrimRight(s) != [] ==> !IsSpace(TrimRight(s)[|TrimRight(s)| - 1]) && TrimRight(s)[0] == s[0]
  {
    if s != [] && IsSpace(s[|s| - 1]) {
      trail := TrimRightSplits(s[..|s| - 1]);
      trail := trail + [s[|s| - 1]];
      assert s == s[..|s| - 1] + [s[|s| - 1]];
    } else {
      trail := [];
    }
  }

  lemma {:induction false} SignSplits(s: string) returns (suffix: string)
    ensures s == BeforeSign(s) + suffix && NoSign(BeforeSign(s)) && SignFirst(suffix)
  {
    if s == [] || s[0] == '-' || s[0] == '+' {
      suffix := s;
    } else {
      suffix := SignSplits(s[1..]);
      assert s == [s[0]] + s[1..];
    }
  }

  lemma {:induction false} SplitHasNoDots(s: string)
    ensures forall i :: 0 <= i < |Split(s)| ==> NoDot(Split(s)[i])
  {
    if s != [] {
      SplitHasNoDots(s[1..]);
    }
  }

  lemma LetterSplits(s: string) returns (letter: string)
    ensures letter <= s && IsLetter(letter) && (letter == "" ==> NoLetterFirst(s))
  {
    letter := if NoLetterFirst(s) then "" else s[..1];
  }

  lemma TrimmedIsBare(version: string) returns (lead: string, trail: string)
    ensures version == lead + TrimSpace(version) + trail && AllSpace(lead) && AllSpace(trail)
    ensures Bare(TrimSpace(version))
  {
    lead := TrimLeftSplits(version);
    trail := TrimRightSplits(TrimLeft(version));
    hide TrimLeft, TrimRight, IsSpace;
    assert version == lead + (TrimSpace(version) + trail) == lead + TrimSpace(version) + trail;
  }

  lemma ReadsMade(version: string, lead: string, letter: string, parts: seq<string>, suffix: string, trail: string,
                  trimmed: string, text: string)
    requires version == lead + trimmed + trail && AllSpace(lead) && AllSpace(trail) && Bare(trimmed)
    requires IsLetter(letter) && (letter == "" ==> NoLetterFirst(trimmed))
    requires trimmed == letter + (text + suffix) && text == Join(parts) && NoSign(text)
    requires parts != [] && forall i :: 0 <= i < |parts| ==> NoDot(parts[i])
    requires SignFirst(suffix)
    ensures ReadsAs(version, lead, letter, parts, suffix, trail)
  {
    hide *;
    InOneText(letter, text, suffix);
    ReadsInOne(version, lead, letter, parts, suffix, trail, trimmed);
  }

  lemma InOneText(letter: string, text: string, suffix: string)
    ensures letter + (text + suffix) == letter + text + suffix
    ensures letter == "" ==> letter + (text + suffix) == text + suffix
  {
  }

  lemma ReadsInOne(version: string, lead: string, letter: string, parts: seq<string>, suffix: string, trail: string,
                   trimmed: string)
    requires trimmed == letter + Join(parts) + suffix && version == lead + trimmed + trail
    requires AllSpace(lead) && AllSpace(trail) && Bare(trimmed) && IsLetter(letter)
    requires letter == "" ==> NoLetterFirst(Join(parts) + suffix)
    requires NoSign(Join(parts)) && parts != [] && forall i :: 0 <= i < |parts| ==> NoDot(parts[i])
    requires SignFirst(suffix)
    ensures ReadsAs(version, lead, letter, parts, suffix, trail)
  {
    hide Join, NoDot, NoSign, AllSpace, Bare, IsLetter, NoLetterFirst, SignFirst;
  }

  /** Every text can be read so. */
  lemma EveryVersionReads(version: string)
    returns (lead: string, letter: string, parts: seq<string>, suffix: string, trail: string)
    ensures ReadsAs(version, lead, letter, parts, suffix, trail)
  {
    hide *;
    lead, trail := TrimmedIsBare(version);
    var trimmed := TrimSpace(version);
    letter := LetterSplits(trimmed);
    var bare := trimmed[|letter|..];
    assert trimmed == letter + bare;
    suffix := SignSplits(bare);
    parts := Split(BeforeSign(bare));
    SplitHasNoDots(BeforeSign(bare));
    JoinOfSplit(BeforeSign(bare));
    ReadsMade(version, lead, letter, parts, suffix, trail, trimmed, BeforeSign(bare));
  }
}
