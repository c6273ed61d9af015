// agent/version/semver.go: parsing, ordering and single-comparator ranges.
module SemVer {
  import opened Prelude
  import Decimal
  import Lex

  datatype SemVer = SemVer(major: int, minor: int, patch: int, prerelease: string)

  /* ---------- Parsing ---------- */

  predicate IsSpace(c: char) {
    var n := c as int;
    9 <= n <= 13 || n == 32 || n == 0x85 || n == 0xA0 || n == 0x1680 || 0x2000 <= n <= 0x200A
    || n == 0x2028 || n == 0x2029 || n == 0x202F || n == 0x205F || n == 0x3000
  }

  function TrimLeft(s: string): string {
    if s != "" && IsSpace(s[0]) then TrimLeft(s[1..]) else s
  }

  function TrimRight(s: string): string {
    if s != "" && IsSpace(s[|s| - 1]) then TrimRight(s[..|s| - 1]) else s
  }

  function TrimSpace(s: string): string {
    TrimRight(TrimLeft(s))
  }

  /** The length of the longest prefix of decimal digits. */
  function DigitRun(s: string): (n: nat)
    ensures n <= |s| && Decimal.AllDigits(s[..n])
    ensures n < |s| ==> !Decimal.IsDigit(s[n])
  {
    if s != "" && Decimal.IsDigit(s[0]) then
      var n := 1 + DigitRun(s[1..]);
      assert forall i | 0 < i < n :: s[..n][i] == s[1..][..n - 1][i - 1];
      n
    else 0
  }

  /** A number and what follows it; an overflowing number saturates, as Atoi's dropped error does. */
  function Number(s: string): Option<(int, string)> {
    var n := DigitRun(s);
    if n == 0 then None else Some((Decimal.Clamp(Decimal.ValueOf(s[..n])), s[n..]))
  }

  function DottedNumber(s: string): Option<(int, string)> {
    if s != "" && s[0] == '.' then Number(s[1..]) else None
  }

  predicate IsIdentifierChar(c: char) {
    Decimal.IsDigit(c) || 'A' <= c <= 'Z' || 'a' <= c <= 'z' || c == '.' || c == '-'
  }

  predicate IsIdentifiers(s: string) {
    s != "" && forall i | 0 <= i < |s| :: IsIdentifierChar(s[i])
  }

  /** The length of the longest prefix without '+'. */
  function BeforePlus(s: string): (n: nat)
    ensures n <= |s| && '+' !in s[..n] && (n < |s| ==> s[n] == '+')
  {
    if s == "" || s[0] == '+' then 0
    else
      var n := 1 + BeforePlus(s[1..]);
      assert s[..n] == [s[0]] + s[1..][..n - 1];
      n
  }

  /** The prerelease of a version's tail "[-prerelease][+build]". */
  function Suffix(t: string): Option<string> {
    var n := BeforePlus(t);
    if n < |t| && !IsIdentifiers(t[n + 1..]) then None
    else if n == 0 then Some("")
    else if t[0] == '-' && IsIdentifiers(t[1..n]) then Some(t[1..n])
    else None
  }

  function Parse(s: string): Option<SemVer> {
    match Number(TrimSpace(s))
    case None => None
    case Some((major, s1)) =>
      match DottedNumber(s1)
      case None => None
      case Some((minor, s2)) =>
        match DottedNumber(s2)
        case None => None
        case Some((patch, s3)) =>
          match Suffix(s3)
          case None => None
          case Some(pre) => Some(SemVer(major, minor, patch, pre))
  }

  /* ---------- Ordering ---------- */

  function CmpInt(a: int, b: int): int {
    if a < b then -1 else if a > b then 1 else 0
  }

  function CmpPrerelease(a: string, b: string): int {
    if a == b then 0
    else if a == "" then 1
    else if b == "" then -1
    else if Lex.Less(a, b) then -1
    else 1
  }

  function Cmp(a: SemVer, b: SemVer): int {
    if a.major != b.major then CmpInt(a.major, b.major)
    else if a.minor != b.minor then CmpInt(a.minor, b.minor)
    else if a.patch != b.patch then CmpInt(a.patch, b.patch)
    else CmpPrerelease(a.prerelease, b.prerelease)
  }

  function CompareStrict(a: string, b: string): Option<int> {
    match (Parse(a), Parse(b))
    case (Some(va), Some(vb)) => Some(Cmp(va, vb))
    case _ => None
  }

  /** Unparsable strings are compared bytewise. */
  function Compare(a: string, b: string): int {
    match CompareStrict(a, b)
    case Some(c) => c
    case None => if a == b then 0 else if Lex.Less(a, b) then -1 else 1
  }

  predicate Valid(s: string) {
    Parse(s).Some?
  }

  lemma CmpFlips(a: SemVer, b: SemVer)
    ensures Cmp(b, a) == -Cmp(a, b)
  {
    Lex.Total(a.prerelease, b.prerelease);
    if Lex.Less(a.prerelease, b.prerelease) {
      Lex.Asymmetric(a.prerelease, b.prerelease);
    }
  }

  lemma CmpTransitive(a: SemVer, b: SemVer, c: SemVer)
    requires Cmp(a, b) <= 0 && Cmp(b, c) <= 0
    ensures Cmp(a, c) <= 0
    ensures Cmp(a, c) == 0 ==> Cmp(a, b) == Cmp(b, c) == 0
  {
    var p, q, r := a.prerelease, b.prerelease, c.prerelease;
    if Lex.Less(p, q) && Lex.Less(q, r) {
      Lex.Transitive(p, q, r);
      Lex.Asymmetric(p, r);
    }
    if Lex.Less(p, q) {
      Lex.Asymmetric(p, q);
    }
    Lex.Total(p, q);
    Lex.Total(q, r);
  }

  lemma CmpIsTotalPreorder(a: SemVer, b: SemVer, c: SemVer)
    ensures -1 <= Cmp(a, b) <= 1 && Cmp(b, a) == -Cmp(a, b)
    ensures Cmp(a, b) == 0 <==> a == b
    ensures Cmp(a, b) <= 0 && Cmp(b, c) <= 0 ==> Cmp(a, c) <= 0
    ensures Cmp(a, b) <= 0 && Cmp(b, c) <= 0 && Cmp(a, c) == 0 ==> a == b == c
  {
    CmpFlips(a, b);
    if Cmp(a, b) <= 0 && Cmp(b, c) <= 0 {
      CmpTransitive(a, b, c);
    }
  }

  lemma CompareParsed(a: string, b: string)
    ensures Valid(a) && Valid(b) ==>
              CompareStrict(a, b) == Some(Cmp(Parse(a).value, Parse(b).value))
              && Compare(a, b) == Cmp(Parse(a).value, Parse(b).value)
  {
  }

  /**
   * On versions that parse, Compare is a total preorder whose equivalence is equality of the
   * parsed (major, minor, patch, prerelease).
   */
  lemma CompareIsTotalPreorder(a: string, b: string, c: string)
    ensures Valid(a) && Valid(b) && Valid(c) ==>
              && CompareStrict(a, b) == Some(Compare(a, b)) && -1 <= Compare(a, b) <= 1
              && Compare(b, a) == -Compare(a, b)
              && (Compare(a, b) == 0 <==> Parse(a) == Parse(b))
              && (Compare(a, b) <= 0 && Compare(b, c) <= 0 ==> Compare(a, c) <= 0)
              && (Compare(a, b) <= 0 && Compare(b, c) <= 0 && Compare(a, c) == 0 ==> Parse(a) == Parse(b) == Parse(c))
  {
    CompareParsed(a, b);
    CompareParsed(b, a);
    CompareParsed(b, c);
    CompareParsed(a, c);
    if Valid(a) && Valid(b) && Valid(c) {
      CmpIsTotalPreorder(Parse(a).value, Parse(b).value, Parse(c).value);
    }
  }

  /**
   * The order itself: by major, minor and patch number; then a prerelease comes before its release,
   * and two prereleases are ordered bytewise.
   */
  lemma CompareExactly(a: string, b: string)
    ensures Valid(a) && Valid(b) ==>
              var u, v := Parse(a).value, Parse(b).value;
              Compare(a, b) < 0 <==>
                (u.major < v.major
                 || (u.major == v.major && u.minor < v.minor)
                 || (u.major == v.major && u.minor == v.minor && u.patch < v.patch)
                 || (u.major == v.major && u.minor == v.minor && u.patch == v.patch
                     && ((u.prerelease != "" && v.prerelease == "")
                         || (u.prerelease != "" && v.prerelease != "" && Lex.Less(u.prerelease, v.prerelease)))))
  {
    hide Parse;
    if Valid(a) && Valid(b) {
      Lex.Irreflexive(Parse(a).value.prerelease);
    }
  }

  /** Strings that do not both parse are equal or ordered bytewise, and the strict comparison refuses them. */
  lemma CompareFallsBack(a: string, b: string)
    ensures !Valid(a) || !Valid(b) ==>
              && CompareStrict(a, b) == None
              && (Compare(a, b) == 0 <==> a == b)
              && (Compare(a, b) < 0 <==> Lex.Less(a, b))
              && (Compare(a, b) > 0 <==> Lex.Less(b, a))
  {
    hide Parse;
    LexChain(a, b, a);
    Lex.Irreflexive(a);
  }

  /** Going up twice is going up. */
  lemma CompareGoesUp(a: string, b: string, c: string)
    ensures Valid(a) && Valid(b) && Valid(c) && Compare(b, a) >= 0 && Compare(c, b) >= 0 ==> Compare(c, a) >= 0
  {
    CompareIsTotalPreorder(a, b, c);
    CompareIsTotalPreorder(b, c, a);
    CompareIsTotalPreorder(a, c, b);
  }

  lemma CompareToItself(a: string)
    ensures Compare(a, a) == 0
  {
  }

  /* ---------- Build metadata ---------- */

  lemma {:induction false} DigitRunAppend(s: string, t: string)
    requires t != "" && !Decimal.IsDigit(t[0])
    ensures DigitRun(s + t) == DigitRun(s)
  {
    if s != "" && Decimal.IsDigit(s[0]) {
      DigitRunAppend(s[1..], t);
      assert (s + t)[1..] == s[1..] + t;
    } else if s == "" {
      assert s + t == t;
    }
  }

  lemma NumberAppend(s: string, t: string)
    requires t != "" && !Decimal.IsDigit(t[0]) && Number(s).Some?
    ensures Number(s + t) == Some((Number(s).value.0, Number(s).value.1 + t))
  {
    DigitRunAppend(s, t);
    var n := DigitRun(s);
    assert (s + t)[..n] == s[..n] && (s + t)[n..] == s[n..] + t;
  }

  lemma DottedNumberAppend(s: string, t: string)
    requires t != "" && !Decimal.IsDigit(t[0]) && DottedNumber(s).Some?
    ensures DottedNumber(s + t) == Some((DottedNumber(s).value.0, DottedNumber(s).value.1 + t))
  {
    NumberAppend(s[1..], t);
    assert (s + t)[1..] == s[1..] + t;
  }

  lemma {:induction false} BeforePlusAppend(s: string, build: string)
    requires '+' !in s
    ensures BeforePlus(s + "+" + build) == |s| && BeforePlus(s) == |s|
  {
    if s == "" {
      assert s + "+" + build == "+" + build;
    } else {
      BeforePlusAppend(s[1..], build);
      assert (s + "+" + build)[1..] == s[1..] + "+" + build;
    }
  }

  lemma TrimKeeps(s: string)
    requires s != "" && !IsSpace(s[0]) && !IsSpace(s[|s| - 1])
    ensures TrimSpace(s) == s
  {
  }

  lemma SuffixIgnoresBuild(s: string, build: string)
    requires '+' !in s && Suffix(s).Some? && IsIdentifiers(build)
    ensures Suffix(s + ("+" + build)) == Suffix(s)
  {
    var t := s + "+" + build;
    assert t == s + ("+" + build);
    BeforePlusAppend(s, build);
    assert t[|s| + 1..] == build;
    if s != "" {
      assert t[1..|s|] == s[1..|s|] && t[0] == s[0];
    }
  }

  /** A blank just before the '+' is part of no suffix. */
  lemma BlankSpoilsSuffix(s: string, build: string)
    requires s != "" && IsSpace(s[|s| - 1]) && '+' !in s
    ensures Suffix(s + ("+" + build)) == None
  {
    var t := s + "+" + build;
    assert t == s + ("+" + build);
    BeforePlusAppend(s, build);
    assert t[0] == s[0];
    if |s| > 1 {
      assert t[1..|s|][|s| - 2] == s[|s| - 1] && !IsIdentifierChar(s[|s| - 1]);
    }
  }

  lemma {:induction false} TrimLeftAppend(s: string, t: string)
    requires TrimLeft(s) != ""
    ensures var u := TrimLeft(s);
            TrimLeft(s + t) == u + t && !IsSpace(u[0]) && u[|u| - 1] == s[|s| - 1] && ('+' !in s ==> '+' !in u)
  {
    if IsSpace(s[0]) {
      TrimLeftAppend(s[1..], t);
      assert (s + t)[1..] == s[1..] + t;
    }
  }

  lemma {:induction false} TrimRightSplits(u: string)
    ensures var c := TrimRight(u);
            && c <= u && (forall i | |c| <= i < |u| :: IsSpace(u[i]))
            && (c != "" ==> !IsSpace(c[|c| - 1]))
  {
    if u != "" && IsSpace(u[|u| - 1]) {
      TrimRightSplits(u[..|u| - 1]);
    }
  }

  /** The three numbers of a version, then its suffix. */
  lemma NumbersIgnoreTail(v: string, t: string, s1: string, s2: string, s3: string)
    requires t != "" && !Decimal.IsDigit(t[0])
    requires Number(v).Some? && Number(v).value.1 == s1
    requires DottedNumber(s1).Some? && DottedNumber(s1).value.1 == s2
    requires DottedNumber(s2).Some? && DottedNumber(s2).value.1 == s3
    ensures Number(v + t) == Some((Number(v).value.0, s1 + t))
    ensures DottedNumber(s1 + t) == Some((DottedNumber(s1).value.0, s2 + t))
    ensures DottedNumber(s2 + t) == Some((DottedNumber(s2).value.0, s3 + t))
  {
    NumberAppend(v, t);
    DottedNumberAppend(s1, t);
    DottedNumberAppend(s2, t);
  }

  lemma NoPlusAnywhere(v: string, s1: string, s2: string, s3: string)
    requires '+' !in v && Number(v).Some? && Number(v).value.1 == s1
    requires DottedNumber(s1).Some? && DottedNumber(s1).value.1 == s2
    requires DottedNumber(s2).Some? && DottedNumber(s2).value.1 == s3
    ensures '+' !in s3
  {
  }

  lemma ParseSteps(s: string, s1: string, s2: string, s3: string)
    requires Number(TrimSpace(s)).Some? && Number(TrimSpace(s)).value.1 == s1
    requires DottedNumber(s1).Some? && DottedNumber(s1).value.1 == s2
    requires DottedNumber(s2).Some? && DottedNumber(s2).value.1 == s3
    ensures Parse(s) == match Suffix(s3)
                        case None => None
                        case Some(pre) =>
                          Some(SemVer(Number(TrimSpace(s)).value.0, DottedNumber(s1).value.0,
                                      DottedNumber(s2).value.0, pre))
  {
  }

  /** Where a version without build metadata ends once trimmed, and what metadata is appended to. */
  lemma TrimmedWithBuild(v: string, build: string) returns (core: string, blanks: string)
    requires TrimSpace(v) != "" && '+' !in v && IsIdentifiers(build)
    ensures core == TrimSpace(v) && '+' !in core + blanks
    ensures TrimSpace(v + ("+" + build)) == core + (blanks + ("+" + build))
    ensures forall i | 0 <= i < |blanks| :: IsSpace(blanks[i])
    ensures blanks == "" <==> !IsSpace(v[|v| - 1])
  {
    var u, t := TrimLeft(v), "+" + build;
    TrimLeftAppend(v, t);
    TrimRightSplits(u);
    core := TrimRight(u);
    blanks := u[|core|..];
    assert u == core + blanks;
    assert u + t == core + (blanks + t);
    assert (u + t)[|u + t| - 1] == build[|build| - 1] && IsIdentifierChar(build[|build| - 1]);
    assert blanks != "" ==> blanks[|blanks| - 1] == u[|u| - 1];
    assert blanks == "" ==> core[|core| - 1] == u[|u| - 1];
  }

  lemma BuildIgnoredIn(v: string, build: string, s1: string, s2: string, s3: string)
    requires v != "" && TrimSpace(v) != "" && '+' !in v && IsIdentifiers(build)
    requires Number(TrimSpace(v)).Some? && Number(TrimSpace(v)).value.1 == s1
    requires DottedNumber(s1).Some? && DottedNumber(s1).value.1 == s2
    requires DottedNumber(s2).Some? && DottedNumber(s2).value.1 == s3
    requires Suffix(s3).Some?
    ensures Parse(v + ("+" + build)) == Parse(v) <==> !IsSpace(v[|v| - 1])
  {
    hide TrimSpace, Suffix, DottedNumber, Number, Parse;
    var core, blanks := TrimmedWithBuild(v, build);
    var t := blanks + ("+" + build);
    assert t[0] == '+' || IsSpace(t[0]);
    NumbersIgnoreTail(core, t, s1, s2, s3);
    NoPlusAnywhere(core, s1, s2, s3);
    if blanks == "" {
      assert t == "+" + build;
      SuffixIgnoresBuild(s3, build);
    } else {
      assert s3 + t == (s3 + blanks) + ("+" + build);
      BlankSpoilsSuffix(s3 + blanks, build);
    }
    ParseSteps(v, s1, s2, s3);
    ParseSteps(v + ("+" + build), s1 + t, s2 + t, s3 + t);
  }

  /**
   * Appending build metadata to a version that has none changes nothing Parse reports, unless the
   * version ends in a blank, which then stands in the middle.
   */
  lemma BuildMetadataIsIgnored(v: string, build: string)
    ensures Valid(v) && '+' !in v && IsIdentifiers(build) ==>
              v != "" && (Parse(v + ("+" + build)) == Parse(v) <==> !IsSpace(v[|v| - 1]))
  {
    if Valid(v) && '+' !in v && IsIdentifiers(build) {
      var (_, s1) := Number(TrimSpace(v)).value;
      var (_, s2) := DottedNumber(s1).value;
      var (_, s3) := DottedNumber(s2).value;
      BuildIgnoredIn(v, build, s1, s2, s3);
    }
  }

  /* ---------- Printed versions parse ---------- */

  lemma {:induction false} DigitRunOf(d: string, t: string)
    requires Decimal.AllDigits(d) && (t == "" || !Decimal.IsDigit(t[0]))
    ensures DigitRun(d + t) == |d|
  {
    if d == "" {
      assert d + t == t;
    } else {
      DigitRunOf(d[1..], t);
      assert (d + t)[1..] == d[1..] + t;
    }
  }

  lemma NumberOf(n: nat, t: string)
    requires n <= Decimal.MAX_INT && (t == "" || !Decimal.IsDigit(t[0]))
    ensures Number(Decimal.OfNat(n) + t) == Some((n, t))
  {
    var d := Decimal.OfNat(n);
    Decimal.NatRoundTrip(n);
    DigitRunOf(d, t);
    assert (d + t)[..|d|] == d && (d + t)[|d|..] == t;
  }

  function Print(i: nat, j: nat, k: nat): string {
    Decimal.OfNat(i) + ("." + (Decimal.OfNat(j) + ("." + (Decimal.OfNat(k) + ""))))
  }

  lemma PrintTrimmed(i: nat, j: nat, k: nat)
    ensures Print(i, j, k) != "" && !IsSpace(Print(i, j, k)[0]) && TrimSpace(Print(i, j, k)) == Print(i, j, k)
  {
    Decimal.NatRoundTrip(i);
    Decimal.NatRoundTrip(k);
    var s := Print(i, j, k);
    assert s[0] == Decimal.OfNat(i)[0];
    assert s[|s| - 1] == Decimal.OfNat(k)[|Decimal.OfNat(k)| - 1];
    TrimKeeps(s);
  }

  /** Round trip: a printed major.minor.patch parses to its three numbers. */
  lemma PrintedVersionParses(i: nat, j: nat, k: nat)
    requires i <= Decimal.MAX_INT && j <= Decimal.MAX_INT && k <= Decimal.MAX_INT
    ensures Parse(Print(i, j, k)) == Some(SemVer(i, j, k, ""))
  {
    var t3 := Decimal.OfNat(k) + "";
    var t2 := Decimal.OfNat(j) + ("." + t3);
    PrintTrimmed(i, j, k);
    PrintedParts(i, j, k);
    ParseSteps(Print(i, j, k), "." + t2, "." + t3, "");
  }

  /* ---------- Exactly what parses ---------- */

  function PreText(pre: Option<string>): string {
    match pre case Some(p) => "-" + p case None => ""
  }

  function Tail(pre: Option<string>, build: Option<string>): string {
    PreText(pre) + match build case Some(b) => "+" + b case None => ""
  }

  /** major.minor.patch[-prerelease][+build]. */
  function Written(major: string, minor: string, patch: string, pre: Option<string>, build: Option<string>): string {
    major + ("." + (minor + ("." + (patch + Tail(pre, build)))))
  }

  predicate Digits(d: string) {
    d != "" && forall c | c in d :: '0' <= c <= '9'
  }

  /** Of digits, letters, dots and hyphens, and not empty. */
  predicate Identifiers(o: Option<string>) {
    o.Some? ==>
      && o.value != ""
      && forall c | c in o.value :: '0' <= c <= '9' || 'A' <= c <= 'Z' || 'a' <= c <= 'z' || c == '.' || c == '-'
  }

  predicate Blank(s: string) {
    forall c | c in s :: c == ' ' || '\t' <= c <= '\r' || IsSpace(c)
  }

  lemma DigitsAreDigits(d: string)
    ensures Digits(d) <==> d != "" && Decimal.AllDigits(d)
  {
    assert forall i | 0 <= i < |d| :: d[i] in d;
  }

  lemma IdentifiersAreIdentifiers(o: Option<string>)
    ensures Identifiers(o) <==> o.Some? ==> IsIdentifiers(o.value)
  {
    if o.Some? {
      assert forall i | 0 <= i < |o.value| :: o.value[i] in o.value;
    }
  }

  lemma NumberReads(d: string, t: string)
    requires Digits(d) && (t == "" || !Decimal.IsDigit(t[0]))
    ensures Decimal.AllDigits(d) && Number(d + t) == Some((Decimal.Clamp(Decimal.ValueOf(d)), t))
  {
    DigitsAreDigits(d);
    DigitRunOf(d, t);
    assert (d + t)[..|d|] == d && (d + t)[|d|..] == t;
  }

  lemma SuffixReads(pre: Option<string>, build: Option<string>)
    requires Identifiers(pre) && Identifiers(build)
    ensures Suffix(Tail(pre, build)) == Some(match pre case Some(p) => p case None => "")
  {
    IdentifiersAreIdentifiers(pre);
    IdentifiersAreIdentifiers(build);
    var t, p := Tail(pre, build), PreText(pre);
    assert '+' !in p;
    match build {
      case Some(b) =>
        BeforePlusAppend(p, b);
        assert t == p + "+" + b;
        assert t[|p| + 1..] == b;
      case None =>
        BeforePlusAppend(p, "");
        assert t == p;
    }
    if pre.Some? {
      assert t[1..|p|] == pre.value && t[0] == '-';
    }
  }

  lemma {:induction false} TrimLeftStrips(before: string, t: string)
    requires Blank(before) && t != "" && !IsSpace(t[0])
    ensures TrimLeft(before + t) == t
  {
    if before == "" {
      assert before + t == t;
    } else {
      assert forall c | c in before[1..] :: c in before;
      TrimLeftStrips(before[1..], t);
      assert (before + t)[1..] == before[1..] + t && before[0] in before;
    }
  }

  lemma {:induction false} TrimRightStrips(t: string, after: string)
    requires Blank(after) && t != "" && !IsSpace(t[|t| - 1])
    ensures TrimRight(t + after) == t
  {
    if after == "" {
      assert t + after == t;
    } else {
      var front := after[..|after| - 1];
      assert forall c | c in front :: c in after;
      TrimRightStrips(t, front);
      assert (t + after)[..|t + after| - 1] == t + front && after[|after| - 1] in after;
    }
  }

  /** A written version neither begins nor ends with a blank. */
  lemma WrittenHasNoBlankEnds(major: string, minor: string, patch: string, pre: Option<string>, build: Option<string>)
    requires Digits(major) && Digits(minor) && Digits(patch) && Identifiers(pre) && Identifiers(build)
    ensures var w := Written(major, minor, patch, pre, build);
            w != "" && Decimal.IsDigit(w[0]) && !IsSpace(w[0]) && !IsSpace(w[|w| - 1])
  {
    var w, t := Written(major, minor, patch, pre, build), Tail(pre, build);
    assert w[0] == major[0] && major[0] in major;
    IdentifiersAreIdentifiers(pre);
    IdentifiersAreIdentifiers(build);
    if t == "" {
      assert w[|w| - 1] == patch[|patch| - 1] && patch[|patch| - 1] in patch;
    } else {
      assert w[|w| - 1] == t[|t| - 1];
      assert IsIdentifierChar(t[|t| - 1]);
    }
  }

  /**
   * Everything of the form major.minor.patch[-prerelease][+build], between any blanks, parses to its
   * three numbers (saturated, leading zeros allowed) and its prerelease.
   */
  lemma ParseReads(before: string, major: string, minor: string, patch: string, pre: Option<string>,
                   build: Option<string>, after: string)
    requires Digits(major) && Digits(minor) && Digits(patch) && Identifiers(pre) && Identifiers(build)
    requires Blank(before) && Blank(after)
    ensures Decimal.AllDigits(major) && Decimal.AllDigits(minor) && Decimal.AllDigits(patch)
    ensures Parse(before + (Written(major, minor, patch, pre, build) + after))
            == Some(SemVer(Decimal.Clamp(Decimal.ValueOf(major)), Decimal.Clamp(Decimal.ValueOf(minor)),
                           Decimal.Clamp(Decimal.ValueOf(patch)), match pre case Some(p) => p case None => ""))
  {
    var w, t3 := Written(major, minor, patch, pre, build), Tail(pre, build);
    var t2 := minor + ("." + (patch + t3));
    PaddedTrims(before, major, minor, patch, pre, build, after);
    hide TrimSpace, Suffix, Number, Parse;
    NumberReads(major, "." + t2);
    NumberReads(minor, "." + (patch + t3));
    NumberReads(patch, t3);
    assert ("." + t2)[1..] == t2 && ("." + (patch + t3))[1..] == patch + t3;
    SuffixReads(pre, build);
    ParseSteps(before + (w + after), "." + t2, "." + (patch + t3), t3);
  }

  lemma PaddedTrims(before: string, major: string, minor: string, patch: string, pre: Option<string>,
                    build: Option<string>, after: string)
    requires Digits(major) && Digits(minor) && Digits(patch) && Identifiers(pre) && Identifiers(build)
    requires Blank(before) && Blank(after)
    ensures var w := Written(major, minor, patch, pre, build);
            TrimSpace(before + (w + after)) == w && TrimLeft(before + (w + after)) == w + after
  {
    var w := Written(major, minor, patch, pre, build);
    WrittenHasNoBlankEnds(major, minor, patch, pre, build);
    assert (w + after)[0] == w[0];
    TrimLeftStrips(before, w + after);
    TrimRightStrips(w, after);
  }

  lemma NumberSplits(s: string) returns (d: string, t: string)
    requires Number(s).Some?
    ensures Digits(d) && s == d + t && Number(s).value.1 == t
  {
    var n := DigitRun(s);
    d, t := s[..n], s[n..];
    DigitsAreDigits(d);
  }

  lemma DottedSplits(s: string) returns (d: string, t: string)
    requires DottedNumber(s).Some?
    ensures Digits(d) && s == "." + (d + t) && DottedNumber(s).value.1 == t
  {
    d, t := NumberSplits(s[1..]);
    assert s == "." + s[1..];
  }

  lemma SuffixSplits(t: string) returns (pre: Option<string>, build: Option<string>)
    requires Suffix(t).Some?
    ensures Identifiers(pre) && Identifiers(build) && t == Tail(pre, build)
  {
    var n := BeforePlus(t);
    pre := if n == 0 then None else Some(t[1..n]);
    build := if n < |t| then Some(t[n + 1..]) else None;
    IdentifiersAreIdentifiers(pre);
    IdentifiersAreIdentifiers(build);
    assert t == t[..n] + t[n..];
    assert n < |t| ==> t[n..] == "+" + t[n + 1..];
    assert n > 0 ==> t[..n] == "-" + t[1..n];
  }

  lemma {:induction false} TrimLeftSplits(s: string) returns (before: string)
    ensures Blank(before) && s == before + TrimLeft(s)
    ensures TrimLeft(s) != "" ==> !IsSpace(TrimLeft(s)[0])
  {
    before := "";
    if s != "" && IsSpace(s[0]) {
      before := TrimLeftSplits(s[1..]);
      assert s == [s[0]] + s[1..];
      before := [s[0]] + before;
    }
  }

  /** Conversely, whatever parses is of that form. */
  lemma ParseSplits(s: string)
    returns (before: string, major: string, minor: string, patch: string, pre: Option<string>, build: Option<string>,
             after: string)
    ensures Valid(s) ==>
              && Digits(major) && Digits(minor) && Digits(patch) && Identifiers(pre) && Identifiers(build)
              && Blank(before) && Blank(after)
              && s == before + (Written(major, minor, patch, pre, build) + after)
  {
    before, major, minor, patch, pre, build, after := "", "", "", "", None, None, "";
    if Valid(s) {
      before := TrimLeftSplits(s);
      var u := TrimLeft(s);
      TrimRightSplits(u);
      after := u[|TrimSpace(s)|..];
      assert u == TrimSpace(s) + after;
      var (_, t1) := Number(TrimSpace(s)).value;
      var (_, t2) := DottedNumber(t1).value;
      var (_, t3) := DottedNumber(t2).value;
      hide TrimSpace, TrimLeft, Number, DottedNumber, Suffix;
      major, minor, patch, pre, build := CoreSplits(TrimSpace(s), t1, t2, t3);
    }
  }

  lemma CoreSplits(core: string, t1: string, t2: string, t3: string)
    returns (major: string, minor: string, patch: string, pre: Option<string>, build: Option<string>)
    requires Number(core).Some? && Number(core).value.1 == t1
    requires DottedNumber(t1).Some? && DottedNumber(t1).value.1 == t2
    requires DottedNumber(t2).Some? && DottedNumber(t2).value.1 == t3
    requires Suffix(t3).Some?
    ensures Digits(major) && Digits(minor) && Digits(patch) && Identifiers(pre) && Identifiers(build)
    ensures core == Written(major, minor, patch, pre, build)
  {
    hide Number, DottedNumber, Suffix, Digits, Identifiers;
    var a, b, c;
    major, a := NumberSplits(core);
    minor, b := DottedSplits(t1);
    patch, c := DottedSplits(t2);
    pre, build := SuffixSplits(t3);
  }

  /** Two numbers are not a version. */
  lemma TwoNumbersDoNotParse(i: nat, j: nat)
    requires i <= Decimal.MAX_INT && j <= Decimal.MAX_INT
    ensures Parse(Decimal.OfNat(i) + ("." + (Decimal.OfNat(j) + ""))) == None
  {
    var t := Decimal.OfNat(j) + "";
    var s := Decimal.OfNat(i) + ("." + t);
    Decimal.NatRoundTrip(i);
    Decimal.NatRoundTrip(j);
    assert s[0] == Decimal.OfNat(i)[0] && s[|s| - 1] == Decimal.OfNat(j)[|Decimal.OfNat(j)| - 1];
    TrimKeeps(s);
    NumberOf(i, "." + t);
    NumberOf(j, "");
    assert ("." + t)[1..] == t;
    assert DottedNumber("." + t) == Some((j, ""));
    assert DottedNumber("").None?;
  }

  lemma NineParses()
    ensures Parse("1.9.0") == Some(SemVer(1, 9, 0, ""))
  {
    hide Parse;
    PrintedVersionParses(1, 9, 0);
    assert "1.9.0" == Print(1, 9, 0);
  }

  lemma TenParses()
    ensures Parse("1.10.0") == Some(SemVer(1, 10, 0, ""))
  {
    hide Parse;
    PrintedVersionParses(1, 10, 0);
    TenPrints();
  }

  lemma TenPrints()
    ensures "1.10.0" == Print(1, 10, 0)
  {
  }

  lemma ShortFails()
    ensures Parse("1.5") == None
  {
    hide Parse;
    TwoNumbersDoNotParse(1, 5);
    assert "1.5" == Decimal.OfNat(1) + ("." + (Decimal.OfNat(5) + ""));
  }

  lemma WitnessOrder()
    ensures Lex.Less("1.10.0", "1.5") && Lex.Less("1.5", "1.9.0")
  {
  }

  /* ---------- Exactly when the order breaks ---------- */

  /** Compare on strings together with what they parse to. */
  function Ordered(a: string, va: Option<SemVer>, b: string, vb: Option<SemVer>): int {
    if va.Some? && vb.Some? then Cmp(va.value, vb.value)
    else if a == b then 0 else if Lex.Less(a, b) then -1 else 1
  }

  /** z does not parse and lies bytewise between two versions the higher of which is not the newer one. */
  predicate Between(low: string, vlow: Option<SemVer>, z: string, vz: Option<SemVer>,
                    high: string, vhigh: Option<SemVer>)
  {
    && Lex.Less(low, z) && Lex.Less(z, high)
    && vlow.Some? && vz.None? && vhigh.Some? && Cmp(vhigh.value, vlow.value) <= 0
  }

  lemma LexChain(a: string, b: string, c: string)
    ensures (a == b || Lex.Less(a, b)) && (b == c || Lex.Less(b, c)) ==> a == c || Lex.Less(a, c)
    ensures a == b || Lex.Less(a, b) || Lex.Less(b, a)
    ensures Lex.Less(a, b) ==> a != b && !Lex.Less(b, a)
  {
    Lex.Total(a, b);
    if Lex.Less(a, b) {
      Lex.Asymmetric(a, b);
      if Lex.Less(b, c) {
        Lex.Transitive(a, b, c);
      }
    }
  }

  lemma LexTriangle(a: string, b: string, c: string)
    ensures (a == b || Lex.Less(a, b)) && (b == c || Lex.Less(b, c)) ==> a == c || Lex.Less(a, c)
    ensures a != b ==> (Lex.Less(a, b) <==> !Lex.Less(b, a))
    ensures b != c ==> (Lex.Less(b, c) <==> !Lex.Less(c, b))
    ensures a != c ==> (Lex.Less(a, c) <==> !Lex.Less(c, a))
    ensures !Lex.Less(a, a) && !Lex.Less(b, b) && !Lex.Less(c, c)
  {
    LexChain(a, b, c);
    LexChain(b, a, c);
    LexChain(b, c, a);
    LexChain(c, b, a);
    LexChain(a, c, b);
    LexChain(c, a, b);
    Lex.Irreflexive(a);
    Lex.Irreflexive(b);
    Lex.Irreflexive(c);
  }

  lemma OrderedBreaksExactly(a: string, va: Option<SemVer>, b: string, vb: Option<SemVer>,
                             c: string, vc: Option<SemVer>)
    requires (a == b ==> va == vb) && (b == c ==> vb == vc) && (a == c ==> va == vc)
    ensures (Ordered(a, va, b, vb) <= 0 && Ordered(b, vb, c, vc) <= 0 && Ordered(a, va, c, vc) > 0) <==>
            (Between(b, vb, c, vc, a, va) || Between(c, vc, a, va, b, vb) || (Between(a, va, b, vb, c, vc) && va != vc))
    ensures (Ordered(a, va, b, vb) < 0 && Ordered(b, vb, c, vc) < 0 && Ordered(c, vc, a, va) < 0) <==>
            ((Between(b, vb, c, vc, a, va) && va != vb) || (Between(c, vc, a, va, b, vb) && vb != vc)
             || (Between(a, va, b, vb, c, vc) && va != vc))
  {
    hide Cmp, Lex.Less;
    LexTriangle(a, b, c);
    if va.Some? && vb.Some? {
      CmpFlipsOrTies(va.value, vb.value);
    }
    if vb.Some? && vc.Some? {
      CmpFlipsOrTies(vb.value, vc.value);
    }
    if va.Some? && vc.Some? {
      CmpFlipsOrTies(va.value, vc.value);
    }
    if va.Some? && vb.Some? && vc.Some? {
      CmpIsTotalPreorder(va.value, vb.value, vc.value);
    }
  }

  lemma CmpFlipsOrTies(a: SemVer, b: SemVer)
    ensures Cmp(b, a) == -Cmp(a, b) && (Cmp(a, b) == 0 <==> a == b)
  {
    CmpIsTotalPreorder(a, b, b);
  }

  /** z does not parse and lies bytewise between two versions, the higher of which is not the newer. */
  predicate Misplaced(low: string, z: string, high: string) {
    Between(low, Parse(low), z, Parse(z), high, Parse(high))
  }

  /**
   * Transitivity fails exactly when one of the three alone does not parse and lies bytewise between
   * the other two against their order. At either end of the chain a tie between those two is enough.
   */
  lemma CompareIsTransitiveExactly(a: string, b: string, c: string)
    ensures (Compare(a, b) <= 0 && Compare(b, c) <= 0 ==> Compare(a, c) <= 0) <==>
            !(Misplaced(b, c, a) || Misplaced(c, a, b) || (Misplaced(a, b, c) && Parse(a) != Parse(c)))
  {
    hide Parse, Cmp, Lex.Less, Between;
    OrderedBreaksExactly(a, Parse(a), b, Parse(b), c, Parse(c));
  }

  /** Three strings form a strict cycle exactly when one of them is misplaced between two unequal versions. */
  lemma CycleExactly(a: string, b: string, c: string)
    ensures (Compare(a, b) < 0 && Compare(b, c) < 0 && Compare(c, a) < 0) <==>
            ((Misplaced(b, c, a) && Parse(a) != Parse(b)) || (Misplaced(c, a, b) && Parse(b) != Parse(c))
             || (Misplaced(a, b, c) && Parse(a) != Parse(c)))
  {
    hide Parse, Cmp, Lex.Less, Between;
    OrderedBreaksExactly(a, Parse(a), b, Parse(b), c, Parse(c));
  }

  /** Such a cycle: three versions, one of them unparsable. */
  lemma FallbackIsCyclic()
    ensures Compare("1.9.0", "1.10.0") < 0 && Compare("1.10.0", "1.5") < 0 && Compare("1.5", "1.9.0") < 0
  {
    hide Parse;
    NineParses();
    TenParses();
    ShortFails();
    WitnessOrder();
    CycleExactly("1.9.0", "1.10.0", "1.5");
  }

  /** A version with a '!' after it is none. */
  lemma BangDoesNotParse(i: nat, j: nat, k: nat)
    requires i <= Decimal.MAX_INT && j <= Decimal.MAX_INT && k <= Decimal.MAX_INT
    ensures Parse(Print(i, j, k) + "!") == None
  {
    hide TrimSpace, Parse, Number, DottedNumber;
    var s, t3 := Print(i, j, k), Decimal.OfNat(k) + "";
    var t2 := Decimal.OfNat(j) + ("." + t3);
    PrintTrimmed(i, j, k);
    PrintedParts(i, j, k);
    NumbersIgnoreTail(s, "!", "." + t2, "." + t3, "");
    assert "" + "!" == "!";
    TrimKeeps(s + "!");
    ParseSteps(s + "!", "." + t2 + "!", "." + t3 + "!", "!");
  }

  lemma PrintedParts(i: nat, j: nat, k: nat)
    requires i <= Decimal.MAX_INT && j <= Decimal.MAX_INT && k <= Decimal.MAX_INT
    ensures var t3 := Decimal.OfNat(k) + "";
            var t2 := Decimal.OfNat(j) + ("." + t3);
            && Number(Print(i, j, k)) == Some((i, "." + t2))
            && DottedNumber("." + t2) == Some((j, "." + t3))
            && DottedNumber("." + t3) == Some((k, ""))
  {
    var t3 := Decimal.OfNat(k) + "";
    var t2 := Decimal.OfNat(j) + ("." + t3);
    NumberOf(i, "." + t2);
    NumberOf(j, "." + t3);
    NumberOf(k, "");
    assert ("." + t2)[1..] == t2 && ("." + t3)[1..] == t3;
  }

  lemma OneZeroZero()
    ensures "1.0.0" == Print(1, 0, 0) && Parse("1.0.0") == Some(SemVer(1, 0, 0, ""))
  {
    hide Parse;
    PrintedVersionParses(1, 0, 0);
    assert "1.0.0" == Print(1, 0, 0);
  }

  lemma BangFails()
    ensures Parse("1.0.0!") == None
  {
    hide Parse;
    OneZeroZero();
    BangDoesNotParse(1, 0, 0);
    assert "1.0.0" + "!" == "1.0.0!";
  }

  lemma TieOrder()
    ensures Lex.Less("1.0.0", "1.0.0!") && Lex.Less("1.0.0!", "1.0.0+b")
  {
  }

  /** A tie breaks transitivity too, without a cycle: two versions apart only in their build metadata. */
  lemma TieIsNotTransitive()
    ensures Compare("1.0.0+b", "1.0.0") == 0 && Compare("1.0.0", "1.0.0!") < 0 && Compare("1.0.0+b", "1.0.0!") > 0
  {
    hide Parse, TrimSpace, Lex.Less;
    TieOrder();
    OneZeroZero();
    BangFails();
    BuildMetadataIsIgnored("1.0.0", "b");
    assert "1.0.0" + ("+" + "b") == "1.0.0+b";
    LexTriangle("1.0.0", "1.0.0!", "1.0.0+b");
  }

  /* ---------- Ranges ---------- */

  datatype Op = Exactly | AtLeast | Above | AtMost | Below | SameMajor | SameMinor

  function SplitRange(rng: string): (Op, string) {
    if |rng| > 2 && rng[..2] == ">=" then (AtLeast, rng[2..])
    else if |rng| > 2 && rng[..2] == "<=" then (AtMost, rng[2..])
    else if |rng| > 1 && rng[0] == '>' then (Above, rng[1..])
    else if |rng| > 1 && rng[0] == '<' then (Below, rng[1..])
    else if |rng| > 1 && rng[0] == '^' then (SameMajor, rng[1..])
    else if |rng| > 1 && rng[0] == '~' then (SameMinor, rng[1..])
    else (Exactly, rng)
  }

  predicate Meets(version: string, op: Op, target: string) {
    match (Parse(version), Parse(target))
    case (Some(v), Some(t)) =>
      (match op
       case AtLeast => Compare(version, target) >= 0
       case Above => Compare(version, target) > 0
       case AtMost => Compare(version, target) <= 0
       case Below => Compare(version, target) < 0
       case SameMajor => v.major == t.major && Compare(version, target) >= 0
       case SameMinor => v.major == t.major && v.minor == t.minor && Compare(version, target) >= 0
       case Exactly => Compare(version, target) == 0)
    case _ => false
  }

  predicate Satisfies(version: string, range: string) {
    var rng := TrimSpace(range);
    rng == "" || rng == "*" ||
    var (op, target) := SplitRange(rng);
    Meets(version, op, target)
  }

  lemma RangeTrimmed(op: string, before: string, w: string, after: string)
    requires op != "" && !IsSpace(op[0]) && w != "" && !IsSpace(w[|w| - 1]) && Blank(after)
    ensures TrimSpace(op + (before + (w + after))) == op + (before + w)
  {
    var core := op + (before + w);
    assert op + (before + (w + after)) == core + after;
    assert (core + after)[0] == op[0] && core[|core| - 1] == w[|w| - 1];
    assert TrimLeft(core + after) == core + after;
    TrimRightStrips(core, after);
  }

  /** A version without the blanks after it, or around it, parses as before. */
  lemma ParseIgnoresBlanks(t: string) returns (before: string, w: string, after: string)
    requires Valid(t)
    ensures t == before + (w + after) && Blank(before) && Blank(after) && TrimSpace(t) == w
    ensures w != "" && Decimal.IsDigit(w[0]) && !IsSpace(w[|w| - 1])
    ensures Parse(before + w) == Parse(t) && Parse(w) == Parse(t) && TrimSpace(w) == w
  {
    hide Parse, TrimSpace, TrimLeft, Written, Digits, Identifiers, Decimal.AllDigits, Decimal.Clamp;
    var major, minor, patch, pre, build;
    before, major, minor, patch, pre, build, after := ParseSplits(t);
    w := Written(major, minor, patch, pre, build);
    ParseReads(before, major, minor, patch, pre, build, after);
    ParseReads(before, major, minor, patch, pre, build, "");
    ParseReads("", major, minor, patch, pre, build, "");
    PaddedTrims(before, major, minor, patch, pre, build, after);
    PaddedTrims("", major, minor, patch, pre, build, "");
    WrittenHasNoBlankEnds(major, minor, patch, pre, build);
    assert w + "" == w && "" + w == w;
  }

  lemma StartsPlain(before: string, w: string)
    requires Blank(before) && w != "" && Decimal.IsDigit(w[0])
    ensures (before + w)[0] != '='
  {
    assert before != "" ==> before[0] in before;
  }

  /** What is left of a version behind an operator once the range is trimmed parses as before. */
  lemma RangeTrims(op: string, t: string) returns (u: string)
    requires Valid(t) && op != "" && !IsSpace(op[0])
    ensures TrimSpace(op + t) == op + u && u != "" && Parse(u) == Parse(t) && u[0] != '='
  {
    hide Parse, TrimSpace;
    var before, w, after := ParseIgnoresBlanks(t);
    RangeTrimmed(op, before, w, after);
    StartsPlain(before, w);
    u := before + w;
  }

  lemma CompareRespectsParse(v: string, t: string, u: string)
    requires Valid(v) && Valid(t) && Parse(u) == Parse(t)
    ensures Compare(v, u) == Compare(v, t)
  {
    hide Parse;
  }

  function OpOf(op: string): Op {
    if op == ">=" then AtLeast else if op == "<=" then AtMost else if op == ">" then Above else if op == "<" then Below
    else if op == "^" then SameMajor else if op == "~" then SameMinor else Exactly
  }

  lemma OperatorSplits(op: string, u: string)
    requires op in {">=", ">", "<=", "<", "^", "~"} && u != "" && u[0] != '='
    ensures SplitRange(op + u) == (OpOf(op), u) && op + u != "" && op + u != "*"
  {
    var rng := op + u;
    assert rng[0] == op[0] && rng[|op|..] == u && rng[..|op|] == op;
    assert |op| == 1 ==> rng[1] == u[0];
  }

  /** What each operator asks of a version. */
  lemma OperatorMeans(v: string, op: string, t: string)
    requires Valid(v) && Valid(t) && op in {">=", ">", "<=", "<", "^", "~"}
    ensures var a, b := Parse(v).value, Parse(t).value;
            Satisfies(v, op + t) <==>
              if op == ">=" then Compare(v, t) >= 0
              else if op == ">" then Compare(v, t) > 0
              else if op == "<=" then Compare(v, t) <= 0
              else if op == "<" then Compare(v, t) < 0
              else if op == "^" then a.major == b.major && Compare(v, t) >= 0
              else a.major == b.major && a.minor == b.minor && Compare(v, t) >= 0
  {
    hide Parse, TrimSpace, Compare, SplitRange;
    assert op != "" && !IsSpace(op[0]);
    var u := RangeTrims(op, t);
    CompareRespectsParse(v, t, u);
    OperatorSplits(op, u);
  }

  /** Without an operator a range is met by exactly the versions that parse to the same. */
  lemma ExactMeans(v: string, t: string)
    requires Valid(t)
    ensures Satisfies(v, t) <==> Parse(v) == Parse(t)
  {
    hide Parse, TrimSpace, Compare;
    var before, w, after := ParseIgnoresBlanks(t);
    assert SplitRange(w) == (Exactly, w) && w != "*";
    CompareIsTotalPreorder(v, w, w);
  }

  /** Only the blank range and "*" are met by what is no version. */
  lemma OnlyVersionsSatisfy(v: string, range: string)
    ensures !Valid(v) ==> (Satisfies(v, range) <==> TrimSpace(range) == "" || TrimSpace(range) == "*")
    ensures Satisfies(v, "*") && Satisfies(v, "")
  {
    hide Parse;
  }

  /** Both parse, and u is not the newer one. */
  predicate NotNewer(u: string, v: string) {
    CompareStrict(u, v).Some? && CompareStrict(u, v).value <= 0
  }

  /** Between two members of a range every version is a member: no range has a hole. */
  lemma RangesAreConvex(u: string, v: string, w: string, range: string)
    ensures NotNewer(u, v) && NotNewer(v, w) && Satisfies(u, range) && Satisfies(w, range) ==> Satisfies(v, range)
  {
    var rng := TrimSpace(range);
    if rng != "" && rng != "*" {
      var (op, target) := SplitRange(rng);
      CompareIsTotalPreorder(u, v, target);
      CompareIsTotalPreorder(v, w, target);
      CompareIsTotalPreorder(target, u, v);
      CompareIsTotalPreorder(u, target, v);
      CompareIsTotalPreorder(w, target, v);
    }
  }

  /** Equivalent versions satisfy the same ranges. */
  lemma RangesRespectEquality(v: string, w: string, range: string)
    ensures Valid(v) && Parse(v) == Parse(w) ==> (Satisfies(v, range) <==> Satisfies(w, range))
  {
    hide Parse;
  }
}
