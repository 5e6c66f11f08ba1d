/** Public handles: normalisation of a Discord name, the persisted grammar, collision suffixes. */
module Handles {
  import opened Sets
  import opened Text

  const MIN_HANDLE := 3
  const MAX_HANDLE := 40
  const MAX_INT := 0x7FFF_FFFF_FFFF_FFFF

  predicate IsLetterOrDigit(c: char) { 'a' <= c <= 'z' || '0' <= c <= '9' }

  predicate IsHandleChar(c: char) { IsLetterOrDigit(c) || c == '-' }

  // ---- The persisted grammar -------------------------------------------------------------------

  predicate IsCanonicalHandle(value: string) {
    && MIN_HANDLE <= |value| <= MAX_HANDLE
    && value[0] != '-' && value[|value| - 1] != '-'
    && forall i | 0 <= i < |value| :: IsHandleChar(value[i])
  }

  /** The users_handle_format constraint: ^[a-z0-9](?:[a-z0-9-]{1,38}[a-z0-9])$ */
  ghost predicate MeetsFormatConstraint(handle: string) {
    exists first: char, middle: string, last: char :: Derives(handle, first, middle, last)
  }

  predicate Derives(handle: string, first: char, middle: string, last: char) {
    && handle == [first] + middle + [last]
    && IsLetterOrDigit(first) && IsLetterOrDigit(last)
    && 1 <= |middle| <= 38 && forall i | 0 <= i < |middle| :: IsHandleChar(middle[i])
  }

  lemma DerivedIsCanonical(handle: string, first: char, middle: string, last: char)
    requires Derives(handle, first, middle, last)
    ensures IsCanonicalHandle(handle)
  {
    forall i | 0 <= i < |handle| ensures IsHandleChar(handle[i]) {
      if 1 <= i < |handle| - 1 { assert handle[i] == middle[i - 1]; }
    }
  }

  /** The lookup guard and the database constraint accept the same strings. */
  lemma GrammarsAgree(value: string)
    ensures IsCanonicalHandle(value) <==> MeetsFormatConstraint(value)
  {
    if IsCanonicalHandle(value) {
      assert Derives(value, value[0], value[1..|value| - 1], value[|value| - 1]);
    }
    if MeetsFormatConstraint(value) {
      var first, middle, last :| Derives(value, first, middle, last);
      DerivedIsCanonical(value, first, middle, last);
    }
  }

  method CheckCanonicalHandle(value: string) returns (ok: bool)
    ensures ok == IsCanonicalHandle(value)
  {
    if |value| < 3 || |value| > 40 || value[0] == '-' || value[|value| - 1] == '-' {
      return false;
    }
    for i := 0 to |value|
      invariant forall j | 0 <= j < i :: IsHandleChar(value[j])
    {
      var c := value[i];
      if 'a' <= c <= 'z' || '0' <= c <= '9' || c == '-' {
        continue;
      }
      return false;
    }
    return true;
  }

  // ---- Normalisation: the letter-and-digit runs of the name, joined by single hyphens ----------

  /** The maximal runs of letters and digits, in order. */
  function Runs(s: string): (runs: seq<string>)
    ensures forall i | 0 <= i < |runs| :: runs[i] != ""
    ensures s != "" && IsLetterOrDigit(s[|s| - 1]) ==> runs != []
    ensures s == "" ==> runs == []
  {
    if s == "" then []
    else
      var before := Runs(s[..|s| - 1]);
      var c := s[|s| - 1];
      if !IsLetterOrDigit(c) then before
      else if |s| >= 2 && IsLetterOrDigit(s[|s| - 2]) then
        before[..|before| - 1] + [before[|before| - 1] + [c]]
      else before + [[c]]
  }

  function Join(runs: seq<string>): string {
    if runs == [] then ""
    else if |runs| == 1 then runs[0]
    else Join(runs[..|runs| - 1]) + "-" + runs[|runs| - 1]
  }

  /** Short names get a prefix, long ones are cut to 40 characters without a dangling hyphen. */
  function Clamp(base: string): string {
    if base == "" then "user"
    else if |base| < MIN_HANDLE then "user-" + base
    else if |base| > MAX_HANDLE then TrimRight(base[..MAX_HANDLE], IsHyphen)
    else base
  }

  function NormalizedHandle(lower: char -> char, username: string): string {
    Clamp(Join(Runs(MapChars(lower, username))))
  }

  /** Letters, digits and single inner hyphens only. */
  predicate Tidy(s: string) {
    && (forall i | 0 <= i < |s| :: IsHandleChar(s[i]))
    && NoDoubleHyphen(s)
    && (s != "" ==> s[0] != '-' && s[|s| - 1] != '-')
  }

  predicate NoDoubleHyphen(s: string) {
    forall i | 0 <= i < |s| - 1 :: !(s[i] == '-' && s[i + 1] == '-')
  }

  lemma JoinExtendsLast(runs: seq<string>, c: char)
    requires runs != []
    ensures Join(runs[..|runs| - 1] + [runs[|runs| - 1] + [c]]) == Join(runs) + [c]
  {
    var before, last := runs[..|runs| - 1], runs[|runs| - 1];
    var longer := before + [last + [c]];
    assert longer[..|longer| - 1] == before && longer[|longer| - 1] == last + [c];
    if before != [] {
      assert (Join(before) + "-" + last) + [c] == Join(before) + "-" + (last + [c]);
    }
  }

  lemma JoinAppendsRun(runs: seq<string>, run: string)
    ensures Join(runs + [run]) == if runs == [] then run else Join(runs) + "-" + run
  {
    assert (runs + [run])[..|runs|] == runs;
  }

  lemma RunsStep(prefix: string, c: char)
    ensures var runs := Runs(prefix);
      Runs(prefix + [c]) ==
        if !IsLetterOrDigit(c) then runs
        else if prefix != "" && IsLetterOrDigit(prefix[|prefix| - 1]) then
          runs[..|runs| - 1] + [runs[|runs| - 1] + [c]]
        else runs + [[c]]
  {
    hide IsLetterOrDigit;
    var s := prefix + [c];
    assert s[..|s| - 1] == prefix && s[|s| - 1] == c;
    assert prefix != "" ==> s[|s| - 2] == prefix[|prefix| - 1];
  }

  predicate EndsInRun(s: string) {
    s != "" && IsLetterOrDigit(s[|s| - 1])
  }

  /** How one more character changes the joined runs. */
  lemma JoinedStep(prefix: string, c: char)
    ensures EndsInRun(prefix + [c]) == IsLetterOrDigit(c)
    ensures EndsInRun(prefix) ==> Join(Runs(prefix)) != ""
    ensures var joined := Join(Runs(prefix));
      Join(Runs(prefix + [c])) ==
        if !IsLetterOrDigit(c) then joined
        else if EndsInRun(prefix) then joined + [c]
        else if joined == "" then [c]
        else joined + "-" + [c]
  {
    RunsAreTidy(prefix);
    RunsStep(prefix, c);
    if IsLetterOrDigit(c) {
      if prefix != "" && IsLetterOrDigit(prefix[|prefix| - 1]) {
        JoinExtendsLast(Runs(prefix), c);
      } else {
        JoinAppendsRun(Runs(prefix), [c]);
      }
    }
  }

  lemma TidyAppend(s: string, c: char)
    requires Tidy(s) && IsLetterOrDigit(c)
    ensures Tidy(s + [c]) && (s != "" ==> Tidy(s + "-" + [c]))
  {
  }

  lemma {:induction false} RunsAreTidy(s: string)
    ensures Tidy(Join(Runs(s))) && (Join(Runs(s)) == "" <==> Runs(s) == [])
  {
    if s == "" {
    } else {
      var before := Runs(s[..|s| - 1]);
      var c := s[|s| - 1];
      RunsAreTidy(s[..|s| - 1]);
      if IsLetterOrDigit(c) {
        TidyAppend(Join(before), c);
        if |s| >= 2 && IsLetterOrDigit(s[|s| - 2]) {
          assert s[..|s| - 1][|s| - 2] == s[|s| - 2];
          JoinExtendsLast(before, c);
        } else {
          JoinAppendsRun(before, [c]);
        }
      }
    }
  }

  /** The builder after the first `i` characters: the runs so far, plus a pending separator. */
  ghost predicate Scanned(prefix: string, builder: string, separator: bool) {
    && builder == Join(Runs(prefix)) + (if separator then "-" else "")
    && (separator <==> Join(Runs(prefix)) != "" && !EndsInRun(prefix))
  }

  lemma ScanLetter(prefix: string, c: char, builder: string, separator: bool)
    requires Scanned(prefix, builder, separator) && IsLetterOrDigit(c)
    ensures Scanned(prefix + [c], builder + [c], false)
  {
    JoinedStep(prefix, c);
  }

  lemma ScanOther(prefix: string, c: char, builder: string, separator: bool)
    requires Scanned(prefix, builder, separator) && !IsLetterOrDigit(c)
    ensures if builder != "" && !separator then Scanned(prefix + [c], builder + "-", true)
            else Scanned(prefix + [c], builder, separator)
  {
    JoinedStep(prefix, c);
  }

  lemma TrimPendingSeparator(joined: string, separator: bool)
    requires Tidy(joined) && (separator ==> joined != "")
    ensures Trim(joined + (if separator then "-" else ""), IsHyphen) == joined
  {
    hide NoDoubleHyphen, IsHandleChar;
    if separator {
      var s := joined + "-";
      assert s[0] == joined[0];
      assert TrimLeft(s, IsHyphen) == s;
      TrimOneHyphen(joined);
    } else {
      assert joined + "" == joined;
      TrimKeeps(joined, IsHyphen);
    }
  }

  lemma ScanEnds(lowered: string, builder: string, separator: bool)
    requires Scanned(lowered, builder, separator)
    ensures Trim(builder, IsHyphen) == Join(Runs(lowered))
  {
    RunsAreTidy(lowered);
    TrimPendingSeparator(Join(Runs(lowered)), separator);
  }

  /** The character loop of NormalizeHandle: the builder and its separator flag. */
  method BuildHandle(lowered: string) returns (normalized: string)
    ensures Trim(normalized, IsHyphen) == Join(Runs(lowered))
  {
    normalized := "";
    var previousSeparator := false;
    ghost var prefix := "";
    for i := 0 to |lowered|
      invariant prefix == lowered[..i]
      invariant Scanned(prefix, normalized, previousSeparator)
    {
      var character := lowered[i];
      var isLetter := 'a' <= character <= 'z';
      var isDigit := '0' <= character <= '9';
      ghost var seen := prefix;
      prefix := prefix + [character];
      if isLetter || isDigit {
        ScanLetter(seen, character, normalized, previousSeparator);
        normalized := normalized + [character];
        previousSeparator := false;
        continue;
      }
      ScanOther(seen, character, normalized, previousSeparator);
      if |normalized| > 0 && !previousSeparator {
        normalized := normalized + "-";
        previousSeparator := true;
      }
    }
    assert prefix == lowered;
    ScanEnds(lowered, normalized, previousSeparator);
  }

  method NormalizeHandle(lower: char -> char, username: string) returns (base: string)
    ensures base == NormalizedHandle(lower, username)
  {
    var normalized := BuildHandle(MapChars(lower, username));
    base := Trim(normalized, IsHyphen);
    if |base| < 3 {
      if base == "" {
        base := "user";
      } else {
        base := "user-" + base;
      }
    }
    if |base| > 40 {
      base := TrimRight(base[..40], IsHyphen);
    }
  }

  lemma ClampIsCanonical(base: string)
    requires Tidy(base)
    ensures IsCanonicalHandle(Clamp(base)) && NoDoubleHyphen(Clamp(base))
  {
    if |base| > MAX_HANDLE {
      var cut := base[..MAX_HANDLE];
      var kept := Clamp(base);
      assert kept <= cut;
      assert base[38] == cut[38] && base[39] == cut[39] && !(base[38] == '-' && base[38 + 1] == '-');
    } else if base != "" && |base| < MIN_HANDLE {
      var prefixed := "user-" + base;
      assert forall i | 5 <= i < |prefixed| :: prefixed[i] == base[i - 5];
    }
  }

  /** Every Discord name normalises to a handle the lookup accepts and the database stores. */
  lemma NormalizedIsCanonical(lower: char -> char, username: string)
    ensures var handle := NormalizedHandle(lower, username);
      IsCanonicalHandle(handle) && MeetsFormatConstraint(handle) && NoDoubleHyphen(handle)
  {
    RunsAreTidy(MapChars(lower, username));
    ClampIsCanonical(Join(Runs(MapChars(lower, username))));
    GrammarsAgree(NormalizedHandle(lower, username));
  }

  /** Splitting and joining rebuilds a string that only has single inner hyphens. */
  lemma {:induction false} JoinOfRuns(s: string)
    requires forall i | 0 <= i < |s| :: IsHandleChar(s[i])
    requires NoDoubleHyphen(s) && (s != "" ==> s[0] != '-')
    ensures s == Join(Runs(s)) + (if s != "" && s[|s| - 1] == '-' then "-" else "")
  {
    if s == "" {
    } else {
      var prefix, c := s[..|s| - 1], s[|s| - 1];
      assert s == prefix + [c];
      assert forall i | 0 <= i < |prefix| :: prefix[i] == s[i];
      JoinOfRuns(prefix);
      RunsStep(prefix, c);
      JoinedStep(prefix, c);
    }
  }

  /** The letters and digits of a name, each marked whether it directly follows the one before it. */
  function Spelling(s: string): seq<(char, bool)> {
    if s == "" then []
    else
      var before, c := s[..|s| - 1], s[|s| - 1];
      Spelling(before) +
        if IsLetterOrDigit(c) then [(c, before != "" && IsLetterOrDigit(before[|before| - 1]))] else []
  }

  lemma SpellingStep(prefix: string, c: char)
    ensures Spelling(prefix + [c]) == Spelling(prefix) +
      if IsLetterOrDigit(c) then [(c, EndsInRun(prefix))] else []
  {
    assert (prefix + [c])[..|prefix|] == prefix;
  }

  /**
   No letter or digit of a name is lost, changed or moved, and a hyphen stands exactly where something else
   separated two of them: with `RunsAreTidy`, this fixes the joined runs.
   */
  lemma {:induction false} RunsSpellTheName(s: string)
    ensures Spelling(Join(Runs(s))) == Spelling(s) && Tidy(Join(Runs(s)))
  {
    RunsAreTidy(s);
    if s == "" {
    } else {
      var prefix, c := s[..|s| - 1], s[|s| - 1];
      assert s == prefix + [c];
      RunsSpellTheName(prefix);
      hide Runs, Join, Spelling, Tidy;
      JoinedSpells(prefix, c);
      SpellingStep(prefix, c);
    }
  }

  lemma JoinedSpells(prefix: string, c: char)
    requires Tidy(Join(Runs(prefix)))
    ensures Spelling(Join(Runs(prefix + [c])))
      == Spelling(Join(Runs(prefix))) + if IsLetterOrDigit(c) then [(c, EndsInRun(prefix))] else []
  {
    JoinedStep(prefix, c);
    var joined := Join(Runs(prefix));
    TidyEndsInRun(joined);
    assert joined == "" ==> [c] == joined + [c];
    hide Runs, Join, Spelling, Tidy;
    SpellingStep(joined, c);
    SpellingStep(joined, '-');
    SpellingStep(joined + "-", c);
  }

  lemma TidyEndsInRun(s: string)
    requires Tidy(s)
    ensures s == "" || EndsInRun(s)
  {
  }

  /**
   What a name becomes: its joined runs when they have 3 to 40 characters; `user` or a `user-` prefix below
   that; above it the first 40 characters, or 39 when the 40th is a hyphen.
   */
  lemma NormalizedHandleIs(lower: char -> char, username: string)
    ensures var handle := NormalizedHandle(lower, username);
      var joined := Join(Runs(MapChars(lower, username)));
      && (joined == "" ==> handle == "user")
      && (1 <= |joined| < 3 ==> handle == "user-" + joined)
      && (3 <= |joined| <= 40 ==> handle == joined)
      && (|joined| > 40 ==> handle == joined[..if joined[39] == '-' then 39 else 40])
  {
    var joined := Join(Runs(MapChars(lower, username)));
    RunsAreTidy(MapChars(lower, username));
    if |joined| > 40 {
      var cut := joined[..40];
      assert cut[39] == joined[39] && cut[38] == joined[38];
      if joined[39] == '-' {
        assert joined[38 + 1] == '-';
        assert cut == joined[..39] + "-";
        TrimOneHyphen(joined[..39]);
      } else {
        assert TrimRight(cut, IsHyphen) == cut;
      }
    }
  }

  /** Lower-casing leaves the characters of the handle grammar alone. */
  ghost predicate KeepsHandleChars(lower: char -> char) {
    forall c | IsHandleChar(c) :: lower(c) == c
  }

  /**
   The fixed points of normalisation are exactly the canonical handles without adjacent hyphens;
   with `NormalizedIsCanonical`, normalising twice is normalising once.
   */
  lemma NormalizationFixedPoints(lower: char -> char, handle: string)
    requires KeepsHandleChars(lower)
    ensures NormalizedHandle(lower, handle) == handle <==> IsCanonicalHandle(handle) && NoDoubleHyphen(handle)
  {
    NormalizedIsCanonical(lower, handle);
    if IsCanonicalHandle(handle) && NoDoubleHyphen(handle) {
      assert MapChars(lower, handle) == handle;
      JoinOfRuns(handle);
    }
  }

  lemma NormalizeIsIdempotent(lower: char -> char, username: string)
    requires KeepsHandleChars(lower)
    ensures NormalizedHandle(lower, NormalizedHandle(lower, username)) == NormalizedHandle(lower, username)
  {
    NormalizedIsCanonical(lower, username);
    NormalizationFixedPoints(lower, NormalizedHandle(lower, username));
  }

  // ---- Collision suffixes ----------------------------------------------------------------------

  function Digit(d: nat): char
    requires d < 10
  {
    '0' + d as char
  }

  /** `fmt.Sprintf("%d", n)` for the non-negative numbers used as attempts. */
  function Decimal(n: nat): (s: string)
    ensures s != "" && forall i | 0 <= i < |s| :: '0' <= s[i] <= '9'
  {
    if n < 10 then [Digit(n)] else Decimal(n / 10) + [Digit(n % 10)]
  }

  function Power10(k: nat): nat { if k == 0 then 1 else 10 * Power10(k - 1) }

  lemma {:induction false} DecimalLength(n: nat, k: nat)
    requires k >= 1 && n < Power10(k)
    ensures |Decimal(n)| <= k
  {
    if n >= 10 {
      assert k > 1 by { assert Power10(1) == 10 * Power10(0); }
      DecimalLength(n / 10, k - 1);
    }
  }

  lemma {:induction false} DecimalInjective(m: nat, n: nat)
    requires Decimal(m) == Decimal(n)
    ensures m == n
  {
    if m < 10 || n < 10 {
      assert |Decimal(m)| == |Decimal(n)|;
    } else {
      var a, b := Decimal(m / 10), Decimal(n / 10);
      assert Decimal(m)[..|a|] == a && Decimal(n)[..|b|] == b && |a| == |b|;
      DecimalInjective(m / 10, n / 10);
      assert Decimal(m)[|a|] == Digit(m % 10) && Decimal(n)[|b|] == Digit(n % 10);
    }
  }

  /** The number a string of decimal digits stands for. */
  function Number(digits: string): int {
    if digits == "" then 0
    else Number(digits[..|digits| - 1]) * 10 + (digits[|digits| - 1] as int - '0' as int)
  }

  /** The decimal form of a number reads back as that number and has no leading zero. */
  lemma {:induction false} DecimalReads(n: nat)
    ensures Number(Decimal(n)) == n && (n > 0 ==> Decimal(n)[0] != '0')
  {
    if n < 10 {
      assert Decimal(n)[..0] == "";
    } else {
      DecimalReads(n / 10);
      assert Decimal(n)[..|Decimal(n)| - 1] == Decimal(n / 10);
    }
  }

  function Suffix(attempt: nat): string { "-" + Decimal(attempt) }

  lemma SuffixFits(attempt: nat)
    requires attempt <= MAX_INT
    ensures 2 <= |Suffix(attempt)| <= 20
  {
    assert Power10(5) == 100_000 && Power10(7) == 100 * Power10(5) && Power10(9) == 100 * Power10(7);
    assert Power10(11) == 100 * Power10(9) && Power10(13) == 100 * Power10(11) && Power10(15) == 100 * Power10(13);
    assert Power10(17) == 100 * Power10(15) && Power10(19) == 100 * Power10(17);
    DecimalLength(attempt, 19);
  }

  function HandleCandidate(base: string, attempt: int): string
    requires attempt <= MAX_INT
  {
    if attempt <= 1 then base
    else
      SuffixFits(attempt);
      var room := MAX_HANDLE - |Suffix(attempt)|;
      TrimRight(base[..if |base| < room then |base| else room], IsHyphen) + Suffix(attempt)
  }

  lemma CanonicalConcat(a: string, b: string)
    requires a != "" && a[0] != '-' && b != "" && b[|b| - 1] != '-'
    requires MIN_HANDLE <= |a| + |b| <= MAX_HANDLE
    requires forall i | 0 <= i < |a| :: IsHandleChar(a[i])
    requires forall i | 0 <= i < |b| :: IsHandleChar(b[i])
    ensures IsCanonicalHandle(a + b)
  {
  }

  lemma StemOfCanonical(base: string, n: nat)
    requires IsCanonicalHandle(base) && 1 <= n <= |base|
    ensures var stem := TrimRight(base[..n], IsHyphen);
      && 1 <= |stem| <= n && stem[0] != '-' && forall i | 0 <= i < |stem| :: IsHandleChar(stem[i])
  {
    hide IsHandleChar;
    var stem := TrimRight(base[..n], IsHyphen);
    assert base[..n][0] == base[0];
    assert forall i | 0 <= i < |stem| :: stem[i] == base[i];
  }

  lemma SuffixIsHandleText(attempt: nat)
    ensures var suffix := Suffix(attempt);
      suffix[|suffix| - 1] != '-' && forall i | 0 <= i < |suffix| :: IsHandleChar(suffix[i])
  {
    var suffix := Suffix(attempt);
    assert forall i | 1 <= i < |suffix| :: suffix[i] == Decimal(attempt)[i - 1];
  }

  /** A suffixed candidate of a canonical base is again canonical, whatever the attempt. */
  lemma CandidateIsCanonical(base: string, attempt: int)
    requires IsCanonicalHandle(base) && attempt <= MAX_INT
    ensures IsCanonicalHandle(HandleCandidate(base, attempt))
  {
    if attempt > 1 {
      hide Suffix, IsHandleChar, IsCanonicalHandle;
      SuffixFits(attempt);
      SuffixIsHandleText(attempt);
      CanonicalHasRoom(base);
      var room := MAX_HANDLE - |Suffix(attempt)|;
      var n := if |base| < room then |base| else room;
      StemOfCanonical(base, n);
      CanonicalConcat(TrimRight(base[..n], IsHyphen), Suffix(attempt));
    }
  }

  lemma CanonicalHasRoom(base: string)
    requires IsCanonicalHandle(base)
    ensures MIN_HANDLE <= |base| <= MAX_HANDLE && base[|base| - 1] != '-'
  {
  }

  /**
   A later attempt keeps as much of the base as fits into 40 characters beside a hyphen and the attempt
   number, less the hyphens it would end in.
   */
  lemma CandidateIs(base: string, attempt: int) returns (stem: string)
    requires IsCanonicalHandle(base) && 2 <= attempt <= MAX_INT
    ensures HandleCandidate(base, attempt) == stem + "-" + Decimal(attempt)
    ensures stem <= base && stem != "" && stem[|stem| - 1] != '-' && |stem| <= 39 - |Decimal(attempt)|
    ensures |base| <= 39 - |Decimal(attempt)| ==> stem == base
    ensures forall i | |stem| <= i < |base| && i < 39 - |Decimal(attempt)| :: base[i] == '-'
  {
    hide IsCanonicalHandle, Decimal, TrimRight, IsHandleChar;
    SuffixFits(attempt);
    var room := 39 - |Decimal(attempt)|;
    var cut := base[..if |base| < room then |base| else room];
    stem := TrimRight(cut, IsHyphen);
    CanonicalHasRoom(base);
    StemOfCanonical(base, |cut|);
    assert |base| <= room ==> cut == base && (stem == base || IsHyphen(base[|base| - 1]));
    assert forall i | |stem| <= i < |cut| :: IsHyphen(cut[i]) && cut[i] == base[i];
    assert (stem + "-") + Decimal(attempt) == stem + ("-" + Decimal(attempt));
  }

  lemma SuffixIsReadable(a: string, m: nat, b: string, n: nat)
    requires a + Suffix(m) == b + Suffix(n)
    ensures m == n && a == b
  {
    var s := a + Suffix(m);
    var p, q := Decimal(m), Decimal(n);
    assert s[|a|] == '-' && s[|b|] == '-';
    assert forall i | |a| < i < |s| :: s[i] == p[i - |a| - 1];
    assert forall i | |b| < i < |s| :: s[i] == q[i - |b| - 1];
    assert |a| == |b|;
    assert s[|a| + 1..] == p && s[|b| + 1..] == q;
    assert s[..|a|] == a && s[..|b|] == b;
    DecimalInjective(m, n);
  }

  /** From the second attempt on, different attempts never propose the same handle. */
  lemma CandidatesAreDistinct(base: string, other: string, m: int, n: int)
    requires 2 <= m <= MAX_INT && 2 <= n <= MAX_INT
    requires HandleCandidate(base, m) == HandleCandidate(other, n)
    ensures m == n
  {
    SuffixFits(m);
    SuffixFits(n);
    var roomM, roomN := MAX_HANDLE - |Suffix(m)|, MAX_HANDLE - |Suffix(n)|;
    SuffixIsReadable(
      TrimRight(base[..if |base| < roomM then |base| else roomM], IsHyphen), m,
      TrimRight(other[..if |other| < roomN then |other| else roomN], IsHyphen), n);
  }

  predicate EndsWith(s: string, suffix: string) {
    |s| >= |suffix| && s[|s| - |suffix|..] == suffix
  }

  /**
   The first attempt proposes the base itself.  It coincides with a later attempt exactly when the base
   is 39 or 40 characters long and already ends in that suffix, without a second hyphen before it;
   a normalised base never has one.
   */
  lemma FirstAttemptCoincides(base: string, attempt: int)
    requires IsCanonicalHandle(base) && 2 <= attempt <= MAX_INT
    ensures HandleCandidate(base, attempt) == HandleCandidate(base, 1)
      <==> |base| >= 39 && EndsWith(base, Suffix(attempt)) && base[|base| - |Suffix(attempt)| - 1] != '-'
    ensures NoDoubleHyphen(base) && |base| >= 39 && EndsWith(base, Suffix(attempt)) ==>
      base[|base| - |Suffix(attempt)| - 1] != '-'
  {
    SuffixFits(attempt);
    if HandleCandidate(base, attempt) == base {
      CoincidenceNeedsLongBase(base, attempt);
    }
    if |base| >= 39 && EndsWith(base, Suffix(attempt)) {
      assert base[|base| - |Suffix(attempt)|..][0] == '-';
      if base[|base| - |Suffix(attempt)| - 1] != '-' {
        LongBaseCoincides(base, attempt);
      }
    }
  }

  lemma CoincidenceNeedsLongBase(base: string, attempt: int)
    requires IsCanonicalHandle(base) && 2 <= attempt <= MAX_INT
    requires HandleCandidate(base, attempt) == base
    ensures |base| >= 39 && EndsWith(base, Suffix(attempt)) && base[|base| - |Suffix(attempt)| - 1] != '-'
  {
    hide IsCanonicalHandle, Decimal, HandleCandidate;
    var stem := CandidateIs(base, attempt);
    SuffixedBaseIsLong(base, stem, Decimal(attempt));
  }

  lemma SuffixedBaseIsLong(base: string, stem: string, digits: string)
    requires base == stem + "-" + digits && stem != "" && stem[|stem| - 1] != '-'
    requires digits != "" && digits[0] != '-'
    requires forall i | |stem| <= i < |base| && i < 39 - |digits| :: base[i] == '-'
    ensures |base| >= 39 && |base| == |stem| + |"-" + digits|
    ensures base[|stem|..] == "-" + digits && base[|stem| - 1] != '-'
  {
    assert base[|stem|] == '-' && base[|stem| + 1] == digits[0];
    assert base[|stem| - 1] == stem[|stem| - 1];
  }

  lemma LongBaseCoincides(base: string, attempt: int)
    requires IsCanonicalHandle(base) && 2 <= attempt <= MAX_INT && |Suffix(attempt)| <= 20
    requires |base| >= 39 && EndsWith(base, Suffix(attempt)) && base[|base| - |Suffix(attempt)| - 1] != '-'
    ensures HandleCandidate(base, attempt) == base
  {
    SuffixFits(attempt);
    var suffix := Suffix(attempt);
    var stem := base[..|base| - |suffix|];
    assert base == stem + suffix && base[|stem|] == suffix[0] == '-';
    assert !IsHyphen(stem[|stem| - 1]);
    if |base| == 39 {
      assert base[..MAX_HANDLE - |suffix|] == stem + "-";
      TrimOneHyphen(stem);
    } else {
      assert base[..MAX_HANDLE - |suffix|] == stem;
    }
  }

  lemma TrimOneHyphen(stem: string)
    requires stem != "" && !IsHyphen(stem[|stem| - 1])
    ensures TrimRight(stem + "-", IsHyphen) == stem
  {
    var s := stem + "-";
    assert s[..|s| - 1] == stem;
    assert TrimRight(s, IsHyphen) == TrimRight(stem, IsHyphen);
  }

  // ---- Exhausting the attempts -----------------------------------------------------------------

  ghost function Candidates(base: string, last: nat): set<string>
    requires 1 <= last <= MAX_INT
  {
    if last == 1 then {} else Candidates(base, last - 1) + {HandleCandidate(base, last)}
  }

  lemma {:induction false} CandidatesCount(base: string, last: nat)
    requires 1 <= last <= MAX_INT
    ensures |Candidates(base, last)| == last - 1
    ensures forall h :: h in Candidates(base, last) ==> exists k :: 2 <= k <= last && h == HandleCandidate(base, k)
  {
    hide HandleCandidate;
    if last == 1 {
    } else {
      CandidatesCount(base, last - 1);
      if HandleCandidate(base, last) in Candidates(base, last - 1) {
        var k :| 2 <= k <= last - 1 && HandleCandidate(base, last) == HandleCandidate(base, k);
        CandidatesAreDistinct(base, base, last, k);
      }
    }
  }

  /** If attempts 2..last all hit a taken handle, at least last - 1 different handles are taken. */
  lemma ExhaustionNeedsManyHandles(base: string, last: nat, taken: set<string>)
    requires 1 <= last <= MAX_INT
    requires forall k | 2 <= k <= last :: HandleCandidate(base, k) in taken
    ensures |taken| >= last - 1
  {
    CandidatesCount(base, last);
    assert Candidates(base, last) <= taken;
    SubsetSize(Candidates(base, last), taken);
  }
}
