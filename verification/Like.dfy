/**
 Literal substring search through SQL ILIKE: the service escapes the user's text and the query
 wraps it as '%' || text || '%' with backslash as the escape character.
 */
module Like {
  import opened Text

  predicate IsSpecial(c: char) { c == '\\' || c == '%' || c == '_' }

  /** escapeILIKE: three successive passes over the text. */
  function EscapeILIKE(value: string): string {
    ReplaceAll(ReplaceAll(ReplaceAll(value, '\\', "\\\\"), '%', "\\%"), '_', "\\_")
  }

  function EscapedChar(c: char): string {
    if IsSpecial(c) then ['\\', c] else [c]
  }

  /** The intended effect: one backslash in front of each special character. */
  function Escaped(value: string): string {
    if value == "" then "" else
      EscapedChar(value[0]) + Escaped(value[1..])
  }

  /** Every escape character is followed by the character it escapes. */
  predicate Closed(pattern: string) {
    if pattern == "" then true
    else if pattern[0] == '\\' then |pattern| >= 2 && Closed(pattern[2..])
    else Closed(pattern[1..])
  }

  /** LIKE matching; a pattern that ends in an open escape is an SQL error. */
  predicate Matches(pattern: string, text: string)
    requires Closed(pattern)
    decreases |pattern|, |text|
  {
    if pattern == "" then text == ""
    else if pattern[0] == '%' then
      Matches(pattern[1..], text) || (text != "" && Matches(pattern, text[1..]))
    else if text == "" then false
    else if pattern[0] == '_' then Matches(pattern[1..], text[1..])
    else if pattern[0] == '\\' then pattern[1] == text[0] && Matches(pattern[2..], text[1..])
    else pattern[0] == text[0] && Matches(pattern[1..], text[1..])
  }

  /** Case folding must leave the pattern's own syntax alone. */
  ghost predicate IsFold(fold: char -> char) {
    forall c :: (IsSpecial(c) ==> fold(c) == c) && (IsSpecial(fold(c)) ==> IsSpecial(c))
  }

  /** ILIKE compares the folded pattern with the folded text. */
  predicate ILike(fold: char -> char, pattern: string, text: string)
    requires Closed(MapChars(fold, pattern))
  {
    Matches(MapChars(fold, pattern), MapChars(fold, text))
  }

  ghost predicate Contains(text: string, part: string) {
    exists i :: OccursAt(text, part, i)
  }

  predicate OccursAt(text: string, part: string, i: int) {
    0 <= i <= |text| - |part| && text[i..i + |part|] == part
  }

  // ---- The three passes are one ----------------------------------------------------------------

  lemma EscapeConcat(a: string, b: string)
    ensures EscapeILIKE(a + b) == EscapeILIKE(a) + EscapeILIKE(b)
  {
    var a1, b1 := ReplaceAll(a, '\\', "\\\\"), ReplaceAll(b, '\\', "\\\\");
    ReplaceAllConcat(a, b, '\\', "\\\\");
    ReplaceAllConcat(a1, b1, '%', "\\%");
    ReplaceAllConcat(ReplaceAll(a1, '%', "\\%"), ReplaceAll(b1, '%', "\\%"), '_', "\\_");
  }

  lemma ReplaceOne(c: char, d: char, with: string)
    ensures ReplaceAll([c], d, with) == if c == d then with else [c]
  {
    assert ReplaceAll([c], d, with) == (if c == d then with else [c]) + ReplaceAll([], d, with);
  }

  lemma ReplaceTwo(a: char, b: char, d: char, with: string)
    ensures ReplaceAll([a, b], d, with) == (if a == d then with else [a]) + (if b == d then with else [b])
  {
    ReplaceAllConcat([a], [b], d, with);
    ReplaceOne(a, d, with);
    ReplaceOne(b, d, with);
    assert [a] + [b] == [a, b];
  }

  lemma EscapeOne(c: char)
    ensures EscapeILIKE([c]) == EscapedChar(c)
  {
    ReplaceOne(c, '\\', "\\\\");
    ReplaceOne(c, '%', "\\%");
    ReplaceOne(c, '_', "\\_");
    ReplaceTwo('\\', '\\', '%', "\\%");
    ReplaceTwo('\\', '\\', '_', "\\_");
    ReplaceTwo('\\', '%', '_', "\\_");
  }

  /** The passes do not escape each other's backslashes: together they escape each special once. */
  lemma {:induction false} EscapePassesAreOnePass(value: string)
    ensures EscapeILIKE(value) == Escaped(value)
  {
    if value == "" {
    } else {
      assert value == [value[0]] + value[1..];
      EscapeConcat([value[0]], value[1..]);
      EscapeOne(value[0]);
      EscapePassesAreOnePass(value[1..]);
    }
  }

  // ---- Matching an escaped pattern -------------------------------------------------------------

  lemma EscapedCharIsClosed(c: char, tail: string)
    requires Closed(tail)
    ensures Closed(EscapedChar(c) + tail)
  {
    var head := EscapedChar(c);
    assert (head + tail)[|head|..] == tail;
  }

  lemma EscapedSplits(value: string, rest: string)
    requires value != ""
    ensures Escaped(value) + rest == EscapedChar(value[0]) + (Escaped(value[1..]) + rest)
  {
    hide EscapedChar;
  }

  lemma {:induction false} EscapedIsClosed(value: string, rest: string)
    requires Closed(rest)
    ensures Closed(Escaped(value) + rest)
  {
    hide EscapedChar, Closed;
    if value == "" {
      assert Escaped(value) + rest == rest;
    } else {
      EscapedSplits(value, rest);
      EscapedIsClosed(value[1..], rest);
      EscapedCharIsClosed(value[0], Escaped(value[1..]) + rest);
    }
  }

  lemma EscapedCharMatches(c: char, tail: string, text: string)
    requires Closed(tail)
    ensures Closed(EscapedChar(c) + tail)
    ensures Matches(EscapedChar(c) + tail, text) <==> text != "" && text[0] == c && Matches(tail, text[1..])
  {
    var pattern := EscapedChar(c) + tail;
    if IsSpecial(c) {
      assert pattern[0] == '\\' && pattern[1] == c && pattern[2..] == tail;
    } else {
      assert pattern[0] == c && pattern[1..] == tail;
    }
  }

  lemma PrefixByHead(value: string, text: string)
    requires value != "" && text != ""
    ensures (|text| >= |value| && text[..|value|] == value)
      <==> (text[0] == value[0] && |text[1..]| >= |value[1..]| && text[1..][..|value[1..]|] == value[1..])
    ensures |text| >= |value| ==> text[1..][|value[1..]|..] == text[|value|..]
  {
    if |text| >= |value| {
      assert text[..|value|] == [text[0]] + text[1..][..|value[1..]|];
      assert value == [value[0]] + value[1..];
    }
  }

  /** An escaped text matches itself and nothing else. */
  lemma {:induction false} EscapedMatchesLiterally(value: string, rest: string, text: string)
    requires Closed(rest)
    ensures Closed(Escaped(value) + rest)
    ensures Matches(Escaped(value) + rest, text)
      <==> |text| >= |value| && text[..|value|] == value && Matches(rest, text[|value|..])
    decreases |value|
  {
    hide EscapedChar;
    EscapedIsClosed(value, rest);
    if value == "" {
      assert Escaped(value) + rest == rest;
    } else {
      var tail := Escaped(value[1..]) + rest;
      EscapedIsClosed(value[1..], rest);
      EscapedSplits(value, rest);
      EscapedCharMatches(value[0], tail, text);
      if text != "" {
        EscapedMatchesLiterally(value[1..], rest, text[1..]);
        PrefixByHead(value, text);
      }
    }
  }

  lemma {:induction false} WildcardMatchesAll(text: string)
    ensures Matches("%", text)
  {
    if text == "" {
    } else {
      WildcardMatchesAll(text[1..]);
    }
  }

  lemma ContainsByTail(text: string, part: string)
    requires text != ""
    ensures Contains(text, part) <==> OccursAt(text, part, 0) || Contains(text[1..], part)
  {
    forall i | OccursAt(text, part, i) && i != 0 ensures Contains(text[1..], part) {
      assert text[1..][i - 1..i - 1 + |part|] == text[i..i + |part|];
      assert OccursAt(text[1..], part, i - 1);
    }
    forall i | OccursAt(text[1..], part, i) ensures Contains(text, part) {
      assert text[1..][i..i + |part|] == text[i + 1..i + 1 + |part|];
      assert OccursAt(text, part, i + 1);
    }
  }

  lemma {:induction false} LeadingWildcardSearches(value: string, text: string)
    ensures Closed(Escaped(value) + "%") && Closed("%" + Escaped(value) + "%")
    ensures Matches("%" + Escaped(value) + "%", text) <==> Contains(text, value)
    decreases |text|
  {
    EscapedIsClosed(value, "%");
    var body := Escaped(value) + "%";
    var pattern := "%" + Escaped(value) + "%";
    assert pattern == "%" + body && pattern[1..] == body;
    EscapedMatchesLiterally(value, "%", text);
    if |text| >= |value| { WildcardMatchesAll(text[|value|..]); }
    assert Matches(body, text) <==> OccursAt(text, value, 0);
    if text == "" {
    } else {
      LeadingWildcardSearches(value, text[1..]);
      ContainsByTail(text, value);
    }
  }

  lemma MapAppend(fold: char -> char, a: string, b: string)
    ensures MapChars(fold, a + b) == MapChars(fold, a) + MapChars(fold, b)
  {
    hide MapChars;
  }

  lemma FoldEscapedChar(fold: char -> char, c: char)
    requires IsFold(fold)
    ensures MapChars(fold, EscapedChar(c)) == EscapedChar(fold(c))
  {
    hide MapChars;
    assert IsSpecial('\\') && (IsSpecial(c) ==> fold(c) == c) && (IsSpecial(fold(c)) ==> IsSpecial(c));
  }

  lemma {:induction false} FoldEscaped(fold: char -> char, value: string)
    requires IsFold(fold)
    ensures MapChars(fold, Escaped(value)) == Escaped(MapChars(fold, value))
  {
    if value == "" {
    } else {
      hide IsFold, EscapedChar;
      FoldEscaped(fold, value[1..]);
      FoldEscapedChar(fold, value[0]);
      MapAppend(fold, EscapedChar(value[0]), Escaped(value[1..]));
      assert MapChars(fold, value)[1..] == MapChars(fold, value[1..]);
    }
  }

  /**
   The search condition of the queries, `text ILIKE '%' || escaped || '%'`, is well formed for
   every user text and holds exactly when that text occurs in the column up to case folding.
   */
  lemma SearchIsSubstring(fold: char -> char, value: string, text: string)
    requires IsFold(fold)
    ensures Closed(MapChars(fold, "%" + EscapeILIKE(value) + "%"))
    ensures ILike(fold, "%" + EscapeILIKE(value) + "%", text)
      <==> Contains(MapChars(fold, text), MapChars(fold, value))
  {
    EscapePassesAreOnePass(value);
    FoldEscaped(fold, value);
    assert IsSpecial('%');
    assert MapChars(fold, "%" + Escaped(value) + "%") == "%" + Escaped(MapChars(fold, value)) + "%";
    LeadingWildcardSearches(MapChars(fold, value), MapChars(fold, text));
  }
}
