/** The string operations of the Go standard library that the modelled code calls. */
module Text {

  /** The white space of `unicode.IsSpace`. */
  predicate IsSpace(c: char) {
    || '\t' <= c <= '\r' || c == ' ' || c == '\U{85}' || c == '\U{A0}' || c == '\U{1680}'
    || '\U{2000}' <= c <= '\U{200A}' || c == '\U{2028}' || c == '\U{2029}' || c == '\U{202F}'
    || c == '\U{205F}' || c == '\U{3000}'
  }

  predicate IsHyphen(c: char) { c == '-' }

  function TrimRight(s: string, cut: char -> bool): (t: string)
    ensures t <= s && (t == "" || !cut(t[|t| - 1]))
    ensures forall i | |t| <= i < |s| :: cut(s[i])
  {
    if s == "" || !cut(s[|s| - 1]) then s else TrimRight(s[..|s| - 1], cut)
  }

  function TrimLeft(s: string, cut: char -> bool): (t: string)
    ensures |t| <= |s| && t == s[|s| - |t|..] && (t == "" || !cut(t[0]))
    ensures forall i | 0 <= i < |s| - |t| :: cut(s[i])
  {
    if s == "" || !cut(s[0]) then s else TrimLeft(s[1..], cut)
  }

  function Trim(s: string, cut: char -> bool): string {
    TrimRight(TrimLeft(s, cut), cut)
  }

  function TrimSpace(s: string): string { Trim(s, IsSpace) }

  lemma TrimKeeps(s: string, cut: char -> bool)
    requires s != "" ==> !cut(s[0]) && !cut(s[|s| - 1])
    ensures Trim(s, cut) == s
  {
  }

  /** Trimming takes white space off both ends, all of it, and nothing else. */
  lemma TrimSpaceIsInner(s: string) returns (left: string, right: string)
    ensures s == left + TrimSpace(s) + right
    ensures forall i | 0 <= i < |left| :: IsSpace(left[i])
    ensures forall i | 0 <= i < |right| :: IsSpace(right[i])
    ensures TrimSpace(s) != "" ==> !IsSpace(TrimSpace(s)[0]) && !IsSpace(TrimSpace(s)[|TrimSpace(s)| - 1])
  {
    hide IsSpace, TrimLeft, TrimRight;
    var tail := TrimLeft(s, IsSpace);
    var mid := TrimRight(tail, IsSpace);
    left, right := s[..|s| - |tail|], tail[|mid|..];
    Halves(s, |s| - |tail|);
    Halves(tail, |mid|);
    assert forall i | 0 <= i < |right| :: right[i] == tail[|mid| + i];
    assert mid != "" ==> mid[0] == tail[0];
  }

  lemma Halves(s: string, i: nat)
    requires i <= |s|
    ensures s == s[..i] + s[i..]
  {
  }

  lemma TrimSpaceTwice(s: string)
    ensures TrimSpace(TrimSpace(s)) == TrimSpace(s)
  {
    hide IsSpace, TrimSpace;
    var left, right := TrimSpaceIsInner(s);
    if TrimSpace(s) == "" {
      TrimNothing();
    } else {
      NothingToTrim(TrimSpace(s));
    }
  }

  lemma TrimNothing()
    ensures TrimSpace("") == ""
  {
  }

  lemma NothingToTrim(s: string)
    requires s != "" && !IsSpace(s[0]) && !IsSpace(s[|s| - 1])
    ensures TrimSpace(s) == s
  {
  }

  /** `strings.ReplaceAll` for a one-character pattern. */
  function ReplaceAll(s: string, c: char, with: string): string {
    if s == "" then "" else (if s[0] == c then with else [s[0]]) + ReplaceAll(s[1..], c, with)
  }

  lemma {:induction false} ReplaceAllConcat(a: string, b: string, c: char, with: string)
    ensures ReplaceAll(a + b, c, with) == ReplaceAll(a, c, with) + ReplaceAll(b, c, with)
  {
    if a == "" {
      assert a + b == b;
    } else {
      assert (a + b)[0] == a[0] && (a + b)[1..] == a[1..] + b;
      ReplaceAllConcat(a[1..], b, c, with);
    }
  }

  /** A per-character mapping applied to a whole string. */
  function MapChars(f: char -> char, s: string): (t: string)
    ensures |t| == |s| && forall i | 0 <= i < |s| :: t[i] == f(s[i])
  {
    if s == "" then "" else [f(s[0])] + MapChars(f, s[1..])
  }
}
