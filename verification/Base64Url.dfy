/** Base64url without padding (sections 5 and 3.2 of RFC 4648), read as leniently as Go's RawURLEncoding. */
module Base64Url {
  import opened Wrappers

  newtype Byte = b: int | 0 <= b < 256
  newtype Sextet = s: int | 0 <= s < 64

  function Symbol(s: Sextet): char {
    if s < 26 then 'A' + s as char
    else if s < 52 then 'a' + (s - 26) as char
    else if s < 62 then '0' + (s - 52) as char
    else if s == 62 then '-'
    else '_'
  }

  function Value(c: char): Option<Sextet> {
    if 'A' <= c <= 'Z' then Some((c - 'A') as Sextet)
    else if 'a' <= c <= 'z' then Some((c - 'a') as Sextet + 26)
    else if '0' <= c <= '9' then Some((c - '0') as Sextet + 52)
    else if c == '-' then Some(62)
    else if c == '_' then Some(63)
    else None
  }

  lemma SymbolHasValue(s: Sextet)
    ensures Value(Symbol(s)) == Some(s)
  {
  }

  const UPPER := "ABCDEFGHIJKLMNOPQRSTUVWXYZ"
  const LOWER := "abcdefghijklmnopqrstuvwxyz"
  const DIGITS := "0123456789"

  /** The alphabet of table 2 of RFC 4648, where each character stands for its place. */
  lemma SymbolsAreTheAlphabet(s: Sextet)
    ensures var alphabet := UPPER + LOWER + DIGITS + "-_";
      |alphabet| == 64 && Symbol(s) == alphabet[s]
  {
    if s < 26 {
      assert Symbol(s) == UPPER[s];
    } else if s < 52 {
      assert Symbol(s) == LOWER[s - 26];
    } else if s < 62 {
      assert Symbol(s) == DIGITS[s - 52];
    }
  }

  lemma ValueUndoesSymbol(s: Sextet, c: char)
    ensures Value(c) == Some(s) <==> c == Symbol(s)
  {
  }

  // ---- Three bytes are four sextets ------------------------------------------------------------

  function Sextet0(a: Byte): Sextet { (a as int / 4) as Sextet }
  function Sextet1(a: Byte, b: Byte): Sextet { (a as int % 4 * 16 + b as int / 16) as Sextet }
  function Sextet2(b: Byte, c: Byte): Sextet { (b as int % 16 * 4 + c as int / 64) as Sextet }
  function Sextet3(c: Byte): Sextet { (c as int % 64) as Sextet }

  function Byte0(p: Sextet, q: Sextet): Byte { (p as int * 4 + q as int / 16) as Byte }
  function Byte1(q: Sextet, r: Sextet): Byte { (q as int % 16 * 16 + r as int / 4) as Byte }
  function Byte2(r: Sextet, s: Sextet): Byte { (r as int % 4 * 64 + s as int) as Byte }

  lemma GroupDecodes(a: Byte, b: Byte, c: Byte)
    ensures Byte0(Sextet0(a), Sextet1(a, b)) == a
    ensures Byte1(Sextet1(a, b), Sextet2(b, c)) == b
    ensures Byte2(Sextet2(b, c), Sextet3(c)) == c
  {
  }

  /** The four sextets are the base-64 digits of the number whose base-256 digits are the three bytes. */
  lemma GroupIsOneNumber(a: Byte, b: Byte, c: Byte)
    ensures a as int * 65536 + b as int * 256 + c as int ==
      Sextet0(a) as int * 262144 + Sextet1(a, b) as int * 4096 + Sextet2(b, c) as int * 64 + Sextet3(c) as int
  {
  }

  /** A final group of one or two bytes is filled up with zero bits. */
  function Sextets(bytes: seq<Byte>): seq<Sextet>
    decreases |bytes|
  {
    if bytes == [] then []
    else
      var a := bytes[0];
      if |bytes| == 1 then [Sextet0(a), Sextet1(a, 0)]
      else
        var b := bytes[1];
        if |bytes| == 2 then [Sextet0(a), Sextet1(a, b), Sextet2(b, 0)]
        else
          var c := bytes[2];
          [Sextet0(a), Sextet1(a, b), Sextet2(b, c), Sextet3(c)] + Sextets(bytes[3..])
  }

  /** One sextet too many cannot be decoded; surplus low bits of a final group are not looked at. */
  function Bytes(sextets: seq<Sextet>): Option<seq<Byte>>
    decreases |sextets|
  {
    if sextets == [] then Some([])
    else if |sextets| == 1 then None
    else
      var first := Byte0(sextets[0], sextets[1]);
      if |sextets| == 2 then Some([first])
      else
        var second := Byte1(sextets[1], sextets[2]);
        if |sextets| == 3 then Some([first, second])
        else
          var third := Byte2(sextets[2], sextets[3]);
          var rest := Bytes(sextets[4..]);
          if rest.None? then None else Some([first, second, third] + rest.value)
  }

  lemma {:induction false} BytesOfSextets(bytes: seq<Byte>)
    ensures Bytes(Sextets(bytes)) == Some(bytes)
    decreases |bytes|
  {
    hide Sextet0, Sextet1, Sextet2, Sextet3, Byte0, Byte1, Byte2;
    if bytes == [] {
    } else if |bytes| == 1 {
      GroupDecodes(bytes[0], 0, 0);
      assert bytes == [bytes[0]];
    } else if |bytes| == 2 {
      GroupDecodes(bytes[0], bytes[1], 0);
      assert bytes == [bytes[0], bytes[1]];
    } else {
      GroupDecodes(bytes[0], bytes[1], bytes[2]);
      BytesOfSextets(bytes[3..]);
      assert Sextets(bytes)[4..] == Sextets(bytes[3..]);
      assert bytes == [bytes[0], bytes[1], bytes[2]] + bytes[3..];
    }
  }

  /** Every whole group of three bytes is encoded as the four base-64 digits of its number. */
  lemma {:induction false} GroupsAreNumbers(bytes: seq<Byte>, k: nat)
    requires 3 * k + 3 <= |bytes|
    ensures var out := Sextets(bytes);
      && 4 * k + 4 <= |out|
      && bytes[3 * k] as int * 65536 + bytes[3 * k + 1] as int * 256 + bytes[3 * k + 2] as int
        == out[4 * k] as int * 262144 + out[4 * k + 1] as int * 4096 + out[4 * k + 2] as int * 64
           + out[4 * k + 3] as int
    decreases k
  {
    GroupIsOneNumber(bytes[0], bytes[1], bytes[2]);
    hide Sextet0, Sextet1, Sextet2, Sextet3;
    if k == 0 {
    } else {
      var out := Sextets(bytes);
      assert out[4..] == Sextets(bytes[3..]);
      GroupsAreNumbers(bytes[3..], k - 1);
    }
  }

  /** A shorter final group is encoded as if zero bytes followed it. */
  lemma {:induction false} FinalGroupIsPadded(bytes: seq<Byte>)
    ensures Sextets(bytes) <= Sextets(bytes + [0, 0])
    decreases |bytes|
  {
    hide Sextet0, Sextet1, Sextet2, Sextet3;
    if |bytes| < 3 {
      assert |bytes| == 2 ==> bytes + [0, 0] == [bytes[0], bytes[1], 0] + [0];
    } else {
      FinalGroupIsPadded(bytes[3..]);
      assert (bytes + [0, 0])[3..] == bytes[3..] + [0, 0];
    }
  }

  lemma {:induction false} SextetCount(bytes: seq<Byte>)
    ensures |Sextets(bytes)| == (|bytes| * 8 + 5) / 6
    decreases |bytes|
  {
    if |bytes| < 3 {
    } else {
      SextetCount(bytes[3..]);
    }
  }

  // ---- Text ------------------------------------------------------------------------------------

  function Symbols(sextets: seq<Sextet>): string {
    seq(|sextets|, i requires 0 <= i < |sextets| => Symbol(sextets[i]))
  }

  predicate IsLineBreak(c: char) { c == '\r' || c == '\n' }

  /** Line breaks are skipped; any other character outside the alphabet is an error. */
  function Values(text: string): Option<seq<Sextet>> {
    if text == "" then Some([])
    else if IsLineBreak(text[0]) then Values(text[1..])
    else
      var v := Value(text[0]);
      var rest := Values(text[1..]);
      if v.None? || rest.None? then None else Some([v.value] + rest.value)
  }

  function EncodeToString(bytes: seq<Byte>): string { Symbols(Sextets(bytes)) }

  function DecodeString(text: string): Option<seq<Byte>> {
    var sextets := Values(text);
    if sextets.None? then None else Bytes(sextets.value)
  }

  ghost predicate IsReadable(c: char) { IsLineBreak(c) || exists s: Sextet :: Symbol(s) == c }

  ghost predicate AreReadable(text: string) { forall i | 0 <= i < |text| :: IsReadable(text[i]) }

  /** How many characters of a text are not line breaks. */
  function CountSymbols(text: string): nat {
    if text == "" then 0 else (if IsLineBreak(text[0]) then 0 else 1) + CountSymbols(text[1..])
  }

  lemma {:induction false} ValuesExactly(text: string)
    ensures Values(text).Some? <==> AreReadable(text)
    ensures Values(text).Some? ==> |Values(text).value| == CountSymbols(text)
  {
    if text == "" {
    } else {
      ValuesExactly(text[1..]);
      var v := Value(text[0]);
      if v.Some? {
        ValueUndoesSymbol(v.value, text[0]);
      } else if exists s: Sextet :: Symbol(s) == text[0] {
        var s: Sextet :| Symbol(s) == text[0];
        SymbolHasValue(s);
      }
      assert AreReadable(text) <==> IsReadable(text[0]) && AreReadable(text[1..]) by {
        assert forall i | 1 <= i < |text| :: text[i] == text[1..][i - 1];
      }
    }
  }

  lemma {:induction false} BytesExactly(sextets: seq<Sextet>)
    ensures Bytes(sextets).Some? <==> |sextets| % 4 != 1
    ensures Bytes(sextets).Some? ==> |Bytes(sextets).value| == |sextets| * 3 / 4
    decreases |sextets|
  {
    hide Byte0, Byte1, Byte2;
    if |sextets| < 4 {
    } else {
      BytesExactly(sextets[4..]);
    }
  }

  /** A text decodes exactly when only line breaks stand between its symbols and no symbol is left over. */
  lemma DecodesExactly(text: string)
    ensures DecodeString(text).Some? <==> AreReadable(text) && CountSymbols(text) % 4 != 1
    ensures DecodeString(text).Some? ==> |DecodeString(text).value| == CountSymbols(text) * 3 / 4
  {
    ValuesExactly(text);
    if Values(text).Some? {
      BytesExactly(Values(text).value);
    }
  }

  lemma {:induction false} ValuesOfSymbols(sextets: seq<Sextet>)
    ensures Values(Symbols(sextets)) == Some(sextets)
  {
    if sextets != [] {
      SymbolHasValue(sextets[0]);
      assert Symbols(sextets)[1..] == Symbols(sextets[1..]);
      ValuesOfSymbols(sextets[1..]);
      assert sextets == [sextets[0]] + sextets[1..];
    } else {
      assert Symbols(sextets) == "";
    }
  }

  /** Decoding undoes encoding, for all byte strings. */
  lemma DecodeOfEncode(bytes: seq<Byte>)
    ensures DecodeString(EncodeToString(bytes)) == Some(bytes)
  {
    ValuesOfSymbols(Sextets(bytes));
    BytesOfSextets(bytes);
  }

  /** The text is as long as the data needs, and made of letters, digits, hyphen and underscore only. */
  lemma EncodedText(bytes: seq<Byte>)
    ensures |EncodeToString(bytes)| == (|bytes| * 8 + 5) / 6
    ensures forall i | 0 <= i < |EncodeToString(bytes)| :: Value(EncodeToString(bytes)[i]).Some?
  {
    SextetCount(bytes);
    forall i | 0 <= i < |Sextets(bytes)| ensures Value(Symbol(Sextets(bytes)[i])).Some? {
      SymbolHasValue(Sextets(bytes)[i]);
    }
  }
}
