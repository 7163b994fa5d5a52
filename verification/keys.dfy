/**
  The position of a mistake in a mistake table, and the string under which the
  matcher files its results: `f'{text_id}_{sentence_id}_{start_idx}'` (evaluate.py:101-102).
  Because `str` of an integer never contains an underscore, that string determines the
  position: two gold mistakes never share a result entry.
 */
module Keys {

  /** Text id, sentence id and start index of one mistake. */
  datatype Key = Key(text: string, sentence: int, start: int)

  /** The character of a decimal digit. */
  function DigitChar(d: int): char
    requires 0 <= d < 10
  {
    ('0' as int + d) as char
  }

  /** The value of a decimal digit character. */
  function CharValue(c: char): int {
    c as int - '0' as int
  }

  /** Python's `str(n)` for `n >= 0`: decimal digits, most significant first. */
  function NatToString(n: nat): (s: string)
    ensures |s| > 0
    ensures forall i :: 0 <= i < |s| ==> '0' <= s[i] <= '9'
    decreases n
  {
    if n < 10 then [DigitChar(n)] else NatToString(n / 10) + [DigitChar(n % 10)]
  }

  /** Python's `str(n)`: a minus sign before the digits of a negative number. */
  function IntToString(n: int): (s: string)
    ensures '_' !in s
  {
    if n < 0 then "-" + NatToString(-n) else NatToString(n)
  }

  /** Reads a string of decimal digits back as a number. */
  function ParseNat(s: string): int
    decreases |s|
  {
    if |s| == 0 then 0 else ParseNat(s[..|s| - 1]) * 10 + CharValue(s[|s| - 1])
  }

  /** Reads an optional minus sign followed by decimal digits. */
  function ParseInt(s: string): int {
    if |s| > 0 && s[0] == '-' then -ParseNat(s[1..]) else ParseNat(s)
  }

  /** Reading the digits of `n` gives `n` back. */
  lemma {:induction false} ParseNatToString(n: nat)
    ensures ParseNat(NatToString(n)) == n
  {
    if n >= 10 {
      var s := NatToString(n);
      assert s[..|s| - 1] == NatToString(n / 10);
      ParseNatToString(n / 10);
    } else {
      assert NatToString(n)[..0] == [];
    }
  }

  /** Reading `str(n)` gives `n` back. */
  lemma ParseIntToString(n: int)
    ensures ParseInt(IntToString(n)) == n
  {
    if n < 0 {
      assert IntToString(n)[1..] == NatToString(-n);
      ParseNatToString(-n);
    } else {
      ParseNatToString(n);
    }
  }

  /** Different numbers print differently. */
  lemma IntToStringInjective(a: int, b: int)
    ensures IntToString(a) == IntToString(b) ==> a == b
  {
    ParseIntToString(a);
    ParseIntToString(b);
  }

  /** The result-map key of a gold mistake. */
  function KeyString(k: Key): string {
    k.text + "_" + IntToString(k.sentence) + "_" + IntToString(k.start)
  }

  /** A string with two decompositions around a separator that neither tail contains
      has the same decomposition twice. */
  lemma SplitAtLast(x1: string, y1: string, x2: string, y2: string, c: char)
    requires x1 + [c] + y1 == x2 + [c] + y2
    requires c !in y1 && c !in y2
    ensures x1 == x2 && y1 == y2
  {
    var s := x1 + [c] + y1;
    assert s[|x1|] == c && s[|x2|] == c;
    forall p | |x1| < p < |s|
      ensures s[p] != c
    {
      assert s[p] == y1[p - |x1| - 1];
    }
    forall p | |x2| < p < |s|
      ensures s[p] != c
    {
      assert s[p] == y2[p - |x2| - 1];
    }
    assert |x1| == |x2|;
    assert x1 == s[..|x1|] == x2;
    assert y1 == s[|x1| + 1..] == y2;
  }

  /** Distinct mistake positions get distinct result-map keys. */
  lemma KeyStringInjective(k1: Key, k2: Key)
    ensures KeyString(k1) == KeyString(k2) ==> k1 == k2
  {
    if KeyString(k1) == KeyString(k2) {
      var a1, a2 := IntToString(k1.sentence), IntToString(k2.sentence);
      var b1, b2 := IntToString(k1.start), IntToString(k2.start);
      assert (k1.text + "_" + a1) + ['_'] + b1 == (k2.text + "_" + a2) + ['_'] + b2;
      SplitAtLast(k1.text + "_" + a1, b1, k2.text + "_" + a2, b2, '_');
      assert k1.text + ['_'] + a1 == k2.text + ['_'] + a2;
      SplitAtLast(k1.text, a1, k2.text, a2, '_');
      IntToStringInjective(k1.sentence, k2.sentence);
      IntToStringInjective(k1.start, k2.start);
    }
  }
}
