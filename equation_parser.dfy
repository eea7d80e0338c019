/**
 * The sanitiser GetDigits: it keeps the digits and the row separator ';' of
 * a recognised text, drops every other character, and appends one space
 * after a kept character whose successor is dropped.
 */
module EquationParser {
  import opened Seqs

  /** The row separator (MatrixParser.SplitSymbol). */
  const SplitSymbol: char := ';'

  /** char.IsDigit, restricted to the ASCII digits. */
  predicate IsDigit(c: char)
    ensures IsDigit(c) ==> c != SplitSymbol && c != ' '
  {
    '0' <= c <= '9'
  }

  /** The characters GetDigits copies to its output. */
  predicate IsKept(c: char)
  {
    IsDigit(c) || c == SplitSymbol
  }

  predicate IsNotSpace(c: char)
  {
    c != ' '
  }

  /**
   * What one iteration of GetDigits appends for input position k: nothing for
   * a dropped character; a kept character, followed by a space when there is
   * a next character and that one is dropped.
   */
  function Emitted(s: string, k: nat): (r: string)
    requires k < |s|
    ensures |r| <= 2
  {
    if !IsKept(s[k]) then ""
    else if k + 1 < |s| && !IsKept(s[k + 1]) then [s[k], ' ']
    else [s[k]]
  }

  /** The output after the first n iterations. */
  function SanitizedPrefix(s: string, n: nat): (r: string)
    requires n <= |s|
    ensures |r| <= 2 * n
  {
    if n == 0 then "" else SanitizedPrefix(s, n - 1) + Emitted(s, n - 1)
  }

  /** The output of GetDigits. */
  function Sanitized(s: string): (r: string)
    ensures |r| <= 2 * |s|
    ensures Canonical(r)
  {
    PrefixCanonical(s, |s|);
    SanitizedPrefix(s, |s|)
  }

  /**
   * GetDigits, as the loop it is: `continue` on a dropped character, `break`
   * after the last character, look-ahead at input[i + 1] otherwise.
   */
  method GetDigits(input: string) returns (r: string)
    ensures r == Sanitized(input)
  {
    var sb := "";
    var i := 0;
    while i < |input|
      invariant 0 <= i <= |input|
      invariant sb == SanitizedPrefix(input, i)
    {
      if !IsDigit(input[i]) && input[i] != SplitSymbol {
        i := i + 1;
        continue;
      }
      if IsDigit(input[i]) || input[i] == SplitSymbol {
        sb := sb + [input[i]];
      }
      if i >= |input| - 1 {
        assert sb == SanitizedPrefix(input, i + 1);
        break;
      }
      if !IsDigit(input[i + 1]) && input[i + 1] != SplitSymbol {
        sb := sb + [' '];
      }
      i := i + 1;
    }
    r := sb;
  }

  /**
   * The shape of a sanitised text: every character is a digit, ';' or a
   * space, and every space directly follows a kept character.
   */
  predicate Canonical(t: string)
  {
    forall k :: 0 <= k < |t| ==> CanonicalAt(t, k)
  }

  predicate CanonicalAt(t: string, k: nat)
    requires k < |t|
  {
    IsKept(t[k]) || (t[k] == ' ' && k > 0 && IsKept(t[k - 1]))
  }

  lemma {:induction false} PrefixCanonical(s: string, n: nat)
    requires n <= |s|
    ensures Canonical(SanitizedPrefix(s, n))
  {
    if n > 0 {
      PrefixCanonical(s, n - 1);
      var t := SanitizedPrefix(s, n - 1);
      var e := Emitted(s, n - 1);
      forall k | 0 <= k < |t + e|
        ensures CanonicalAt(t + e, k)
      {
        if k < |t| {
          assert CanonicalAt(t, k);
          assert (t + e)[k] == t[k];
          if k > 0 {
            assert (t + e)[k - 1] == t[k - 1];
          }
        } else {
          assert (t + e)[k] == e[k - |t|];
          if k == |t| + 1 {
            assert (t + e)[k - 1] == e[0];
          }
        }
      }
    }
  }

  /**
   * Every character of the output is a digit, ';' or a space; the output
   * never starts with a space and never holds two adjacent spaces.
   */
  lemma SanitizedShape(s: string)
    ensures Canonical(Sanitized(s))
    ensures forall k :: 0 <= k < |Sanitized(s)| ==>
      IsDigit(Sanitized(s)[k]) || Sanitized(s)[k] == SplitSymbol || Sanitized(s)[k] == ' '
    ensures |Sanitized(s)| > 0 ==> Sanitized(s)[0] != ' '
    ensures forall k :: 0 < k < |Sanitized(s)| && Sanitized(s)[k] == ' ' ==> Sanitized(s)[k - 1] != ' '
  {
    PrefixCanonical(s, |s|);
    var t := Sanitized(s);
    forall k | 0 <= k < |t|
      ensures IsKept(t[k]) || (t[k] == ' ' && k > 0 && IsKept(t[k - 1]))
    {
      assert CanonicalAt(t, k);
    }
  }

  lemma {:induction false} PrefixDropSpaces(s: string, n: nat)
    requires n <= |s|
    ensures Filter(IsNotSpace, SanitizedPrefix(s, n)) == Filter(IsKept, s[..n])
  {
    if n > 0 {
      PrefixDropSpaces(s, n - 1);
      FilterConcat(IsNotSpace, SanitizedPrefix(s, n - 1), Emitted(s, n - 1));
      assert s[..n] == s[..n - 1] + [s[n - 1]];
      FilterConcat(IsKept, s[..n - 1], [s[n - 1]]);
    }
  }

  /**
   * Deleting the spaces from the output gives exactly the digits and ';' of
   * the input, in their original order; in particular the number of ';' is
   * preserved.
   */
  lemma SanitizedDropSpaces(s: string)
    ensures Filter(IsNotSpace, Sanitized(s)) == Filter(IsKept, s)
    ensures Count(SplitSymbol, Sanitized(s)) == Count(SplitSymbol, s)
  {
    PrefixDropSpaces(s, |s|);
    assert s[..|s|] == s;
    CountFiltered(SplitSymbol, IsNotSpace, Sanitized(s));
    CountFiltered(SplitSymbol, IsKept, s);
  }

  /** Position k is a kept character whose successor exists and is dropped. */
  predicate IsBoundary(s: string, k: nat)
    requires k < |s|
  {
    k + 1 < |s| && IsKept(s[k]) && !IsKept(s[k + 1])
  }

  /** The number of boundary positions below n. */
  function Boundaries(s: string, n: nat): (r: nat)
    requires n <= |s|
    ensures r <= n
  {
    if n == 0 then 0 else Boundaries(s, n - 1) + (if IsBoundary(s, n - 1) then 1 else 0)
  }

  lemma {:induction false} PrefixLength(s: string, n: nat)
    requires n <= |s|
    ensures |SanitizedPrefix(s, n)| == |Filter(IsKept, s[..n])| + Boundaries(s, n)
  {
    if n > 0 {
      PrefixLength(s, n - 1);
      assert s[..n] == s[..n - 1] + [s[n - 1]];
      FilterConcat(IsKept, s[..n - 1], [s[n - 1]]);
    }
  }

  /**
   * The output holds every kept character plus one space per boundary
   * position; nothing is appended after the last input character itself.
   */
  lemma SanitizedLength(s: string)
    ensures |Sanitized(s)| == |Filter(IsKept, s)| + Boundaries(s, |s|)
  {
    PrefixLength(s, |s|);
    assert s[..|s|] == s;
  }

  /** The output is empty exactly when the input holds no digit and no ';'. */
  lemma SanitizedEmpty(s: string)
    ensures Sanitized(s) == "" <==> Filter(IsKept, s) == []
  {
    SanitizedDropSpaces(s);
    PrefixCanonical(s, |s|);
    var t := Sanitized(s);
    if t != "" {
      assert CanonicalAt(t, 0);
      assert Filter(IsNotSpace, t) == [t[0]] + Filter(IsNotSpace, t[1..]);
    }
  }

  /**
   * Sanitising a canonical text reproduces it: the first n iterations emit
   * t[..n], plus the space at t[n] when there is one.
   */
  lemma {:induction false} CanonicalPrefix(t: string, n: nat)
    requires Canonical(t) && n <= |t|
    ensures SanitizedPrefix(t, n) == t[..if 0 < n < |t| && t[n] == ' ' then n + 1 else n]
  {
    if n > 0 {
      CanonicalPrefix(t, n - 1);
      assert CanonicalAt(t, n - 1);
      if n < |t| {
        assert CanonicalAt(t, n);
      }
    }
  }

  /** GetDigits is idempotent. */
  lemma SanitizedIdempotent(s: string)
    ensures Sanitized(Sanitized(s)) == Sanitized(s)
  {
    var t := Sanitized(s);
    PrefixCanonical(s, |s|);
    CanonicalPrefix(t, |t|);
  }

  /** A decimal point is dropped like a letter: "11.5z" yields "11 5 ". */
  lemma SanitizedDecimalExample()
    ensures Sanitized("11.5z") == "11 5 "
  {
    var s := "11.5z";
    assert SanitizedPrefix(s, 1) == "1";
    assert SanitizedPrefix(s, 2) == "11 ";
    assert SanitizedPrefix(s, 3) == "11 ";
    assert SanitizedPrefix(s, 4) == "11 5 ";
  }
}
