/**
 * The token list the parser works on: string.Split(' ', ';') without removal
 * of empty entries, the Where filters applied to it, and the whitespace test
 * of string.IsNullOrWhiteSpace.
 */
module Tokens {
  import opened Seqs

  /** Parser.SplitSymbol, the row separator. */
  const SplitSymbol: char := ';'

  predicate IsSeparator(c: char)
  {
    c == ' ' || c == SplitSymbol
  }

  /** No character of t is a separator. */
  predicate NoSeparator(t: string)
  {
    forall c :: 0 <= c < |t| ==> !IsSeparator(t[c])
  }

  /**
   * Input.Split(' ', ';'): the pieces between separators, an empty piece
   * between two adjacent separators and at either end.
   */
  function Split(s: string): (r: seq<string>)
    ensures |r| == Count(' ', s) + Count(SplitSymbol, s) + 1
    ensures forall k :: 0 <= k < |r| ==> NoSeparator(r[k])
  {
    if s == [] then [""]
    else
      var rest := Split(s[1..]);
      if IsSeparator(s[0]) then [""] + rest
      else [[s[0]] + rest[0]] + rest[1..]
  }

  /** A text without separators is a single token. */
  lemma {:induction false} SplitNoSeparator(a: string)
    requires NoSeparator(a)
    ensures Split(a) == [a]
  {
    if a != [] {
      assert !IsSeparator(a[0]);
      SplitNoSeparator(a[1..]);
      assert [a[0]] + a[1..] == a;
    }
  }

  /** A separator-free first token is split off at the first separator. */
  lemma {:induction false} SplitAtSeparator(a: string, c: char, b: string)
    requires NoSeparator(a) && IsSeparator(c)
    ensures Split(a + [c] + b) == [a] + Split(b)
  {
    var s := a + [c] + b;
    if a == [] {
      assert s[1..] == b;
    } else {
      assert !IsSeparator(a[0]);
      assert s[0] == a[0] && s[1..] == a[1..] + [c] + b;
      SplitAtSeparator(a[1..], c, b);
      assert [a[0]] + a[1..] == a;
    }
  }

  /** Puts the separators back between the pieces. */
  function Rejoin(pieces: seq<string>, seps: string): (r: string)
    requires |pieces| == |seps| + 1
  {
    if seps == [] then pieces[0] else pieces[0] + [seps[0]] + Rejoin(pieces[1..], seps[1..])
  }

  /** Split loses nothing but the choice of separator: rejoining restores the input. */
  lemma {:induction false} SplitRejoin(s: string)
    ensures |Filter(IsSeparator, s)| + 1 == |Split(s)|
    ensures Rejoin(Split(s), Filter(IsSeparator, s)) == s
  {
    if s != [] {
      SplitRejoin(s[1..]);
      var rest := Split(s[1..]);
      var seps := Filter(IsSeparator, s[1..]);
      if IsSeparator(s[0]) {
        assert Filter(IsSeparator, s) == [s[0]] + seps;
        assert Split(s) == [""] + rest;
        assert ([""] + rest)[1..] == rest && ([s[0]] + seps)[1..] == seps;
        assert Rejoin([""] + rest, [s[0]] + seps) == "" + [s[0]] + Rejoin(rest, seps);
        assert [s[0]] + s[1..] == s;
      } else {
        assert Filter(IsSeparator, s) == seps;
        RejoinCons(s[0], rest, seps);
        assert [s[0]] + s[1..] == s;
      }
    }
  }

  /** Prepending a character to the first piece prepends it to the join. */
  lemma RejoinCons(c: char, pieces: seq<string>, seps: string)
    requires |pieces| == |seps| + 1
    ensures Rejoin([[c] + pieces[0]] + pieces[1..], seps) == [c] + Rejoin(pieces, seps)
  {
    var q := [[c] + pieces[0]] + pieces[1..];
    assert q[0] == [c] + pieces[0] && q[1..] == pieces[1..];
  }

  /**
   * The other half of the round trip: separator-free pieces joined by
   * separators split back into exactly those pieces.
   */
  lemma {:induction false} SplitOfRejoin(pieces: seq<string>, seps: string)
    requires |pieces| == |seps| + 1
    requires forall k :: 0 <= k < |pieces| ==> NoSeparator(pieces[k])
    requires forall k :: 0 <= k < |seps| ==> IsSeparator(seps[k])
    ensures Split(Rejoin(pieces, seps)) == pieces
  {
    if seps == [] {
      SplitNoSeparator(pieces[0]);
    } else {
      assert NoSeparator(pieces[0]) && IsSeparator(seps[0]);
      SplitOfRejoin(pieces[1..], seps[1..]);
      SplitAtSeparator(pieces[0], seps[0], Rejoin(pieces[1..], seps[1..]));
      assert pieces == [pieces[0]] + pieces[1..];
    }
  }

  /** A separator occurs in a join of separator-free pieces as often as among the separators. */
  lemma {:induction false} CountRejoin(x: char, pieces: seq<string>, seps: string)
    requires IsSeparator(x) && |pieces| == |seps| + 1
    requires forall k :: 0 <= k < |pieces| ==> NoSeparator(pieces[k])
    ensures Count(x, Rejoin(pieces, seps)) == Count(x, seps)
  {
    assert NoSeparator(pieces[0]);
    CountAbsent(x, pieces[0]);
    if seps != [] {
      CountRejoin(x, pieces[1..], seps[1..]);
      CountConcat(x, pieces[0] + [seps[0]], Rejoin(pieces[1..], seps[1..]));
      CountConcat(x, pieces[0], [seps[0]]);
    }
  }

  /** A separator does not occur in a separator-free text. */
  lemma {:induction false} CountAbsent(x: char, t: string)
    requires IsSeparator(x) && NoSeparator(t)
    ensures Count(x, t) == 0
  {
    if t != [] {
      assert !IsSeparator(t[0]);
      CountAbsent(x, t[1..]);
    }
  }

  /** The predicate of the Where at Parser.cs:36 and :49, as written. */
  predicate WhereAsWritten(x: string)
    ensures WhereAsWritten(x)
  {
    x != " " || x != ""
  }

  /**
   * No string is both " " and "", so the Where keeps every token: the list
   * ParseToMatrix and ParseToVector start from is the split result itself,
   * with one token more than there are separators.
   */
  lemma {:induction false} WhereKeepsAll(s: string)
    ensures Filter(WhereAsWritten, Split(s)) == Split(s)
    ensures |Filter(WhereAsWritten, Split(s))| == Count(' ', s) + Count(SplitSymbol, s) + 1
  {
    FilterAll(WhereAsWritten, Split(s));
  }

  /** char.IsWhiteSpace, restricted to the space and the ASCII controls tab to carriage return. */
  predicate IsWhiteSpace(c: char)
    ensures c == ' ' ==> IsWhiteSpace(c)
    ensures IsWhiteSpace(c) ==> c != SplitSymbol && !('0' <= c <= '9')
  {
    c == ' ' || '\t' <= c <= '\r'
  }

  /** string.IsNullOrWhiteSpace of a (non-null) string; true of the empty string. */
  predicate IsBlank(t: string)
    ensures t == "" ==> IsBlank(t)
  {
    forall c :: 0 <= c < |t| ==> IsWhiteSpace(t[c])
  }

  /** The predicate of the Where calls at Parser.cs:52, :147 and :170. */
  predicate NotBlank(t: string)
    ensures NotBlank(t) ==> t != ""
  {
    !IsBlank(t)
  }

  /** What survives the NotBlank filter is never the empty string. */
  lemma NotBlankNonEmpty(xs: seq<string>)
    ensures forall k :: 0 <= k < |Filter(NotBlank, xs)| ==> Filter(NotBlank, xs)[k] != ""
  {
    var r := Filter(NotBlank, xs);
    forall k | 0 <= k < |r|
      ensures r[k] != ""
    {
      assert NotBlank(r[k]);
    }
  }
}
