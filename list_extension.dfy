/**
 * The two token projections of the parser: RemoveEvery deletes one token
 * per row from a list in place, AddEvery picks one token per row into a
 * new list.
 */
module ListExtension {
  import opened Outcomes
  import opened Seqs
  import opened Tokens

  /** A List<string> whose contents RemoveAt changes in place. */
  class TokenList {
    var items: seq<string>

    constructor (s: seq<string>)
      ensures items == s
    {
      items := s;
    }

    /** List<T>.RemoveAt, which throws ArgumentOutOfRangeException unless 0 <= index < Count. */
    method RemoveAt(index: int) returns (ok: bool)
      modifies this
      ensures ok <==> 0 <= index < |old(items)|
      ensures ok ==> items == old(items)[..index] + old(items)[index + 1..]
      ensures !ok ==> items == old(items)
    {
      ok := 0 <= index < |items|;
      if ok {
        items := items[..index] + items[index + 1..];
      }
    }
  }

  /** The list left by the removal rounds, and whether every round found its index in range. */
  datatype Removal = Removal(remaining: seq<string>, complete: bool)

  /**
   * Rounds i..rows of RemoveEvery: round i removes index (every - 1) * i - 1
   * of the list as already shrunk by the earlier rounds, and stops the
   * rounds when that index is out of range.
   */
  function RemoveRounds(s: seq<string>, every: int, i: int, rows: int): (r: Removal)
    ensures |r.remaining| <= |s|
    ensures r.complete ==> |r.remaining| == |s| - (if i <= rows then rows - i + 1 else 0)
    decreases rows - i + 1
  {
    if i > rows then Removal(s, true)
    else
      var index := (every - 1) * i - 1;
      if 0 <= index < |s| then RemoveRounds(s[..index] + s[index + 1..], every, i + 1, rows)
      else Removal(s, false)
  }

  /**
   * ListExtension.RemoveEvery. The parameter is decremented and incremented
   * again in each round, so it has the same value in every round.
   */
  method RemoveEvery(input: TokenList, every: int, rows: int) returns (r: Result<seq<string>>)
    modifies input
    ensures input.items == RemoveRounds(old(input.items), every, 1, rows).remaining
    ensures r == Survivors(old(input.items), every, rows)
  {
    var e := every;
    var i := 1;
    while i <= rows
      invariant 1 <= i && (i == 1 || i <= rows + 1)
      invariant e == every
      invariant RemoveRounds(input.items, every, i, rows) == RemoveRounds(old(input.items), every, 1, rows)
    {
      e := e - 1;
      var ok := input.RemoveAt(e * i - 1);
      if !ok {
        r := Err(ArgumentOutOfRange);
        return;
      }
      e := e + 1;
      i := i + 1;
    }
    r := Ok(Filter(NotBlank, input.items));
  }

  /** What RemoveEvery returns: the non-blank survivors of the rounds, or the RemoveAt exception. */
  function Survivors(s: seq<string>, every: int, rows: int): (r: Result<seq<string>>)
    ensures r.Err? ==> r.error == ArgumentOutOfRange
    ensures r.Ok? ==> |r.value| <= |s| - (if rows >= 1 then rows else 0)
    ensures r.Ok? ==> forall k :: 0 <= k < |r.value| ==> NotBlank(r.value[k])
  {
    var rm := RemoveRounds(s, every, 1, rows);
    if rm.complete then Ok(Filter(NotBlank, rm.remaining)) else Err(ArgumentOutOfRange)
  }

  /** t without the element at index e - 1 of each of its first m blocks of e elements. */
  function Strike(t: seq<string>, e: int, m: nat): (r: seq<string>)
    requires e >= 1 && e * m - 1 < |t|
    ensures |r| == |t| - m
  {
    if m == 0 then t
    else
      MulSucc(e, m - 1);
      MulNonNeg(e, m - 1);
      t[..e - 1] + Strike(t[e..], e, m - 1)
  }

  /**
   * From round i >= 2 on, with p the part of the list in front of the last
   * removal, each round removes the element e - 1 places further on.
   */
  lemma {:induction false} RoundsFrom(p: seq<string>, t: seq<string>, e: int, i: int, rows: int)
    requires e >= 2 && 2 <= i <= rows + 1
    requires |p| == (e - 1) * (i - 1) - 1
    ensures RemoveRounds(p + t, e, i, rows).complete <==> e * (rows - i + 1) - 1 < |t|
    ensures RemoveRounds(p + t, e, i, rows).complete ==>
      RemoveRounds(p + t, e, i, rows).remaining == p + Strike(t, e, rows - i + 1)
    decreases rows - i + 1
  {
    var m := rows - i + 1;
    if i <= rows {
      MulSucc(e - 1, i - 1);
      MulSucc(e, m - 1);
      MulNonNeg(e, m - 1);
      var index := (e - 1) * i - 1;
      assert index == |p| + e - 1;
      if e - 1 < |t| {
        var p' := p + t[..e - 1];
        RemoveSplice(p, t, e - 1);
        RoundsFrom(p', t[e..], e, i + 1, rows);
      }
    }
  }

  /** Removing index |p| + k of p + t keeps p, the first k elements of t, and t beyond k. */
  lemma RemoveSplice(p: seq<string>, t: seq<string>, k: nat)
    requires k < |t|
    ensures (p + t)[..|p| + k] + (p + t)[|p| + k + 1..] == (p + t[..k]) + t[k + 1..]
  {
    assert (p + t)[..|p| + k] == p + t[..k];
    assert (p + t)[|p| + k + 1..] == t[k + 1..];
  }

  lemma MulSucc(a: int, b: int)
    ensures a * (b + 1) == a * b + a
  {
  }

  lemma MulNonNeg(a: int, b: int)
    requires a >= 0 && b >= 0
    ensures a * b >= 0
  {
  }

  lemma MulMono(a: int, b: int, c: int)
    requires a >= 0 && b <= c
    ensures a * b <= a * c
  {
    MulNonNeg(a, c - b);
    assert a * c == a * b + a * (c - b);
  }

  /**
   * RemoveEvery succeeds exactly when rows < 1, or every >= 2 and the
   * original index every * rows - 2 exists. It then removes exactly rows
   * tokens: the one at index every - 2 and each every-th one after it.
   */
  lemma RemoveEveryClosedForm(s: seq<string>, every: int, rows: int)
    ensures RemoveRounds(s, every, 1, rows).complete <==> rows < 1 || (every >= 2 && every * rows - 2 < |s|)
    ensures rows >= 1 && RemoveRounds(s, every, 1, rows).complete ==>
      |RemoveRounds(s, every, 1, rows).remaining| == |s| - rows
    ensures rows >= 1 && RemoveRounds(s, every, 1, rows).complete ==>
      every * (rows - 1) - 1 < |s| - (every - 1) &&
      RemoveRounds(s, every, 1, rows).remaining == s[..every - 2] + Strike(s[every - 1..], every, rows - 1)
  {
    if rows >= 1 && every >= 2 {
      MulSucc(every, rows - 1);
      MulNonNeg(every, rows - 1);
      if every - 2 < |s| {
        var p := s[..every - 2];
        var t := s[every - 1..];
        assert s[..every - 2] + s[every - 1..] == p + t;
        RoundsFrom(p, t, every, 2, rows);
      }
    }
  }

  /** The index condition under which AddEvery reads only existing tokens. */
  predicate PicksInRange(input: seq<string>, every: int, rows: int)
  {
    rows < 1 || (every >= 1 && every * rows - 1 < |input|)
  }

  /** The tokens at indices every * i - 1 for i = 1..n. */
  function Picked(input: seq<string>, every: int, n: nat): (r: seq<string>)
    requires n == 0 || (every >= 1 && every * n - 1 < |input|)
    ensures |r| == n
    ensures forall k :: 0 <= k < n ==> 0 <= every * (k + 1) - 1 < |input| && r[k] == input[every * (k + 1) - 1]
  {
    if n == 0 then []
    else
      MulSucc(every, n - 1);
      MulNonNeg(every, n - 1);
      Picked(input, every, n - 1) + [input[every * n - 1]]
  }

  /**
   * ListExtension.AddEvery. Its special case for i == 1 reads index
   * every - 1, which is the general every * i - 1; it never changes input.
   */
  method AddEvery(input: seq<string>, every: int, rows: int) returns (r: Result<seq<string>>)
    ensures r.Ok? <==> PicksInRange(input, every, rows)
    ensures r.Err? ==> r.error == ArgumentOutOfRange
    ensures r.Ok? ==> r.value == Filter(NotBlank, Picked(input, every, if rows < 1 then 0 else rows))
  {
    var output: seq<string> := [];
    var e := every;
    var i := 1;
    while i <= rows
      invariant 1 <= i && (i == 1 || i <= rows + 1)
      invariant e == every
      invariant i == 1 || (every >= 1 && every * (i - 1) - 1 < |input|)
      invariant output == Picked(input, every, i - 1)
    {
      if i == 1 {
        e := e - 1;
        var index := e * i;
        if !(0 <= index < |input|) {
          if every >= 1 {
            MulMono(every, 1, rows);
          }
          return Err(ArgumentOutOfRange);
        }
        output := output + [input[index]];
        e := e + 1;
        i := i + 1;
        continue;
      }
      var index := e * i - 1;
      if !(0 <= index < |input|) {
        MulMono(every, i, rows);
        MulMono(every, 1, i);
        return Err(ArgumentOutOfRange);
      }
      output := output + [input[index]];
      i := i + 1;
    }
    r := Ok(Filter(NotBlank, output));
  }
}
