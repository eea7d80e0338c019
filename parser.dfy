/**
 * The parser proper: dimension inference from delimiter counts, the cursor
 * walk that fills a matrix and a vector from token lists, and the class
 * holding the parser's static state (Every and Input).
 */
module Parsing {
  import opened Outcomes
  import opened Seqs
  import opened Tokens
  import opened ListExtension

  /**
   * Parser.Validate, with `ref int point` as an in and an out parameter:
   * false at the end of the list, false and one step ahead on an empty
   * token, true with the cursor left where it was otherwise.
   */
  method Validate(point: int, fr: seq<string>) returns (valid: bool, point': int)
    requires 0 <= point <= |fr|
    ensures point == |fr| ==> !valid && point' == point
    ensures point < |fr| && fr[point] == "" ==> !valid && point' == point + 1
    ensures point < |fr| && fr[point] != "" ==> valid && point' == point
  {
    if point == |fr| {
      return false, point;
    }
    if fr[point] == "" {
      return false, point + 1;
    }
    return true, point;
  }

  /**
   * One row of AddToMatrix, from cursor p with j cells already filled: the
   * number of cells the row ends up with and the cursor after it. An empty
   * token ends the row and is stepped over; the end of the list ends it too.
   */
  function RowScan(fr: seq<string>, cols: nat, p: nat, j: nat): (r: (nat, nat))
    requires p <= |fr| && j <= cols
    ensures j <= r.0 <= cols
    ensures p + (r.0 - j) <= r.1 <= |fr|
    decreases cols - j
  {
    if j == cols || p == |fr| then (j, p)
    else if fr[p] == "" then (j, p + 1)
    else RowScan(fr, cols, p + 1, j + 1)
  }

  /** Every token a row fills a cell from passed Validate, so it is not empty. */
  lemma {:induction false} RowScanCells(fr: seq<string>, cols: nat, p: nat, j: nat)
    requires p <= |fr| && j <= cols
    ensures forall k :: p <= k < p + (RowScan(fr, cols, p, j).0 - j) ==> fr[k] != ""
    decreases cols - j
  {
    if j < cols && p < |fr| && fr[p] != "" {
      RowScanCells(fr, cols, p + 1, j + 1);
    }
  }

  /** The cursor at the start of row i. */
  function RowStart(fr: seq<string>, cols: nat, i: nat): (p: nat)
    ensures p <= |fr|
  {
    if i == 0 then 0 else RowScan(fr, cols, RowStart(fr, cols, i - 1), 0).1
  }

  /** The number of cells of row i that AddToMatrix writes. */
  function Filled(fr: seq<string>, cols: nat, i: nat): (r: nat)
    ensures r <= cols && RowStart(fr, cols, i) + r <= |fr|
  {
    RowScan(fr, cols, RowStart(fr, cols, i), 0).0
  }

  /** The token AddToMatrix parses into cell (i, j). */
  function CellToken(fr: seq<string>, cols: nat, i: nat, j: nat): (r: string)
    requires j < Filled(fr, cols, i)
    ensures r != ""
  {
    RowScanCells(fr, cols, RowStart(fr, cols, i), 0);
    fr[RowStart(fr, cols, i) + j]
  }

  /**
   * Parser.AddToMatrix. Row i takes the tokens from RowStart on; cells past
   * Filled keep their value; double.Parse failing is the Format error.
   */
  method AddToMatrix(target: array2<real>, fr: seq<string>, parse: string -> Option<real>) returns (r: Result<()>)
    modifies target
    ensures r.Ok? <==> forall i, j :: 0 <= i < target.Length0 && 0 <= j < Filled(fr, target.Length1, i) ==>
      parse(CellToken(fr, target.Length1, i, j)).Some?
    ensures r.Err? ==> r.error == Format
    ensures r.Ok? ==> forall i, j :: 0 <= i < target.Length0 && 0 <= j < target.Length1 ==>
      target[i, j] == if j < Filled(fr, target.Length1, i) then parse(CellToken(fr, target.Length1, i, j)).value
                      else old(target[i, j])
  {
    var rows, cols := target.Length0, target.Length1;
    var point := 0;
    var i := 0;
    while i < rows
      invariant 0 <= i <= rows
      invariant point == RowStart(fr, cols, i)
      invariant forall i', j' :: 0 <= i' < i && 0 <= j' < Filled(fr, cols, i') ==>
        parse(CellToken(fr, cols, i', j')).Some?
      invariant forall i', j' :: 0 <= i' < rows && 0 <= j' < cols ==>
        target[i', j'] == if i' < i && j' < Filled(fr, cols, i') then parse(CellToken(fr, cols, i', j')).value
                          else old(target[i', j'])
    {
      ghost var start := point;
      var j := 0;
      while j < cols
        invariant 0 <= j <= cols
        invariant point == start + j && point <= |fr|
        invariant RowScan(fr, cols, point, j) == RowScan(fr, cols, start, 0)
        invariant j <= Filled(fr, cols, i)
        invariant forall j' :: 0 <= j' < j ==> parse(CellToken(fr, cols, i, j')).Some?
        invariant forall i', j' :: 0 <= i' < rows && 0 <= j' < cols ==>
          target[i', j'] == if (i' < i || (i' == i && j' < j)) && j' < Filled(fr, cols, i') then parse(CellToken(fr, cols, i', j')).value
                            else old(target[i', j'])
      {
        var valid;
        valid, point := Validate(point, fr);
        if !valid {
          assert Filled(fr, cols, i) == j && RowStart(fr, cols, i + 1) == point;
          break;
        }
        assert CellToken(fr, cols, i, j) == fr[point];
        var v := parse(fr[point]);
        if v.None? {
          return Err(Format);
        }
        target[i, j] := v.value;
        j := j + 1;
        point := point + 1;
      }
      i := i + 1;
    }
    return Ok(());
  }

  /** Row-major cursor positions when no token is empty. */
  lemma {:induction false} RowScanNoEmpty(fr: seq<string>, cols: nat, p: nat, j: nat)
    requires p <= |fr| && j <= cols
    requires forall k :: 0 <= k < |fr| ==> fr[k] != ""
    ensures RowScan(fr, cols, p, j) == (j + Min(cols - j, |fr| - p), p + Min(cols - j, |fr| - p))
    decreases cols - j
  {
    if j < cols && p < |fr| {
      RowScanNoEmpty(fr, cols, p + 1, j + 1);
    }
  }

  lemma {:induction false} RowStartNoEmpty(fr: seq<string>, cols: nat, i: nat)
    requires forall k :: 0 <= k < |fr| ==> fr[k] != ""
    ensures RowStart(fr, cols, i) == Min(i * cols, |fr|)
  {
    if i > 0 {
      RowStartNoEmpty(fr, cols, i - 1);
      RowScanNoEmpty(fr, cols, RowStart(fr, cols, i - 1), 0);
      MulSucc(cols, i - 1);
      assert i * cols == (i - 1) * cols + cols;
    }
  }

  /**
   * Without empty tokens AddToMatrix fills row-major: cell (i, j) gets token
   * i * cols + j when that token exists and keeps its value otherwise, so
   * the tokens beyond rows * cols are never read.
   */
  lemma RowMajorCells(fr: seq<string>, cols: nat, i: nat, j: nat)
    requires j < cols
    requires forall k :: 0 <= k < |fr| ==> fr[k] != ""
    ensures j < Filled(fr, cols, i) <==> i * cols + j < |fr|
    ensures j < Filled(fr, cols, i) ==> CellToken(fr, cols, i, j) == fr[i * cols + j]
  {
    RowStartNoEmpty(fr, cols, i);
    RowScanNoEmpty(fr, cols, RowStart(fr, cols, i), 0);
  }

  /**
   * Parser.AddToVector. Its index x is never advanced, so each token is
   * parsed into entry 0 in turn; only the first token goes through Validate,
   * at the cursor that never moves unless that token is empty.
   */
  method AddToVector(target: array<real>, fr: seq<string>, parse: string -> Option<real>) returns (r: Result<()>)
    modifies target
    ensures r.Err? <==>
      (|fr| > 0 && fr[0] != "" && (target.Length == 0 || exists k :: 0 <= k < |fr| && parse(fr[k]).None?))
    ensures r.Err? ==> r.error == if target.Length == 0 && parse(fr[0]).Some? then IndexOutOfRange else Format
    ensures r.Ok? && |fr| > 0 && fr[0] != "" ==>
      target[0] == parse(fr[|fr| - 1]).value && forall k :: 1 <= k < target.Length ==> target[k] == old(target[k])
    ensures r.Ok? && (|fr| == 0 || fr[0] == "") ==> target[..] == old(target[..])
  {
    var point := 0;
    var x := 0;
    var i := 0;
    while i < |fr|
      invariant 0 <= i <= |fr|
      invariant x == 0 && point == 0
      invariant forall k :: 0 <= k < i ==> parse(fr[k]).Some?
      invariant i > 0 ==> fr[0] != "" && target.Length > 0 && target[0] == parse(fr[i - 1]).value
      invariant forall k :: 0 <= k < target.Length && (k > 0 || i == 0) ==> target[k] == old(target[k])
    {
      var valid;
      valid, point := Validate(point, fr);
      if !valid {
        break;
      }
      var v := parse(fr[i]);
      if v.None? {
        return Err(Format);
      }
      if x >= target.Length {
        return Err(IndexOutOfRange);
      }
      target[x] := v.value;
      i := i + 1;
    }
    return Ok(());
  }

  /**
   * The array dimensions ParseToMatrix allocates: count(';') + 1 rows and
   * count(' ') / count(';') - 1 columns. Both counts are non-negative, so
   * Dafny's division agrees with C#'s truncating one. No ';' divides by
   * zero; fewer spaces than ';' gives a negative dimension.
   */
  function Dimensions(input: string): (r: Result<(nat, nat)>)
    ensures r.Ok? <==> Count(SplitSymbol, input) >= 1 && Count(' ', input) >= Count(SplitSymbol, input)
    ensures r.Err? ==> r.error == if Count(SplitSymbol, input) == 0 then DivideByZero else Overflow
    ensures r.Ok? ==> r.value.0 == Count(SplitSymbol, input) + 1
    ensures r.Ok? ==> r.value.1 * Count(SplitSymbol, input) <= Count(' ', input) - Count(SplitSymbol, input)
                        < (r.value.1 + 1) * Count(SplitSymbol, input)
  {
    var semis := Count(SplitSymbol, input);
    var spaces := Count(' ', input);
    if semis == 0 then Err(DivideByZero)
    else
      var cols := spaces / semis - 1;
      if cols < 0 then Err(Overflow)
      else
        DivisionBounds(spaces, semis);
        Ok((semis + 1, cols))
  }

  /** (a / b - 1) * b <= a - b < (a / b) * b for b > 0. */
  lemma DivisionBounds(a: nat, b: nat)
    requires b > 0
    ensures (a / b - 1) * b <= a - b < (a / b) * b
  {
    assert a == (a / b) * b + a % b;
    assert (a / b - 1) * b == (a / b) * b - b;
  }

  /** The tokens ParseToMatrix hands to AddToMatrix for given dimensions. */
  function MatrixTokens(input: string, rows: nat, cols: nat): (r: Result<seq<string>>)
    ensures r.Err? ==> r.error == ArgumentOutOfRange
    ensures r.Ok? ==> |r.value| + rows <= Count(' ', input) + Count(SplitSymbol, input) + 1
    ensures r.Ok? ==> forall k :: 0 <= k < |r.value| ==> r.value[k] != ""
  {
    WhereKeepsAll(input);
    NotBlankNonEmpty(RemoveRounds(Filter(WhereAsWritten, Split(input)), cols, 1, rows).remaining);
    Survivors(Filter(WhereAsWritten, Split(input)), cols, rows)
  }

  /** Cell (i, j) of the matrix: the parse of token i * cols + j, or 0 past the tokens. */
  function CellAt(fr: seq<string>, cols: nat, i: nat, j: nat, parse: string -> Option<real>): (r: Option<real>)
  {
    if i * cols + j < |fr| then parse(fr[i * cols + j]) else Some(0.0)
  }

  /** The matrix ParseToMatrix returns for `input`, or the exception it throws. */
  function MatrixOf(input: string, parse: string -> Option<real>): (r: Result<seq<seq<real>>>)
    ensures r.Ok? ==> Dimensions(input).Ok? && |r.value| == Dimensions(input).value.0
    ensures r.Ok? ==> forall i :: 0 <= i < |r.value| ==> |r.value[i]| == Dimensions(input).value.1
  {
    var d := Dimensions(input);
    if d.Err? then Err(d.error)
    else
      var (rows, cols) := d.value;
      var fr := MatrixTokens(input, rows, cols);
      if fr.Err? then Err(fr.error) else Grid(fr.value, rows, cols, parse)
  }

  /** The rows x cols matrix of CellAt, or Format when some cell's token does not parse. */
  function Grid(fr: seq<string>, rows: nat, cols: nat, parse: string -> Option<real>): (r: Result<seq<seq<real>>>)
    ensures r.Ok? ==> |r.value| == rows && forall i :: 0 <= i < rows ==> |r.value[i]| == cols
  {
    if exists i, j :: 0 <= i < rows && 0 <= j < cols && CellAt(fr, cols, i, j, parse).None? then Err(Format)
    else Ok(seq(rows, i requires 0 <= i < rows => seq(cols, j requires 0 <= j < cols => CellAt(fr, cols, i, j, parse).value)))
  }

  /**
   * Grid in the terms AddToMatrix is specified in: without empty tokens the
   * cursor walk is row-major.
   */
  lemma GridCells(tokens: seq<string>, rows: nat, cols: nat, parse: string -> Option<real>)
    requires forall k :: 0 <= k < |tokens| ==> tokens[k] != ""
    ensures Grid(tokens, rows, cols, parse).Ok? <==>
      forall i, j :: 0 <= i < rows && 0 <= j < Filled(tokens, cols, i) ==> parse(CellToken(tokens, cols, i, j)).Some?
    ensures Grid(tokens, rows, cols, parse).Err? ==> Grid(tokens, rows, cols, parse).error == Format
    ensures Grid(tokens, rows, cols, parse).Ok? ==>
      forall i, j :: 0 <= i < rows && 0 <= j < cols ==>
        Grid(tokens, rows, cols, parse).value[i][j] ==
          if j < Filled(tokens, cols, i) then parse(CellToken(tokens, cols, i, j)).value else 0.0
  {
    var g := Grid(tokens, rows, cols, parse);
    if g.Ok? {
      forall i, j | 0 <= i < rows && 0 <= j < cols
        ensures j < Filled(tokens, cols, i) ==> parse(CellToken(tokens, cols, i, j)).Some?
        ensures g.value[i][j] == if j < Filled(tokens, cols, i) then parse(CellToken(tokens, cols, i, j)).value else 0.0
      {
        RowMajorCells(tokens, cols, i, j);
        assert CellAt(tokens, cols, i, j, parse).Some?;
      }
    } else {
      var i, j :| 0 <= i < rows && 0 <= j < cols && CellAt(tokens, cols, i, j, parse).None?;
      RowMajorCells(tokens, cols, i, j);
      assert j < Filled(tokens, cols, i) && parse(CellToken(tokens, cols, i, j)).None?;
    }
  }

  /**
   * The tokens ParseToVector hands to AddToVector: one per row, since the
   * list AddEvery picks from is already free of blank tokens.
   */
  function VectorTokens(input: string, every: int): (r: Result<seq<string>>)
    ensures r.Err? ==> r.error == ArgumentOutOfRange
    ensures r.Ok? ==> |r.value| == Count(SplitSymbol, input) + 1
    ensures r.Ok? ==> forall k :: 0 <= k < |r.value| ==> r.value[k] != ""
  {
    var fr := Filter(NotBlank, Filter(WhereAsWritten, Split(input)));
    var rows := Count(SplitSymbol, input) + 1;
    if PicksInRange(fr, every, rows) then
      PickedNotBlank(fr, every, rows);
      NotBlankNonEmpty(Picked(fr, every, rows));
      Ok(Filter(NotBlank, Picked(fr, every, rows)))
    else Err(ArgumentOutOfRange)
  }

  /** Picking from a list without blank tokens picks no blank token, so the final filter keeps all picks. */
  lemma PickedNotBlank(fr: seq<string>, every: int, n: nat)
    requires forall k :: 0 <= k < |fr| ==> NotBlank(fr[k])
    requires n == 0 || (every >= 1 && every * n - 1 < |fr|)
    ensures Filter(NotBlank, Picked(fr, every, n)) == Picked(fr, every, n)
  {
    var p := Picked(fr, every, n);
    forall k | 0 <= k < |p|
      ensures NotBlank(p[k])
    {
      assert p[k] == fr[every * (k + 1) - 1];
    }
    FilterAll(NotBlank, p);
  }

  /**
   * RemoveEvery, called with the inferred dimensions, succeeds exactly when
   * there are at least two columns and the split list reaches index
   * cols * rows - 2; with one column or none, ParseToMatrix always throws.
   */
  lemma MatrixTokensDefined(input: string)
    requires Dimensions(input).Ok?
    ensures var (rows, cols) := Dimensions(input).value;
      MatrixTokens(input, rows, cols).Ok? <==>
        cols >= 2 && cols * rows - 2 < Count(' ', input) + Count(SplitSymbol, input) + 1
  {
    var (rows, cols) := Dimensions(input).value;
    WhereKeepsAll(input);
    RemoveEveryClosedForm(Filter(WhereAsWritten, Split(input)), cols, rows);
  }

  /** A one-character matrix entry: neither a separator nor whitespace. */
  predicate IsEntry(c: char)
  {
    !IsSeparator(c) && !IsWhiteSpace(c)
  }

  /** The six entries of the worked example, in reading order. */
  function SmallEntries(a: char, b: char, c: char, d: char, e: char, f: char): (r: seq<string>)
  {
    [[a], [b], [c], [d], [e], [f]]
  }

  /** A 2 x 3 system "a b c;d e f" of one-character entries. */
  function SmallSystem(a: char, b: char, c: char, d: char, e: char, f: char): (r: string)
  {
    Rejoin(SmallEntries(a, b, c, d, e, f), [' ', ' ', SplitSymbol, ' ', ' '])
  }

  /** The tokens and the separator counts of "a b c;d e f". */
  lemma SmallSystemSplit(a: char, b: char, c: char, d: char, e: char, f: char)
    requires IsEntry(a) && IsEntry(b) && IsEntry(c) && IsEntry(d) && IsEntry(e) && IsEntry(f)
    ensures Split(SmallSystem(a, b, c, d, e, f)) == SmallEntries(a, b, c, d, e, f)
    ensures Count(' ', SmallSystem(a, b, c, d, e, f)) == 4
    ensures Count(SplitSymbol, SmallSystem(a, b, c, d, e, f)) == 1
  {
    var entries := SmallEntries(a, b, c, d, e, f);
    var seps := [' ', ' ', SplitSymbol, ' ', ' '];
    assert forall k :: 0 <= k < |entries| ==> NoSeparator(entries[k]) by {
      forall k | 0 <= k < |entries|
        ensures NoSeparator(entries[k])
      {
        assert |entries[k]| == 1 && IsEntry(entries[k][0]);
      }
    }
    SplitOfRejoin(entries, seps);
    CountRejoin(' ', entries, seps);
    CountRejoin(SplitSymbol, entries, seps);
    assert seps[5..] == [];
    assert Count(' ', seps[4..]) == 1 && Count(SplitSymbol, seps[4..]) == 0;
    assert Count(' ', seps[3..]) == 2 && Count(SplitSymbol, seps[3..]) == 0;
    assert Count(' ', seps[2..]) == 2 && Count(SplitSymbol, seps[2..]) == 1;
    assert Count(' ', seps[1..]) == 3 && Count(SplitSymbol, seps[1..]) == 1;
  }

  /** No one-character entry is blank. */
  lemma EntriesNotBlank(xs: seq<string>)
    requires forall k :: 0 <= k < |xs| ==> |xs[k]| == 1 && IsEntry(xs[k][0])
    ensures Filter(NotBlank, xs) == xs
  {
    forall k | 0 <= k < |xs|
      ensures NotBlank(xs[k])
    {
      assert IsEntry(xs[k][0]);
    }
    FilterAll(NotBlank, xs);
  }

  /**
   * A worked example: "a b c;d e f" gives 2 rows of 3 columns, and
   * RemoveEvery drops b and e, leaving the tokens a, c, d and f.
   */
  lemma SmallSystemMatrix(a: char, b: char, c: char, d: char, e: char, f: char)
    requires IsEntry(a) && IsEntry(b) && IsEntry(c) && IsEntry(d) && IsEntry(e) && IsEntry(f)
    ensures Dimensions(SmallSystem(a, b, c, d, e, f)) == Ok((2, 3))
    ensures MatrixTokens(SmallSystem(a, b, c, d, e, f), 2, 3) == Ok([[a], [c], [d], [f]])
  {
    SmallSystemSplit(a, b, c, d, e, f);
    var tokens := [[a], [b], [c], [d], [e], [f]];
    var kept := [[a], [c], [d], [f]];
    FilterAll(WhereAsWritten, tokens);
    assert RemoveRounds(tokens, 3, 1, 2) == Removal(kept, true) by {
      assert RemoveRounds(tokens, 3, 1, 2) == RemoveRounds([[a], [c], [d], [e], [f]], 3, 2, 2);
    }
    EntriesNotBlank(kept);
  }

  /** In the same example AddEvery picks c and f for the vector. */
  lemma SmallSystemVector(a: char, b: char, c: char, d: char, e: char, f: char)
    requires IsEntry(a) && IsEntry(b) && IsEntry(c) && IsEntry(d) && IsEntry(e) && IsEntry(f)
    ensures VectorTokens(SmallSystem(a, b, c, d, e, f), 3) == Ok([[c], [f]])
  {
    SmallSystemSplit(a, b, c, d, e, f);
    var tokens := [[a], [b], [c], [d], [e], [f]];
    FilterAll(WhereAsWritten, tokens);
    EntriesNotBlank(tokens);
    assert Picked(tokens, 3, 2) == [[c], [f]];
    EntriesNotBlank([[c], [f]]);
  }

  /** The static state of class Parser: Every (initially 1) and Input (initially empty). */
  class Parser {
    var every: int
    var input: string

    constructor ()
      ensures every == 1 && input == ""
    {
      every := 1;
      input := "";
    }

    /** The internal setter of Input. */
    method SetInput(s: string)
      modifies this`input
      ensures input == s
    {
      input := s;
    }

    /**
     * Parser.ParseToMatrix. Every is set to the column count once the array
     * is allocated, whether or not the rest of the parse succeeds.
     */
    method ParseToMatrix(parse: string -> Option<real>) returns (r: Result<array2<real>>)
      modifies this`every
      ensures Dimensions(input).Err? ==> every == old(every)
      ensures Dimensions(input).Ok? ==> every == Dimensions(input).value.1
      ensures r.Err? <==> MatrixOf(input, parse).Err?
      ensures r.Err? ==> r.error == MatrixOf(input, parse).error
      ensures r.Ok? ==>
        (fresh(r.value) &&
         r.value.Length0 == |MatrixOf(input, parse).value| &&
         r.value.Length1 == Dimensions(input).value.1 &&
         forall i, j :: 0 <= i < r.value.Length0 && 0 <= j < r.value.Length1 ==>
           r.value[i, j] == MatrixOf(input, parse).value[i][j])
    {
      var d := Dimensions(input);
      if d.Err? {
        return Err(d.error);
      }
      var rows, cols := d.value.0, d.value.1;
      var target := new real[rows, cols]((_, _) => 0.0);
      every := cols;
      var list := new TokenList(Filter(WhereAsWritten, Split(input)));
      var fr := RemoveEvery(list, every, rows);
      if fr.Err? {
        return Err(fr.error);
      }
      var tokens := fr.value;
      GridCells(tokens, rows, cols, parse);
      var ok := AddToMatrix(target, tokens, parse);
      if ok.Err? {
        return Err(ok.error);
      }
      return Ok(target);
    }

    /**
     * Parser.ParseToVector, with whatever Every the last ParseToMatrix
     * stored. The vector has one entry per token AddEvery returns; entry 0
     * holds the parse of the last of them and all others stay 0.
     */
    method ParseToVector(parse: string -> Option<real>) returns (r: Result<array<real>>)
      ensures VectorTokens(input, every).Err? ==> r == Err(VectorTokens(input, every).error)
      ensures VectorTokens(input, every).Ok? ==>
        var v := VectorTokens(input, every).value;
        (r.Err? <==> exists k :: 0 <= k < |v| && parse(v[k]).None?) &&
        (r.Err? ==> r.error == Format) &&
        (r.Ok? ==>
          (fresh(r.value) && r.value.Length == |v| == Count(SplitSymbol, input) + 1 &&
           (|v| > 0 ==> r.value[0] == parse(v[|v| - 1]).value) &&
           forall k :: 1 <= k < r.value.Length ==> r.value[k] == 0.0))
    {
      WhereKeepsAll(input);
      var fr := Filter(WhereAsWritten, Split(input));
      var picked := AddEvery(Filter(NotBlank, fr), every, Count(SplitSymbol, input) + 1);
      if picked.Err? {
        return Err(picked.error);
      }
      var tokens := picked.value;
      NotBlankNonEmpty(Picked(Filter(NotBlank, fr), every, Count(SplitSymbol, input) + 1));
      var target := new real[|tokens|](_ => 0.0);
      var ok := AddToVector(target, tokens, parse);
      if ok.Err? {
        return Err(ok.error);
      }
      return Ok(target);
    }
  }
}
