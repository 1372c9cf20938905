/**
 * The Matlab-like string constructor `Matrix<General,Var,Var,AT>(const char *)` of
 * branches/user/grundl, on the token level: the text between `[` and `]` is a sequence of
 * numbers `xs` with one separator between neighbours, `,` (next column) or `;` (next row).
 * `"[]"` is the empty stream.
 *
 * The constructor makes two passes. The first counts rows and columns; the second reads the
 * numbers back in row-major order into `e(0,0), e(0,1), ...`.
 */
module MatlabString {
  import opened Wrappers
  import opened Dense
  import opened Layout

  datatype Sep = Comma | Semicolon

  /** A number stream `x0 s0 x1 s1 ... x(k-1)` (or nothing at all). */
  predicate IsStream(xs: seq<real>, seps: seq<Sep>) {
    (|xs| == 0 && |seps| == 0) || |seps| + 1 == |xs|
  }

  /** The counters of the first pass: rows closed so far (`M`), commas in the current row
      (`N`), commas in the previous row (`buf`), and whether every assert so far held. */
  datatype Tally = Tally(rows: nat, commas: nat, prev: nat, ok: bool)

  /** One separator, as the constructor handles it: `if(buf) assert(buf == N)` at `;`. */
  function StepAsWritten(t: Tally, s: Sep): Tally {
    match s
    case Comma => t.(commas := t.commas + 1)
    case Semicolon => Tally(t.rows + 1, 0, t.commas, t.ok && (t.prev == 0 || t.prev == t.commas))
  }

  /** One separator with the intended check: every closed row against the one before it. */
  function Step(t: Tally, s: Sep): Tally {
    match s
    case Comma => t.(commas := t.commas + 1)
    case Semicolon => Tally(t.rows + 1, 0, t.commas, t.ok && (t.rows == 0 || t.prev == t.commas))
  }

  function TallyAsWritten(seps: seq<Sep>): Tally {
    if |seps| == 0 then Tally(0, 0, 0, true)
    else StepAsWritten(TallyAsWritten(seps[..|seps| - 1]), seps[|seps| - 1])
  }

  function TallyOf(seps: seq<Sep>): Tally {
    if |seps| == 0 then Tally(0, 0, 0, true)
    else Step(TallyOf(seps[..|seps| - 1]), seps[|seps| - 1])
  }

  /** The number of commas in each `;`-separated row: the reference the counting is judged by. */
  function RowCommas(seps: seq<Sep>): (r: seq<nat>)
    ensures |r| > 0
  {
    if |seps| == 0 then [0]
    else
      var r := RowCommas(seps[..|seps| - 1]);
      match seps[|seps| - 1]
      case Comma => r[|r| - 1 := r[|r| - 1] + 1]
      case Semicolon => r + [0]
  }

  predicate Rectangular(seps: seq<Sep>) {
    forall i :: 0 <= i < |RowCommas(seps)| ==> RowCommas(seps)[i] == RowCommas(seps)[0]
  }

  function SumNat(s: seq<nat>): nat {
    if |s| == 0 then 0 else SumNat(s[..|s| - 1]) + s[|s| - 1]
  }

  /**
   * The first pass as written: `M` and `N` after the loop and the final `N++; M++`, and
   * whether the `assert` stayed quiet. `"[]"` skips the loop and leaves `0 x 0`.
   */
  method CountAsWritten(xs: seq<real>, seps: seq<Sep>) returns (m: nat, n: nat, ok: bool)
    requires IsStream(xs, seps)
    ensures |xs| == 0 ==> m == 0 && n == 0 && ok
    ensures |xs| > 0 ==> var t := TallyAsWritten(seps); m == t.rows + 1 && n == t.commas + 1 && ok == t.ok
  {
    if |xs| == 0 {
      return 0, 0, true;
    }
    var rows, commas, buf := 0, 0, 0;
    ok := true;
    var k := 0;
    while k < |seps|
      invariant 0 <= k <= |seps|
      invariant TallyAsWritten(seps[..k]) == Tally(rows, commas, buf, ok)
    {
      assert seps[..k + 1][..k] == seps[..k];
      if seps[k] == Semicolon {
        if buf != 0 {
          ok := ok && buf == commas;
        }
        buf := commas;
        commas := 0;
        rows := rows + 1;
      } else {
        commas := commas + 1;
      }
      k := k + 1;
    }
    assert seps[..|seps|] == seps;
    m, n := rows + 1, commas + 1;
  }

  /** The first pass with the check made on every row, the last one included. */
  method Count(xs: seq<real>, seps: seq<Sep>) returns (m: nat, n: nat, ok: bool)
    requires IsStream(xs, seps)
    ensures |xs| == 0 ==> m == 0 && n == 0 && ok
    ensures |xs| > 0 ==> var t := TallyOf(seps);
      m == t.rows + 1 && n == t.commas + 1 && ok == (t.ok && (t.rows == 0 || t.prev == t.commas))
  {
    if |xs| == 0 {
      return 0, 0, true;
    }
    var rows, commas, buf := 0, 0, 0;
    ok := true;
    var k := 0;
    while k < |seps|
      invariant 0 <= k <= |seps|
      invariant TallyOf(seps[..k]) == Tally(rows, commas, buf, ok)
    {
      assert seps[..k + 1][..k] == seps[..k];
      if seps[k] == Semicolon {
        if rows != 0 {
          ok := ok && buf == commas;
        }
        buf := commas;
        commas := 0;
        rows := rows + 1;
      } else {
        commas := commas + 1;
      }
      k := k + 1;
    }
    assert seps[..|seps|] == seps;
    ok := ok && (rows == 0 || buf == commas);
    m, n := rows + 1, commas + 1;
  }

  /** What the intended tally knows: closed rows, the open row, and all closed rows alike. */
  lemma {:induction false} TallyTracksRows(seps: seq<Sep>)
    ensures var t, r := TallyOf(seps), RowCommas(seps);
      t.rows == |r| - 1 && t.commas == r[|r| - 1] && (t.rows > 0 ==> t.prev == r[|r| - 2]) && (t.rows == 0 ==> t.prev == 0) &&
      (t.ok <==> forall i :: 0 <= i < |r| - 1 ==> r[i] == r[0])
  {
    if |seps| > 0 {
      var init := seps[..|seps| - 1];
      TallyTracksRows(init);
      var r0 := RowCommas(init);
      var r := RowCommas(seps);
      if seps[|seps| - 1] == Semicolon {
        assert r == r0 + [0];
        assert forall i :: 0 <= i < |r| - 1 ==> r[i] == r0[i];
      } else {
        assert forall i :: 0 <= i < |r| - 1 ==> r[i] == r0[i];
      }
    }
  }

  /** The intended check accepts exactly the rectangular streams, and then counts right. */
  lemma {:induction false} CountCorrect(seps: seq<Sep>)
    ensures var t, r := TallyOf(seps), RowCommas(seps);
      ((t.ok && (t.rows == 0 || t.prev == t.commas)) <==> Rectangular(seps)) &&
      t.rows + 1 == |r| && t.commas == r[|r| - 1]
  {
    TallyTracksRows(seps);
  }

  /** Every number but the last is followed by one separator: `k` numbers in all. */
  lemma {:induction false} StreamLength(seps: seq<Sep>)
    ensures |seps| + 1 == SumNat(RowCommas(seps)) + |RowCommas(seps)|
  {
    if |seps| > 0 {
      var init := seps[..|seps| - 1];
      StreamLength(init);
      var r0 := RowCommas(init);
      if seps[|seps| - 1] == Semicolon {
        assert (r0 + [0])[..|r0|] == r0;
      } else {
        SumNatUpdateLast(r0);
      }
    }
  }

  lemma {:induction false} SumNatUpdateLast(s: seq<nat>)
    requires |s| > 0
    ensures SumNat(s[|s| - 1 := s[|s| - 1] + 1]) == SumNat(s) + 1
  {
    assert s[|s| - 1 := s[|s| - 1] + 1][..|s| - 1] == s[..|s| - 1];
  }

  lemma {:induction false} SumNatConst(s: seq<nat>, c: nat)
    requires forall i :: 0 <= i < |s| ==> s[i] == c
    ensures SumNat(s) == |s| * c
  {
    if |s| > 0 {
      SumNatConst(s[..|s| - 1], c);
    }
  }

  /** A rectangular stream of `m` rows of `n` has exactly `m*n` numbers. */
  lemma {:induction false} RectangularSize(xs: seq<real>, seps: seq<Sep>)
    requires IsStream(xs, seps) && |xs| > 0 && Rectangular(seps)
    ensures |xs| == |RowCommas(seps)| * (RowCommas(seps)[0] + 1)
  {
    var r := RowCommas(seps);
    StreamLength(seps);
    SumNatConst(r, r[0]);
  }

  /**
   * The constructor with the intended row check: `Err` for a ragged stream, otherwise the
   * numbers in row-major order as an `m x n` matrix.
   */
  method Parse(xs: seq<real>, seps: seq<Sep>) returns (r: Result<Mat>)
    requires IsStream(xs, seps)
    ensures r.Ok? <==> (|xs| == 0 || Rectangular(seps))
    ensures r.Ok? && |xs| == 0 ==> r.value == []
    ensures r.Ok? && |xs| > 0 ==> var rc := RowCommas(seps);
      |xs| == |rc| * (rc[0] + 1) && r.value == Rows(xs, |rc|, rc[0] + 1)
  {
    var m, n, ok := Count(xs, seps);
    CountCorrect(seps);
    if !ok {
      return Err("rows of unequal length");
    }
    if |xs| == 0 {
      return Ok([]);
    }
    RectangularSize(xs, seps);
    var A: seq<seq<real>> := [];
    var i := 0;
    while i < m
      invariant 0 <= i <= m && |A| == i
      invariant forall p :: 0 <= p < i ==> A[p] == Rows(xs, m, n)[p]
    {
      var row: seq<real> := [];
      var j := 0;
      while j < n
        invariant 0 <= j <= n && |row| == j
        invariant forall q :: 0 <= q < j ==> row[q] == Rows(xs, m, n)[i][q]
      {
        RowsAt(xs, m, n, i, j);
        row := row + [xs[RowMajor(i, j, n)]];
        j := j + 1;
      }
      A := A + [row];
      i := i + 1;
    }
    return Ok(A);
  }

  /** `"[1,2;3]"`: the as-written check lets a ragged stream through as a `2 x 1` matrix
      that has room for only two of its three numbers. */
  lemma {:induction false} AsWrittenAcceptsRagged()
    ensures var seps := [Comma, Semicolon]; var t := TallyAsWritten(seps);
      t.ok && t.rows + 1 == 2 && t.commas + 1 == 1 && !Rectangular(seps) &&
      (t.rows + 1) * (t.commas + 1) < 3
  {
    var seps := [Comma, Semicolon];
    assert seps[..1] == [Comma] && [Comma][..0] == [];
    assert TallyAsWritten([Comma]) == Tally(0, 1, 0, true);
    assert RowCommas([Comma]) == [1];
    assert TallyAsWritten(seps) == StepAsWritten(Tally(0, 1, 0, true), Semicolon) == Tally(1, 0, 1, true);
    assert RowCommas(seps) == [1, 0];
    assert RowCommas(seps)[1] != RowCommas(seps)[0];
  }

  /** `"[1;2,3]"`: a one-column first row switches the check off, so the as-written pass
      reports `2 x 2` for three numbers. */
  lemma {:induction false} AsWrittenSkipsAfterSingleColumn()
    ensures var seps := [Semicolon, Comma]; var t := TallyAsWritten(seps);
      t.ok && t.rows + 1 == 2 && t.commas + 1 == 2 && !Rectangular(seps)
  {
    var seps := [Semicolon, Comma];
    assert seps[..1] == [Semicolon] && [Semicolon][..0] == [];
    assert TallyAsWritten([Semicolon]) == Tally(1, 0, 0, true);
    assert RowCommas([Semicolon]) == [0, 0];
    assert TallyAsWritten(seps) == StepAsWritten(Tally(1, 0, 0, true), Comma) == Tally(1, 1, 0, true);
    assert RowCommas(seps) == [0, 1];
    assert RowCommas(seps)[1] != RowCommas(seps)[0];
  }

  /** On a rectangular stream the as-written pass agrees with the intended one. */
  lemma {:induction false} AsWrittenAgreesOnRectangular(seps: seq<Sep>)
    requires forall i :: 0 <= i < |RowCommas(seps)| - 1 ==> RowCommas(seps)[i] == RowCommas(seps)[0]
    ensures TallyAsWritten(seps) == TallyOf(seps)
  {
    if |seps| > 0 {
      var init := seps[..|seps| - 1];
      var r0, r := RowCommas(init), RowCommas(seps);
      assert forall i :: 0 <= i < |r0| - 1 ==> r0[i] == r[i];
      AsWrittenAgreesOnRectangular(init);
      TallyTracksRows(init);
      var t := TallyOf(init);
      if seps[|seps| - 1] == Semicolon {
        assert r == r0 + [0];
        if t.rows > 0 {
          assert t.prev == r0[0] && t.commas == r[|r0| - 1] == r0[0];
        }
      }
    }
  }
}
