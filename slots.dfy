/**
 * What both slot stores share: one parking slot, a grid of slots as a value,
 * and the "R<row>-C<col>" label that the result messages carry.
 */
module Slots {
  import opened Wrappers

  /** One slot: `{available, carNumber}`. */
  datatype Cell = Cell(available: bool, carNumber: Option<string>)

  /** The state every slot starts in and returns to on exit. */
  const Free: Cell := Cell(true, None)

  /** A grid snapshot, row by row, as `getGrid` hands it to callers. */
  type Grid = seq<seq<Cell>>

  /** A zero-based slot position `{r, c}`. */
  datatype Pos = Pos(r: int, c: int)

  predicate Shaped(g: Grid, rows: nat, cols: nat)
  {
    |g| == rows && forall i :: 0 <= i < rows ==> |g[i]| == cols
  }

  predicate InBounds(rows: nat, cols: nat, r: int, c: int)
  {
    0 <= r < rows && 0 <= c < cols
  }

  /** A grid of the given size with every slot free. */
  function Empty(rows: nat, cols: nat): (g: Grid)
    ensures Shaped(g, rows, cols)
    ensures forall i, j :: InBounds(rows, cols, i, j) ==> g[i][j] == Free
  {
    seq(rows, i => seq(cols, j => Free))
  }

  /** The grid with slot (r, c) replaced by `cell` and every other slot left as it was. */
  function Put(g: Grid, rows: nat, cols: nat, r: int, c: int, cell: Cell): (h: Grid)
    requires Shaped(g, rows, cols) && InBounds(rows, cols, r, c)
    ensures Shaped(h, rows, cols)
    ensures h[r][c] == cell
    ensures forall i, j :: InBounds(rows, cols, i, j) && (i != r || j != c) ==> h[i][j] == g[i][j]
  {
    g[r := g[r][c := cell]]
  }

  /** A cell-by-cell copy of a two-dimensional array of slots. */
  function Snapshot(a: array2<Cell>): (g: Grid)
    reads a
    ensures Shaped(g, a.Length0, a.Length1)
    ensures forall i, j :: 0 <= i < a.Length0 && 0 <= j < a.Length1 ==> g[i][j] == a[i, j]
  {
    seq(a.Length0, i requires 0 <= i < a.Length0 reads a => seq(a.Length1, j reads a requires 0 <= i < a.Length0 && 0 <= j < a.Length1 => a[i, j]))
  }

  /** After writing slot (r, c) of an array, its snapshot is the old snapshot with that slot replaced. */
  lemma SnapshotAfterWrite(a: array2<Cell>, before: Grid, r: int, c: int)
    requires Shaped(before, a.Length0, a.Length1) && InBounds(a.Length0, a.Length1, r, c)
    requires forall i, j :: InBounds(a.Length0, a.Length1, i, j) && (i != r || j != c) ==> a[i, j] == before[i][j]
    ensures Snapshot(a) == Put(before, a.Length0, a.Length1, r, c, a[r, c])
  {
    GridExt(Snapshot(a), Put(before, a.Length0, a.Length1, r, c, a[r, c]), a.Length0, a.Length1);
  }

  /** Two grids of the same shape that agree slot by slot are the same grid. */
  lemma GridExt(g: Grid, h: Grid, rows: nat, cols: nat)
    requires Shaped(g, rows, cols) && Shaped(h, rows, cols)
    requires forall i, j :: InBounds(rows, cols, i, j) ==> g[i][j] == h[i][j]
    ensures g == h
  {
    forall i | 0 <= i < rows ensures g[i] == h[i] {
      assert forall j :: 0 <= j < cols ==> g[i][j] == h[i][j];
    }
  }

  // Decimal rendering of the 1-based numbers in "R{r+1}-C{c+1}".

  predicate IsDigit(ch: char)
  {
    '0' as int <= ch as int <= '9' as int
  }

  predicate AllDigits(s: string)
  {
    forall i :: 0 <= i < |s| ==> IsDigit(s[i])
  }

  function DigitChar(d: nat): (ch: char)
    requires d < 10
    ensures IsDigit(ch) && ch as int - '0' as int == d
  {
    (d + '0' as int) as char
  }

  /** Decimal digits of n, most significant first, as a template literal prints them. */
  function NatToString(n: nat): (s: string)
    ensures |s| >= 1
    ensures AllDigits(s)
    ensures n < 10 <==> |s| == 1
    ensures |s| > 1 ==> s[0] != '0'
  {
    if n < 10 then [DigitChar(n)] else NatToString(n / 10) + [DigitChar(n % 10)]
  }

  function DigitValue(ch: char): (d: nat)
    requires IsDigit(ch)
  {
    ch as int - '0' as int
  }

  /** The value of a string of decimal digits. */
  function DigitsValue(s: string): (v: nat)
    requires AllDigits(s)
  {
    if s == [] then 0 else 10 * DigitsValue(s[..|s| - 1]) + DigitValue(s[|s| - 1])
  }

  /** Rendering a number and reading it back gives the number. */
  lemma {:induction false} DigitsValueOfNatToString(n: nat)
    ensures DigitsValue(NatToString(n)) == n
  {
    if n >= 10 {
      var s := NatToString(n);
      assert s[..|s| - 1] == NatToString(n / 10);
      DigitsValueOfNatToString(n / 10);
    }
  }

  /** The length of the run of digits that s starts with. */
  function LeadingDigits(s: string): (k: nat)
  {
    if s != [] && IsDigit(s[0]) then 1 + LeadingDigits(s[1..]) else 0
  }

  lemma {:induction false} LeadingDigitsOf(a: string, x: char, u: string)
    requires AllDigits(a)
    requires !IsDigit(x)
    ensures LeadingDigits(a + [x] + u) == |a|
  {
    if a != [] {
      assert (a + [x] + u)[1..] == a[1..] + [x] + u;
      LeadingDigitsOf(a[1..], x, u);
    }
  }

  /** "R{r+1}-C{c+1}", the slot label in every success message. */
  function Label(r: nat, c: nat): (l: string)
  {
    "R" + NatToString(r + 1) + "-C" + NatToString(c + 1)
  }

  /** "R" + a + "-C" + b determines a and b when both are digit strings. */
  lemma LabelParts(a1: string, b1: string, a2: string, b2: string)
    requires AllDigits(a1) && AllDigits(a2)
    requires "R" + a1 + "-C" + b1 == "R" + a2 + "-C" + b2
    ensures a1 == a2 && b1 == b2
  {
    var l := "R" + a1 + "-C" + b1;
    var t := l[1..];
    assert t == a1 + ['-'] + ("C" + b1);
    assert t == a2 + ['-'] + ("C" + b2);
    LeadingDigitsOf(a1, '-', "C" + b1);
    LeadingDigitsOf(a2, '-', "C" + b2);
    assert a1 == t[..|a1|] == a2;
    assert b1 == t[|a1| + 2..] == b2;
  }

  /** Distinct slots get distinct labels, so a message names exactly one slot. */
  lemma NatToStringInjective(m: nat, n: nat)
    requires NatToString(m) == NatToString(n)
    ensures m == n
  {
    DigitsValueOfNatToString(m);
    DigitsValueOfNatToString(n);
  }

  lemma LabelInjective(r1: nat, c1: nat, r2: nat, c2: nat)
    requires Label(r1, c1) == Label(r2, c2)
    ensures r1 == r2 && c1 == c2
  {
    LabelParts(NatToString(r1 + 1), NatToString(c1 + 1), NatToString(r2 + 1), NatToString(c2 + 1));
    NatToStringInjective(r1 + 1, r2 + 1);
    NatToStringInjective(c1 + 1, c2 + 1);
  }
}
