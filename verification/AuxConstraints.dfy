/**
  The memory and range-check constraints of the STARK: a sorted copy of a column, which moves in steps of
  0 and 1, and a running product that ties the copy to the column. A row holds several consecutive
  entries of a column, and a constraint may reach into the next row.
*/
module AuxConstraints {
  import opened AirConstraints

  // Auxiliary trace layout
  const A_M_PRIME := 0
  const V_M_PRIME := 4
  const P_M := 8
  const A_RC_PRIME := 12
  const P_RC := 15
  const AUX_WIDTH := 18

  predicate AuxFrame(f: Frame) {
    |f.current| >= AUX_WIDTH && |f.next| >= AUX_WIDTH
  }

  /** `get_virtual`: entry `index` of a column group that spans the current and the next row. */
  function GetVirtual(f: Frame, index: nat, offset: nat, width: nat): int
    requires width in {3, 4} && index < 2 * width
    requires offset + width <= |f.current| && offset + width <= |f.next|
  {
    var upToThree := index * (index - 1) * (index - 2);
    var beyond := if width == 4 then upToThree * (index - 3) else upToThree;
    if beyond == 0 then f.current[offset + index] else f.next[offset + index - width]
  }

  lemma BeyondWidth(index: nat)
    ensures index * (index - 1) * (index - 2) * (index - 3) == 0 <==> index < 4
    ensures index * (index - 1) * (index - 2) == 0 <==> index < 3
  {
    if index >= 3 {
      NonZeroProduct(index, index - 1);
      NonZeroProduct(index * (index - 1), index - 2);
      if index > 3 { NonZeroProduct(index * (index - 1) * (index - 2), index - 3); }
    }
  }

  lemma NonZeroProduct(x: int, y: int)
    requires x != 0 && y != 0
    ensures x * y != 0
  {
  }

  function MemoryConstraints(main: Frame, aux: Frame, z: int, alpha: int): (t: seq<int>)
    requires MainFrame(main) && AuxFrame(aux)
    ensures |t| == 12
  {
    var a' := (k: nat) requires k < 5 => GetVirtual(aux, k, A_M_PRIME, 4);
    var v' := (k: nat) requires k < 5 => GetVirtual(aux, k, V_M_PRIME, 4);
    var q := (k: nat) requires k < 5 => GetVirtual(aux, k, P_M, 4);
    var a := (k: nat) requires k < 5 => GetVirtual(main, k, MEM_A, 4);
    var v := (k: nat) requires k < 5 => GetVirtual(main, k, MEM_V, 4);
    seq(4, k requires 0 <= k < 4 => (a'(k + 1) - a'(k)) * (a'(k + 1) - a'(k) - 1))
    + seq(4, k requires 0 <= k < 4 => (v'(k + 1) - v'(k)) * (a'(k + 1) - a'(k) - 1))
    + seq(4, k requires 0 <= k < 4 =>
        (z - (a'(k + 1) + alpha * v'(k + 1))) * q(k + 1) - (z - (a(k + 1) + alpha * v(k + 1))) * q(k))
  }

  function RangeCheckConstraints(main: Frame, aux: Frame, z: int): (t: seq<int>)
    requires MainFrame(main) && AuxFrame(aux)
    ensures |t| == 6
  {
    var a' := (k: nat) requires k < 4 => GetVirtual(aux, k, A_RC_PRIME, 3);
    var q := (k: nat) requires k < 4 => GetVirtual(aux, k, P_RC, 3);
    var a := (k: nat) requires k < 4 => GetVirtual(main, k, OFF_X, 3);
    seq(3, k requires 0 <= k < 3 => (a'(k + 1) - a'(k)) * (a'(k + 1) - a'(k) - 1))
    + seq(3, k requires 0 <= k < 3 => (z - a'(k + 1)) * q(k + 1) - (z - a(k + 1)) * q(k))
  }

  // ------------------------------------------------------------------------
  // Flattened columns
  // ------------------------------------------------------------------------

  predicate Rows(rows: seq<seq<int>>, width: nat) {
    forall i :: 0 <= i < |rows| ==> |rows[i]| >= width
  }

  /** The entries of a column group, row after row, up to the first entry of the last row. */
  function Flat(rows: seq<seq<int>>, offset: nat, width: nat): (s: seq<int>)
    requires width in {3, 4} && |rows| > 0 && Rows(rows, offset + width)
    ensures |s| == width * (|rows| - 1) + 1
  {
    seq(width * (|rows| - 1) + 1, j requires 0 <= j < width * (|rows| - 1) + 1 =>
      FlatIndex(j, width, |rows|); rows[j / width][offset + j % width])
  }

  lemma FlatIndex(j: nat, width: nat, n: nat)
    requires width in {3, 4} && n > 0 && j <= width * (n - 1)
    ensures j / width < n
  {
    if width == 3 { assert j <= 3 * (n - 1); } else { assert j <= 4 * (n - 1); }
  }

  lemma FlatAt(rows: seq<seq<int>>, offset: nat, width: nat, i: nat, k: nat)
    requires width in {3, 4} && |rows| > 0 && Rows(rows, offset + width) && k < width
    requires i < |rows| - 1 || (i == |rows| - 1 && k == 0)
    ensures width * i + k < |Flat(rows, offset, width)|
    ensures Flat(rows, offset, width)[width * i + k] == rows[i][offset + k]
  {
    if width == 3 {
      assert (3 * i + k) / 3 == i && (3 * i + k) % 3 == k;
    } else {
      assert (4 * i + k) / 4 == i && (4 * i + k) % 4 == k;
    }
  }

  /** What a constraint on rows `i` and `i + 1` reads is what the flattened column holds. */
  lemma VirtualIsFlat(rows: seq<seq<int>>, i: nat, k: nat, offset: nat, width: nat)
    requires width in {3, 4} && i + 1 < |rows| && Rows(rows, offset + width) && k <= width
    ensures width * i + k < |Flat(rows, offset, width)|
    ensures GetVirtual(Frame(rows[i], rows[i + 1]), k, offset, width) == Flat(rows, offset, width)[width * i + k]
  {
    BeyondWidth(k);
    if k < width {
      FlatAt(rows, offset, width, i, k);
    } else {
      FlatAt(rows, offset, width, i + 1, 0);
      assert width * (i + 1) == width * i + k;
    }
  }
}
