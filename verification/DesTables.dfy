/**
  The tables of DES (FIPS 46-3), by rows. A word is the sequence of its bits, the most
  significant first; the tables count bits from one.
 */
module DesTables {

  /** The initial permutation, by rows. */
  function IpRow(r: nat): (row: seq<nat>)
    ensures |row| == 8 && forall k :: 0 <= k < 8 ==> 1 <= row[k] <= 64
  {
    if r == 0 then [58, 50, 42, 34, 26, 18, 10, 2]
    else if r == 1 then [60, 52, 44, 36, 28, 20, 12, 4]
    else if r == 2 then [62, 54, 46, 38, 30, 22, 14, 6]
    else if r == 3 then [64, 56, 48, 40, 32, 24, 16, 8]
    else if r == 4 then [57, 49, 41, 33, 25, 17, 9, 1]
    else if r == 5 then [59, 51, 43, 35, 27, 19, 11, 3]
    else if r == 6 then [61, 53, 45, 37, 29, 21, 13, 5]
    else [63, 55, 47, 39, 31, 23, 15, 7]
  }

  /** The final permutation. */
  function FpRow(r: nat): (row: seq<nat>)
    ensures |row| == 8 && forall k :: 0 <= k < 8 ==> 1 <= row[k] <= 64
  {
    if r == 0 then [40, 8, 48, 16, 56, 24, 64, 32]
    else if r == 1 then [39, 7, 47, 15, 55, 23, 63, 31]
    else if r == 2 then [38, 6, 46, 14, 54, 22, 62, 30]
    else if r == 3 then [37, 5, 45, 13, 53, 21, 61, 29]
    else if r == 4 then [36, 4, 44, 12, 52, 20, 60, 28]
    else if r == 5 then [35, 3, 43, 11, 51, 19, 59, 27]
    else if r == 6 then [34, 2, 42, 10, 50, 18, 58, 26]
    else [33, 1, 41, 9, 49, 17, 57, 25]
  }

  /** The expansion of a half to 48 bits. */
  function ERow(r: nat): (row: seq<nat>)
    ensures |row| == 6 && forall k :: 0 <= k < 6 ==> 1 <= row[k] <= 32
  {
    if r == 0 then [32, 1, 2, 3, 4, 5]
    else if r == 1 then [4, 5, 6, 7, 8, 9]
    else if r == 2 then [8, 9, 10, 11, 12, 13]
    else if r == 3 then [12, 13, 14, 15, 16, 17]
    else if r == 4 then [16, 17, 18, 19, 20, 21]
    else if r == 5 then [20, 21, 22, 23, 24, 25]
    else if r == 6 then [24, 25, 26, 27, 28, 29]
    else [28, 29, 30, 31, 32, 1]
  }

  /** The permutation at the end of a round. */
  function PRow(r: nat): (row: seq<nat>)
    ensures |row| == 4 && forall k :: 0 <= k < 4 ==> 1 <= row[k] <= 32
  {
    if r == 0 then [16, 7, 20, 21]
    else if r == 1 then [29, 12, 28, 17]
    else if r == 2 then [1, 15, 23, 26]
    else if r == 3 then [5, 18, 31, 10]
    else if r == 4 then [2, 8, 24, 14]
    else if r == 5 then [32, 27, 3, 9]
    else if r == 6 then [19, 13, 30, 6]
    else [22, 11, 4, 25]
  }

  /** The key bits without parity. */
  function Pc1Row(r: nat): (row: seq<nat>)
    ensures |row| == 7 && forall k :: 0 <= k < 7 ==> 1 <= row[k] <= 64
  {
    if r == 0 then [57, 49, 41, 33, 25, 17, 9]
    else if r == 1 then [1, 58, 50, 42, 34, 26, 18]
    else if r == 2 then [10, 2, 59, 51, 43, 35, 27]
    else if r == 3 then [19, 11, 3, 60, 52, 44, 36]
    else if r == 4 then [63, 55, 47, 39, 31, 23, 15]
    else if r == 5 then [7, 62, 54, 46, 38, 30, 22]
    else if r == 6 then [14, 6, 61, 53, 45, 37, 29]
    else [21, 13, 5, 28, 20, 12, 4]
  }

  /** The selection of a subkey. */
  function Pc2Row(r: nat): (row: seq<nat>)
    ensures |row| == 6 && forall k :: 0 <= k < 6 ==> 1 <= row[k] <= 56
  {
    if r == 0 then [14, 17, 11, 24, 1, 5]
    else if r == 1 then [3, 28, 15, 6, 21, 10]
    else if r == 2 then [23, 19, 12, 4, 26, 8]
    else if r == 3 then [16, 7, 27, 20, 13, 2]
    else if r == 4 then [41, 52, 31, 37, 47, 55]
    else if r == 5 then [30, 40, 51, 45, 33, 48]
    else if r == 6 then [44, 49, 39, 56, 34, 53]
    else [46, 42, 50, 36, 29, 32]
  }

  /** The left rotation of both key halves in a round. */
  function Shift(round: nat): (n: nat)
    ensures 1 <= n <= 2
  {
    if round == 0 || round == 1 || round == 8 || round == 15 then 1 else 2
  }

  /** Row `row` of substitution box `box`. */
  function SBoxRow(box: nat, row: nat): (r: seq<nat>)
    ensures |r| == 16
  {
    if box == 0 then
      if row == 0 then [14, 4, 13, 1, 2, 15, 11, 8, 3, 10, 6, 12, 5, 9, 0, 7]
      else if row == 1 then [0, 15, 7, 4, 14, 2, 13, 1, 10, 6, 12, 11, 9, 5, 3, 8]
      else if row == 2 then [4, 1, 14, 8, 13, 6, 2, 11, 15, 12, 9, 7, 3, 10, 5, 0]
      else [15, 12, 8, 2, 4, 9, 1, 7, 5, 11, 3, 14, 10, 0, 6, 13]
    else if box == 1 then
      if row == 0 then [15, 1, 8, 14, 6, 11, 3, 4, 9, 7, 2, 13, 12, 0, 5, 10]
      else if row == 1 then [3, 13, 4, 7, 15, 2, 8, 14, 12, 0, 1, 10, 6, 9, 11, 5]
      else if row == 2 then [0, 14, 7, 11, 10, 4, 13, 1, 5, 8, 12, 6, 9, 3, 2, 15]
      else [13, 8, 10, 1, 3, 15, 4, 2, 11, 6, 7, 12, 0, 5, 14, 9]
    else if box == 2 then
      if row == 0 then [10, 0, 9, 14, 6, 3, 15, 5, 1, 13, 12, 7, 11, 4, 2, 8]
      else if row == 1 then [13, 7, 0, 9, 3, 4, 6, 10, 2, 8, 5, 14, 12, 11, 15, 1]
      else if row == 2 then [13, 6, 4, 9, 8, 15, 3, 0, 11, 1, 2, 12, 5, 10, 14, 7]
      else [1, 10, 13, 0, 6, 9, 8, 7, 4, 15, 14, 3, 11, 5, 2, 12]
    else if box == 3 then
      if row == 0 then [7, 13, 14, 3, 0, 6, 9, 10, 1, 2, 8, 5, 11, 12, 4, 15]
      else if row == 1 then [13, 8, 11, 5, 6, 15, 0, 3, 4, 7, 2, 12, 1, 10, 14, 9]
      else if row == 2 then [10, 6, 9, 0, 12, 11, 7, 13, 15, 1, 3, 14, 5, 2, 8, 4]
      else [3, 15, 0, 6, 10, 1, 13, 8, 9, 4, 5, 11, 12, 7, 2, 14]
    else if box == 4 then
      if row == 0 then [2, 12, 4, 1, 7, 10, 11, 6, 8, 5, 3, 15, 13, 0, 14, 9]
      else if row == 1 then [14, 11, 2, 12, 4, 7, 13, 1, 5, 0, 15, 10, 3, 9, 8, 6]
      else if row == 2 then [4, 2, 1, 11, 10, 13, 7, 8, 15, 9, 12, 5, 6, 3, 0, 14]
      else [11, 8, 12, 7, 1, 14, 2, 13, 6, 15, 0, 9, 10, 4, 5, 3]
    else if box == 5 then
      if row == 0 then [12, 1, 10, 15, 9, 2, 6, 8, 0, 13, 3, 4, 14, 7, 5, 11]
      else if row == 1 then [10, 15, 4, 2, 7, 12, 9, 5, 6, 1, 13, 14, 0, 11, 3, 8]
      else if row == 2 then [9, 14, 15, 5, 2, 8, 12, 3, 7, 0, 4, 10, 1, 13, 11, 6]
      else [4, 3, 2, 12, 9, 5, 15, 10, 11, 14, 1, 7, 6, 0, 8, 13]
    else if box == 6 then
      if row == 0 then [4, 11, 2, 14, 15, 0, 8, 13, 3, 12, 9, 7, 5, 10, 6, 1]
      else if row == 1 then [13, 0, 11, 7, 4, 9, 1, 10, 14, 3, 5, 12, 2, 15, 8, 6]
      else if row == 2 then [1, 4, 11, 13, 12, 3, 7, 14, 10, 15, 6, 8, 0, 5, 9, 2]
      else [6, 11, 13, 8, 1, 4, 10, 7, 9, 5, 0, 15, 14, 2, 3, 12]
    else
      if row == 0 then [13, 2, 8, 4, 6, 15, 11, 1, 10, 9, 3, 14, 5, 0, 12, 7]
      else if row == 1 then [1, 15, 13, 8, 10, 3, 7, 4, 12, 5, 6, 11, 0, 14, 9, 2]
      else if row == 2 then [7, 11, 4, 1, 9, 12, 14, 2, 0, 6, 10, 13, 15, 3, 5, 8]
      else [2, 1, 14, 7, 4, 10, 8, 13, 15, 12, 9, 0, 3, 5, 6, 11]
  }

  /** A table as the list of its rows. */
  function Flat(row: nat -> seq<nat>, n: nat): seq<nat> {
    if n == 0 then [] else Flat(row, n - 1) + row(n - 1)
  }

  ghost predicate InRange(table: seq<nat>, width: nat) {
    forall i :: 0 <= i < |table| ==> 1 <= table[i] <= width
  }

  lemma {:induction false} FlatInRange(row: nat -> seq<nat>, n: nat, size: nat, width: nat)
    requires forall r :: |row(r)| == size && InRange(row(r), width)
    ensures |Flat(row, n)| == size * n && InRange(Flat(row, n), width)
  {
    if n > 0 {
      FlatInRange(row, n - 1, size, width);
      var init, last := Flat(row, n - 1), row(n - 1);
      forall i | 0 <= i < |init + last|
        ensures 1 <= (init + last)[i] <= width
      {
        assert (init + last)[i] == if i < |init| then init[i] else last[i - |init|];
      }
    }
  }

  lemma {:induction false} FlatAt(row: nat -> seq<nat>, n: nat, r: nat, c: nat)
    requires (forall r :: |row(r)| == 8) && r < n && c < 8
    ensures |Flat(row, n)| == 8 * n && Flat(row, n)[8 * r + c] == row(r)[c]
  {
    FlatLength(row, n - 1);
    if r < n - 1 {
      FlatAt(row, n - 1, r, c);
    }
  }

  lemma {:induction false} FlatLength(row: nat -> seq<nat>, n: nat)
    requires forall r :: |row(r)| == 8
    ensures |Flat(row, n)| == 8 * n
  {
    if n > 0 {
      FlatLength(row, n - 1);
    }
  }

  /** Where the initial permutation takes row `r`, column `c` from. */
  lemma IpFormula(r: nat, c: nat)
    requires r < 8 && c < 8
    ensures IpRow(r)[c] - 1 == 8 * (7 - c) + if r < 4 then 2 * r + 1 else 2 * r - 8
  {
    if r == 0 {} else if r == 1 {} else if r == 2 {} else if r == 3 {}
    else if r == 4 {} else if r == 5 {} else if r == 6 {} else { assert r == 7; }
  }

  lemma FpFormula(r: nat, c: nat)
    requires r < 8 && c < 8
    ensures FpRow(r)[c] - 1 == 8 * (if c % 2 == 0 then 4 + c / 2 else c / 2) + 7 - r
  {
    if r == 0 {} else if r == 1 {} else if r == 2 {} else if r == 3 {}
    else if r == 4 {} else if r == 5 {} else if r == 6 {} else { assert r == 7; }
  }
}
