/** `generate_oracle_matrix(n, truth_table)`: the permutation matrix of
    the Deutsch–Jozsa oracle over `n` input qubits and one ancilla.

    Basis index `i` (below `2^(n+1)`) stands for the input register
    `x = i % 2^n` and the ancilla bit of weight `2^n`. The oracle is
    U|x>|y> = |x>|y xor f(x)>, where f(x) = 1 exactly when the truth table
    holds 1 at `x`. */
module Oracle {
  import opened Bits
  import opened Sequences
  import opened Matrices
  import opened Errors

  /** f(x) = 1: the truth table holds 1 at `x`. */
  predicate Marked(truthTable: seq<int>, x: nat)
  {
    x < |truthTable| && truthTable[x] == 1
  }

  /** The basis state the oracle sends basis state `i` to: the ancilla bit
      (weight `2^n`) is flipped exactly when f holds of the input part. */
  function Target(n: nat, truthTable: seq<int>, i: nat): nat
  {
    if Marked(truthTable, i % Pow2(n)) then FlipAncilla(n, i) else i
  }

  /** The oracle matrix: row `i` holds its single 1 in column `Target(i)`. */
  function OracleSpec(n: nat, truthTable: seq<int>): seq<seq<int>>
    requires |truthTable| >= Pow2(n)
  {
    var size := Pow2(n + 1);
    seq(size, i requires 0 <= i < size => seq(size, j => if j == Target(n, truthTable, i) then 1 else 0))
  }

  /** The construction: start from the identity and, in every row whose
      input part is marked, move the 1 to the column with the ancilla bit
      flipped (`i ^ (1 << n)`). A table shorter than `2^n` raises
      IndexError when the loop first reads past its end. */
  method GenerateOracleMatrix(n: nat, truthTable: seq<int>) returns (r: Result<array2<int>>)
    ensures r.Err? <==> |truthTable| < Pow2(n)
    ensures r.Err? ==> r.error == IndexError
    ensures r.Ok? ==> fresh(r.value) && Holds(r.value, OracleSpec(n, truthTable))
  {
    var size := Pow2(n + 1);
    var matrix := Eye(size);
    for i := 0 to size
      invariant (if i < Pow2(n) then i else Pow2(n)) <= |truthTable|
      invariant matrix.Length0 == size && matrix.Length1 == size
      invariant forall row, col :: 0 <= row < size && 0 <= col < size ==>
        matrix[row, col] ==
          if row < i then (if col == Target(n, truthTable, row) then 1 else 0)
          else (if row == col then 1 else 0)
    {
      var inputIndex := i % Pow2(n);
      ModBelowDouble(n, i);
      if inputIndex >= |truthTable| {
        return Err(IndexError);
      }
      if truthTable[inputIndex] == 1 {
        matrix[i, i] := 0;
        var targetIndex := Xor(i, Pow2(n));
        XorHighBit(n, i);
        matrix[i, targetIndex] := 1;
      }
    }
    return Ok(matrix);
  }

  /** `Target` stays in range, keeps the input part, and undoes itself. */
  lemma TargetFacts(n: nat, truthTable: seq<int>, i: nat)
    requires i < Pow2(n + 1)
    ensures Target(n, truthTable, i) < Pow2(n + 1)
    ensures Target(n, truthTable, i) % Pow2(n) == i % Pow2(n)
    ensures Target(n, truthTable, Target(n, truthTable, i)) == i
  {
    var t := Target(n, truthTable, i);
    assert Pow2(n + 1) == 2 * Pow2(n);
    ModBelowDouble(n, i);
    ModBelowDouble(n, t);
  }

  /** The matrix is square of side `2^(n+1)`, its entries are 0 or 1, and
      every row and every column holds exactly one 1. */
  lemma OracleIsPermutationMatrix(n: nat, truthTable: seq<int>)
    requires |truthTable| >= Pow2(n)
    ensures IsSquare(OracleSpec(n, truthTable), Pow2(n + 1))
    ensures IsPermutationMatrix(OracleSpec(n, truthTable))
  {
    var m := OracleSpec(n, truthTable);
    var size := Pow2(n + 1);
    forall i | 0 <= i < size
      ensures Count(m[i], 1) == 1
    {
      TargetFacts(n, truthTable, i);
      CountUnit(m[i], Target(n, truthTable, i));
    }
    forall j | 0 <= j < size
      ensures Count(Column(m, j), 1) == 1
    {
      TargetFacts(n, truthTable, j);
      forall i | 0 <= i < size
        ensures Column(m, j)[i] == if i == Target(n, truthTable, j) then 1 else 0
      {
        TargetFacts(n, truthTable, i);
      }
      CountUnit(Column(m, j), Target(n, truthTable, j));
    }
  }

  /** The two kinds of row: a row whose input part maps to anything but 1
      is the identity row; any other row has its only 1 in column
      `i ^ (1 << n)`, and none on the diagonal. */
  lemma OracleRow(n: nat, truthTable: seq<int>, i: nat)
    requires |truthTable| >= Pow2(n)
    requires i < Pow2(n + 1)
    ensures truthTable[i % Pow2(n)] != 1 ==> OracleSpec(n, truthTable)[i] == Identity(Pow2(n + 1))[i]
    ensures truthTable[i % Pow2(n)] == 1 ==>
      && OracleSpec(n, truthTable)[i][i] == 0
      && forall j :: 0 <= j < Pow2(n + 1) ==>
           (OracleSpec(n, truthTable)[i][j] == 1 <==> j == Xor(i, Pow2(n)))
  {
    var size := Pow2(n + 1);
    ModBelowDouble(n, i);
    XorHighBit(n, i);
    var t := Target(n, truthTable, i);
    assert OracleSpec(n, truthTable)[i] == seq(size, j => if j == t then 1 else 0);
    if truthTable[i % Pow2(n)] == 1 {
      assert t == Xor(i, Pow2(n)) != i;
    } else {
      assert t == i;
    }
  }

  lemma OracleIsSymmetric(n: nat, truthTable: seq<int>)
    requires |truthTable| >= Pow2(n)
    ensures IsSquare(OracleSpec(n, truthTable), Pow2(n + 1))
    ensures IsSymmetric(OracleSpec(n, truthTable))
  {
    var size := Pow2(n + 1);
    forall i | 0 <= i < size {
      TargetFacts(n, truthTable, i);
    }
  }

  /** Applying the oracle twice is the identity: it is an involution. */
  lemma OracleSquaredIsIdentity(n: nat, truthTable: seq<int>)
    requires |truthTable| >= Pow2(n)
    ensures IsSquare(OracleSpec(n, truthTable), Pow2(n + 1))
    ensures MatMul(OracleSpec(n, truthTable), OracleSpec(n, truthTable)) == Identity(Pow2(n + 1))
  {
    var m := OracleSpec(n, truthTable);
    var size := Pow2(n + 1);
    var p := MatMul(m, m);
    var id := Identity(size);
    forall i | 0 <= i < size
      ensures p[i] == id[i]
    {
      var t := Target(n, truthTable, i);
      TargetFacts(n, truthTable, i);
      forall j | 0 <= j < size
        ensures p[i][j] == id[i][j]
      {
        DotSingle(m[i], Column(m, j), t);
      }
    }
  }

  /** The oracle is unitary: its transpose (its conjugate transpose, the
      entries being real) times itself is the identity. */
  lemma OracleIsUnitary(n: nat, truthTable: seq<int>)
    requires |truthTable| >= Pow2(n)
    ensures IsSquare(OracleSpec(n, truthTable), Pow2(n + 1))
    ensures MatMul(Transpose(OracleSpec(n, truthTable)), OracleSpec(n, truthTable)) == Identity(Pow2(n + 1))
  {
    var m := OracleSpec(n, truthTable);
    OracleIsSymmetric(n, truthTable);
    forall j | 0 <= j < |m|
      ensures Transpose(m)[j] == m[j]
    {
    }
    assert Transpose(m) == m;
    OracleSquaredIsIdentity(n, truthTable);
  }

  /** A table with no 1 among its first `2^n` entries (the all-zero table,
      a constant function) gives exactly the identity matrix, the matrix the
      "Constant (Identity)" choice builds with `np.eye` directly. */
  lemma ConstantZeroOracleIsIdentity(n: nat, truthTable: seq<int>)
    requires |truthTable| >= Pow2(n)
    requires forall x :: 0 <= x < Pow2(n) ==> truthTable[x] != 1
    ensures OracleSpec(n, truthTable) == Identity(Pow2(n + 1))
  {
    var size := Pow2(n + 1);
    forall i | 0 <= i < size
      ensures OracleSpec(n, truthTable)[i] == Identity(size)[i]
    {
      OracleRow(n, truthTable, i);
    }
  }
}
