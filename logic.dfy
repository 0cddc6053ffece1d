/** `reverse_engineer_logic(n, truth_table)`: the disjunctive normal form of
    a truth table, as the text shown beside the oracle. One parenthesised
    minterm per entry equal to 1, in ascending index order, joined by
    " ∨ "; each minterm names the variables A, B, C, ... joined by " ∧ ",
    with "¬" before a variable whose input bit is 0. */
module Logic {
  import opened Bits
  import opened Sequences
  import opened Errors

  /** `list(itertools.product([0, 1], repeat=n))`, each tuple a sequence:
      the first position varies slowest. */
  function Product01(n: nat): (p: seq<seq<int>>)
    ensures |p| == Pow2(n)
    ensures forall i :: 0 <= i < |p| ==> |p[i]| == n
  {
    if n == 0 then [[]]
    else Prefixed(0, Product01(n - 1)) + Prefixed(1, Product01(n - 1))
  }

  /** Every tuple of `ts` with `b` put in front. */
  function Prefixed(b: int, ts: seq<seq<int>>): (p: seq<seq<int>>)
    ensures |p| == |ts|
    ensures forall i :: 0 <= i < |ts| ==> p[i] == [b] + ts[i]
  {
    seq(|ts|, i requires 0 <= i < |ts| => [b] + ts[i])
  }

  /** `idx` as `n` binary digits, most significant first. */
  function Binary(n: nat, idx: nat): seq<int>
  {
    seq(n, k requires 0 <= k < n => Bit(idx, n - 1 - k))
  }

  /** The numbers below `2^n` in binary, in ascending order. */
  function BinaryTable(n: nat): seq<seq<int>>
  {
    seq(Pow2(n), i requires 0 <= i < Pow2(n) => Binary(n, i))
  }

  /** Tuple `idx` of the product is `idx` in binary, most significant
      digit first. */
  lemma ProductIsBinary(n: nat, idx: nat)
    requires idx < Pow2(n)
    ensures Product01(n)[idx] == Binary(n, idx)
  {
    ProductIsBinaryTable(n);
  }

  /** The whole product lists the numbers below `2^n` in binary. */
  lemma {:induction false} ProductIsBinaryTable(n: nat)
    ensures Product01(n) == BinaryTable(n)
  {
    if n == 0 {
      assert Binary(0, 0) == [];
    } else {
      ProductIsBinaryTable(n - 1);
      var half := Pow2(n - 1);
      var smaller := BinaryTable(n - 1);
      assert Pow2(n) == 2 * half;
      forall i | 0 <= i < Pow2(n)
        ensures Product01(n)[i] == BinaryTable(n)[i]
      {
        BinaryCons(n, i);
        if i < half {
          assert Product01(n)[i] == [0] + smaller[i];
        } else {
          assert Product01(n)[i] == [1] + smaller[i - half];
        }
      }
    }
  }

  /** The leading digit of `idx` below `2^n` tells which half it lies in;
      the rest spell `LowPart(n - 1, idx)`. */
  lemma BinaryCons(n: nat, idx: nat)
    requires 0 < n && idx < Pow2(n)
    ensures LowPart(n - 1, idx) < Pow2(n - 1)
    ensures Binary(n, idx) ==
      [if idx < Pow2(n - 1) then 0 else 1] + Binary(n - 1, LowPart(n - 1, idx))
  {
    var low := LowPart(n - 1, idx);
    var rhs := [if idx < Pow2(n - 1) then 0 else 1] + Binary(n - 1, low);
    assert Pow2(n) == 2 * Pow2(n - 1);
    forall k | 0 <= k < n
      ensures Binary(n, idx)[k] == rhs[k]
    {
      if k == 0 {
        TopBit(idx, n - 1);
      } else {
        BitOfLowPart(n - 1, idx, n - 1 - k);
      }
    }
  }

  /** Variable `variable` (0 for A), negated when `positive` is false. */
  datatype Literal = Literal(variable: nat, positive: bool)

  /** The minterm of input `idx`: literal `k` is variable `k`, positive
      exactly when the input's bit for it is 1. */
  function MintermOf(n: nat, idx: nat): seq<Literal>
  {
    MintermOfTuple(Binary(n, idx))
  }

  /** The minterm read off an input tuple: literal `k` is variable `k`,
      positive exactly when position `k` holds 1. */
  function MintermOfTuple(tuple: seq<int>): seq<Literal>
  {
    seq(|tuple|, k requires 0 <= k < |tuple| => Literal(k, tuple[k] == 1))
  }

  /** The indices whose entry is 1, in the order `enumerate` visits them. */
  function OnesIn(table: seq<int>): seq<nat>
  {
    if table == [] then []
    else OnesIn(table[..|table| - 1]) + (if table[|table| - 1] == 1 then [|table| - 1] else [])
  }

  /** The formula: one minterm per entry equal to 1. */
  function DnfOf(n: nat, table: seq<int>): seq<seq<Literal>>
  {
    var ones := OnesIn(table);
    seq(|ones|, k requires 0 <= k < |ones| => MintermOf(n, ones[k]))
  }

  predicate LiteralHolds(l: Literal, input: seq<int>)
  {
    l.variable < |input| && (input[l.variable] == 1) == l.positive
  }

  predicate MintermHolds(m: seq<Literal>, input: seq<int>)
  {
    forall k :: 0 <= k < |m| ==> LiteralHolds(m[k], input)
  }

  predicate DnfHolds(d: seq<seq<Literal>>, input: seq<int>)
  {
    exists k :: 0 <= k < |d| && MintermHolds(d[k], input)
  }

  /** The truth table a formula over `n` variables denotes, inputs in
      the order of the product. */
  function TableOf(n: nat, d: seq<seq<Literal>>): (table: seq<int>)
  {
    seq(Pow2(n), x requires 0 <= x < Pow2(n) => if DnfHolds(d, Binary(n, x)) then 1 else 0)
  }

  /** `chr(65 + k)` must be a Unicode scalar value. */
  predicate Nameable(l: Literal)
  {
    65 + l.variable < 0xD800
  }

  /** "A" for variable 0, "¬A" when negated, and so on. */
  function RenderLiteral(l: Literal): string
    requires Nameable(l)
  {
    var name := [(65 + l.variable) as char];
    if l.positive then name else "¬" + name
  }

  predicate MintermNameable(m: seq<Literal>)
  {
    forall l :: 0 <= l < |m| ==> Nameable(m[l])
  }

  predicate AllNameable(d: seq<seq<Literal>>)
  {
    forall k :: 0 <= k < |d| ==> MintermNameable(d[k])
  }

  /** The literals of a minterm as text. */
  function RenderLiterals(m: seq<Literal>): seq<string>
    requires MintermNameable(m)
  {
    seq(|m|, l requires 0 <= l < |m| => RenderLiteral(m[l]))
  }

  function RenderMinterm(m: seq<Literal>): string
    requires MintermNameable(m)
  {
    Join(RenderLiterals(m), " ∧ ")
  }

  /** The minterm texts before they are parenthesised. */
  function RenderMinterms(d: seq<seq<Literal>>): seq<string>
    requires AllNameable(d)
  {
    seq(|d|, k requires 0 <= k < |d| => RenderMinterm(d[k]))
  }

  function RenderDnf(d: seq<seq<Literal>>): string
    requires AllNameable(d)
  {
    var terms := RenderMinterms(d);
    Join(seq(|terms|, k requires 0 <= k < |terms| => "(" + terms[k] + ")"), " ∨ ")
  }

  /** The source: loop over the table; for each entry equal to 1 read
      input tuple `idx` (IndexError when the table runs past the `2^n`
      tuples) and build its literals; finally join. */
  method ReverseEngineerLogic(n: nat, truthTable: seq<int>) returns (r: Result<string>)
    requires 65 + n <= 0xD800
    ensures r.Err? <==> exists idx :: Pow2(n) <= idx < |truthTable| && truthTable[idx] == 1
    ensures r.Err? ==> r.error == IndexError
    ensures r.Ok? ==> AllNameable(DnfOf(n, truthTable)) && r.value == RenderDnf(DnfOf(n, truthTable))
  {
    var inputs := Product01(n);
    var logicExpressions: seq<string> := [];
    for idx := 0 to |truthTable|
      invariant forall j :: Pow2(n) <= j < idx ==> truthTable[j] != 1
      invariant AllNameable(DnfOf(n, truthTable[..idx]))
      invariant logicExpressions == RenderMinterms(DnfOf(n, truthTable[..idx]))
    {
      ghost var before := DnfOf(n, truthTable[..idx]);
      DnfOfSnoc(n, truthTable, idx);
      DnfNameable(n, truthTable[..idx + 1]);
      if truthTable[idx] == 1 {
        if idx >= |inputs| {
          return Err(IndexError);
        }
        var tuple := inputs[idx];
        var expression := TupleLiterals(tuple);
        ProductIsBinary(n, idx);
        RenderMintermsSnoc(before, MintermOfTuple(tuple));
        logicExpressions := logicExpressions + [Join(expression, " ∧ ")];
      }
    }
    assert truthTable[..|truthTable|] == truthTable;
    var parenthesised := seq(|logicExpressions|, k requires 0 <= k < |logicExpressions| => "(" + logicExpressions[k] + ")");
    return Ok(Join(parenthesised, " ∨ "));
  }

  /** The inner loop of the source: the literal texts of one input tuple,
      "A" or "¬A" for position 0 and so on along the tuple. */
  method TupleLiterals(tuple: seq<int>) returns (expression: seq<string>)
    requires 65 + |tuple| <= 0xD800
    ensures MintermNameable(MintermOfTuple(tuple))
    ensures expression == RenderLiterals(MintermOfTuple(tuple))
  {
    ghost var m := MintermOfTuple(tuple);
    expression := [];
    for bitIdx := 0 to |tuple|
      invariant expression == RenderLiterals(m)[..bitIdx]
    {
      var varName := [(65 + bitIdx) as char];
      if tuple[bitIdx] == 1 {
        expression := expression + [varName];
      } else {
        expression := expression + ["¬" + varName];
      }
    }
  }

  /** The minterm of index `idx` has `n` literal texts; text `k` names
      variable `chr(65 + k)`, negated exactly when digit `n - 1 - k` of `idx`
      is 0. */
  lemma MintermLiterals(n: nat, idx: nat, k: nat)
    requires 65 + n <= 0xD800 && k < n
    ensures MintermNameable(MintermOf(n, idx))
    ensures |RenderLiterals(MintermOf(n, idx))| == n
    ensures RenderLiterals(MintermOf(n, idx))[k] ==
      if Bit(idx, n - 1 - k) == 1 then [(65 + k) as char] else "¬" + [(65 + k) as char]
  {
  }

  /** Every variable of a formula over `n` inputs has a name. */
  lemma DnfNameable(n: nat, table: seq<int>)
    requires 65 + n <= 0xD800
    ensures AllNameable(DnfOf(n, table))
  {
  }

  lemma RenderMintermsSnoc(d: seq<seq<Literal>>, m: seq<Literal>)
    requires AllNameable(d) && MintermNameable(m)
    ensures AllNameable(d + [m])
    ensures RenderMinterms(d + [m]) == RenderMinterms(d) + [RenderMinterm(m)]
  {
  }

  /** One more entry adds its minterm at the end exactly when it is 1. */
  lemma DnfOfSnoc(n: nat, table: seq<int>, idx: nat)
    requires idx < |table|
    ensures DnfOf(n, table[..idx + 1]) ==
      DnfOf(n, table[..idx]) + (if table[idx] == 1 then [MintermOf(n, idx)] else [])
  {
    assert table[..idx + 1][..idx] == table[..idx];
  }

  /** The listed indices are exactly those of the entries equal to 1, in
      ascending order, one per such entry. */
  lemma {:induction false} OnesInAscending(table: seq<int>)
    ensures forall k :: 0 <= k < |OnesIn(table)| ==>
      OnesIn(table)[k] < |table| && table[OnesIn(table)[k]] == 1
    ensures forall x :: 0 <= x < |table| && table[x] == 1 ==> x in OnesIn(table)
    ensures forall k, l :: 0 <= k < l < |OnesIn(table)| ==> OnesIn(table)[k] < OnesIn(table)[l]
    ensures |OnesIn(table)| == Count(table, 1)
  {
    if table != [] {
      var last := |table| - 1;
      var init := table[..last];
      OnesInAscending(init);
      var ones, before := OnesIn(table), OnesIn(init);
      assert ones == before + (if table[last] == 1 then [last] else []);
      forall k | 0 <= k < |ones|
        ensures ones[k] < |table| && table[ones[k]] == 1
      {
        if k < |before| {
          assert ones[k] == before[k] && init[before[k]] == 1;
        }
      }
      forall x | 0 <= x < |table| && table[x] == 1
        ensures x in ones
      {
        if x < last {
          assert init[x] == 1;
          assert x in before;
        }
      }
    }
  }

  /** Minterm `idx` holds of input tuple `x` exactly when `x == idx`. */
  lemma MintermSelects(n: nat, idx: nat, x: nat)
    requires idx < Pow2(n) && x < Pow2(n)
    ensures MintermHolds(MintermOf(n, idx), Binary(n, x)) <==> x == idx
  {
    var input := Binary(n, x);
    var m := MintermOf(n, idx);
    if x == idx {
      assert MintermHolds(m, input);
    } else if MintermHolds(m, input) {
      forall j | 0 <= j < n
        ensures Bit(x, j) == Bit(idx, j)
      {
        var k := n - 1 - j;
        assert LiteralHolds(m[k], input);
      }
      BitsDetermine(x, idx, n);
    }
  }

  /** The formula holds of input `x` exactly when the table holds 1 at `x`,
      for every table the source accepts (no 1 past the `2^n` inputs). */
  lemma DnfDenotesTable(n: nat, table: seq<int>, x: nat)
    requires forall idx :: Pow2(n) <= idx < |table| ==> table[idx] != 1
    requires x < Pow2(n)
    ensures DnfHolds(DnfOf(n, table), Binary(n, x)) <==> x < |table| && table[x] == 1
  {
    var ones := OnesIn(table);
    var d := DnfOf(n, table);
    var input := Binary(n, x);
    OnesInAscending(table);
    if DnfHolds(d, input) {
      var k :| 0 <= k < |d| && MintermHolds(d[k], input);
      MintermSelects(n, ones[k], x);
    }
    if x < |table| && table[x] == 1 {
      var k :| 0 <= k < |ones| && ones[k] == x;
      MintermSelects(n, x, x);
      assert MintermHolds(d[k], input);
    }
  }

  /** Round trip: the formula denotes the very table it was read from, for
      every 0/1 table of `2^n` entries. */
  lemma DnfRoundTrip(n: nat, table: seq<int>)
    requires |table| == Pow2(n)
    requires forall x :: 0 <= x < |table| ==> table[x] == 0 || table[x] == 1
    ensures TableOf(n, DnfOf(n, table)) == table
  {
    forall x | 0 <= x < |table|
      ensures TableOf(n, DnfOf(n, table))[x] == table[x]
    {
      DnfDenotesTable(n, table, x);
    }
  }

  /** The text is empty exactly when no entry is 1. */
  lemma EmptyExactlyWithoutOnes(n: nat, table: seq<int>)
    requires 65 + n <= 0xD800
    ensures AllNameable(DnfOf(n, table))
    ensures RenderDnf(DnfOf(n, table)) == "" <==> forall x :: 0 <= x < |table| ==> table[x] != 1
  {
    var d := DnfOf(n, table);
    OnesInAscending(table);
    var terms := RenderMinterms(d);
    var parts := seq(|terms|, k requires 0 <= k < |terms| => "(" + terms[k] + ")");
    if forall x :: 0 <= x < |table| ==> table[x] != 1 {
      CountNone(table, 1);
    } else {
      var x :| 0 <= x < |table| && table[x] == 1;
      assert x in OnesIn(table);
      assert parts[0] <= Join(parts, " ∨ ");
    }
  }
}
