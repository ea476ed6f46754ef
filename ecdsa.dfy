/** The ECDSA private-to-public key circuit, up to the point its `Define`
    reaches: the private key, given as K limbs of N bits, is decomposed into
    bits, a dummy point is copied, and the key's N * K bits are regrouped
    into NumStrides windows of Stride bits each. */
module Ecdsa {
  import opened Arith
  import opened Gates

  /** Bits per limb and number of limbs of the private key. */
  const N: nat := 64
  const K: nat := 4

  /** Window width and number of windows. */
  const Stride: nat := 8
  const NumStrides: nat := 64 * 4 / 8

  /** Ceiling division, the formula the window count is meant to follow. */
  function DivCeil(a: nat, b: nat): (q: nat)
    requires b > 0
    ensures q * b >= a && (q == 0 || (q - 1) * b < a)
  {
    (a + b - 1) / b
  }

  /** The window grid has exactly one cell per key bit. */
  lemma GridSize()
    ensures NumStrides == DivCeil(N * K, Stride)
    ensures NumStrides * Stride == N * K == 256
  {
  }

  /** The key bit, as (limb, bit within limb), that window cell (i, j) reads. */
  function KeyCell(i: nat, j: nat): (cell: (nat, nat))
    requires i < NumStrides && j < Stride
    ensures cell.0 < K && cell.1 < N
    ensures cell.0 * N + cell.1 == i * Stride + j
  {
    ((i * Stride + j) / N, (i * Stride + j) % N)
  }

  /** The window cell, as (window, bit within window), holding key bit (a, b). */
  function WindowCell(a: nat, b: nat): (cell: (nat, nat))
    requires a < K && b < N
    ensures cell.0 < NumStrides && cell.1 < Stride
    ensures cell.0 * Stride + cell.1 == a * N + b
  {
    ((a * N + b) / Stride, (a * N + b) % Stride)
  }

  /** KeyCell and WindowCell are inverse bijections between the window grid
      [0, NumStrides) x [0, Stride) and the key grid [0, K) x [0, N). */
  lemma CellBijection(i: nat, j: nat, a: nat, b: nat)
    requires i < NumStrides && j < Stride && a < K && b < N
    ensures WindowCell(KeyCell(i, j).0, KeyCell(i, j).1) == (i, j)
    ensures KeyCell(WindowCell(a, b).0, WindowCell(a, b).1) == (a, b)
  {
    var (a', b') := KeyCell(i, j);
    DivModUnique(a' * N + b', Stride, i, j);
    var (i', j') := WindowCell(a, b);
    DivModUnique(i' * Stride + j', N, a, b);
  }

  /** The shape of `n2b`: K limbs of N bits. */
  ghost predicate LimbShaped(n2b: seq<seq<Felt>>)
  {
    |n2b| == K && forall a :: 0 <= a < K ==> |n2b[a]| == N
  }

  /** Window i: the Stride key bits it is meant to hold. */
  function WindowRow(n2b: seq<seq<Felt>>, i: nat): (row: seq<Felt>)
    requires LimbShaped(n2b) && i < NumStrides
  {
    seq(Stride, j requires 0 <= j < Stride => n2b[KeyCell(i, j).0][KeyCell(i, j).1])
  }

  /** All windows, in order. */
  function Regroup(n2b: seq<seq<Felt>>): (windows: seq<seq<Felt>>)
    requires LimbShaped(n2b)
  {
    seq(NumStrides, i requires 0 <= i < NumStrides => WindowRow(n2b, i))
  }

  /** Concatenation of rows. */
  function Flatten(rows: seq<seq<Felt>>): seq<Felt>
  {
    if rows == [] then [] else rows[0] + Flatten(rows[1..])
  }

  /** In rows of a common width w, row r, column c sits at flat position
      r * w + c. */
  lemma {:induction false} FlattenIndex(rows: seq<seq<Felt>>, w: nat, r: nat, c: nat)
    requires forall t :: 0 <= t < |rows| ==> |rows[t]| == w
    requires r < |rows| && c < w
    ensures |Flatten(rows)| == |rows| * w
    ensures r * w + c < |Flatten(rows)| && Flatten(rows)[r * w + c] == rows[r][c]
  {
    FlattenLength(rows, w);
    if r > 0 {
      var rest := rows[1..];
      FlattenIndex(rest, w, r - 1, c);
      assert r * w + c == (r - 1) * w + c + w;
      assert Flatten(rows) == rows[0] + Flatten(rest);
    }
  }

  lemma {:induction false} FlattenLength(rows: seq<seq<Felt>>, w: nat)
    requires forall r :: 0 <= r < |rows| ==> |rows[r]| == w
    ensures |Flatten(rows)| == |rows| * w
  {
    if rows != [] {
      FlattenLength(rows[1..], w);
    }
  }

  /** Regrouping moves no bit: the windows, read in order, are the key's
      limbs read in order. */
  lemma RegroupKeepsBitOrder(n2b: seq<seq<Felt>>)
    requires LimbShaped(n2b)
    ensures Flatten(Regroup(n2b)) == Flatten(n2b)
  {
    var windows := Regroup(n2b);
    FlattenLength(windows, Stride);
    FlattenLength(n2b, N);
    forall k | 0 <= k < N * K
      ensures Flatten(windows)[k] == Flatten(n2b)[k]
    {
      FlattenIndex(windows, Stride, k / Stride, k % Stride);
      FlattenIndex(n2b, N, k / N, k % N);
    }
  }

  /** Little-endian value of rows of w bits each; row r weighs 2^(w * r). */
  function RowsValue(rows: seq<seq<Felt>>, w: nat): int
  {
    if rows == [] then 0 else FromBinary(rows[0]) + Pow2(w) * RowsValue(rows[1..], w)
  }

  lemma {:induction false} FlattenValue(rows: seq<seq<Felt>>, w: nat)
    requires forall t :: 0 <= t < |rows| ==> |rows[t]| == w
    ensures FromBinary(Flatten(rows)) == RowsValue(rows, w)
  {
    if rows != [] {
      FlattenValue(rows[1..], w);
      FromBinaryAppend(rows[0], Flatten(rows[1..]));
    }
  }

  /** The scalar the key's limbs stand for, each limb cut to its N low bits. */
  function KeyScalar(key: seq<Felt>): int
  {
    if key == [] then 0 else key[0] % Pow2(N) + Pow2(N) * KeyScalar(key[1..])
  }

  lemma {:induction false} LimbsValue(rows: seq<seq<Felt>>, key: seq<Felt>)
    requires |rows| == |key|
    requires forall a :: 0 <= a < |key| ==> rows[a] == ToBinary(key[a], N)
    ensures RowsValue(rows, N) == KeyScalar(key)
  {
    if key != [] {
      LimbsValue(rows[1..], key[1..]);
    }
  }

  /** `n2b[i] = ToBinary(PrivteKey[i], N)` for every limb. */
  method DecomposeKey(key: seq<Felt>) returns (n2b: array<seq<Felt>>)
    requires |key| >= K
    ensures fresh(n2b) && n2b.Length == K
    ensures forall a :: 0 <= a < K ==> n2b[a] == ToBinary(key[a], N)
  {
    n2b := new seq<Felt>[K](_ => []);
    for a := 0 to K
      invariant forall t :: 0 <= t < a ==> n2b[t] == ToBinary(key[t], N)
    {
      n2b[a] := ToBinary(key[a], N);
    }
  }

  /** The dummy point copy: row 0 first, then row 1; every other entry
      keeps its zero value until its own loop writes it. */
  method CopyDummy(holder: seq<seq<int>>) returns (dummy: array2<int>)
    requires |holder| == 2 && |holder[0]| == K && |holder[1]| == K
    ensures fresh(dummy) && dummy.Length0 == 2 && dummy.Length1 == K
    ensures forall c, a :: 0 <= c < 2 && 0 <= a < K ==> dummy[c, a] == holder[c][a]
  {
    dummy := new int[2, K]((c, a) => 0);
    for a := 0 to K
      invariant forall t :: 0 <= t < a ==> dummy[0, t] == holder[0][t]
      invariant forall t :: a <= t < K ==> dummy[0, t] == 0
      invariant forall t :: 0 <= t < K ==> dummy[1, t] == 0
    {
      dummy[0, a] := holder[0][a];
    }
    for a := 0 to K
      invariant forall t :: 0 <= t < K ==> dummy[0, t] == holder[0][t]
      invariant forall t :: 0 <= t < a ==> dummy[1, t] == holder[1][t]
      invariant forall t :: a <= t < K ==> dummy[1, t] == 0
    {
      dummy[1, a] := holder[1][a];
    }
  }

  /** The rows of a two-dimensional array, as sequences. */
  function Rows(d: array2<int>): (rows: seq<seq<int>>)
    reads d
  {
    seq(d.Length0, c requires 0 <= c < d.Length0 reads d =>
      seq(d.Length1, a requires 0 <= a < d.Length1 reads d => d[c, a]))
  }

  /** A Go boolean used as a circuit value: true is 1, false is 0. */
  function FromBool(b: bool): Felt
  {
    if b then 1 else 0
  }

  /** Inside the window grid the `Select` condition `bitIdx1 < K` always
      holds, so every window cell takes the key bit and never the 0. */
  lemma ConditionAlwaysTrue(i: nat, j: nat, bit: Felt)
    requires i < NumStrides && j < Stride
    ensures FromBool((i * Stride + j) / N < K) == 1
    ensures Select(FromBool((i * Stride + j) / N < K), bit, Constant(0)) == bit
  {
    assert KeyCell(i, j).0 < K;
  }

  /** The inner loop: every entry of window i is overwritten with
      Select(bitIdx1 < K, n2b[bitIdx1][bitIdx2], 0), whatever it held. */
  method FillWindow(selectors: array<seq<Felt>>, n2b: seq<seq<Felt>>, i: nat)
    requires LimbShaped(n2b) && i < NumStrides && i < selectors.Length
    requires |selectors[i]| == Stride
    modifies selectors
    ensures selectors[i] == WindowRow(n2b, i)
    ensures forall t :: 0 <= t < selectors.Length && t != i ==> selectors[t] == old(selectors[t])
  {
    for j := 0 to Stride
      invariant |selectors[i]| == Stride
      invariant forall t :: 0 <= t < j ==> selectors[i][t] == WindowRow(n2b, i)[t]
      invariant forall t :: 0 <= t < selectors.Length && t != i ==> selectors[t] == old(selectors[t])
    {
      var bitIdx1 := (i * Stride + j) / N;
      var bitIdx2 := (i * Stride + j) % N;
      selectors[i] := selectors[i][j := Select(FromBool(bitIdx1 < K), n2b[bitIdx1][bitIdx2], Constant(0))];
    }
  }

  /** What the circuit leaves behind when `Define` runs to the end. */
  datatype State = State(n2b: seq<seq<Felt>>, dummy: seq<seq<int>>, selectors: seq<seq<Felt>>)

  /** A run either completes or stops on an out-of-range index into the
      private key (Go's run-time panic). */
  datatype Outcome = Completed(state: State) | IndexOutOfRange(index: nat, length: nat)

  /** The state a complete run is meant to produce. */
  ghost predicate Intended(s: State, key: seq<Felt>, holder: seq<seq<int>>)
    requires |key| >= K
  {
    && |s.n2b| == K
    && (forall a :: 0 <= a < K ==> s.n2b[a] == ToBinary(key[a], N))
    && s.dummy == holder
    && s.selectors == Regroup(s.n2b)
  }

  /** What the windows of a complete run mean: each holds a value below
      2^Stride, and read as base-2^Stride digits they make up the key scalar. */
  lemma WindowsEncodeKey(s: State, key: seq<Felt>, holder: seq<seq<int>>)
    requires |key| == K && Intended(s, key, holder)
    ensures |s.selectors| == NumStrides
    ensures forall i :: 0 <= i < NumStrides ==> 0 <= FromBinary(s.selectors[i]) < Pow2(Stride)
    ensures RowsValue(s.selectors, Stride) == KeyScalar(key)
  {
    var n2b := s.n2b;
    forall i | 0 <= i < NumStrides
      ensures 0 <= FromBinary(s.selectors[i]) < Pow2(Stride)
    {
      var row := s.selectors[i];
      forall j | 0 <= j < |row|
        ensures row[j] == 0 || row[j] == 1
      {
        var (a, b) := KeyCell(i, j);
        assert row[j] == Bit(key[a], b);
      }
      FromBinaryBound(row);
    }
    FlattenValue(s.selectors, Stride);
    RegroupKeepsBitOrder(n2b);
    FlattenValue(n2b, N);
    LimbsValue(n2b, key);
  }

  /** `Define` as written: the window loop evaluates PrivteKey[i] for every
      window i, so with fewer than NumStrides limbs it stops at index |key|.
      The circuit's key has K = 4 limbs, so it always stops at index 4. */
  method Define(key: seq<Felt>, holder: seq<seq<int>>) returns (r: Outcome)
    requires |key| >= K
    requires |holder| == 2 && |holder[0]| == K && |holder[1]| == K
    ensures |key| < NumStrides ==> r == IndexOutOfRange(|key|, |key|)
    ensures |key| >= NumStrides ==> r.Completed? && Intended(r.state, key, holder)
  {
    var n2b := DecomposeKey(key);
    var limbs := n2b[..];
    var dummy := CopyDummy(holder);
    var dummyRows := Rows(dummy);
    forall c | 0 <= c < 2
      ensures dummyRows[c] == holder[c]
    {
    }
    var selectors := new seq<Felt>[NumStrides](_ => []);
    var i := 0;
    while i < NumStrides
      invariant 0 <= i <= NumStrides && i <= |key|
      invariant forall t :: 0 <= t < i ==> selectors[t] == WindowRow(limbs, t)
    {
      if i >= |key| {
        return IndexOutOfRange(i, |key|);
      }
      selectors[i] := ToBinary(key[i], Stride);
      FillWindow(selectors, limbs, i);
      i := i + 1;
    }
    assert selectors[..] == Regroup(limbs);
    r := Completed(State(limbs, dummyRows, selectors[..]));
  }

  /** The smallest run of the circuit as declared: its key has K limbs, and
      `Define` stops at the first window past them. */
  method DefineOnDeclaredKey() returns (r: Outcome)
    ensures r == IndexOutOfRange(K, K)
  {
    r := Define([1, 2, 3, 4], [[0, 0, 0, 0], [0, 0, 0, 0]]);
  }

  /** `Define` with window i allocated as `Stride` zero entries instead of
      `ToBinary(key[i], Stride)`, which reads a key limb that does not exist. */
  method DefineIntended(key: seq<Felt>, holder: seq<seq<int>>) returns (s: State)
    requires |key| == K
    requires |holder| == 2 && |holder[0]| == K && |holder[1]| == K
    ensures Intended(s, key, holder)
  {
    var n2b := DecomposeKey(key);
    var limbs := n2b[..];
    var dummy := CopyDummy(holder);
    var dummyRows := Rows(dummy);
    forall c | 0 <= c < 2
      ensures dummyRows[c] == holder[c]
    {
    }
    var selectors := new seq<Felt>[NumStrides](_ => []);
    for i := 0 to NumStrides
      invariant forall t :: 0 <= t < i ==> selectors[t] == WindowRow(limbs, t)
    {
      selectors[i] := seq(Stride, _ => Constant(0));
      FillWindow(selectors, limbs, i);
    }
    assert selectors[..] == Regroup(limbs);
    s := State(limbs, dummyRows, selectors[..]);
  }
}
