/*
 * matrix.c: the integer position weight matrix.  A matrix has nrow rows (one per letter
 * code, see hash.h) and ncol columns (one per motif position); the C struct keeps an array
 * of column arrays, modelled here by a column-major array2 (index[col, row]).
 */
module PwmMatrix {
  import CharHash
  import opened Maxima

  /** struct matrix. */
  class Matrix {
    var nrow: int
    var ncol: int
    var index: array2?<int>

    /** The dimensions describe the allocated columns. */
    predicate Valid()
      reads this
    {
      index != null && index.Length0 == ncol && index.Length1 == nrow
    }

    /** init_matrix: no rows, no columns, no storage. */
    method Init()
      modifies this
      ensures nrow == 0 && ncol == 0 && index == null
    {
      nrow := 0;
      ncol := 0;
      index := null;
    }
  }

  /** struct matrix_rescaled: a matrix (owned elsewhere) and one rescaling factor per column. */
  class RescaledMatrix {
    var matrix: Matrix
    var factors: array?<int>

    constructor (m: Matrix)
      ensures matrix == m && factors == null
    {
      matrix := m;
      factors := null;
    }
  }

  // ---------------------------------------------------------------------------
  // Matrices as values

  /** Column c of a stored matrix, row by row. */
  function Column(a: array2<int>, c: nat): (col: seq<int>)
    requires c < a.Length0
    reads a
    ensures |col| == a.Length1 && forall r :: 0 <= r < a.Length1 ==> col[r] == a[c, r]
  {
    seq(a.Length1, r requires 0 <= r < a.Length1 reads a => a[c, r])
  }

  /** A stored matrix as its sequence of columns. */
  function Columns(a: array2<int>): (cols: seq<seq<int>>)
    reads a
    ensures |cols| == a.Length0 && forall c :: 0 <= c < a.Length0 ==> cols[c] == Column(a, c)
  {
    seq(a.Length0, c requires 0 <= c < a.Length0 reads a => Column(a, c))
  }

  /** Every column has nrow entries. */
  predicate Shaped(cols: seq<seq<int>>, nrow: nat)
  {
    forall c :: 0 <= c < |cols| ==> |cols[c]| == nrow
  }

  // ---------------------------------------------------------------------------
  // reverse_matrix

  /** The rows reverse_matrix copies from and to: A, C, G, T onto T, G, C, A. */
  const IndexFrom: seq<int> := [0, 2, 6, 19]
  const IndexTo: seq<int> := [19, 6, 2, 0]

  /** The row whose values row r of the reversed matrix receives: the complementary
      nucleotide's row, or -1 for a row that is left at 0. */
  function Partner(r: int): int
  {
    if r == 0 then 19 else if r == 19 then 0 else if r == 2 then 6 else if r == 6 then 2 else -1
  }

  /** The partner rows are the codes of the complementary nucleotides, and the pairing is
      an involution that matches the C tables entry by entry. */
  lemma PartnerIsComplement()
    ensures Partner(CharHash.Hash('A')) == CharHash.Hash('T')
    ensures Partner(CharHash.Hash('T')) == CharHash.Hash('A')
    ensures Partner(CharHash.Hash('C')) == CharHash.Hash('G')
    ensures Partner(CharHash.Hash('G')) == CharHash.Hash('C')
    ensures forall k :: 0 <= k < 4 ==> Partner(IndexFrom[k]) == IndexTo[k] && Partner(IndexTo[k]) == IndexFrom[k]
    ensures forall r :: Partner(r) >= 0 ==> Partner(Partner(r)) == r
  {
    CharHash.NucleotideRows();
  }

  /** The reverse-complement matrix: columns in reverse order, each of the four nucleotide
      rows taking its complement's values, every other row 0. */
  function Reversed(cols: seq<seq<int>>, nrow: nat): (rev: seq<seq<int>>)
    requires Shaped(cols, nrow) && nrow > 19
    ensures |rev| == |cols| && Shaped(rev, nrow)
  {
    seq(|cols|, c requires 0 <= c < |cols| =>
      seq(nrow, r requires 0 <= r < nrow =>
        if Partner(r) >= 0 then cols[|cols| - 1 - c][Partner(r)] else 0))
  }

  /** reverse_matrix: m_rev gets the shape of m_in and fresh storage holding the
      reverse-complement matrix; allocation always succeeds here, so the status is 0. */
  method ReverseMatrix(mIn: Matrix, mRev: Matrix) returns (status: int)
    requires mIn.Valid() && mIn.nrow > 19 && mRev != mIn
    modifies mRev
    ensures status == 0
    ensures mRev.Valid() && fresh(mRev.index)
    ensures mRev.nrow == mIn.nrow && mRev.ncol == mIn.ncol
    ensures Columns(mRev.index) == Reversed(Columns(mIn.index), mIn.nrow)
  {
    var ncol := mIn.ncol;
    var nrow := mIn.nrow;
    var a := mIn.index;
    mRev.ncol := ncol;
    mRev.nrow := nrow;
    var rev := new int[ncol, nrow]((_, _) => 0);
    mRev.index := rev;
    var i := 0;
    while i < 4
      invariant 0 <= i <= 4
      invariant mRev.index == rev && mRev.ncol == ncol && mRev.nrow == nrow
      invariant forall c, r :: 0 <= c < ncol && 0 <= r < nrow ==>
        rev[c, r] == if r in IndexTo[..i] then a[ncol - 1 - c, Partner(r)] else 0
    {
      PartnerIsComplement();
      var icol := 0;
      while icol < ncol
        invariant 0 <= icol <= ncol
        invariant mRev.index == rev && mRev.ncol == ncol && mRev.nrow == nrow
        invariant forall c, r :: 0 <= c < ncol && 0 <= r < nrow ==>
          rev[c, r] == if r in IndexTo[..i] || (r == IndexTo[i] && c >= ncol - icol)
                       then a[ncol - 1 - c, Partner(r)] else 0
      {
        rev[ncol - icol - 1, IndexTo[i]] := a[icol, IndexFrom[i]];
        icol := icol + 1;
      }
      assert IndexTo[..i + 1] == IndexTo[..i] + [IndexTo[i]];
      i := i + 1;
    }
    assert IndexTo[..4] == IndexTo;
    ReversedFromEntries(a, rev);
    status := 0;
  }

  /** The entries reverse_matrix writes make up the reversed matrix. */
  lemma ReversedFromEntries(a: array2<int>, rev: array2<int>)
    requires rev.Length0 == a.Length0 && rev.Length1 == a.Length1 > 19
    requires forall c, r :: 0 <= c < a.Length0 && 0 <= r < a.Length1 ==>
      rev[c, r] == if r in IndexTo then a[a.Length0 - 1 - c, Partner(r)] else 0
    ensures Shaped(Columns(a), a.Length1)
    ensures Columns(rev) == Reversed(Columns(a), a.Length1)
  {
    var cols := Columns(a);
    var want := Reversed(cols, a.Length1);
    forall c | 0 <= c < a.Length0
      ensures Columns(rev)[c] == want[c]
    {
      forall r | 0 <= r < a.Length1
        ensures Column(rev, c)[r] == want[c][r]
      {
        assert r in IndexTo <==> Partner(r) >= 0;
      }
    }
  }

  /** Reversing keeps the shape. */
  lemma ReversedShape(cols: seq<seq<int>>, nrow: nat)
    requires Shaped(cols, nrow) && nrow > 19
    ensures |Reversed(cols, nrow)| == |cols| && Shaped(Reversed(cols, nrow), nrow)
  {
  }

  /** Reversing twice gives back the four nucleotide rows and clears every other row;
      hence a matrix whose other rows are all 0 is its own double reverse. */
  lemma ReverseTwice(cols: seq<seq<int>>, nrow: nat)
    requires Shaped(cols, nrow) && nrow > 19
    ensures Shaped(Reversed(cols, nrow), nrow)
    ensures var back := Reversed(Reversed(cols, nrow), nrow);
      && |back| == |cols|
      && forall c, r :: 0 <= c < |cols| && 0 <= r < nrow ==>
           back[c][r] == if Partner(r) >= 0 then cols[c][r] else 0
  {
    PartnerIsComplement();
  }

  lemma ReverseTwiceNucleotideOnly(cols: seq<seq<int>>, nrow: nat)
    requires Shaped(cols, nrow) && nrow > 19
    requires forall c, r :: 0 <= c < |cols| && 0 <= r < nrow && Partner(r) < 0 ==> cols[c][r] == 0
    ensures Shaped(Reversed(cols, nrow), nrow)
    ensures Reversed(Reversed(cols, nrow), nrow) == cols
  {
    ReverseTwice(cols, nrow);
    var back := Reversed(Reversed(cols, nrow), nrow);
    forall c | 0 <= c < |cols|
      ensures back[c] == cols[c]
    {
      assert forall r :: 0 <= r < nrow ==> back[c][r] == cols[c][r];
    }
  }

  /** The score of a word, given as row codes, one per column (a code outside its column,
      or a column past the word, adds nothing). */
  function WordScore(cols: seq<seq<int>>, w: seq<int>): int
  {
    if w == [] || cols == [] then 0
    else (if 0 <= w[0] < |cols[0]| then cols[0][w[0]] else 0) + WordScore(cols[1..], w[1..])
  }

  /** The reverse complement of a word of nucleotide codes. */
  function RevComp(w: seq<int>): (rc: seq<int>)
    ensures |rc| == |w|
  {
    if w == [] then [] else RevComp(w[1..]) + [Partner(w[0])]
  }

  predicate NucleotideCodes(w: seq<int>)
  {
    forall k :: 0 <= k < |w| ==> Partner(w[k]) >= 0
  }

  /** Position k of the reverse complement is the complement of position |w| - 1 - k. */
  lemma {:induction false} RevCompAt(w: seq<int>)
    ensures forall k :: 0 <= k < |w| ==> RevComp(w)[k] == Partner(w[|w| - 1 - k])
  {
    if w != [] {
      RevCompAt(w[1..]);
    }
  }

  lemma RevCompCodes(w: seq<int>)
    requires NucleotideCodes(w)
    ensures NucleotideCodes(RevComp(w)) && forall k :: 0 <= k < |w| ==> 0 <= RevComp(w)[k] <= 19
    ensures forall k :: 0 <= k < |w| ==> 0 <= w[k] <= 19
  {
    RevCompAt(w);
    forall k | 0 <= k < |w|
      ensures Partner(RevComp(w)[k]) >= 0 && 0 <= RevComp(w)[k] <= 19 && 0 <= w[k] <= 19
    {
      PartnerCode(w[|w| - 1 - k]);
      PartnerCode(w[k]);
    }
  }

  lemma PartnerCode(x: int)
    requires Partner(x) >= 0
    ensures 0 <= x <= 19 && 0 <= Partner(x) <= 19 && Partner(Partner(x)) == x
  {
  }

  /** A word's score splits off its last column. */
  lemma {:induction false} WordScoreLast(cols: seq<seq<int>>, w: seq<int>)
    requires |w| == |cols| > 0 && forall k :: 0 <= k < |w| ==> 0 <= w[k] < |cols[k]|
    ensures WordScore(cols, w) == WordScore(cols[..|w| - 1], w[..|w| - 1]) + cols[|w| - 1][w[|w| - 1]]
  {
    if |w| > 1 {
      WordScoreLast(cols[1..], w[1..]);
      assert cols[1..][..|w| - 2] == cols[..|w| - 1][1..];
      assert w[1..][..|w| - 2] == w[..|w| - 1][1..];
    }
  }

  /** What the reversed matrix is for: a word scores with it what its reverse complement
      scores with the original matrix, so one forward pass scans both strands. */
  lemma {:induction false} ReversedScoresRevComp(cols: seq<seq<int>>, nrow: nat, w: seq<int>)
    requires Shaped(cols, nrow) && nrow > 19 && |w| == |cols| && NucleotideCodes(w)
    ensures forall k :: 0 <= k < |w| ==> 0 <= w[k] < nrow && 0 <= RevComp(w)[k] < nrow
    ensures WordScore(Reversed(cols, nrow), w) == WordScore(cols, RevComp(w))
    decreases |w|
  {
    RevCompCodes(w);
    if w != [] {
      assert NucleotideCodes(w[1..]);
      ReversedScoresRevComp(cols[..|w| - 1], nrow, w[1..]);
      ReversedScoresStep(cols, nrow, w);
    }
  }

  /** The step of ReversedScoresRevComp: the first column of the reversed matrix is the last
      column of the matrix, complemented, and the rest is the reversal of the other columns. */
  lemma ReversedScoresStep(cols: seq<seq<int>>, nrow: nat, w: seq<int>)
    requires Shaped(cols, nrow) && nrow > 19 && |w| == |cols| > 0 && NucleotideCodes(w)
    requires WordScore(Reversed(cols[..|w| - 1], nrow), w[1..]) == WordScore(cols[..|w| - 1], RevComp(w[1..]))
    ensures forall k :: 0 <= k < |w| ==> 0 <= w[k] < nrow && 0 <= RevComp(w)[k] < nrow
    ensures WordScore(Reversed(cols, nrow), w) == WordScore(cols, RevComp(w))
  {
    RevCompCodes(w);
    RevCompSplit(w);
    ScoreFirstColumn(Reversed(cols, nrow), nrow, w);
    ReversedRest(cols, nrow, w);
    WordScoreLast(cols, RevComp(w));
  }

  /** The reverse complement ends with the complement of the first code. */
  lemma RevCompSplit(w: seq<int>)
    requires |w| > 0
    ensures RevComp(w)[..|w| - 1] == RevComp(w[1..]) && RevComp(w)[|w| - 1] == Partner(w[0])
  {
    assert RevComp(w) == RevComp(w[1..]) + [Partner(w[0])];
  }

  /** A word's score splits off its first column. */
  lemma ScoreFirstColumn(cols: seq<seq<int>>, nrow: nat, w: seq<int>)
    requires Shaped(cols, nrow) && |w| == |cols| > 0
    requires forall k :: 0 <= k < |w| ==> 0 <= w[k] < nrow
    ensures WordScore(cols, w) == cols[0][w[0]] + WordScore(cols[1..], w[1..])
  {
  }

  /** With the first column split off, the reversed matrix scores the rest of the word as the
      front of the matrix scores its reverse complement. */
  lemma ReversedRest(cols: seq<seq<int>>, nrow: nat, w: seq<int>)
    requires Shaped(cols, nrow) && nrow > 19 && |w| == |cols| > 0 && NucleotideCodes(w)
    requires WordScore(Reversed(cols[..|w| - 1], nrow), w[1..]) == WordScore(cols[..|w| - 1], RevComp(w[1..]))
    ensures 0 <= w[0] < nrow && 0 <= Partner(w[0]) < nrow
    ensures Reversed(cols, nrow)[0][w[0]] + WordScore(Reversed(cols, nrow)[1..], w[1..])
      == cols[|w| - 1][Partner(w[0])] + WordScore(cols[..|w| - 1], RevComp(w[1..]))
  {
    ReversedDropFirst(cols, nrow);
    ReversedHead(cols, nrow, w[0]);
  }

  /** The first column of the reversal holds the complement rows of the last column. */
  lemma ReversedHead(cols: seq<seq<int>>, nrow: nat, x: int)
    requires Shaped(cols, nrow) && nrow > 19 && |cols| > 0 && Partner(x) >= 0
    ensures 0 <= x < nrow && 0 <= Partner(x) < nrow
    ensures Reversed(cols, nrow)[0][x] == cols[|cols| - 1][Partner(x)]
  {
    PartnerCode(x);
  }

  /** Dropping the last column of a matrix drops the first column of its reversal. */
  lemma ReversedDropFirst(cols: seq<seq<int>>, nrow: nat)
    requires Shaped(cols, nrow) && nrow > 19 && |cols| > 0
    ensures Reversed(cols[..|cols| - 1], nrow) == Reversed(cols, nrow)[1..]
  {
    var a := Reversed(cols[..|cols| - 1], nrow);
    var b := Reversed(cols, nrow)[1..];
    forall c | 0 <= c < |a| ensures a[c] == b[c] {
      assert cols[..|cols| - 1][|cols| - 2 - c] == cols[|cols| - 1 - (c + 1)];
    }
  }

  // ---------------------------------------------------------------------------
  // rescale_matrix

  /** The factor of a column: minus its maximum; an empty column keeps the 0 of calloc. */
  function Factor(col: seq<int>): int
  {
    if col == [] then 0 else -Max(col)
  }

  /** The rescaled matrix: every column shifted by its factor. */
  function Rescaled(cols: seq<seq<int>>): (out: seq<seq<int>>)
  {
    seq(|cols|, c requires 0 <= c < |cols| =>
      seq(|cols[c]|, r requires 0 <= r < |cols[c]| => cols[c][r] + Factor(cols[c])))
  }

  function Factors(cols: seq<seq<int>>): (fs: seq<int>)
  {
    seq(|cols|, c requires 0 <= c < |cols| => Factor(cols[c]))
  }

  /** The maximum search of rescale_matrix over one column (left unset for an empty one). */
  method ColumnMax(a: array2<int>, icol: nat, max0: int) returns (max: int)
    requires icol < a.Length0
    ensures a.Length1 == 0 ==> max == max0
    ensures a.Length1 > 0 ==> max == Max(Column(a, icol))
  {
    ghost var col := Column(a, icol);
    max := max0;
    var irow := 0;
    while irow < a.Length1
      invariant 0 <= irow <= a.Length1
      invariant irow == 0 ==> max == max0
      invariant irow > 0 ==> max == Max(col[..irow])
    {
      if irow == 0 {
        max := a[icol, irow];
      } else {
        assert col[..irow + 1][..irow] == col[..irow];
        if a[icol, irow] > max {
          max := a[icol, irow];
        }
      }
      irow := irow + 1;
    }
    assert col[..a.Length1] == col;
  }

  /** The rescaling loop of rescale_matrix over one column: every entry shifted by -max,
      and the factor set to -max once there is an entry. */
  method ShiftColumn(a: array2<int>, out: array2<int>, factors: array<int>, icol: nat, max: int)
    requires out.Length0 == a.Length0 == factors.Length && out.Length1 == a.Length1 && icol < a.Length0
    requires out != a
    modifies out, factors
    ensures forall r :: 0 <= r < out.Length1 ==> out[icol, r] == a[icol, r] - max
    ensures forall c, r :: 0 <= c < out.Length0 && c != icol && 0 <= r < out.Length1 ==> out[c, r] == old(out[c, r])
    ensures factors[icol] == if a.Length1 == 0 then old(factors[icol]) else -max
    ensures forall c :: 0 <= c < factors.Length && c != icol ==> factors[c] == old(factors[c])
  {
    var irow := 0;
    while irow < a.Length1
      invariant 0 <= irow <= a.Length1
      invariant forall r :: 0 <= r < irow ==> out[icol, r] == a[icol, r] - max
      invariant forall c, r :: 0 <= c < out.Length0 && c != icol && 0 <= r < out.Length1 ==> out[c, r] == old(out[c, r])
      invariant factors[icol] == if irow == 0 then old(factors[icol]) else -max
      invariant forall c :: 0 <= c < factors.Length && c != icol ==> factors[c] == old(factors[c])
    {
      out[icol, irow] := a[icol, irow] - max;
      factors[icol] := -max;
      irow := irow + 1;
    }
  }

  /** The entries rescale_matrix writes make up the rescaled matrix and its factors. */
  lemma RescaledFromEntries(a: array2<int>, out: array2<int>, fs: seq<int>)
    requires out.Length0 == a.Length0 == |fs| && out.Length1 == a.Length1
    requires forall c :: 0 <= c < a.Length0 ==> fs[c] == Factor(Column(a, c))
    requires forall c, r :: 0 <= c < a.Length0 && 0 <= r < a.Length1 ==> out[c, r] == a[c, r] + fs[c]
    ensures Columns(out) == Rescaled(Columns(a))
    ensures fs == Factors(Columns(a))
  {
    var want := Rescaled(Columns(a));
    forall c | 0 <= c < a.Length0
      ensures Columns(out)[c] == want[c]
    {
      assert forall r :: 0 <= r < a.Length1 ==> Column(out, c)[r] == want[c][r];
    }
  }

  /** rescale_matrix: m_out->matrix gets the shape of m_in and fresh storage holding the
      rescaled matrix, m_out->rescal_factors fresh storage holding the factors; allocation
      always succeeds here, so the status is 0. */
  method RescaleMatrix(mIn: Matrix, mOut: RescaledMatrix) returns (status: int)
    requires mIn.Valid() && mOut.matrix != mIn
    modifies mOut, mOut.matrix
    ensures status == 0 && mOut.matrix == old(mOut.matrix)
    ensures mOut.matrix.Valid() && fresh(mOut.matrix.index) && mOut.factors != null && fresh(mOut.factors)
    ensures mOut.matrix.nrow == mIn.nrow && mOut.matrix.ncol == mIn.ncol
    ensures Columns(mOut.matrix.index) == Rescaled(Columns(mIn.index))
    ensures mOut.factors[..] == Factors(Columns(mIn.index))
  {
    var nrow := mIn.nrow;
    var ncol := mIn.ncol;
    var a := mIn.index;
    var max := 0;
    var factors := new int[ncol](_ => 0);
    mOut.factors := factors;
    var m := mOut.matrix;
    m.ncol := ncol;
    m.nrow := nrow;
    var out := new int[ncol, nrow];
    m.index := out;
    var icol := 0;
    while icol < ncol
      invariant 0 <= icol <= ncol
      invariant mOut.factors == factors && mOut.matrix == m
      invariant m.index == out && m.ncol == ncol && m.nrow == nrow
      invariant forall c :: 0 <= c < icol ==> factors[c] == Factor(Column(a, c))
      invariant forall c :: icol <= c < ncol ==> factors[c] == 0
      invariant forall c, r :: 0 <= c < icol && 0 <= r < nrow ==> out[c, r] == a[c, r] + factors[c]
    {
      max := ColumnMax(a, icol, max);
      ShiftColumn(a, out, factors, icol, max);
      icol := icol + 1;
    }
    RescaledFromEntries(a, out, factors[..]);
    status := 0;
  }

  /** What rescaling promises: no entry is above 0, adding back the factor restores the
      original entry, and every non-empty column reaches 0. */
  lemma RescaledColumns(cols: seq<seq<int>>, c: nat)
    requires c < |cols|
    ensures |Rescaled(cols)| == |cols| && |Factors(cols)| == |cols| && |Rescaled(cols)[c]| == |cols[c]|
    ensures forall r :: 0 <= r < |cols[c]| ==> Rescaled(cols)[c][r] <= 0
    ensures forall r :: 0 <= r < |cols[c]| ==> Rescaled(cols)[c][r] - Factors(cols)[c] == cols[c][r]
    ensures |cols[c]| > 0 ==> exists r :: 0 <= r < |cols[c]| && Rescaled(cols)[c][r] == 0
  {
    if |cols[c]| > 0 {
      MaxIsMax(cols[c]);
      var r :| 0 <= r < |cols[c]| && cols[c][r] == Max(cols[c]);
      assert Factor(cols[c]) == -Max(cols[c]);
      assert Rescaled(cols)[c][r] == cols[c][r] + Factor(cols[c]);
    }
  }
}
