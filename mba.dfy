/*
 * mba.c: the matrix branch-and-bound enumerator.  The L-mers over A, C, G, T form a complete
 * 4-ary tree of depth len; a vertex is the pair (s, i) of a digit array s (1 = A .. 4 = T,
 * 0 = unused, with s[len] a permanent 0 sentinel) and a level i.  The search walks the tree
 * in preorder, skips every subtree whose best completion stays under the cut-off, and counts
 * (or lists) the leaves scoring at least the cut-off.
 */
module Mba {
  import opened Maxima

  /** NUCL: the number of nucleotides, the branching factor of the tree. */
  const NUCL: int := 4

  /** nucleotide[]: the letter of each code, A = 1 .. T = 4. */
  const Letters: seq<char> := ['A', 'C', 'G', 'T']

  /** The pair (s, i): digits s and level i. */
  datatype Node = Node(digits: seq<int>, level: nat)

  /** One output line of the enumeration: an L-mer and its score. */
  datatype Line = Line(lmer: string, score: int)

  /** What BranchAndBound_motif_search ends with: the number of L-mers at or above the
      cut-off with the lines it printed, or a traversal the C loop repeats forever. */
  datatype Outcome = Counted(count: nat, lines: seq<Line>) | Diverges

  // ---------------------------------------------------------------------------
  // Digits and letters

  function Nucleotide(d: int): char
    requires 1 <= d <= NUCL
  {
    Letters[d - 1]
  }

  /** The code of a nucleotide letter (0 for any other character). */
  function Code(c: char): int
  {
    if c == 'A' then 1 else if c == 'C' then 2 else if c == 'G' then 3 else if c == 'T' then 4 else 0
  }

  /** Digits of an L-mer prefix: every position holds a nucleotide code. */
  predicate Digits(p: seq<int>)
  {
    forall t :: 0 <= t < |p| ==> 1 <= p[t] <= NUCL
  }

  /** The codes of a string. */
  function Codes(str: string): seq<int>
  {
    seq(|str|, t requires 0 <= t < |str| => Code(str[t]))
  }

  /** The word spelled by nucleotide codes: the inverse of Codes. */
  function Word(p: seq<int>): (w: string)
    requires Digits(p)
    ensures |w| == |p| && Codes(w) == p
  {
    seq(|p|, t requires 0 <= t < |p| => Nucleotide(p[t]))
  }

  /** nucleotide_string: the letters of s up to its first 0 (the buffer is not terminated
      here; the caller's buffer comes zero-filled). */
  method NucleotideString(s: array<int>, ghost m: nat) returns (str: string)
    requires m < s.Length && s[m] == 0 && Digits(s[..m])
    ensures |str| == m
    ensures forall t :: 0 <= t < m ==> str[t] == Nucleotide(s[t])
    ensures Codes(str) == s[..m] && str == Word(s[..m])
  {
    str := [];
    var n := 0;
    while s[n] != 0
      invariant 0 <= n <= m && |str| == n
      invariant forall t :: 0 <= t < n ==> str[t] == Nucleotide(s[t]) && Code(str[t]) == s[t]
      decreases m - n
    {
      assert s[..m][n] == s[n];
      str := str + [Nucleotide(s[n])];
      n := n + 1;
    }
    assert Codes(str) == s[..m];
  }

  // ---------------------------------------------------------------------------
  // Column maxima and drop-off values

  /** find_max: the maximum of a[0 .. n); a[0] itself when n < 2. */
  method FindMax(a: array<int>, n: int) returns (max: int)
    requires 1 <= a.Length && n <= a.Length
    ensures n <= 1 ==> max == a[0]
    ensures n >= 1 ==> max == Max(a[..n])
    ensures forall t :: 0 <= t < n ==> a[t] <= max
    ensures max == a[0] || exists t :: 1 <= t < n && a[t] == max
  {
    max := a[0];
    var i := 1;
    assert a[..1] == [a[0]];
    while i < n
      invariant 1 <= i <= a.Length && (n >= 1 ==> i <= n) && (n <= 1 ==> i == 1)
      invariant max == Max(a[..i])
    {
      assert a[..i + 1][..i] == a[..i];
      if a[i] > max {
        max := a[i];
      }
      i := i + 1;
    }
    if n >= 1 {
      MaxIsMax(a[..n]);
      assert forall t :: 0 <= t < n ==> a[..n][t] == a[t];
    }
  }

  /** The profile holds NUCL rows of at least len columns: profile[k][i] is the weight of
      nucleotide k + 1 at position i. */
  predicate ProfileOk(profile: seq<seq<int>>, len: nat)
  {
    |profile| == NUCL && forall r :: 0 <= r < NUCL ==> len <= |profile[r]|
  }

  function Column(profile: seq<seq<int>>, len: nat, i: nat): (c: seq<int>)
    requires ProfileOk(profile, len) && i < len
    ensures |c| == NUCL
  {
    [profile[0][i], profile[1][i], profile[2][i], profile[3][i]]
  }

  /** The best weight at position i. */
  function ColMax(profile: seq<seq<int>>, len: nat, i: nat): int
    requires ProfileOk(profile, len) && i < len
  {
    Max(Column(profile, len, i))
  }

  /** The drop-off value of level i: the best weight still obtainable on positions i .. len-1. */
  function SuffixMax(profile: seq<seq<int>>, len: nat, i: nat): int
    requires ProfileOk(profile, len) && i <= len
    decreases len - i
  {
    if i == len then 0 else ColMax(profile, len, i) + SuffixMax(profile, len, i + 1)
  }

  /** drop_off_init: doff[i] becomes the sum of the column maxima from position i to the end. */
  method DropOffInit(profile: seq<seq<int>>, len: nat, doff: array<int>)
    requires ProfileOk(profile, len) && len <= doff.Length
    modifies doff
    ensures forall i :: 0 <= i < len ==> doff[i] == SuffixMax(profile, len, i)
    ensures forall i :: len <= i < doff.Length ==> doff[i] == old(doff[i])
  {
    var max := new int[len];
    var scores := new int[NUCL];
    var i := 0;
    while i < len
      invariant 0 <= i <= len
      invariant forall j :: 0 <= j < i ==> max[j] == ColMax(profile, len, j)
      invariant doff[..] == old(doff[..])
    {
      var k := 0;
      while k < NUCL
        invariant 0 <= k <= NUCL
        invariant forall r :: 0 <= r < k ==> scores[r] == profile[r][i]
        invariant forall j :: 0 <= j < i ==> max[j] == ColMax(profile, len, j)
        invariant doff[..] == old(doff[..])
      {
        scores[k] := profile[k][i];
        k := k + 1;
      }
      assert scores[..NUCL] == Column(profile, len, i);
      max[i] := FindMax(scores, NUCL);
      i := i + 1;
    }
    var sum := 0;
    i := len - 1;
    while i >= 0
      invariant -1 <= i < len
      invariant forall j :: 0 <= j < len ==> max[j] == ColMax(profile, len, j)
      invariant sum == SuffixMax(profile, len, i + 1)
      invariant forall j :: i < j < len ==> doff[j] == SuffixMax(profile, len, j)
      invariant forall j :: len <= j < doff.Length ==> doff[j] == old(doff[j])
    {
      sum := sum + max[i];
      doff[i] := sum;
      i := i - 1;
    }
  }

  // ---------------------------------------------------------------------------
  // Scores

  /** The score of an L-mer prefix: the sum of the weights of its nucleotides. */
  function PathScore(profile: seq<seq<int>>, p: seq<int>): int
    requires ProfileOk(profile, |p|) && Digits(p)
  {
    if p == [] then 0
    else PathScore(profile, p[..|p| - 1]) + profile[p[|p| - 1] - 1][|p| - 1]
  }

  /** score: the weight sum of s up to its first 0. */
  method Score(profile: seq<seq<int>>, s: array<int>, ghost m: nat) returns (value: int)
    requires m < s.Length && s[m] == 0 && Digits(s[..m]) && ProfileOk(profile, m)
    ensures value == PathScore(profile, s[..m])
  {
    value := 0;
    var k := 0;
    while s[k] != 0
      invariant 0 <= k <= m && value == PathScore(profile, s[..k])
      decreases m - k
    {
      assert s[..m][k] == s[k];
      assert s[..k + 1][..k] == s[..k];
      value := value + profile[s[k] - 1][k];
      k := k + 1;
    }
  }

  // ---------------------------------------------------------------------------
  // Moving through the tree

  /** The carry of next_vertex and by_pass from position j down: the first digit below k is
      raised (and the level set just past it), every digit at k met on the way is reset to 0;
      with no digit below k the walk is back at the root, level 0. */
  function Advance(s: seq<int>, j: int, k: int): (r: Node)
    requires j < |s|
    ensures |r.digits| == |s|
    ensures r.level <= if j < 0 then 0 else j + 1
    decreases j + 1
  {
    if j < 0 then Node(s, 0)
    else if s[j] < k then Node(s[j := s[j] + 1], j + 1)
    else Advance(s[j := 0], j - 1, k)
  }

  /** next_vertex: go down to the first child (an A) below level len, else carry from the
      last position. */
  function Next(s: seq<int>, i: nat, len: nat, k: int): (r: Node)
    requires len <= |s|
  {
    if i < len then Node(s[i := 1], i + 1) else Advance(s, len - 1, k)
  }

  method NextVertex(s: array<int>, i: nat, len: nat, k: int) returns (level: nat)
    requires len <= s.Length
    modifies s
    ensures Node(s[..], level) == Next(old(s[..]), i, len, k)
  {
    if i < len {
      s[i] := 1;
      return i + 1;
    }
    var j := len - 1;
    while j >= 0
      invariant -1 <= j < len
      invariant Advance(s[..], j, k) == Advance(old(s[..]), len - 1, k)
    {
      if s[j] < k {
        s[j] := s[j] + 1;
        return j + 1;
      }
      s[j] := 0;
      j := j - 1;
    }
    return 0;
  }

  /** by_pass: skip the subtree of (s, i) by carrying from position i - 1. */
  method ByPass(s: array<int>, i: nat, k: int) returns (level: nat)
    requires i <= s.Length
    modifies s
    ensures Node(s[..], level) == Advance(old(s[..]), i - 1, k)
  {
    var j := i - 1;
    while j >= 0
      invariant -1 <= j < i
      invariant Advance(s[..], j, k) == Advance(old(s[..]), i - 1, k)
    {
      if s[j] < k {
        s[j] := s[j] + 1;
        return j + 1;
      }
      s[j] := 0;
      j := j - 1;
    }
    return 0;
  }

  /** The carry in closed form: the new level is one past the last position c <= j whose digit
      is below k (0 when there is none); position c is raised by one, the positions after it
      up to j were at k or above and become 0, and every other position is kept. */
  lemma {:induction false} AdvanceCarry(s: seq<int>, j: int, k: int)
    requires -1 <= j < |s|
    ensures var r := Advance(s, j, k);
      && (r.level > 0 ==> s[r.level - 1] < k && r.digits[r.level - 1] == s[r.level - 1] + 1)
      && (forall t :: 0 <= t < r.level - 1 ==> r.digits[t] == s[t])
      && (forall t :: r.level <= t <= j ==> k <= s[t] && r.digits[t] == 0)
      && (forall t :: j < t < |s| ==> r.digits[t] == s[t])
    decreases j + 1
  {
    if j >= 0 && s[j] >= k {
      var s' := s[j := 0];
      AdvanceCarry(s', j - 1, k);
      assert forall t :: 0 <= t < |s| && t != j ==> s'[t] == s[t];
    }
  }

  /** The vertex invariant of the traversal: s[0 .. i) holds nucleotide codes, s[i .. len]
      (the sentinel included) holds 0. */
  predicate OnTree(s: seq<int>, i: nat, len: nat)
  {
    |s| == len + 1 && i <= len && Digits(s[..i]) && forall t :: i <= t <= len ==> s[t] == 0
  }

  /** next_vertex keeps the vertex invariant; below the last level it only writes s[i]. */
  lemma NextOnTree(s: seq<int>, i: nat, len: nat)
    requires OnTree(s, i, len)
    ensures var r := Next(s, i, len, NUCL); OnTree(r.digits, r.level, len)
  {
    var r := Next(s, i, len, NUCL);
    if i == len {
      AdvanceCarry(s, len - 1, NUCL);
      assert forall t :: 0 <= t < r.level ==> r.digits[..r.level][t] == r.digits[t];
      assert forall t :: 0 <= t < i ==> s[..i][t] == s[t];
    } else {
      assert forall t :: 0 <= t < i ==> s[..i][t] == s[t];
      assert forall t :: 0 <= t <= i ==> r.digits[..i + 1][t] == r.digits[t];
    }
  }

  /** by_pass keeps the vertex invariant, never raises the level, and leaves the positions
      from the old level on untouched. */
  lemma ByPassOnTree(s: seq<int>, i: nat, len: nat)
    requires OnTree(s, i, len)
    ensures var r := Advance(s, i - 1, NUCL);
      OnTree(r.digits, r.level, len) && r.level <= i
      && forall t :: i <= t < |s| ==> r.digits[t] == s[t]
  {
    var r := Advance(s, i - 1, NUCL);
    AdvanceCarry(s, i - 1, NUCL);
    assert forall t :: 0 <= t < r.level ==> r.digits[..r.level][t] == r.digits[t];
    assert forall t :: 0 <= t < i ==> s[..i][t] == s[t];
  }

  // ---------------------------------------------------------------------------
  // What the search counts

  /** An L-mer: len nucleotide codes. */
  predicate IsLeaf(w: seq<int>, len: nat)
  {
    |w| == len && Digits(w)
  }

  /** The number of L-mers extending the prefix p whose score reaches cutOff. */
  function Sub(profile: seq<seq<int>>, len: nat, cutOff: int, p: seq<int>): nat
    requires ProfileOk(profile, len) && |p| <= len && Digits(p)
    decreases len - |p|, NUCL + 1
  {
    if |p| == len then (if PathScore(profile, p) >= cutOff then 1 else 0)
    else Siblings(profile, len, cutOff, p, 1)
  }

  /** The same count over the children p + [d], p + [d + 1], .., p + [NUCL]. */
  function Siblings(profile: seq<seq<int>>, len: nat, cutOff: int, p: seq<int>, d: int): nat
    requires ProfileOk(profile, len) && |p| < len && Digits(p) && 1 <= d <= NUCL + 1
    decreases len - |p|, NUCL + 1 - d
  {
    if d > NUCL then 0
    else
      assert Digits(p + [d]) by { assert forall t :: 0 <= t < |p| ==> (p + [d])[t] == p[t]; }
      Sub(profile, len, cutOff, p + [d]) + Siblings(profile, len, cutOff, p, d + 1)
  }

  /** The counted L-mers that come after the vertex with prefix p in preorder without being
      below it: those branching off p at some position j with a larger digit. */
  function Later(profile: seq<seq<int>>, len: nat, cutOff: int, p: seq<int>): nat
    requires ProfileOk(profile, len) && |p| <= len && Digits(p)
  {
    if p == [] then 0
    else
      var q := p[..|p| - 1];
      assert Digits(q) by { assert forall t :: 0 <= t < |q| ==> q[t] == p[t]; }
      Later(profile, len, cutOff, q) + Siblings(profile, len, cutOff, q, p[|p| - 1] + 1)
  }

  /** The counted L-mers still ahead of a traversal standing on the vertex with prefix p. */
  function Rest(profile: seq<seq<int>>, len: nat, cutOff: int, p: seq<int>): nat
    requires ProfileOk(profile, len) && |p| <= len && Digits(p)
  {
    Sub(profile, len, cutOff, p) + Later(profile, len, cutOff, p)
  }

  /** One more nucleotide: the score grows by its weight, which is at most the column's best,
      so the bound score + drop-off never grows going down. */
  lemma StepScore(profile: seq<seq<int>>, len: nat, p: seq<int>, d: int)
    requires ProfileOk(profile, len) && |p| < len && Digits(p) && 1 <= d <= NUCL
    ensures Digits(p + [d])
    ensures PathScore(profile, p + [d]) == PathScore(profile, p) + profile[d - 1][|p|]
    ensures profile[d - 1][|p|] <= ColMax(profile, len, |p|)
    ensures PathScore(profile, p + [d]) + SuffixMax(profile, len, |p| + 1)
      <= PathScore(profile, p) + SuffixMax(profile, len, |p|)
  {
    assert forall t :: 0 <= t < |p| ==> (p + [d])[t] == p[t];
    assert (p + [d])[..|p|] == p;
    MaxIsMax(Column(profile, len, |p|));
    assert Column(profile, len, |p|)[d - 1] == profile[d - 1][|p|];
  }

  /** Soundness of the pruning test: when score plus drop-off stays under the cut-off, no
      L-mer below the vertex reaches it. */
  lemma {:induction false} PruneZero(profile: seq<seq<int>>, len: nat, cutOff: int, p: seq<int>)
    requires ProfileOk(profile, len) && |p| <= len && Digits(p)
    requires PathScore(profile, p) + SuffixMax(profile, len, |p|) < cutOff
    ensures Sub(profile, len, cutOff, p) == 0
    decreases len - |p|, NUCL + 1
  {
    if |p| < len {
      SiblingsZero(profile, len, cutOff, p, 1);
    }
  }

  lemma {:induction false} SiblingsZero(profile: seq<seq<int>>, len: nat, cutOff: int, p: seq<int>, d: int)
    requires ProfileOk(profile, len) && |p| < len && Digits(p) && 1 <= d <= NUCL + 1
    requires PathScore(profile, p) + SuffixMax(profile, len, |p|) < cutOff
    ensures Siblings(profile, len, cutOff, p, d) == 0
    decreases len - |p|, NUCL + 1 - d
  {
    if d <= NUCL {
      StepScore(profile, len, p, d);
      PruneZero(profile, len, cutOff, p + [d]);
      SiblingsZero(profile, len, cutOff, p, d + 1);
    }
  }

  /** Siblings from digit e on count at least the L-mers below child d >= e. */
  lemma {:induction false} SiblingsCover(profile: seq<seq<int>>, len: nat, cutOff: int, p: seq<int>, e: int, d: int)
    requires ProfileOk(profile, len) && |p| < len && Digits(p) && 1 <= e <= d <= NUCL
    ensures Digits(p + [d])
    ensures Siblings(profile, len, cutOff, p, e) >= Sub(profile, len, cutOff, p + [d])
    decreases d - e
  {
    assert forall t :: 0 <= t < |p| ==> (p + [d])[t] == p[t];
    if e < d {
      SiblingsCover(profile, len, cutOff, p, e + 1, d);
    }
  }

  /** Completeness of the bound: when score plus drop-off reaches the cut-off, following the
      best nucleotide of every later column gives an L-mer that is counted. */
  lemma {:induction false} BestLeaf(profile: seq<seq<int>>, len: nat, cutOff: int, p: seq<int>)
    requires ProfileOk(profile, len) && |p| <= len && Digits(p)
    requires PathScore(profile, p) + SuffixMax(profile, len, |p|) >= cutOff
    ensures Sub(profile, len, cutOff, p) >= 1
    decreases len - |p|
  {
    if |p| < len {
      var c := Column(profile, len, |p|);
      MaxIsMax(c);
      var t :| 0 <= t < NUCL && c[t] == ColMax(profile, len, |p|);
      StepScore(profile, len, p, t + 1);
      BestLeaf(profile, len, cutOff, p + [t + 1]);
      SiblingsCover(profile, len, cutOff, p, 1, t + 1);
    }
  }

  /** Going down to the first child keeps the L-mers ahead unchanged. */
  lemma NextKeepsRest(profile: seq<seq<int>>, len: nat, cutOff: int, s: seq<int>, i: nat)
    requires ProfileOk(profile, len) && OnTree(s, i, len) && i < len
    ensures Digits(s[i := 1][..i + 1])
    ensures Rest(profile, len, cutOff, s[i := 1][..i + 1]) == Rest(profile, len, cutOff, s[..i])
  {
    var p := s[..i];
    var q := s[i := 1][..i + 1];
    assert q == p + [1];
    assert q[..i] == p;
    StepScore(profile, len, p, 1);
    assert Sub(profile, len, cutOff, p) == Sub(profile, len, cutOff, q) + Siblings(profile, len, cutOff, p, 2);
    assert Later(profile, len, cutOff, q) == Later(profile, len, cutOff, p) + Siblings(profile, len, cutOff, p, 2);
  }

  /** A carry from position m - 1 leaves ahead exactly the L-mers that were ahead of the
      prefix s[..m] without being below it; a carry back to the root leaves none. */
  lemma {:induction false} CarryRest(profile: seq<seq<int>>, len: nat, cutOff: int, s: seq<int>, m: nat)
    requires ProfileOk(profile, len) && m <= len < |s| && Digits(s[..m])
    ensures var r := Advance(s, m - 1, NUCL);
      && (r.level == 0 ==> Later(profile, len, cutOff, s[..m]) == 0)
      && (r.level > 0 ==>
            (r.level <= m && Digits(r.digits[..r.level])
              && Rest(profile, len, cutOff, r.digits[..r.level]) == Later(profile, len, cutOff, s[..m])))
    decreases m
  {
    if m > 0 {
      if s[m - 1] < NUCL {
        CarryHere(profile, len, cutOff, s, m);
      } else {
        var s' := s[m - 1 := 0];
        assert s'[..m - 1] == s[..m - 1];
        LaterAtLastDigit(profile, len, cutOff, s, m);
        CarryRest(profile, len, cutOff, s', m - 1);
      }
    }
  }

  /** A digit below NUCL goes up by one: the vertex reached has ahead of it what the prefix
      had ahead of it without being below it. */
  lemma CarryHere(profile: seq<seq<int>>, len: nat, cutOff: int, s: seq<int>, m: nat)
    requires ProfileOk(profile, len) && 0 < m <= len < |s| && Digits(s[..m]) && s[m - 1] < NUCL
    ensures var q := s[m - 1 := s[m - 1] + 1][..m];
      Digits(q) && Rest(profile, len, cutOff, q) == Later(profile, len, cutOff, s[..m])
  {
    var p := s[..m - 1];
    assert s[..m][..m - 1] == p;
    assert Digits(p) by { assert forall t :: 0 <= t < m - 1 ==> p[t] == s[..m][t]; }
    assert s[..m][m - 1] == s[m - 1];
    var q := s[m - 1 := s[m - 1] + 1][..m];
    assert q == p + [s[m - 1] + 1];
    assert q[..m - 1] == p;
    StepScore(profile, len, p, s[m - 1] + 1);
  }

  /** A prefix ending in the last nucleotide has ahead of it what the prefix one shorter has:
      no sibling follows the last nucleotide. */
  lemma LaterAtLastDigit(profile: seq<seq<int>>, len: nat, cutOff: int, s: seq<int>, m: nat)
    requires ProfileOk(profile, len) && 0 < m <= len < |s| && Digits(s[..m]) && s[m - 1] >= NUCL
    ensures Digits(s[..m - 1]) && Digits(s[m - 1 := 0][..m - 1])
    ensures Later(profile, len, cutOff, s[..m]) == Later(profile, len, cutOff, s[m - 1 := 0][..m - 1])
  {
    var p := s[..m - 1];
    assert s[..m][..m - 1] == p;
    assert Digits(p) by { assert forall t :: 0 <= t < m - 1 ==> p[t] == s[..m][t]; }
    assert s[..m][m - 1] == s[m - 1];
    assert s[m - 1 := 0][..m - 1] == p;
  }

  /** No L-mer reaches the cut-off exactly when the cut-off is above the best score, the
      drop-off value of the root. */
  lemma NoneCounted(profile: seq<seq<int>>, len: nat, cutOff: int)
    requires ProfileOk(profile, len)
    ensures Sub(profile, len, cutOff, []) == 0 <==> cutOff > SuffixMax(profile, len, 0)
  {
    if cutOff > SuffixMax(profile, len, 0) {
      PruneZero(profile, len, cutOff, []);
    } else {
      BestLeaf(profile, len, cutOff, []);
    }
  }

  // ---------------------------------------------------------------------------
  // Termination: the digits read as a base-5 number grow with every move

  function Pow(b: nat, e: nat): nat
  {
    if e == 0 then 1 else b * Pow(b, e - 1)
  }

  /** The digits of s as a number in base b, most significant first. */
  function Num(s: seq<int>, b: nat): int
  {
    if s == [] then 0 else s[0] * Pow(b, |s| - 1) + Num(s[1..], b)
  }

  lemma MulMono(x: int, y: int, z: nat)
    requires x <= y
    ensures x * z <= y * z
  {
  }

  lemma {:induction false} NumBound(s: seq<int>, b: nat)
    requires forall t :: 0 <= t < |s| ==> 0 <= s[t] < b
    ensures 0 <= Num(s, b) < Pow(b, |s|)
  {
    if s != [] {
      var w := Pow(b, |s| - 1);
      NumBound(s[1..], b);
      assert Num(s, b) == s[0] * w + Num(s[1..], b);
      assert Pow(b, |s|) == b * w;
      MulMono(s[0] + 1, b, w);
      MulMono(0, s[0], w);
      assert (s[0] + 1) * w == s[0] * w + w;
    }
  }

  /** Lexicographic order of digit strings is the order of their numbers. */
  lemma {:induction false} LexIncrease(x: seq<int>, y: seq<int>, c: nat, b: nat)
    requires |x| == |y| && c < |x|
    requires forall t :: 0 <= t < |x| ==> 0 <= x[t] < b && 0 <= y[t] < b
    requires forall t :: 0 <= t < c ==> x[t] == y[t]
    requires x[c] < y[c]
    ensures Num(x, b) < Num(y, b)
  {
    var w := Pow(b, |x| - 1);
    assert Num(x, b) == x[0] * w + Num(x[1..], b);
    assert Num(y, b) == y[0] * w + Num(y[1..], b);
    if c == 0 {
      NumBound(x[1..], b);
      NumBound(y[1..], b);
      MulMono(x[0] + 1, y[0], w);
      assert (x[0] + 1) * w == x[0] * w + w;
    } else {
      LexIncrease(x[1..], y[1..], c - 1, b);
    }
  }

  /** The digits of a vertex, as a number below 5^len. */
  lemma TreeNumBound(s: seq<int>, i: nat, len: nat)
    requires OnTree(s, i, len)
    ensures 0 <= Num(s[..len], NUCL + 1) < Pow(NUCL + 1, len)
  {
    assert forall t :: 0 <= t < i ==> s[..i][t] == s[t];
    NumBound(s[..len], NUCL + 1);
  }

  /** A move that does not return to the root raises the digits' number. */
  lemma MoveIncreases(s: seq<int>, i: nat, len: nat, r: Node)
    requires OnTree(s, i, len) && OnTree(r.digits, r.level, len) && r.level > 0
    requires r == Next(s, i, len, NUCL) || r == Advance(s, i - 1, NUCL)
    ensures Num(s[..len], NUCL + 1) < Num(r.digits[..len], NUCL + 1)
  {
    assert forall t :: 0 <= t < i ==> s[..i][t] == s[t];
    assert forall t :: 0 <= t < r.level ==> r.digits[..r.level][t] == r.digits[t];
    var c: nat;
    if i < len && r == Next(s, i, len, NUCL) {
      c := i;
    } else {
      AdvanceCarry(s, if r == Next(s, i, len, NUCL) then len - 1 else i - 1, NUCL);
      c := r.level - 1;
    }
    LexIncrease(s[..len], r.digits[..len], c, NUCL + 1);
  }

  // ---------------------------------------------------------------------------
  // The listed L-mers: in order, and all of those reaching the cut-off

  /** The set of L-mers reaching the cut-off below the prefix p, the set Sub counts. */
  ghost function Hits(profile: seq<seq<int>>, len: nat, cutOff: int, p: seq<int>): set<seq<int>>
    requires ProfileOk(profile, len) && |p| <= len && Digits(p)
    decreases len - |p|, NUCL + 1
  {
    if |p| == len then (if PathScore(profile, p) >= cutOff then {p} else {})
    else SiblingHits(profile, len, cutOff, p, 1)
  }

  /** The same set over the children p + [d], .., p + [NUCL]. */
  ghost function SiblingHits(profile: seq<seq<int>>, len: nat, cutOff: int, p: seq<int>, d: int): set<seq<int>>
    requires ProfileOk(profile, len) && |p| < len && Digits(p) && 1 <= d <= NUCL + 1
    decreases len - |p|, NUCL + 1 - d
  {
    if d > NUCL then {}
    else
      assert Digits(p + [d]) by { assert forall t :: 0 <= t < |p| ==> (p + [d])[t] == p[t]; }
      Hits(profile, len, cutOff, p + [d]) + SiblingHits(profile, len, cutOff, p, d + 1)
  }

  /** An L-mer extending the prefix p that reaches the cut-off. */
  predicate Hit(profile: seq<seq<int>>, len: nat, cutOff: int, p: seq<int>, w: seq<int>)
    requires ProfileOk(profile, len)
  {
    IsLeaf(w, len) && |p| <= len && w[..|p|] == p && PathScore(profile, w) >= cutOff
  }

  /** Hits holds only L-mers extending p that reach the cut-off. */
  lemma {:induction false} HitsMembers(profile: seq<seq<int>>, len: nat, cutOff: int, p: seq<int>)
    requires ProfileOk(profile, len) && |p| <= len && Digits(p)
    ensures forall w :: w in Hits(profile, len, cutOff, p) ==> Hit(profile, len, cutOff, p, w)
    decreases len - |p|, NUCL + 1
  {
    if |p| < len {
      SiblingHitsMembers(profile, len, cutOff, p, 1);
    }
  }

  lemma {:induction false} SiblingHitsMembers(profile: seq<seq<int>>, len: nat, cutOff: int, p: seq<int>, d: int)
    requires ProfileOk(profile, len) && |p| < len && Digits(p) && 1 <= d <= NUCL + 1
    ensures forall w :: w in SiblingHits(profile, len, cutOff, p, d) ==>
      Hit(profile, len, cutOff, p, w) && d <= w[|p|]
    decreases len - |p|, NUCL + 1 - d
  {
    if d <= NUCL {
      var q := p + [d];
      assert Digits(q) by { assert forall t :: 0 <= t < |p| ==> q[t] == p[t]; }
      HitsMembers(profile, len, cutOff, q);
      SiblingHitsMembers(profile, len, cutOff, p, d + 1);
      forall w | w in Hits(profile, len, cutOff, q)
        ensures Hit(profile, len, cutOff, p, w) && w[|p|] == d
      {
        assert w[..|q|][..|p|] == w[..|p|] && q[..|p|] == p;
        assert w[..|q|][|p|] == w[|p|];
      }
    }
  }

  /** Sub counts exactly the L-mers of Hits. */
  lemma {:induction false} HitsCount(profile: seq<seq<int>>, len: nat, cutOff: int, p: seq<int>)
    requires ProfileOk(profile, len) && |p| <= len && Digits(p)
    ensures |Hits(profile, len, cutOff, p)| == Sub(profile, len, cutOff, p)
    decreases len - |p|, NUCL + 1
  {
    if |p| < len {
      SiblingHitsCount(profile, len, cutOff, p, 1);
    }
  }

  lemma {:induction false} SiblingHitsCount(profile: seq<seq<int>>, len: nat, cutOff: int, p: seq<int>, d: int)
    requires ProfileOk(profile, len) && |p| < len && Digits(p) && 1 <= d <= NUCL + 1
    ensures |SiblingHits(profile, len, cutOff, p, d)| == Siblings(profile, len, cutOff, p, d)
    decreases len - |p|, NUCL + 1 - d
  {
    if d <= NUCL {
      var q := p + [d];
      assert Digits(q) by { assert forall t :: 0 <= t < |p| ==> q[t] == p[t]; }
      var here := Hits(profile, len, cutOff, q);
      var later := SiblingHits(profile, len, cutOff, p, d + 1);
      assert here * later == {} by {
        HitsMembers(profile, len, cutOff, q);
        SiblingHitsMembers(profile, len, cutOff, p, d + 1);
        forall w | w in here
          ensures w !in later
        {
          assert w[..|q|][|p|] == w[|p|];
        }
      }
      HitsCount(profile, len, cutOff, q);
      SiblingHitsCount(profile, len, cutOff, p, d + 1);
    }
  }

  /** Every L-mer extending p that reaches the cut-off is in Hits. */
  lemma {:induction false} InHits(profile: seq<seq<int>>, len: nat, cutOff: int, p: seq<int>, w: seq<int>)
    requires ProfileOk(profile, len) && |p| <= len && Digits(p)
    requires IsLeaf(w, len) && w[..|p|] == p && PathScore(profile, w) >= cutOff
    ensures w in Hits(profile, len, cutOff, p)
    decreases len - |p|
  {
    if |p| == len {
      assert w == w[..|p|];
    } else {
      var q := p + [w[|p|]];
      assert w[..|p| + 1] == q;
      assert Digits(q) by { assert forall t :: 0 <= t < |q| ==> q[t] == w[t]; }
      InHits(profile, len, cutOff, q, w);
      InSiblingHits(profile, len, cutOff, p, 1, w);
    }
  }

  lemma {:induction false} InSiblingHits(profile: seq<seq<int>>, len: nat, cutOff: int, p: seq<int>, e: int, w: seq<int>)
    requires ProfileOk(profile, len) && |p| < len && Digits(p) && |p| < |w|
    requires 1 <= e <= w[|p|] <= NUCL && Digits(p + [w[|p|]])
    requires w in Hits(profile, len, cutOff, p + [w[|p|]])
    ensures w in SiblingHits(profile, len, cutOff, p, e)
    decreases w[|p|] - e
  {
    if e < w[|p|] {
      InSiblingHits(profile, len, cutOff, p, e + 1, w);
    }
  }

  /** The lines of a search that has counted count L-mers: none when only counting, else one
      per counted L-mer, each reaching the cut-off, in order. */
  predicate Listing(profile: seq<seq<int>>, len: nat, cutOff: int, countOnly: bool, count: nat, lines: seq<Line>)
    requires ProfileOk(profile, len)
  {
    && (if countOnly then lines == [] else |lines| == count)
    && (forall t :: 0 <= t < |lines| ==> Reported(profile, len, cutOff, lines[t]))
    && InOrder(lines)
  }

  /** A line's L-mer read as a base-5 number: the order of the preorder walk. */
  function LmerNum(line: Line): int
  {
    Num(Codes(line.lmer), NUCL + 1)
  }

  /** The lines come in strictly increasing L-mer order, so no L-mer is listed twice. */
  predicate InOrder(lines: seq<Line>)
  {
    forall t, u :: 0 <= t < u < |lines| ==> LmerNum(lines[t]) < LmerNum(lines[u])
  }

  /** Every line's L-mer comes before x. */
  predicate Below(lines: seq<Line>, x: int)
  {
    forall t :: 0 <= t < |lines| ==> LmerNum(lines[t]) < x
  }

  /** A line after all those listed keeps the list in order. */
  lemma AppendInOrder(lines: seq<Line>, line: Line)
    requires InOrder(lines) && Below(lines, LmerNum(line))
    ensures InOrder(lines + [line]) && Below(lines + [line], LmerNum(line) + 1)
  {
    assert forall t :: 0 <= t < |lines| ==> (lines + [line])[t] == lines[t];
  }

  /** What Record leaves (the same lines, or one more line at the current L-mer) is still
      in order and before the next L-mer. */
  lemma KeepInOrder(lines: seq<Line>, lines': seq<Line>, line: Line)
    requires InOrder(lines) && Below(lines, LmerNum(line))
    requires lines' == lines || lines' == lines + [line]
    ensures InOrder(lines') && Below(lines', LmerNum(line) + 1)
  {
    if lines' != lines {
      AppendInOrder(lines, line);
    }
  }

  lemma RaiseBelow(lines: seq<Line>, x: int, y: int)
    requires Below(lines, x) && x <= y
    ensures Below(lines, y)
  {
  }

  /** The L-mers of the lines, as codes. */
  ghost function Listed(lines: seq<Line>): set<seq<int>>
  {
    set t | 0 <= t < |lines| :: Codes(lines[t].lmer)
  }

  /** Lines in order list as many distinct L-mers as there are lines. */
  lemma {:induction false} ListedCount(lines: seq<Line>)
    requires InOrder(lines)
    ensures |Listed(lines)| == |lines|
  {
    if lines != [] {
      var init := lines[..|lines| - 1];
      var last := lines[|lines| - 1];
      assert forall t :: 0 <= t < |init| ==> init[t] == lines[t];
      assert InOrder(init);
      ListedCount(init);
      assert Listed(lines) == Listed(init) + {Codes(last.lmer)};
    }
  }

  /** Lines reaching the cut-off list only L-mers of Hits. */
  lemma ListedHits(profile: seq<seq<int>>, len: nat, cutOff: int, lines: seq<Line>)
    requires ProfileOk(profile, len)
    requires forall t :: 0 <= t < |lines| ==> Reported(profile, len, cutOff, lines[t])
    ensures Listed(lines) <= Hits(profile, len, cutOff, [])
  {
    forall x | x in Listed(lines)
      ensures x in Hits(profile, len, cutOff, [])
    {
      var t :| 0 <= t < |lines| && Codes(lines[t].lmer) == x;
      InHits(profile, len, cutOff, [], x);
    }
  }

  /** A subset as large as its superset is the whole superset. */
  lemma SubsetSameSize<T>(a: set<T>, b: set<T>)
    requires a <= b && |a| == |b|
    ensures a == b
  {
    assert b == a + (b - a);
    assert a * (b - a) == {};
  }

  /** Completeness of the list: as many lines in order as L-mers are counted, each of them
      at or above the cut-off, list every L-mer reaching the cut-off. */
  lemma ListedAll(profile: seq<seq<int>>, len: nat, cutOff: int, lines: seq<Line>)
    requires ProfileOk(profile, len) && InOrder(lines) && |lines| == Sub(profile, len, cutOff, [])
    requires forall t :: 0 <= t < |lines| ==> Reported(profile, len, cutOff, lines[t])
    ensures forall w :: IsLeaf(w, len) && PathScore(profile, w) >= cutOff ==>
      exists t :: 0 <= t < |lines| && Codes(lines[t].lmer) == w
  {
    HitsCount(profile, len, cutOff, []);
    ListedCount(lines);
    ListedHits(profile, len, cutOff, lines);
    SubsetSameSize(Listed(lines), Hits(profile, len, cutOff, []));
    forall w | IsLeaf(w, len) && PathScore(profile, w) >= cutOff
      ensures exists t :: 0 <= t < |lines| && Codes(lines[t].lmer) == w
    {
      InHits(profile, len, cutOff, [], w);
      assert w in Listed(lines);
    }
  }

  // ---------------------------------------------------------------------------
  // The search

  /** A printed line: an L-mer at or above the cut-off with its score. */
  predicate Reported(profile: seq<seq<int>>, len: nat, cutOff: int, line: Line)
    requires ProfileOk(profile, len)
  {
    IsLeaf(Codes(line.lmer), len) && line.score == PathScore(profile, Codes(line.lmer)) && line.score >= cutOff
  }

  /** One step of the walk above the last level: the vertex's score plus its drop-off value
      is compared with the cut-off; under it the subtree is bypassed, otherwise the walk goes
      down to the first child.  The L-mers still ahead are the same before and after the move,
      and the digits' number grows unless the walk is back at the root. */
  method Descend(profile: seq<seq<int>>, len: nat, cutOff: int, s: array<int>, i: nat, dropOff: int)
    returns (j: nat)
    requires ProfileOk(profile, len) && OnTree(s[..], i, len) && i < len
    requires dropOff == SuffixMax(profile, len, i)
    modifies s
    ensures OnTree(s[..], j, len)
    ensures j == 0 ==> Rest(profile, len, cutOff, old(s[..])[..i]) == 0
    ensures j > 0 ==>
      Rest(profile, len, cutOff, s[..][..j]) == Rest(profile, len, cutOff, old(s[..])[..i])
      && Num(old(s[..])[..len], NUCL + 1) < Num(s[..][..len], NUCL + 1)
    ensures i == 0 && cutOff > dropOff ==> j == 0
  {
    ghost var pre := s[..];
    var partialScore := Score(profile, s, i);
    if partialScore < cutOff - dropOff {
      PruneZero(profile, len, cutOff, pre[..i]);
      ByPassOnTree(pre, i, len);
      CarryRest(profile, len, cutOff, pre, i);
      j := ByPass(s, i, NUCL);
      if j > 0 {
        MoveIncreases(pre, i, len, Node(s[..], j));
      }
    } else {
      NextOnTree(pre, i, len);
      NextKeepsRest(profile, len, cutOff, pre, i);
      j := NextVertex(s, i, len, NUCL);
      MoveIncreases(pre, i, len, Node(s[..], j));
    }
  }

  /** At a leaf: the L-mer's score, counted (and listed unless only counting) when it reaches
      the cut-off. */
  method Record(profile: seq<seq<int>>, len: nat, cutOff: int, countOnly: bool, s: array<int>,
                lmerCnt: nat, lines: seq<Line>)
    returns (score: int, count: nat, lines': seq<Line>)
    requires ProfileOk(profile, len) && OnTree(s[..], len, len)
    requires if countOnly then lines == [] else |lines| == lmerCnt
    requires forall t :: 0 <= t < |lines| ==> Reported(profile, len, cutOff, lines[t])
    ensures score == PathScore(profile, s[..len])
    ensures count == lmerCnt + Sub(profile, len, cutOff, s[..len])
    ensures if countOnly then lines' == [] else |lines'| == count
    ensures !countOnly && score >= cutOff ==> lines' == lines + [Line(Word(s[..len]), score)]
    ensures countOnly || score < cutOff ==> lines' == lines
    ensures forall t :: 0 <= t < |lines'| ==> Reported(profile, len, cutOff, lines'[t])
  {
    score := Score(profile, s, len);
    count, lines' := lmerCnt, lines;
    if score >= cutOff {
      count := count + 1;
      if !countOnly {
        var lmer := NucleotideString(s, len);
        lines' := lines' + [Line(lmer, score)];
      }
    }
  }

  /** Leaving a leaf with next_vertex: what is ahead is what came after the leaf. */
  method Climb(profile: seq<seq<int>>, len: nat, cutOff: int, s: array<int>) returns (j: nat)
    requires ProfileOk(profile, len) && OnTree(s[..], len, len)
    modifies s
    ensures OnTree(s[..], j, len)
    ensures j == 0 ==> Later(profile, len, cutOff, old(s[..])[..len]) == 0
    ensures j > 0 ==>
      Rest(profile, len, cutOff, s[..][..j]) == Later(profile, len, cutOff, old(s[..])[..len])
      && Num(old(s[..])[..len], NUCL + 1) < Num(s[..][..len], NUCL + 1)
  {
    ghost var pre := s[..];
    NextOnTree(pre, len, len);
    CarryRest(profile, len, cutOff, pre, len);
    j := NextVertex(s, len, len, NUCL);
    if j > 0 {
      MoveIncreases(pre, len, len, Node(s[..], j));
    }
  }

  /** One step of the walk at the last level: the L-mer's score is computed and the L-mer
      recorded, then next_vertex leaves the leaf.  The lines keep their order and stay before
      the vertex reached; what is ahead is what came after the leaf. */
  method AtLeaf(profile: seq<seq<int>>, len: nat, cutOff: int, countOnly: bool, s: array<int>,
                lmerCnt: nat, lines: seq<Line>)
    returns (score: int, count: nat, lines': seq<Line>, j: nat)
    requires ProfileOk(profile, len) && OnTree(s[..], len, len)
    requires Listing(profile, len, cutOff, countOnly, lmerCnt, lines) && Below(lines, Num(s[..len], NUCL + 1))
    modifies s
    ensures score == PathScore(profile, old(s[..len]))
    ensures count == lmerCnt + Sub(profile, len, cutOff, old(s[..len]))
    ensures Listing(profile, len, cutOff, countOnly, count, lines')
    ensures OnTree(s[..], j, len)
    ensures j == 0 ==> Later(profile, len, cutOff, old(s[..len])) == 0
    ensures j > 0 ==>
      Rest(profile, len, cutOff, s[..j]) == Later(profile, len, cutOff, old(s[..len]))
      && Num(old(s[..len]), NUCL + 1) < Num(s[..len], NUCL + 1)
      && Below(lines', Num(s[..len], NUCL + 1))
  {
    ghost var here := Num(s[..len], NUCL + 1);
    score, count, lines' := Record(profile, len, cutOff, countOnly, s, lmerCnt, lines);
    KeepInOrder(lines, lines', Line(Word(s[..len]), score));
    j := Climb(profile, len, cutOff, s);
    if j > 0 {
      RaiseBelow(lines', here + 1, Num(s[..len], NUCL + 1));
    }
  }

  /** BranchAndBound_motif_search: walk the tree from the root, bypassing every subtree whose
      score plus drop-off is under the cut-off, and count (and, unless only counting, list) the
      L-mers scoring at least the cut-off.  The C loop runs while the level is positive or
      minScore still holds its initial cutOff - 1; back at the root with minScore at that value
      the state equals the initial one and the same pass repeats forever (Diverges).  That
      happens when the root itself is bypassed, and only when the cut-off is above the best
      score or some L-mer, the last one visited, scores exactly cutOff - 1. */
  method Search(profile: seq<seq<int>>, len: nat, cutOff: int, countOnly: bool) returns (r: Outcome)
    requires ProfileOk(profile, len)
    ensures r.Counted? ==> r.count == Sub(profile, len, cutOff, [])
    ensures r.Counted? ==> if countOnly then r.lines == [] else |r.lines| == r.count
    ensures r.Counted? ==> forall t :: 0 <= t < |r.lines| ==> Reported(profile, len, cutOff, r.lines[t])
    ensures r.Counted? ==> InOrder(r.lines)
    ensures r.Counted? && !countOnly ==> forall w :: IsLeaf(w, len) && PathScore(profile, w) >= cutOff ==>
      exists t :: 0 <= t < |r.lines| && Codes(r.lines[t].lmer) == w
    ensures r.Diverges? ==>
      cutOff > SuffixMax(profile, len, 0) || exists w :: IsLeaf(w, len) && PathScore(profile, w) == cutOff - 1
    ensures len > 0 && cutOff > SuffixMax(profile, len, 0) ==> r.Diverges?
  {
    var minScore := cutOff - 1;
    var lmerCnt: nat := 0;
    var lines: seq<Line> := [];
    var i: nat := 0;
    var s := new int[len + 1](_ => 0);
    var doff := new int[len];
    DropOffInit(profile, len, doff);
    // wrapped: the walk has come back to the root; not a C variable, it marks the point from
    // which the C loop would repeat the pass
    var wrapped := false;
    ghost var visited := false;
    ghost var last: seq<int> := [];
    ghost var D := doff[..];
    assert forall t :: 0 <= t < len ==> D[t] == SuffixMax(profile, len, t);
    assert s[..][..0] == [];
    label Init:
    while (i > 0 || minScore == cutOff - 1) && !wrapped
      invariant s.Length == len + 1 && doff.Length == len
      invariant unchanged@Init(doff)
      invariant OnTree(s[..], i, len)
      invariant wrapped ==> i == 0 && lmerCnt == Sub(profile, len, cutOff, [])
      invariant !wrapped ==> lmerCnt + Rest(profile, len, cutOff, s[..i]) == Sub(profile, len, cutOff, [])
      invariant !wrapped && i == 0 ==> !visited
      invariant visited ==> IsLeaf(last, len) && minScore == PathScore(profile, last)
      invariant !visited ==> minScore == cutOff - 1
      invariant lmerCnt > 0 ==> visited
      invariant len > 0 && cutOff > SuffixMax(profile, len, 0) ==> i == 0 && !visited
      invariant Listing(profile, len, cutOff, countOnly, lmerCnt, lines)
      invariant !wrapped ==> Below(lines, Num(s[..len], NUCL + 1))
      decreases if wrapped then 0 else 1, Pow(NUCL + 1, len) - Num(s[..len], NUCL + 1)
      modifies s
    {
      TreeNumBound(s[..], i, len);
      ghost var here := Num(s[..len], NUCL + 1);
      if i < len {
        assert doff[i] == D[i];
        i := Descend(profile, len, cutOff, s, i, doff[i]);
        if i > 0 {
          RaiseBelow(lines, here, Num(s[..len], NUCL + 1));
        }
      } else {
        visited, last := true, s[..len];
        minScore, lmerCnt, lines, i := AtLeaf(profile, len, cutOff, countOnly, s, lmerCnt, lines);
      }
      wrapped := i == 0;
    }
    if wrapped && minScore == cutOff - 1 {
      // back at the root with minScore == cutOff - 1: the state the loop started from
      NoneCounted(profile, len, cutOff);
      return Diverges;
    }
    if !countOnly {
      ListedAll(profile, len, cutOff, lines);
    }
    return Counted(lmerCnt, lines);
  }
}
