/** The in-memory matrix of seqnet (`struct double_matrix`) and the
    operations on it that do not touch files: allocation, transposition,
    the in-place row shuffles used to build random controls, and the
    renaming of duplicate column names after a matrix is read. */
module MatrixIo {
  import opened Random

  // ---------------------------------------------------------------------
  // Names

  /** snprintf(buf, size, "%s", s) with size = cap + 1: at most cap
      characters survive. */
  function Truncate(s: string, cap: nat): (r: string)
    ensures |r| <= cap && r <= s
    ensures |s| <= cap ==> r == s
  {
    if |s| <= cap then s else s[..cap]
  }

  /** The decimal digits of n, as printed by "%d". */
  function Decimal(n: nat): (r: string)
    ensures 1 <= |r| && forall k :: 0 <= k < |r| ==> '0' <= r[k] <= '9'
    decreases n
  {
    if n < 10 then [Digit(n)] else Decimal(n / 10) + [Digit(n % 10)]
  }

  function Digit(d: nat): (c: char)
    requires d < 10
    ensures '0' <= c <= '9' && c as int - '0' as int == d
  {
    ('0' as int + d) as char
  }

  /** Reading the digits back: the value Decimal printed. */
  function DecimalValue(s: string): int
  {
    if s == [] then 0 else DecimalValue(s[..|s| - 1]) * 10 + (s[|s| - 1] as int - '0' as int)
  }

  /** "%d" is read back to the number it printed, so distinct numbers
      print differently. */
  lemma {:induction false} DecimalRoundTrip(n: nat)
    ensures DecimalValue(Decimal(n)) == n
    decreases n
  {
    var r := Decimal(n);
    if n >= 10 {
      DecimalRoundTrip(n / 10);
      assert r[..|r| - 1] == Decimal(n / 10);
    } else {
      assert r[..|r| - 1] == [];
    }
  }

  /** Whether two of the names are the same string (strcmp == 0). */
  predicate Duplicated(names: seq<string>)
  {
    exists i, j :: 0 <= i < j < |names| && names[i] == names[j]
  }

  /** The new name of column i once duplicates were seen: the old name,
      "_" and the 1-based column number, as snprintf into a buffer of
      width bytes leaves it. */
  function Renamed(name: string, i: nat, width: nat): (r: string)
    requires 0 < width
    ensures |r| < width
    ensures |name| + 1 + |Decimal(i + 1)| < width ==> r == name + "_" + Decimal(i + 1)
  {
    Truncate(name + "_" + Decimal(i + 1), width - 1)
  }

  /** The column names after the duplicate check of read_double_matrix:
      all renamed if any two are equal, untouched otherwise. */
  function Deduped(names: seq<string>, width: nat): (r: seq<string>)
    requires 0 < width
    ensures |r| == |names|
    ensures !Duplicated(names) ==> r == names
    ensures Duplicated(names) ==> forall i :: 0 <= i < |names| ==> r[i] == Renamed(names[i], i, width)
  {
    if Duplicated(names) then seq(|names|, i requires 0 <= i < |names| => Renamed(names[i], i, width))
    else names
  }

  /** No digit string holds an underscore, so what follows the last "_" of
      a renamed column is its number. */
  lemma SuffixAfterUnderscore(x: string, d: string, y: string, e: string)
    requires forall k :: 0 <= k < |d| ==> '0' <= d[k] <= '9'
    requires forall k :: 0 <= k < |e| ==> '0' <= e[k] <= '9'
    requires x + "_" + d == y + "_" + e
    ensures d == e
  {
    var l := x + "_" + d;
    var r := y + "_" + e;
    assert |d| == |e| by {
      if |d| < |e| {
        UnderscoreAt(x, d);
      } else if |e| < |d| {
        UnderscoreAt(y, e);
      }
    }
    assert d == l[|l| - |d|..];
    assert e == r[|r| - |e|..];
  }

  /** The "_" a renamed column carries sits right after the old name. */
  lemma UnderscoreAt(x: string, d: string)
    ensures (x + "_" + d)[|x|] == '_'
  {
  }

  /** Renaming gives distinct columns distinct names whenever nothing has
      to be cut. */
  lemma RenamedDistinct(a: string, i: nat, b: string, j: nat, width: nat)
    requires 0 < width && i != j
    requires |a| + 1 + |Decimal(i + 1)| < width && |b| + 1 + |Decimal(j + 1)| < width
    ensures Renamed(a, i, width) != Renamed(b, j, width)
  {
    var d, e := Decimal(i + 1), Decimal(j + 1);
    if Renamed(a, i, width) == Renamed(b, j, width) {
      assert a + "_" + d == b + "_" + e;
      SuffixAfterUnderscore(a, d, b, e);
      DecimalInjective(i + 1, j + 1);
    }
  }

  /** Different numbers print differently. */
  lemma DecimalInjective(m: nat, n: nat)
    requires Decimal(m) == Decimal(n)
    ensures m == n
  {
    DecimalRoundTrip(m);
    DecimalRoundTrip(n);
  }

  /** After the duplicate check no two column names are equal, provided
      each name with its suffix fits the buffer. */
  lemma DedupedDistinct(names: seq<string>, width: nat)
    requires 0 < width
    requires forall i :: 0 <= i < |names| ==> |names[i]| + 1 + |Decimal(i + 1)| < width
    ensures !Duplicated(Deduped(names, width))
  {
    if Duplicated(names) {
      var r := Deduped(names, width);
      forall i, j | 0 <= i < j < |r|
        ensures r[i] != r[j]
      {
        RenamedDistinct(names[i], i, names[j], j, width);
      }
    }
  }

  /** 10 to the power k. */
  function Pow10(k: nat): (p: nat)
    ensures 1 <= p
  {
    if k == 0 then 1 else 10 * Pow10(k - 1)
  }

  /** Numbers below 10^k print in at most k digits. */
  lemma {:induction false} DecimalLength(n: nat, k: nat)
    requires 1 <= k && n < Pow10(k)
    ensures |Decimal(n)| <= k
    decreases k
  {
    if n >= 10 {
      assert k >= 2;
      DecimalLength(n / 10, k - 1);
    }
  }

  /** As read_double_matrix sizes the buffers: every name is at most
      longest characters and the buffers hold longest + 10, so with fewer
      than 10^8 columns the check always leaves the names distinct. */
  lemma ReadNamesDistinct(names: seq<string>, longest: nat)
    requires |names| < Pow10(8)
    requires forall i :: 0 <= i < |names| ==> |names[i]| <= longest
    ensures !Duplicated(Deduped(names, longest + 10))
  {
    forall i | 0 <= i < |names|
      ensures |names[i]| + 1 + |Decimal(i + 1)| < longest + 10
    {
      DecimalLength(i + 1, 8);
    }
    DedupedDistinct(names, longest + 10);
  }

  // ---------------------------------------------------------------------
  // Random row permutations

  /** Swapping two entries of a row. */
  function Swap(s: seq<real>, a: int, b: int): (r: seq<real>)
    requires 0 <= a < |s| && 0 <= b < |s|
    ensures |r| == |s| && r[a] == s[b] && r[b] == s[a]
    ensures forall k :: 0 <= k < |s| && k != a && k != b ==> r[k] == s[k]
  {
    s[a := s[b]][b := s[a]]
  }

  /** A swap only reorders the row. */
  lemma SwapPermutes(t: seq<real>, a: int, b: int)
    requires 0 <= a < |t| && 0 <= b < |t|
    ensures multiset(Swap(t, a, b)) == multiset(t)
  {
    var u := t[a := t[b]];
    assert multiset(u) == multiset(t) - multiset{t[a]} + multiset{t[b]};
    assert multiset(Swap(t, a, b)) == multiset(u) - multiset{u[b]} + multiset{t[a]};
  }

  /** Number of swaps a Fisher-Yates pass over n entries makes: one for
      each j from n - 1 down to 1. */
  function Moves(n: nat): nat
  {
    if n == 0 then 0 else n - 1
  }

  /** The row after the first k swaps of a pass whose draws start at draw
      number start of the generator: swap i (for j = |s| - 1 - i) exchanges
      entry j with entry draws(start + i, j + 1), a value in [0, j]. */
  function Shuffled(s: seq<real>, draws: (nat, nat) -> nat, start: nat, k: nat): (r: seq<real>)
    requires InRange(draws) && k <= Moves(|s|)
    ensures |r| == |s|
    decreases k
  {
    if k == 0 then s
    else Swap(Shuffled(s, draws, start, k - 1), draws(start + k - 1, |s| - k + 1), |s| - k)
  }

  /** A shuffle pass only reorders the row. */
  lemma {:induction false} ShuffledPermutes(s: seq<real>, draws: (nat, nat) -> nat, start: nat, k: nat)
    requires InRange(draws) && k <= Moves(|s|)
    ensures multiset(Shuffled(s, draws, start, k)) == multiset(s)
    decreases k
  {
    if k == 0 {
      assert Shuffled(s, draws, start, k) == s;
    } else {
      ShuffleStepPermutes(s, draws, start, k);
      ShuffledPermutes(s, draws, start, k - 1);
      SamePermutation(Shuffled(s, draws, start, k), Shuffled(s, draws, start, k - 1), s);
    }
  }

  /** Reordering twice is reordering. */
  lemma SamePermutation(a: seq<real>, b: seq<real>, c: seq<real>)
    requires multiset(a) == multiset(b) && multiset(b) == multiset(c)
    ensures multiset(a) == multiset(c)
  {
  }

  /** Swap k of a pass only reorders the row it is applied to. */
  lemma ShuffleStepPermutes(s: seq<real>, draws: (nat, nat) -> nat, start: nat, k: nat)
    requires InRange(draws) && 0 < k <= Moves(|s|)
    ensures multiset(Shuffled(s, draws, start, k)) == multiset(Shuffled(s, draws, start, k - 1))
  {
    SwapPermutes(Shuffled(s, draws, start, k - 1), draws(start + k - 1, |s| - k + 1), |s| - k);
  }

  // ---------------------------------------------------------------------
  // The matrix

  /** One row of a freshly allocated matrix: ncol zeros. */
  method ZeroRow(ncol: nat) returns (row: array<real>)
    ensures fresh(row) && row.Length == ncol
    ensures forall c :: 0 <= c < ncol ==> row[c] == 0.0
  {
    row := new real[ncol];
    var j := 0;
    while j < ncol
      invariant 0 <= j <= ncol
      invariant forall c :: 0 <= c < j ==> row[c] == 0.0
    {
      row[j] := 0.0;
      j := j + 1;
    }
  }

  /** The entries of a freshly allocated matrix: nrow separate rows of ncol
      zeros each. */
  method Zeros(nrow: nat, ncol: nat) returns (m: array<array<real>>)
    ensures fresh(m) && m.Length == nrow
    ensures forall r :: 0 <= r < nrow ==> fresh(m[r]) && m[r].Length == ncol
    ensures forall r, r' :: 0 <= r < nrow && 0 <= r' < nrow && r != r' ==> m[r] != m[r']
    ensures forall r, c :: 0 <= r < nrow && 0 <= c < ncol ==> m[r][c] == 0.0
  {
    var empty := new real[0];
    m := new array<real>[nrow](_ => empty);
    var i := 0;
    while i < nrow
      invariant 0 <= i <= nrow
      invariant forall r :: 0 <= r < i ==> fresh(m[r]) && m[r].Length == ncol
      invariant forall r, r' :: 0 <= r < i && 0 <= r' < i && r != r' ==> m[r] != m[r']
      invariant forall r, c :: 0 <= r < i && 0 <= c < ncol ==> m[r][c] == 0.0
    {
      var row := ZeroRow(ncol);
      m[i] := row;
      i := i + 1;
    }
  }

  /** Column labels: 1 for the first realSample columns (real samples),
      0 for the rest (random controls). */
  method Labels(ncol: nat, realSample: int) returns (lb: array<int>)
    ensures fresh(lb) && lb.Length == ncol
    ensures forall c :: 0 <= c < ncol ==> lb[c] == (if c < realSample then 1 else 0)
  {
    lb := new int[ncol];
    var i := 0;
    while i < ncol
      invariant 0 <= i <= ncol
      invariant forall c :: 0 <= c < i ==> lb[c] == (if c < realSample then 1 else 0)
    {
      if i < realSample {
        lb[i] := 1;
      } else {
        lb[i] := 0;
      }
      i := i + 1;
    }
  }

  /** n name buffers, each holding the empty string. */
  method EmptyNames(n: nat) returns (names: array<string>)
    ensures fresh(names) && names.Length == n
    ensures forall k :: 0 <= k < n ==> names[k] == ""
  {
    names := new string[n];
    var i := 0;
    while i < n
      invariant 0 <= i <= n
      invariant forall k :: 0 <= k < i ==> names[k] == ""
    {
      names[i] := "";
      i := i + 1;
    }
  }

  /** tmp = row[x]; row[x] = row[y]; row[y] = tmp; */
  method SwapEntries(row: array<real>, x: int, y: int)
    requires 0 <= x < row.Length && 0 <= y < row.Length
    modifies row
    ensures row[..] == Swap(old(row[..]), x, y)
  {
    var tmp := row[x];
    row[x] := row[y];
    row[y] := tmp;
  }

  /** A swap inside the middle segment of a row leaves both ends alone. */
  lemma SwapInside(pre: seq<real>, cur: seq<real>, post: seq<real>, a: int, b: int)
    requires 0 <= a < |cur| && 0 <= b < |cur|
    ensures Swap(pre + cur + post, |pre| + a, |pre| + b) == pre + Swap(cur, a, b) + post
  {
    var l := Swap(pre + cur + post, |pre| + a, |pre| + b);
    var r := pre + Swap(cur, a, b) + post;
    assert |l| == |r|;
    forall i | 0 <= i < |l|
      ensures l[i] == r[i]
    {
      if i < |pre| {
      } else if i < |pre| + |cur| {
        assert r[i] == Swap(cur, a, b)[i - |pre|];
      } else {
      }
    }
  }

  /** A row part-way through a pass over its middle segment s: the first k
      swaps are done and the entries around s are untouched. */
  ghost predicate PassAt(row: seq<real>, pre: seq<real>, s: seq<real>, post: seq<real>,
                         draws: (nat, nat) -> nat, start: nat, k: nat)
  {
    InRange(draws) && k <= Moves(|s|) && row == pre + Shuffled(s, draws, start, k) + post
  }

  /** Swap k of the pass, applied to the whole row, moves it to stage k + 1. */
  lemma PassAdvance(row: seq<real>, pre: seq<real>, s: seq<real>, post: seq<real>,
                    draws: (nat, nat) -> nat, start: nat, k: nat)
    requires PassAt(row, pre, s, post, draws, start, k) && k < Moves(|s|)
    ensures draws(start + k, |s| - k) < |s| - k
    ensures PassAt(Swap(row, |pre| + draws(start + k, |s| - k), |pre| + |s| - 1 - k),
                   pre, s, post, draws, start, k + 1)
  {
    SwapInside(pre, Shuffled(s, draws, start, k), post, draws(start + k, |s| - k), |s| - 1 - k);
  }

  /** One Fisher-Yates pass over entries off .. off + len - 1 of a row: for
      j from len - 1 down to 1, entry off + j trades places with entry
      off + a, a drawn from [0, j]. The rest of the row does not move. */
  method ShufflePass(row: array<real>, off: nat, len: nat, rng: Rng)
    requires off + len <= row.Length && InRange(rng.draws)
    modifies row, rng`used
    ensures rng.used == old(rng.used) + Moves(len)
    ensures row[..] == old(row[..off])
      + Shuffled(old(row[off..off + len]), rng.draws, old(rng.used), Moves(len))
      + old(row[off + len..])
  {
    ghost var pre, s, post := row[..off], row[off..off + len], row[off + len..];
    assert row[..] == pre + s + post;
    PassSwaps(row, off, len, rng, pre, s, post);
  }

  /** The swap loop of a pass over the middle segment s of a row. */
  method PassSwaps(row: array<real>, off: nat, len: nat, rng: Rng,
                   ghost pre: seq<real>, ghost s: seq<real>, ghost post: seq<real>)
    requires off == |pre| && len == |s| && InRange(rng.draws)
    requires row[..] == pre + s + post
    modifies row, rng`used
    ensures rng.used == old(rng.used) + Moves(len)
    ensures PassAt(row[..], pre, s, post, rng.draws, old(rng.used), Moves(len))
  {
    ghost var start := rng.used;
    ghost var k := 0;
    assert Shuffled(s, rng.draws, start, 0) == s;
    var j := len - 1;
    while j > 0
      invariant 0 <= k <= Moves(len) && j == len - 1 - k
      invariant rng.used == start + k
      invariant PassAt(row[..], pre, s, post, rng.draws, start, k)
    {
      PassStep(row, off, j, rng, pre, s, post, start, k);
      k := k + 1;
      j := j - 1;
    }
  }

  /** Swap number k of a pass (the iteration for j = |s| - 1 - k): draw a
      partner in [0, j] and exchange it with entry j of the segment. */
  method PassStep(row: array<real>, off: nat, j: nat, rng: Rng, ghost pre: seq<real>, ghost s: seq<real>,
                  ghost post: seq<real>, ghost start: nat, ghost k: nat)
    requires rng.used == start + k && off == |pre| && j == |s| - 1 - k && k < Moves(|s|)
    requires PassAt(row[..], pre, s, post, rng.draws, start, k)
    modifies row, rng`used
    ensures rng.used == start + k + 1
    ensures PassAt(row[..], pre, s, post, rng.draws, start, k + 1)
  {
    var a := rng.RandomIntZeroToX(j);
    PassAdvance(row[..], pre, s, post, rng.draws, start, k);
    SwapEntries(row, off + a, off + j);
  }

  /** One pass over a whole row, as shuffle_double_matrix makes it. */
  method ShuffleRow(row: array<real>, rng: Rng)
    requires InRange(rng.draws)
    modifies row, rng`used
    ensures rng.used == old(rng.used) + Moves(row.Length)
    ensures row[..] == Shuffled(old(row[..]), rng.draws, old(rng.used), Moves(row.Length))
  {
    ShufflePass(row, 0, row.Length, rng);
    assert old(row[..0]) == [] && old(row[row.Length..]) == [];
    assert old(row[0..row.Length]) == old(row[..]);
  }

  /** The pass over row i of a matrix whose rows are separate arrays: the
      other rows keep their entries. */
  method ShuffleRowOf(m: array<array<real>>, i: nat, n: nat, rng: Rng)
    requires i < m.Length && m[i].Length == n && InRange(rng.draws)
    requires forall r :: 0 <= r < m.Length && r != i ==> m[r] != m[i]
    modifies m[i], rng`used
    ensures rng.used == old(rng.used) + Moves(n)
    ensures m[i][..] == Shuffled(old(m[i][..]), rng.draws, old(rng.used), Moves(n))
    ensures forall r :: 0 <= r < m.Length && r != i ==> m[r][..] == old(m[r][..])
  {
    ShuffleRow(m[i], rng);
  }

  /** One pass over each row of m in turn. */
  method ShuffleRows(m: array<array<real>>, n: nat, rng: Rng)
    requires InRange(rng.draws)
    requires forall r :: 0 <= r < m.Length ==> m[r].Length == n
    requires forall r, r' :: 0 <= r < m.Length && 0 <= r' < m.Length && r != r' ==> m[r] != m[r']
    modifies m[..], rng`used
    ensures rng.used == PassStart(old(rng.used), m.Length, Moves(n))
    ensures forall r :: 0 <= r < m.Length ==>
      m[r][..] == Shuffled(old(m[r][..]), rng.draws, PassStart(old(rng.used), r, Moves(n)), Moves(n))
  {
    ghost var start := rng.used;
    var i := 0;
    while i < m.Length
      invariant 0 <= i <= m.Length
      invariant rng.used == PassStart(start, i, Moves(n))
      invariant forall r {:trigger m[r]} :: 0 <= r < m.Length ==>
        m[r][..] == ShuffledWhen(r < i, old(m[r][..]), rng.draws, PassStart(start, r, Moves(n)))
    {
      ShuffleRowOf(m, i, n, rng);
      i := i + 1;
    }
  }

  /** Row r while shuffle_double_matrix runs: shuffled once the loop is past
      it, as it was before otherwise. */
  function ShuffledWhen(done: bool, s: seq<real>, draws: (nat, nat) -> nat, start: nat): seq<real>
    requires InRange(draws)
  {
    if done then Shuffled(s, draws, start, Moves(|s|)) else s
  }

  /** The name-copying loops of transpose_double_matrix: entry i of dst
      becomes src[i] as snprintf leaves it in a buffer of cap + 1 bytes. */
  method CopyNames(dst: array<string>, src: array<string>, n: nat, cap: nat)
    requires n <= dst.Length && n <= src.Length && dst != src
    modifies dst
    ensures forall i :: 0 <= i < n ==> dst[i] == Truncate(src[i], cap)
    ensures forall i :: n <= i < dst.Length ==> dst[i] == old(dst[i])
  {
    var i := 0;
    while i < n
      invariant 0 <= i <= n
      invariant forall k :: 0 <= k < i ==> dst[k] == Truncate(src[k], cap)
      invariant forall k :: n <= k < dst.Length ==> dst[k] == old(dst[k])
    {
      dst[i] := Truncate(src[i], cap);
      i := i + 1;
    }
  }

  /** The inner value loop of transpose_double_matrix for one source row:
      entry c of every destination row i becomes src[i]. */
  method SetColumn(dst: array<array<real>>, c: nat, src: array<real>)
    requires dst.Length <= src.Length
    requires forall i :: 0 <= i < dst.Length ==> c < dst[i].Length && dst[i] != src
    requires forall i, i' :: 0 <= i < dst.Length && 0 <= i' < dst.Length && i != i' ==> dst[i] != dst[i']
    modifies dst[..]
    ensures forall i :: 0 <= i < dst.Length ==> dst[i][..] == old(dst[i][..])[c := src[i]]
  {
    var i := 0;
    while i < dst.Length
      invariant 0 <= i <= dst.Length
      invariant forall k :: 0 <= k < dst.Length ==>
        dst[k][..] == if k < i then old(dst[k][..])[c := src[k]] else old(dst[k][..])
    {
      dst[i][c] := src[i];
      i := i + 1;
    }
  }

  /** The value loops of transpose_double_matrix: entry [i][j] of dst
      becomes entry [j][i] of src, for every row j of src. */
  method FillTransposed(dst: array<array<real>>, src: array<array<real>>, n: nat)
    requires dst.Length == n && forall j :: 0 <= j < src.Length ==> src[j].Length == n
    requires forall i :: 0 <= i < n ==> dst[i].Length == src.Length
    requires forall i, i' :: 0 <= i < n && 0 <= i' < n && i != i' ==> dst[i] != dst[i']
    requires forall i, j :: 0 <= i < n && 0 <= j < src.Length ==> dst[i] != src[j]
    modifies dst[..]
    ensures forall i, j :: 0 <= i < n && 0 <= j < src.Length ==> dst[i][j] == src[j][i]
  {
    var j := 0;
    while j < src.Length
      invariant 0 <= j <= src.Length
      invariant forall i, c :: 0 <= i < n && 0 <= c < j ==> dst[i][c] == src[c][i]
    {
      SetColumn(dst, j, src[j]);
      j := j + 1;
    }
  }

  /** A row after fill_random_matrix with k real samples: the real
      entries, then a shuffled copy of them, then whatever followed. */
  function Filled(s: seq<real>, draws: (nat, nat) -> nat, start: nat, k: nat): (r: seq<real>)
    requires InRange(draws) && 2 * k <= |s|
    ensures |r| == |s|
  {
    s[..k] + Shuffled(s[..k], draws, start, Moves(k)) + s[2 * k..]
  }

  /** The controls of a filled row are a permutation of its real entries,
      which are kept. */
  lemma FilledControls(s: seq<real>, draws: (nat, nat) -> nat, start: nat, k: nat)
    requires InRange(draws) && 2 * k <= |s|
    ensures Filled(s, draws, start, k)[..k] == s[..k]
    ensures multiset(Filled(s, draws, start, k)[k..2 * k]) == multiset(s[..k])
  {
    var r := Filled(s, draws, start, k);
    var sh := Shuffled(s[..k], draws, start, Moves(k));
    assert r[..k] == s[..k];
    assert r[k..2 * k] == sh;
    ShuffledPermutes(s[..k], draws, start, Moves(k));
  }

  /** Row r while fill_random_matrix runs: filled once the loop is past
      it, as it was before otherwise. */
  function FilledWhen(done: bool, s: seq<real>, draws: (nat, nat) -> nat, start: nat, k: nat): seq<real>
    requires InRange(draws)
  {
    if done && 2 * k <= |s| then Filled(s, draws, start, k) else s
  }

  /** The copy loop of fill_random_matrix on one row. */
  method CopyAcross(row: array<real>, k: nat)
    requires 2 * k <= row.Length
    modifies row
    ensures row[..] == old(row[..k]) + old(row[..k]) + old(row[2 * k..])
  {
    ghost var before := row[..];
    var j := 0;
    while j < k
      invariant 0 <= j <= k && |before| == row.Length
      invariant forall c {:trigger row[c]} :: 0 <= c < row.Length ==>
        row[c] == if k <= c < k + j then before[c - k] else before[c]
    {
      row[j + k] := row[j];
      j := j + 1;
    }
    CopiedAcross(before, row[..], k);
  }

  /** A row whose entries k .. 2k - 1 repeat entries 0 .. k - 1 of the row
      before, all others unchanged, is the first k entries twice and then
      the rest. */
  lemma CopiedAcross(before: seq<real>, after: seq<real>, k: nat)
    requires 2 * k <= |before| == |after|
    requires forall c {:trigger after[c]} :: 0 <= c < |after| ==>
      after[c] == if k <= c < 2 * k then before[c - k] else before[c]
    ensures after == before[..k] + before[..k] + before[2 * k..]
  {
    var r := before[..k] + before[..k] + before[2 * k..];
    assert |r| == |after|;
    forall c | 0 <= c < |after|
      ensures after[c] == r[c]
    {
      var ab := before[..k] + before[..k];
      if c < 2 * k {
        assert r[c] == ab[c];
      } else {
        assert r[c] == before[2 * k..][c - 2 * k];
      }
    }
  }

  /** fill_random_matrix on one row: the first k entries are copied into
      the next k places, and that copy is shuffled by one pass. */
  method FillRow(row: array<real>, k: nat, rng: Rng)
    requires 2 * k <= row.Length && InRange(rng.draws)
    modifies row, rng`used
    ensures rng.used == old(rng.used) + Moves(k)
    ensures row[..] == Filled(old(row[..]), rng.draws, old(rng.used), k)
  {
    ghost var s := row[..];
    CopyAcross(row, k);
    assert row[k..2 * k] == s[..k] && row[..k] == s[..k] && row[2 * k..] == s[2 * k..];
    ShufflePass(row, k, k, rng);
  }

  /** The pass over row i of a matrix whose rows are separate arrays: the
      other rows keep their entries. */
  method FillRowOf(m: array<array<real>>, i: nat, k: nat, rng: Rng)
    requires i < m.Length && 2 * k <= m[i].Length && InRange(rng.draws)
    requires forall r :: 0 <= r < m.Length && r != i ==> m[r] != m[i]
    modifies m[i], rng`used
    ensures rng.used == old(rng.used) + Moves(k)
    ensures m[i][..] == Filled(old(m[i][..]), rng.draws, old(rng.used), k)
    ensures forall r :: 0 <= r < m.Length && r != i ==> m[r][..] == old(m[r][..])
  {
    FillRow(m[i], k, rng);
  }

  /** fill_random_matrix on every row of m in turn. */
  method FillRows(m: array<array<real>>, n: nat, k: nat, rng: Rng)
    requires InRange(rng.draws) && 2 * k <= n
    requires forall r :: 0 <= r < m.Length ==> m[r].Length == n
    requires forall r, r' :: 0 <= r < m.Length && 0 <= r' < m.Length && r != r' ==> m[r] != m[r']
    modifies m[..], rng`used
    ensures rng.used == PassStart(old(rng.used), m.Length, Moves(k))
    ensures forall r :: 0 <= r < m.Length ==>
      m[r][..] == Filled(old(m[r][..]), rng.draws, PassStart(old(rng.used), r, Moves(k)), k)
  {
    ghost var start := rng.used;
    var i := 0;
    while i < m.Length
      invariant 0 <= i <= m.Length
      invariant rng.used == PassStart(start, i, Moves(k))
      invariant forall r {:trigger m[r]} :: 0 <= r < m.Length ==>
        m[r][..] == FilledWhen(r < i, old(m[r][..]), rng.draws, PassStart(start, r, Moves(k)), k)
    {
      FillRowOf(m, i, k, rng);
      i := i + 1;
    }
  }

  /** Draw number at which pass r starts when every pass makes m draws and
      the first starts at draw number start. */
  function PassStart(start: nat, r: nat, m: nat): (d: nat)
    ensures d == start + r * m
  {
    if r == 0 then start else PassStart(start, r - 1, m) + m
  }

  // ---------------------------------------------------------------------
  // The matrix

  class DoubleMatrix {
    /** nrow separately allocated rows of ncol entries (`double**`). */
    var matrix: array<array<real>>
    var colNames: array<string>
    var rowNames: array<string>
    var labels: array<int>
    var nrow: int
    var ncol: int
    /** Number of columns holding real samples; the rest are random
        controls. */
    var realSample: int
    /** Capacity of each name buffer, terminator included. */
    var nameLen: int

    ghost predicate Valid()
      reads this, matrix
    {
      matrix.Length == nrow &&
      (forall r :: 0 <= r < nrow ==> matrix[r].Length == ncol) &&
      (forall r, r' :: 0 <= r < nrow && 0 <= r' < nrow && r != r' ==> matrix[r] != matrix[r']) &&
      colNames.Length == ncol && rowNames.Length == nrow && labels.Length == ncol &&
      colNames != rowNames && 0 <= realSample
    }

    /** alloc_double_matrix(ncol, nrow, name_len): all entries 0.0, all
        columns real samples labelled 1, all names empty. */
    constructor (ncol: nat, nrow: nat, nameLen: nat)
      ensures this.ncol == ncol && this.nrow == nrow && this.nameLen == nameLen && realSample == ncol
      ensures Valid() && fresh(matrix) && fresh(colNames) && fresh(rowNames) && fresh(labels)
      ensures forall r :: 0 <= r < nrow ==> fresh(matrix[r])
      ensures forall i, j :: 0 <= i < nrow && 0 <= j < ncol ==> matrix[i][j] == 0.0
      ensures forall j :: 0 <= j < ncol ==> labels[j] == 1 && colNames[j] == ""
      ensures forall i :: 0 <= i < nrow ==> rowNames[i] == ""
    {
      var m := Zeros(nrow, ncol);
      var lb := Labels(ncol, ncol);
      var cn := EmptyNames(ncol);
      var rn := EmptyNames(nrow);
      realSample := ncol;
      this.ncol := ncol;
      this.nrow := nrow;
      this.nameLen := nameLen;
      matrix, labels, colNames, rowNames := m, lb, cn, rn;
    }

    /** shuffle_double_matrix: every row is shuffled in place, one pass per
        row, rows in order, so row r's pass starts after r earlier passes.
        Each row ends up a permutation of itself. */
    method Shuffle(rng: Rng)
      requires Valid() && InRange(rng.draws)
      modifies matrix[..], rng`used
      ensures rng.used == PassStart(old(rng.used), nrow, Moves(ncol))
      ensures forall r :: 0 <= r < nrow ==>
        matrix[r][..] == Shuffled(old(matrix[r][..]), rng.draws, PassStart(old(rng.used), r, Moves(ncol)), Moves(ncol))
      ensures forall r :: 0 <= r < nrow ==> multiset(matrix[r][..]) == multiset(old(matrix[r][..]))
    {
      ShuffleRows(matrix, ncol, rng);
      forall r | 0 <= r < nrow
        ensures multiset(matrix[r][..]) == multiset(old(matrix[r][..]))
      {
        ShuffledPermutes(old(matrix[r][..]), rng.draws, PassStart(old(rng.used), r, Moves(ncol)), Moves(ncol));
      }
    }

    /** transpose_double_matrix: a new matrix with rows and columns
        exchanged, allocated with names of bufLen bytes; the row names of
        the result are the old column names and the other way round, cut
        to what fits. All columns of the result are real samples. The old
        matrix is left as it was (it is freed afterwards). */
    method Transpose(bufLen: nat) returns (t: DoubleMatrix)
      requires Valid() && 0 < bufLen
      ensures fresh(t) && t.Valid()
      ensures t.nrow == ncol && t.ncol == nrow && t.realSample == nrow && t.nameLen == bufLen
      ensures forall i, j :: 0 <= i < ncol && 0 <= j < nrow ==> t.matrix[i][j] == matrix[j][i]
      ensures forall i :: 0 <= i < ncol ==> t.rowNames[i] == Truncate(colNames[i], bufLen - 1)
      ensures forall j :: 0 <= j < nrow ==> t.colNames[j] == Truncate(rowNames[j], bufLen - 1)
      ensures forall j :: 0 <= j < nrow ==> t.labels[j] == 1
    {
      t := new DoubleMatrix(nrow, ncol, bufLen);
      CopyNames(t.rowNames, colNames, ncol, bufLen - 1);
      CopyNames(t.colNames, rowNames, nrow, bufLen - 1);
      FillTransposed(t.matrix, matrix, ncol);
    }

    /** fill_random_matrix: the random controls. With realSample = k, the
        k columns after the real ones receive, row by row, a shuffled copy
        of the row's real entries; the caller must have allocated room for
        them. The real entries and the columns after the controls stay. */
    method FillRandom(rng: Rng)
      requires Valid() && InRange(rng.draws) && 2 * realSample <= ncol
      modifies matrix[..], rng`used
      ensures rng.used == PassStart(old(rng.used), nrow, Moves(realSample))
      ensures forall r :: 0 <= r < nrow ==>
        matrix[r][..] == Filled(old(matrix[r][..]), rng.draws, PassStart(old(rng.used), r, Moves(realSample)), realSample)
      ensures forall r :: 0 <= r < nrow ==>
        multiset(matrix[r][realSample..2 * realSample]) == multiset(matrix[r][..realSample])
    {
      FillRows(matrix, ncol, realSample, rng);
      forall r | 0 <= r < nrow
        ensures multiset(matrix[r][realSample..2 * realSample]) == multiset(matrix[r][..realSample])
      {
        FilledControls(old(matrix[r][..]), rng.draws, PassStart(old(rng.used), r, Moves(realSample)), realSample);
      }
    }

    /** The search of read_double_matrix for two equal column names among
        the first ncol. On a hit the scan sets i to realSample and the outer
        loop's increment resumes it at row realSample + 1, so the scan ends
        exactly when no two names from that row on are equal; the reader
        keeps realSample at or above ncol, where this always holds. */
    method HasDuplicateNames() returns (found: bool)
      requires 0 <= ncol <= colNames.Length
      requires forall a, b :: 0 <= a && realSample < a < b < ncol ==> colNames[a] != colNames[b]
      ensures found == Duplicated(colNames[..ncol])
    {
      found := false;
      var i := 0;
      while i < ncol
        invariant 0 <= i
        invariant found ==> Duplicated(colNames[..ncol])
        invariant !found ==> i <= ncol
        invariant !found ==> forall a, b :: 0 <= a < i && a < b < ncol ==> colNames[a] != colNames[b]
        decreases ncol - i
      {
        var j := i + 1;
        while j < ncol
          invariant i + 1 <= j <= ncol
          invariant forall b :: i < b < j ==> colNames[i] != colNames[b]
          decreases ncol - j
        {
          if colNames[i] == colNames[j] {
            assert colNames[..ncol][i] == colNames[..ncol][j];
            found := true;
            i := realSample;
            j := realSample;
            break;
          }
          j := j + 1;
        }
        i := i + 1;
      }
      if !found {
        assert !Duplicated(colNames[..ncol]) by {
          forall a, b | 0 <= a < b < ncol
            ensures colNames[..ncol][a] != colNames[..ncol][b]
          {
          }
        }
      }
    }

    /** The renaming loop of read_double_matrix: column i becomes
        name_<i + 1>, cut to width - 1 characters. */
    method RenameColumns(width: nat)
      requires 0 <= ncol <= colNames.Length && 0 < width
      modifies colNames
      ensures forall i :: 0 <= i < ncol ==> colNames[i] == Renamed(old(colNames[i]), i, width)
      ensures forall i :: ncol <= i < colNames.Length ==> colNames[i] == old(colNames[i])
    {
      var i := 0;
      while i < ncol
        invariant 0 <= i <= ncol
        invariant forall k :: 0 <= k < i ==> colNames[k] == Renamed(old(colNames[k]), k, width)
        invariant forall k :: i <= k < colNames.Length ==> colNames[k] == old(colNames[k])
      {
        colNames[i] := Renamed(colNames[i], i, width);
        i := i + 1;
      }
    }

    /** The duplicate-name step at the end of read_double_matrix, with
        width the reader's longest_entry. */
    method DedupColumnNames(width: nat)
      requires 0 <= ncol <= colNames.Length && 0 < width
      requires forall a, b :: 0 <= a && realSample < a < b < ncol ==> colNames[a] != colNames[b]
      modifies colNames
      ensures colNames[..ncol] == Deduped(old(colNames[..ncol]), width)
      ensures colNames[ncol..] == old(colNames[ncol..])
    {
      var dup := HasDuplicateNames();
      if dup {
        RenameColumns(width);
        assert colNames[..ncol] == Deduped(old(colNames[..ncol]), width);
      }
    }
  }
}
