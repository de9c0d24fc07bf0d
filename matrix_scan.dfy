/** The character-level parts of seqnet's matrix reader: classifying a
    token as numeric or as a name (analyze_token), and the first pass of
    read_double_matrix, which scans the whole file once to find how many
    columns and rows it has and how long its longest entry is, before the
    matrix is allocated. A file is a sequence of characters; running off
    its end is EOF. */
module MatrixScan {

  // ---------------------------------------------------------------------
  // Token classification

  /** isalpha in the C locale. */
  predicate IsAlpha(c: char)
  {
    'a' <= c <= 'z' || 'A' <= c <= 'Z'
  }

  /** isdigit. */
  predicate IsDigit(c: char)
  {
    '0' <= c <= '9'
  }

  /** Number of letters in t. */
  function Letters(t: seq<char>): nat
  {
    if t == [] then 0 else Letters(t[..|t| - 1]) + (if IsAlpha(t[|t| - 1]) then 1 else 0)
  }

  /** Number of digits in t. */
  function Digits(t: seq<char>): nat
  {
    if t == [] then 0 else Digits(t[..|t| - 1]) + (if IsDigit(t[|t| - 1]) then 1 else 0)
  }

  /** No character is both a letter and a digit, so together they never
      outnumber the characters. */
  lemma {:induction false} ClassesDisjoint(t: seq<char>)
    ensures Letters(t) + Digits(t) <= |t|
  {
    if t != [] {
      ClassesDisjoint(t[..|t| - 1]);
    }
  }

  /** Counting a concatenation counts the parts. */
  lemma {:induction false} CountsAppend(a: seq<char>, b: seq<char>)
    ensures Letters(a + b) == Letters(a) + Letters(b)
    ensures Digits(a + b) == Digits(a) + Digits(b)
    decreases |b|
  {
    if b == [] {
      assert a + b == a;
    } else {
      var b' := b[..|b| - 1];
      assert (a + b)[..|a + b| - 1] == a + b';
      CountsAppend(a, b');
    }
  }

  /** analyze_token(t, len, &res): res is 0 (a number) when the first len
      characters hold more digits than letters, and 1 (a name) otherwise. */
  method AnalyzeToken(t: seq<char>, len: nat) returns (res: int)
    requires len <= |t|
    ensures res == 0 <==> Digits(t[..len]) > Letters(t[..len])
    ensures res == 0 || res == 1
  {
    var alpha := 0;
    var num := 0;
    var i := 0;
    while i < len
      invariant 0 <= i <= len
      invariant alpha == Letters(t[..i]) && num == Digits(t[..i])
    {
      assert t[..i + 1][..i] == t[..i];
      if IsAlpha(t[i]) {
        alpha := alpha + 1;
      }
      if IsDigit(t[i]) {
        num := num + 1;
      }
      i := i + 1;
    }
    if num > alpha {
      res := 0;
    } else {
      res := 1;
    }
  }

  // ---------------------------------------------------------------------
  // The text, as the first pass sees it

  const NUL: char := 0 as char
  const INT32_MIN: int := -0x8000_0000
  const INT32_MAX: int := 0x7FFF_FFFF

  /** Field separators: tab and comma. */
  predicate IsSep(c: char)
  {
    c == '\t' || c == ','
  }

  /** Characters that end an entry. */
  predicate IsBreak(c: char)
  {
    IsSep(c) || c == '\n'
  }

  /** The loop `while ((c = fgetc(file)))` also stops at a NUL byte: the
      pass sees the text up to the first NUL, or all of it. */
  function ReadLen(s: seq<char>): (k: nat)
    ensures k <= |s| && (k < |s| ==> s[k] == NUL)
    ensures forall i :: 0 <= i < k ==> s[i] != NUL
  {
    if s == [] || s[0] == NUL then 0 else 1 + ReadLen(s[1..])
  }

  /** Two entry-ending characters in a row somewhere after the first
      character: an empty field. */
  predicate DoubledBreak(s: seq<char>)
  {
    exists k :: 0 < k < |s| && IsBreak(s[k - 1]) && IsBreak(s[k])
  }

  /** The unfinished line at the end of s. */
  function Tail(s: seq<char>): seq<char>
  {
    if s == [] then []
    else if s[|s| - 1] == '\n' then []
    else Tail(s[..|s| - 1]) + [s[|s| - 1]]
  }

  /** The lines of s that a newline ends, without their newlines. */
  function Lines(s: seq<char>): seq<seq<char>>
  {
    if s == [] then []
    else if s[|s| - 1] == '\n' then Lines(s[..|s| - 1]) + [Tail(s[..|s| - 1])]
    else Lines(s[..|s| - 1])
  }

  /** The unfinished entry at the end of s. */
  function Tok(s: seq<char>): seq<char>
  {
    if s == [] then []
    else if IsBreak(s[|s| - 1]) then []
    else Tok(s[..|s| - 1]) + [s[|s| - 1]]
  }

  /** The entries of s that a separator or a newline ends. */
  function Tokens(s: seq<char>): seq<seq<char>>
  {
    if s == [] then []
    else if IsBreak(s[|s| - 1]) then Tokens(s[..|s| - 1]) + [Tok(s[..|s| - 1])]
    else Tokens(s[..|s| - 1])
  }

  /** Number of separators in a line. */
  function Seps(line: seq<char>): nat
  {
    if line == [] then 0 else Seps(line[..|line| - 1]) + (if IsSep(line[|line| - 1]) then 1 else 0)
  }

  /** Number of fields of a line: one more than its separators. */
  function Fields(line: seq<char>): nat
  {
    Seps(line) + 1
  }

  function Max(a: int, b: int): int
  {
    if a < b then b else a
  }

  function Min(a: int, b: int): int
  {
    if a < b then a else b
  }

  /** Most fields on any line; INT32_MIN when there is none. */
  function MaxFields(ls: seq<seq<char>>): int
  {
    if ls == [] then INT32_MIN else Max(MaxFields(ls[..|ls| - 1]), Fields(ls[|ls| - 1]))
  }

  /** Fewest fields on any line; INT32_MAX when there is none. */
  function MinFields(ls: seq<seq<char>>): int
  {
    if ls == [] then INT32_MAX else Min(MinFields(ls[..|ls| - 1]), Fields(ls[|ls| - 1]))
  }

  /** Length of the longest entry; 0 when there is none. */
  function MaxLen(ts: seq<seq<char>>): nat
  {
    if ts == [] then 0 else Max(MaxLen(ts[..|ts| - 1]), |ts[|ts| - 1]|)
  }

  // ---------------------------------------------------------------------
  // The first pass as a state machine

  /** The variables of the first pass: lastchar (as afterBreak, its
      negation), n, cur_columns, nrows, longest_entry, max_columns and
      min_columns. */
  datatype ScanState = ScanState(afterBreak: bool, n: nat, cur: nat, rows: nat, longest: nat,
                                 maxCols: int, minCols: int)

  /** The state before the first character. */
  const Start: ScanState := ScanState(false, 0, 0, 0, 0, INT32_MIN, INT32_MAX)

  /** One character of the switch in the first pass; None is the failed
      ASSERT on two entry-ending characters in a row ("Multiple"). */
  function Step(st: ScanState, c: char): Option<ScanState>
  {
    if IsSep(c) then
      if st.afterBreak then None
      else Some(st.(afterBreak := true, n := 0, cur := st.cur + 1, longest := Max(st.longest, st.n)))
    else if c == '\n' then
      if st.afterBreak then None
      else Some(st.(afterBreak := true, n := 0, cur := 0, rows := st.rows + 1,
                    longest := Max(st.longest, st.n),
                    maxCols := Max(st.maxCols, st.cur + 1), minCols := Min(st.minCols, st.cur + 1)))
    else Some(st.(afterBreak := false, n := st.n + 1))
  }

  datatype Option<T> = None | Some(value: T)

  /** The state after the characters of s. */
  function Run(s: seq<char>): Option<ScanState>
  {
    if s == [] then Some(Start)
    else match Run(s[..|s| - 1])
      case None => None
      case Some(st) => Step(st, s[|s| - 1])
  }

  /** Outcome of the first pass: one of its two failed ASSERTs, or the
      dimensions and the entry length (longest_entry after `+= 10`) that
      the matrix is allocated with. */
  datatype ScanResult = MultipleSeparators | UnevenRows | Sized(columns: int, rows: nat, longestEntry: nat)

  /** The first pass on a whole file. At EOF the entry in progress counts
      towards the longest one; at a NUL it does not. */
  function ScanText(text: seq<char>): ScanResult
  {
    var p := text[..ReadLen(text)];
    match Run(p)
    case None => MultipleSeparators
    case Some(st) =>
      var longest := if ReadLen(text) == |text| then Max(st.longest, st.n) else st.longest;
      if st.maxCols != st.minCols then UnevenRows else Sized(st.maxCols, st.rows, longest + 10)
  }

  /** The first pass of read_double_matrix (lines 547-600): one read of the
      file, stopping at EOF or NUL, failing on an empty field or on rows of
      different widths. */
  method ScanShape(text: seq<char>) returns (r: ScanResult)
    ensures r == ScanText(text)
  {
    var lastchar := true;
    var n: nat := 0;
    var cur: nat := 0;
    var nrows: nat := 0;
    var longest: nat := 0;
    var maxColumns := INT32_MIN;
    var minColumns := INT32_MAX;
    var i := 0;
    while i < |text| && text[i] != NUL
      invariant 0 <= i <= ReadLen(text)
      invariant Run(text[..i]) == Some(ScanState(!lastchar, n, cur, nrows, longest, maxColumns, minColumns))
    {
      var c := text[i];
      RunNext(text, i);
      if c == '\t' || c == ',' {
        if !lastchar {
          FailureSticks(text[..ReadLen(text)], i + 1);
          return MultipleSeparators;
        }
        if n > longest {
          longest := n;
        }
        n := 0;
        lastchar := false;
        cur := cur + 1;
      } else if c == '\n' {
        if !lastchar {
          FailureSticks(text[..ReadLen(text)], i + 1);
          return MultipleSeparators;
        }
        if n > longest {
          longest := n;
        }
        n := 0;
        lastchar := false;
        cur := cur + 1;
        if cur > maxColumns {
          maxColumns := cur;
        }
        if cur < minColumns {
          minColumns := cur;
        }
        nrows := nrows + 1;
        cur := 0;
      } else {
        n := n + 1;
        lastchar := true;
      }
      i := i + 1;
    }
    assert i == ReadLen(text);
    if i == |text| {
      if n > longest {
        longest := n;
      }
    }
    if maxColumns != minColumns {
      return UnevenRows;
    }
    longest := longest + 10;
    r := Sized(maxColumns, nrows, longest);
  }

  /** Reading character i of the text moves the pass one step on, and
      the first i + 1 characters are the start of what the pass reads. */
  lemma RunNext(text: seq<char>, i: nat)
    requires i < ReadLen(text)
    ensures Run(text[..i + 1]) == match Run(text[..i]) case None => None case Some(st) => Step(st, text[i])
    ensures text[..ReadLen(text)][..i + 1] == text[..i + 1]
  {
    assert text[..i + 1][..i] == text[..i];
  }

  /** Once a prefix has failed, the whole text fails. */
  lemma {:induction false} FailureSticks(p: seq<char>, i: nat)
    requires i <= |p| && Run(p[..i]) == None
    ensures Run(p) == None
    decreases |p| - i
  {
    if i < |p| {
      assert p[..i + 1][..i] == p[..i];
      FailureSticks(p, i + 1);
    } else {
      assert p[..i] == p;
    }
  }

  // ---------------------------------------------------------------------
  // What the first pass computes

  /** The state machine tracks the text's structure: it fails exactly on
      an empty field, and otherwise its variables hold the entry and line
      in progress, the number of finished lines, the longest finished
      entry, and the most and fewest fields on a finished line. */
  lemma {:induction false} RunMeaning(s: seq<char>)
    ensures Run(s).None? <==> DoubledBreak(s)
    ensures Run(s).Some? ==> Describes(Run(s).value, s)
  {
    if s != [] {
      var s' := s[..|s| - 1];
      var c := s[|s| - 1];
      RunMeaning(s');
      DoubledStep(s', c);
      assert s' + [c] == s;
      if Run(s').Some? {
        StepMeaning(Run(s').value, s', c);
      }
    }
  }

  /** What the variables of the first pass hold after the characters of s. */
  predicate Describes(st: ScanState, s: seq<char>)
  {
    st.afterBreak == (s != [] && IsBreak(s[|s| - 1])) &&
    st.n == |Tok(s)| && st.cur == Seps(Tail(s)) && st.rows == |Lines(s)| &&
    st.longest == MaxLen(Tokens(s)) &&
    st.maxCols == MaxFields(Lines(s)) && st.minCols == MinFields(Lines(s))
  }

  /** One character of the switch keeps the variables describing the text
      read so far, and fails exactly on a second entry-ending character. */
  lemma StepMeaning(st: ScanState, s: seq<char>, c: char)
    requires Describes(st, s)
    ensures Step(st, c).None? <==> s != [] && IsBreak(s[|s| - 1]) && IsBreak(c)
    ensures Step(st, c).Some? ==> Describes(Step(st, c).value, s + [c])
  {
    var t := s + [c];
    assert t[..|t| - 1] == s;
    if !IsBreak(c) || IsSep(c) {
      SepsStep(Tail(s), c);
    }
  }

  /** An empty field appears in s + [c] exactly when it was already in s,
      or s ends an entry and c ends another. */
  lemma DoubledStep(s: seq<char>, c: char)
    ensures DoubledBreak(s + [c]) <==> DoubledBreak(s) || (s != [] && IsBreak(s[|s| - 1]) && IsBreak(c))
  {
    var t := s + [c];
    if DoubledBreak(t) {
      var k :| 0 < k < |t| && IsBreak(t[k - 1]) && IsBreak(t[k]);
      if k < |s| {
        assert t[k - 1] == s[k - 1] && t[k] == s[k];
        assert DoubledBreak(s);
      } else {
        assert t[k - 1] == s[|s| - 1] && t[k] == c;
      }
    }
    if DoubledBreak(s) {
      var k :| 0 < k < |s| && IsBreak(s[k - 1]) && IsBreak(s[k]);
      assert t[k - 1] == s[k - 1] && t[k] == s[k];
      assert DoubledBreak(t);
    }
    if s != [] && IsBreak(s[|s| - 1]) && IsBreak(c) {
      assert t[|s| - 1] == s[|s| - 1] && t[|s|] == c;
      assert DoubledBreak(t);
    }
  }

  /** Appending a character to a line adds one separator when it is one. */
  lemma SepsStep(line: seq<char>, c: char)
    ensures Seps(line + [c]) == Seps(line) + (if IsSep(c) then 1 else 0)
  {
    assert (line + [c])[..|line + [c]| - 1] == line;
  }

  /** MaxFields is the largest field count of a line, reached by one. */
  lemma {:induction false} MaxFieldsIsMax(ls: seq<seq<char>>)
    requires ls != []
    ensures forall k :: 0 <= k < |ls| ==> Fields(ls[k]) <= MaxFields(ls)
    ensures exists k :: 0 <= k < |ls| && Fields(ls[k]) == MaxFields(ls)
  {
    var init := ls[..|ls| - 1];
    if init == [] {
      assert MaxFields(ls) == Fields(ls[0]);
    } else {
      MaxFieldsIsMax(init);
      assert forall k :: 0 <= k < |init| ==> init[k] == ls[k];
      if MaxFields(init) < Fields(ls[|ls| - 1]) {
        assert Fields(ls[|ls| - 1]) == MaxFields(ls);
      } else {
        var k :| 0 <= k < |init| && Fields(init[k]) == MaxFields(init);
        assert Fields(ls[k]) == MaxFields(ls);
      }
    }
  }

  /** MinFields is the smallest field count of a line, reached by one. */
  lemma {:induction false} MinFieldsIsMin(ls: seq<seq<char>>)
    requires ls != [] && forall k :: 0 <= k < |ls| ==> Fields(ls[k]) <= INT32_MAX
    ensures forall k :: 0 <= k < |ls| ==> MinFields(ls) <= Fields(ls[k])
    ensures exists k :: 0 <= k < |ls| && Fields(ls[k]) == MinFields(ls)
  {
    var init := ls[..|ls| - 1];
    if init == [] {
      assert MinFields(ls) == Fields(ls[0]);
    } else {
      assert forall k :: 0 <= k < |init| ==> init[k] == ls[k];
      MinFieldsIsMin(init);
      if Fields(ls[|ls| - 1]) < MinFields(init) {
        assert Fields(ls[|ls| - 1]) == MinFields(ls);
      } else {
        var k :| 0 <= k < |init| && Fields(init[k]) == MinFields(init);
        assert Fields(ls[k]) == MinFields(ls);
      }
    }
  }

  /** MaxLen bounds every entry and is reached by one, or is 0. */
  lemma {:induction false} MaxLenIsMax(ts: seq<seq<char>>)
    ensures forall k :: 0 <= k < |ts| ==> |ts[k]| <= MaxLen(ts)
    ensures MaxLen(ts) == 0 || exists k :: 0 <= k < |ts| && |ts[k]| == MaxLen(ts)
  {
    if ts != [] {
      var init := ts[..|ts| - 1];
      MaxLenIsMax(init);
      assert forall k :: 0 <= k < |init| ==> init[k] == ts[k];
      if MaxLen(init) < |ts[|ts| - 1]| {
        assert |ts[|ts| - 1]| == MaxLen(ts);
      } else if MaxLen(init) != 0 {
        var k :| 0 <= k < |init| && |init[k]| == MaxLen(init);
        assert |ts[k]| == MaxLen(ts);
      }
    }
  }

  /** Every finished line is counted: the pass's row count is the number
      of newlines read. */
  lemma {:induction false} LinesAreNewlines(s: seq<char>)
    ensures |Lines(s)| == multiset(s)['\n']
  {
    if s != [] {
      var s' := s[..|s| - 1];
      LinesAreNewlines(s');
      assert s == s' + [s[|s| - 1]];
      assert multiset(s) == multiset(s') + multiset{s[|s| - 1]};
    }
  }

  /** The first pass fails on "Multiple" exactly when the text it reads has
      an empty field (a separator or newline right after another one). */
  lemma MultipleIffDoubled(text: seq<char>)
    ensures ScanText(text) == MultipleSeparators <==> DoubledBreak(text[..ReadLen(text)])
  {
    RunMeaning(text[..ReadLen(text)]);
  }

  /** The first pass succeeds exactly when the text it reads has no empty
      field, ends at least one line, and every finished line has the same
      number of fields; the matrix then has that many columns and one row
      per finished line. Field counts stay within cur_columns's 32 bits. */
  lemma SizedIffRectangular(text: seq<char>)
    requires forall line :: line in Lines(text[..ReadLen(text)]) ==> Fields(line) <= INT32_MAX
    ensures ScanText(text).Sized? <==>
      var p := text[..ReadLen(text)];
      !DoubledBreak(p) && Lines(p) != [] &&
      forall a, b :: 0 <= a < |Lines(p)| && 0 <= b < |Lines(p)| ==> Fields(Lines(p)[a]) == Fields(Lines(p)[b])
    ensures ScanText(text).Sized? ==>
      var p := text[..ReadLen(text)];
      ScanText(text).rows == |Lines(p)| == multiset(p)['\n'] &&
      forall a :: 0 <= a < |Lines(p)| ==> ScanText(text).columns == Fields(Lines(p)[a])
  {
    var p := text[..ReadLen(text)];
    RunMeaning(p);
    LinesAreNewlines(p);
    if Run(p).Some? && Lines(p) != [] {
      var ls := Lines(p);
      assert forall k :: 0 <= k < |ls| ==> ls[k] in ls;
      MaxFieldsIsMax(ls);
      MinFieldsIsMin(ls);
    }
  }

  /** The entry length the matrix is allocated with is 10 more than the
      longest entry read: every finished entry, and the one in progress if
      the text ended at EOF, fits, and one of them is exactly that long
      (or there is none). */
  lemma LongestEntry(text: seq<char>)
    requires ScanText(text).Sized?
    ensures var p := text[..ReadLen(text)];
      var es := if ReadLen(text) == |text| then Tokens(p) + [Tok(p)] else Tokens(p);
      var w := ScanText(text).longestEntry - 10;
      (forall k :: 0 <= k < |es| ==> |es[k]| <= w) &&
      (w == 0 || exists k :: 0 <= k < |es| && |es[k]| == w)
  {
    var p := text[..ReadLen(text)];
    RunMeaning(p);
    var es := if ReadLen(text) == |text| then Tokens(p) + [Tok(p)] else Tokens(p);
    if ReadLen(text) == |text| {
      assert es[..|es| - 1] == Tokens(p);
      assert MaxLen(es) == Max(MaxLen(Tokens(p)), |Tok(p)|);
    }
    MaxLenIsMax(es);
  }
}
