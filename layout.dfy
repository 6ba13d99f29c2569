/** The order and the text layout in which both generators emit the table.
    The outer loop runs over DSP pairs c < dsp/2, the middle loop over the
    operations a < ops of a DSP, the inner loop over the samples b < N; the
    element (c, a, b) reads the twiddle of row a*(dsp/2) + c and sample b,
    which sits at table index (a*(dsp/2) + c)*b. Inside a group the element
    (a, b) is the flat position a*N + b. */
module Layout {
  import opened Arith
  import opened Bits
  import opened TwiddleTable

  /** The twiddle row that operation a of DSP pair c uses. */
  function RowIndex(a: nat, c: nat, half: nat): nat {
    a * half + c
  }

  /** Two (operation, pair) positions never share a row. */
  lemma RowIndexInjective(a1: nat, c1: nat, a2: nat, c2: nat, half: nat)
    requires c1 < half && c2 < half
    requires RowIndex(a1, c1, half) == RowIndex(a2, c2, half)
    ensures a1 == a2 && c1 == c2
  {
    RowMajor(a1, c1, half);
    RowMajor(a2, c2, half);
  }

  /** The operation and pair that use row k: the inverse of RowIndex. */
  function RowOwner(k: nat, half: nat, ops: nat): (r: (nat, nat))
    requires half > 0 && k < ops * half
    ensures r.0 < ops && r.1 < half && RowIndex(r.0, r.1, half) == k
  {
    var a, c := k / half, k % half;
    assert a < ops by {
      if a >= ops {
        MulMonotone(ops, a, half);
      }
    }
    (a, c)
  }

  /** Every position uses a row below ops*half, which is N/2 when N = ops*dsp
      and dsp = 2*half. */
  lemma RowIndexBound(a: nat, c: nat, half: nat, ops: nat)
    requires a < ops && c < half
    ensures RowIndex(a, c, half) < ops * half
  {
    RowMajorLast(a, c, ops, half);
  }

  lemma RowsCoverHalf(ops: nat, dsp: nat)
    requires dsp % 2 == 0
    ensures ops * (dsp / 2) == ops * dsp / 2
  {
    var half := dsp / 2;
    assert ops * dsp == 2 * (ops * half);
    DivModUnique(ops * dsp, 2, ops * half, 0);
  }

  /** With dsp even, every element reads an index inside the N*N/2 table:
      its row is below (N/dsp)*(dsp/2) <= N/2 and its sample below N. */
  lemma LookupInTable(N: nat, dsp: nat, a: nat, c: nat, b: nat)
    requires dsp >= 2 && dsp % 2 == 0
    requires a < N / dsp && c < dsp / 2 && b < N
    ensures RowIndex(a, c, dsp / 2) < N / 2
    ensures Key(RowIndex(a, c, dsp / 2), b) < TableSize(N)
  {
    var ops := N / dsp;
    RowIndexBound(a, c, dsp / 2, ops);
    RowsCoverHalf(ops, dsp);
    assert ops * dsp <= N;
    KeyInTable(N, RowIndex(a, c, dsp / 2), b);
  }

  /** Some operation a < ops of some DSP pair c < half uses row k. */
  predicate RowUsed(k: nat, ops: nat, half: nat) {
    exists a, c :: 0 <= a < ops && 0 <= c < half && RowIndex(a, c, half) == k
  }

  /** With N = ops*dsp and dsp even, (a, c) |-> a*(dsp/2) + c over a < ops and
      c < dsp/2 is a bijection onto [0, N/2): distinct positions use distinct
      rows, each row is below N/2, and every row below N/2 is used. */
  lemma RowsBijection(N: nat, dsp: nat)
    requires dsp >= 2 && dsp % 2 == 0 && N % dsp == 0
    ensures forall a, c :: 0 <= a < N / dsp && 0 <= c < dsp / 2 ==> RowIndex(a, c, dsp / 2) < N / 2
    ensures forall a1, c1, a2, c2 ::
              0 <= c1 < dsp / 2 && 0 <= c2 < dsp / 2 && RowIndex(a1, c1, dsp / 2) == RowIndex(a2, c2, dsp / 2)
              ==> a1 == a2 && c1 == c2
    ensures forall k :: 0 <= k < N / 2 ==> RowUsed(k, N / dsp, dsp / 2)
  {
    var ops, half := N / dsp, dsp / 2;
    forall a, c | 0 <= a < ops && 0 <= c < half
      ensures RowIndex(a, c, half) < N / 2
    {
      LookupInTable(N, dsp, a, c, 0);
    }
    forall a1, c1, a2, c2 | 0 <= c1 < half && 0 <= c2 < half && RowIndex(a1, c1, half) == RowIndex(a2, c2, half)
      ensures a1 == a2 && c1 == c2
    {
      RowIndexInjective(a1, c1, a2, c2, half);
    }
    assert N == dsp * ops;
    assert ops * dsp == N;
    RowsCoverHalf(ops, dsp);
    assert ops * half == N / 2;
    forall k | 0 <= k < N / 2
      ensures RowUsed(k, ops, half)
    {
      var r := RowOwner(k, half, ops);
      assert RowIndex(r.0, r.1, half) == k;
    }
  }

  /** Number of occurrences of ch in s. */
  function Count(s: string, ch: char): nat {
    if s == [] then 0 else Count(s[..|s| - 1], ch) + (if s[|s| - 1] == ch then 1 else 0)
  }

  lemma {:induction false} CountConcat(s: string, t: string, ch: char)
    ensures Count(s + t, ch) == Count(s, ch) + Count(t, ch)
  {
    if t == [] {
      assert s + t == s;
    } else {
      assert (s + t)[..|s + t| - 1] == s + t[..|t| - 1];
      CountConcat(s, t[..|t| - 1], ch);
    }
  }

  lemma {:induction false} CountBits(s: string, ch: char)
    requires IsBits(s) && ch != '0' && ch != '1'
    ensures Count(s, ch) == 0
  {
    if s != [] {
      assert IsBits(s[..|s| - 1]);
      CountBits(s[..|s| - 1], ch);
    }
  }

  /** Element b of an operation's row: the quoted literal, a comma unless it
      is the last element of the group, and a line break when b + 1 is a
      multiple of 4. */
  function Element(lit: string, b: nat, last: bool): string {
    "\"" + lit + "\"" + (if !last then "," else "") + (if (b + 1) % 4 == 0 then "\n" else "")
  }

  /** The first j elements of one operation's row; `final` marks the group's
      last operation, whose last element carries no comma. */
  function Row(lits: seq<string>, final: bool, j: nat): string
    requires j <= |lits|
  {
    if j == 0 then "" else Row(lits, final, j - 1) + Element(lits[j - 1], j - 1, final && j == |lits|)
  }

  /** The first j operations of a group. `closes` says whether the test for
      the group's last element can hold at all: it compares a with the number
      of operations minus one, which is never an integer once that number is
      a fraction. */
  function Rows(rows: seq<seq<string>>, closes: bool, j: nat): string
    requires j <= |rows|
  {
    if j == 0 then "" else Rows(rows, closes, j - 1) + Row(rows[j - 1], closes && j == |rows|, |rows[j - 1]|)
  }

  /** One DSP pair's parenthesised element list. */
  function Group(rows: seq<seq<string>>, closes: bool): string {
    "(" + Rows(rows, closes, |rows|) + ")"
  }

  /** The first j groups, separated by ",\n". */
  function Groups(groups: seq<seq<seq<string>>>, closes: bool, j: nat): string
    requires j <= |groups|
  {
    if j == 0 then ""
    else Groups(groups, closes, j - 1) + Group(groups[j - 1], closes) + (if j != |groups| then ",\n" else "")
  }

  /** The first j of the texts, separated by ",\n". */
  function Join(texts: seq<string>, j: nat): string
    requires j <= |texts|
  {
    if j == 0 then "" else Join(texts, j - 1) + texts[j - 1] + (if j != |texts| then ",\n" else "")
  }

  lemma JoinStep(texts: seq<string>, j: nat)
    requires j < |texts|
    ensures j + 1 != |texts| ==> Join(texts, j + 1) == Join(texts, j) + texts[j] + ",\n"
    ensures j + 1 == |texts| ==> Join(texts, j + 1) == Join(texts, j) + texts[j]
  {
    if j + 1 == |texts| {
      assert Join(texts, j) + texts[j] + "" == Join(texts, j) + texts[j];
    }
  }

  /** Joining the rendered groups is rendering the groups. */
  lemma {:induction false} JoinGroups(groups: seq<seq<seq<string>>>, closes: bool, texts: seq<string>, j: nat)
    requires |texts| == |groups| && j <= |groups|
    requires forall c :: 0 <= c < |groups| ==> texts[c] == Group(groups[c], closes)
    ensures Join(texts, j) == Groups(groups, closes, j)
  {
    if j > 0 {
      JoinGroups(groups, closes, texts, j - 1);
    }
  }

  lemma RowStep(lits: seq<string>, final: bool, j: nat)
    requires j < |lits|
    ensures Row(lits, final, j + 1) == Row(lits, final, j) + Element(lits[j], j, final && j + 1 == |lits|)
  {
  }

  lemma RowsStep(rows: seq<seq<string>>, closes: bool, j: nat)
    requires j < |rows|
    ensures Rows(rows, closes, j + 1) == Rows(rows, closes, j) + Row(rows[j], closes && j + 1 == |rows|, |rows[j]|)
  {
  }

  lemma GroupsStep(groups: seq<seq<seq<string>>>, closes: bool, j: nat)
    requires j < |groups|
    ensures Groups(groups, closes, j + 1) == Groups(groups, closes, j) + Group(groups[j], closes) + (if j + 1 != |groups| then ",\n" else "")
  {
  }

  predicate AllBits(lits: seq<string>) {
    forall i :: 0 <= i < |lits| ==> IsBits(lits[i])
  }

  /** Every literal of a group is a digit string and every operation has `cols` elements. */
  predicate Uniform(rows: seq<seq<string>>, cols: nat) {
    forall a :: 0 <= a < |rows| ==> |rows[a]| == cols && AllBits(rows[a])
  }

  /** One element holds two quotes, a comma unless it is the group's last,
      a line break when b + 1 is a multiple of 4, and no parenthesis. */
  lemma ElementCounts(lit: string, b: nat, last: bool, ch: char)
    requires IsBits(lit) && ch in {'"', ',', '(', ')', '\n'}
    ensures Count(Element(lit, b, last), ch) == ElementTally(b, last, ch)
  {
    var comma := if !last then "," else "";
    var brk := if (b + 1) % 4 == 0 then "\n" else "";
    var s1 := "\"" + lit;
    var s2 := s1 + "\"";
    var s3 := s2 + comma;
    assert Element(lit, b, last) == s3 + brk;
    CountBits(lit, ch);
    CountSingle('"', ch);
    CountConcat("\"", lit, ch);
    CountConcat(s1, "\"", ch);
    assert Count(s2, ch) == (if ch == '"' then 2 else 0);
    if !last {
      CountSingle(',', ch);
    }
    CountConcat(s2, comma, ch);
    if (b + 1) % 4 == 0 {
      CountSingle('\n', ch);
    }
    CountConcat(s3, brk, ch);
  }

  lemma CountSingle(c: char, ch: char)
    ensures Count([c], ch) == (if c == ch then 1 else 0) && Count([], ch) == 0
  {
    assert [c][..0] == [];
  }

  /** The number of ch in the first j elements of a row of n: 2*j quotes, a
      comma after each but the group's last element, one line break per four
      samples and no parenthesis. */
  function RowTally(n: nat, final: bool, j: nat, ch: char): nat {
    if ch == '"' then 2 * j
    else if ch == ',' then (if final && j == n && j > 0 then j - 1 else j)
    else if ch == '\n' then j / 4
    else 0
  }

  /** The number of ch in element b, as ElementCounts states it. */
  function ElementTally(b: nat, last: bool, ch: char): nat {
    if ch == '"' then 2
    else if ch == ',' then (if last then 0 else 1)
    else if ch == '\n' then (if (b + 1) % 4 == 0 then 1 else 0)
    else 0
  }

  lemma TallyStep(n: nat, final: bool, j: nat, ch: char)
    requires 0 < j <= n
    ensures RowTally(n, final, j, ch) == RowTally(n, final, j - 1, ch) + ElementTally(j - 1, final && j == n, ch)
  {
    if ch == '\n' {
      QuarterStep(j);
    }
  }

  lemma {:induction false} RowCount(lits: seq<string>, final: bool, j: nat, ch: char)
    requires j <= |lits| && AllBits(lits) && ch in {'"', ',', '(', ')', '\n'}
    ensures Count(Row(lits, final, j), ch) == RowTally(|lits|, final, j, ch)
  {
    if j > 0 {
      RowCount(lits, final, j - 1, ch);
      var prefix := Row(lits, final, j - 1);
      var e := Element(lits[j - 1], j - 1, final && j == |lits|);
      CountConcat(prefix, e, ch);
      ElementCounts(lits[j - 1], j - 1, final && j == |lits|, ch);
      TallyStep(|lits|, final, j, ch);
    }
  }

  lemma QuarterStep(j: nat)
    requires j > 0
    ensures j / 4 == (j - 1) / 4 + (if j % 4 == 0 then 1 else 0)
  {
  }

  /** The first j elements of a row hold 2*j quotes, a comma after each but the
      group's last element, one line break per four samples and no parenthesis. */
  lemma RowCounts(lits: seq<string>, final: bool, j: nat)
    requires j <= |lits| && AllBits(lits)
    ensures Count(Row(lits, final, j), '"') == 2 * j
    ensures Count(Row(lits, final, j), ',') == if final && j == |lits| && j > 0 then j - 1 else j
    ensures Count(Row(lits, final, j), '\n') == j / 4
    ensures Count(Row(lits, final, j), '(') == 0 && Count(Row(lits, final, j), ')') == 0
  {
    RowCount(lits, final, j, '"');
    RowCount(lits, final, j, ',');
    RowCount(lits, final, j, '\n');
    RowCount(lits, final, j, '(');
    RowCount(lits, final, j, ')');
  }

  /** The number of ch in the first j operations of a group of n, each of
      cols literals: 2*j*cols quotes, j*cols commas less the group's last,
      and no parenthesis. */
  function RowsTally(n: nat, closes: bool, cols: nat, j: nat, ch: char): nat {
    if ch == '"' then 2 * (j * cols)
    else if ch == ',' then (if closes && j == n && j > 0 && cols > 0 then j * cols - 1 else j * cols)
    else 0
  }

  lemma RowsTallyStep(n: nat, closes: bool, cols: nat, j: nat, ch: char)
    requires 0 < j <= n && ch in {'"', ',', '(', ')'}
    ensures RowsTally(n, closes, cols, j, ch)
         == RowsTally(n, closes, cols, j - 1, ch) + RowTally(cols, closes && j == n, cols, ch)
  {
    MulSucc(j - 1, cols);
    if cols == 0 {
      assert (j - 1) * cols == 0 && j * cols == 0;
    }
  }

  lemma {:induction false} RowsCount(rows: seq<seq<string>>, closes: bool, cols: nat, j: nat, ch: char)
    requires j <= |rows| && Uniform(rows, cols) && ch in {'"', ',', '(', ')'}
    ensures Count(Rows(rows, closes, j), ch) == RowsTally(|rows|, closes, cols, j, ch)
  {
    if j > 0 {
      RowsCount(rows, closes, cols, j - 1, ch);
      var r := Row(rows[j - 1], closes && j == |rows|, cols);
      RowCount(rows[j - 1], closes && j == |rows|, cols, ch);
      CountConcat(Rows(rows, closes, j - 1), r, ch);
      RowsTallyStep(|rows|, closes, cols, j, ch);
    }
  }

  /** The first j operations hold 2*j*cols quotes and no parenthesis. */
  lemma RowsQuotes(rows: seq<seq<string>>, closes: bool, cols: nat, j: nat)
    requires j <= |rows| && Uniform(rows, cols)
    ensures Count(Rows(rows, closes, j), '"') == 2 * (j * cols)
    ensures Count(Rows(rows, closes, j), '(') == 0 && Count(Rows(rows, closes, j), ')') == 0
  {
    RowsCount(rows, closes, cols, j, '"');
    RowsCount(rows, closes, cols, j, '(');
    RowsCount(rows, closes, cols, j, ')');
  }

  /** The first j operations hold j*cols commas, less one when they end a
      group whose last-element test can hold. */
  lemma RowsCommas(rows: seq<seq<string>>, closes: bool, cols: nat, j: nat)
    requires j <= |rows| && Uniform(rows, cols)
    ensures Count(Rows(rows, closes, j), ',')
         == if closes && j == |rows| && j > 0 && cols > 0 then j * cols - 1 else j * cols
  {
    RowsCount(rows, closes, cols, j, ',');
  }

  /** A group of ops operations of cols literals holds exactly ops*cols quoted
      literals and ops*cols - 1 commas (ops*cols when its last-element test
      never holds), and one parenthesis of each kind. */
  lemma GroupCounts(rows: seq<seq<string>>, closes: bool, cols: nat)
    requires Uniform(rows, cols)
    ensures Count(Group(rows, closes), '"') == 2 * (|rows| * cols)
    ensures Count(Group(rows, closes), ',')
         == if closes && |rows| * cols > 0 then |rows| * cols - 1 else |rows| * cols
    ensures Count(Group(rows, closes), '(') == 1 && Count(Group(rows, closes), ')') == 1
  {
    var body := Rows(rows, closes, |rows|);
    RowsQuotes(rows, closes, cols, |rows|);
    RowsCommas(rows, closes, cols, |rows|);
    if |rows| * cols > 0 {
      assert |rows| > 0 && cols > 0;
    }
    forall ch | ch in {'"', ',', '(', ')'}
      ensures Count(Group(rows, closes), ch) == Count("(", ch) + Count(body, ch) + Count(")", ch)
    {
      CountConcat("(", body, ch);
      CountConcat("(" + body, ")", ch);
    }
  }

  /** The group's last element ends in its closing quote or a line break. */
  lemma LastElementEnd(lit: string, b: nat)
    ensures var e := Element(lit, b, true); |e| > 0 && e[|e| - 1] != ','
  {
    var e := Element(lit, b, true);
    if (b + 1) % 4 == 0 {
      assert e == "\"" + lit + "\"" + "\n";
    } else {
      assert e == "\"" + lit + "\"";
    }
  }

  /** A non-empty group whose last-element test holds does not end its
      element list with a comma: no trailing comma before the parenthesis. */
  lemma NoTrailingComma(rows: seq<seq<string>>, cols: nat)
    requires Uniform(rows, cols) && |rows| > 0 && cols > 0
    ensures var body := Rows(rows, true, |rows|); |body| > 0 && body[|body| - 1] != ','
  {
    var n := |rows|;
    var lits := rows[n - 1];
    var e := Element(lits[cols - 1], cols - 1, true);
    LastElementEnd(lits[cols - 1], cols - 1);
    assert Row(lits, true, cols) == Row(lits, true, cols - 1) + e;
    assert Rows(rows, true, n) == Rows(rows, true, n - 1) + (Row(lits, true, cols - 1) + e);
  }

  lemma SeparatorCount(ch: char)
    requires ch != ',' && ch != '\n'
    ensures Count(",\n", ch) == 0 && Count("", ch) == 0
  {
    var sep := ",\n";
    assert sep[..1] == "," && sep[1] == '\n';
    assert Count(sep, ch) == Count(",", ch);
    assert ","[..0] == "" && ","[0] == ',';
  }

  /** The emitted text holds one parenthesised group per DSP pair. */
  lemma {:induction false} GroupsCounts(groups: seq<seq<seq<string>>>, closes: bool, cols: nat, j: nat)
    requires j <= |groups|
    requires forall c :: 0 <= c < |groups| ==> Uniform(groups[c], cols)
    ensures Count(Groups(groups, closes, j), '(') == j
    ensures Count(Groups(groups, closes, j), ')') == j
  {
    if j > 0 {
      GroupsCounts(groups, closes, cols, j - 1);
      GroupCounts(groups[j - 1], closes, cols);
      var g := Group(groups[j - 1], closes);
      var sep := if j != |groups| then ",\n" else "";
      assert Groups(groups, closes, j) == Groups(groups, closes, j - 1) + g + sep;
      forall ch | ch in {'(', ')'}
        ensures Count(Groups(groups, closes, j), ch) == Count(Groups(groups, closes, j - 1), ch) + 1
      {
        SeparatorCount(ch);
        CountConcat(Groups(groups, closes, j - 1) + g, sep, ch);
        CountConcat(Groups(groups, closes, j - 1), g, ch);
      }
    }
  }
}
