/** The refactored generator modules/fitness/twiddle_generator.py: it reads
    the three parameters from the constants package, fills the twiddle list
    with a last-write-wins k/n loop, encodes each component with
    binary_of_width and emits the DSP-pair groups. The float computation of the
    twiddle and its scaling by 2**precision are the parameter q, which gives
    int(real) and int(imag) of the scaled twiddle of a pair (k, n). */
module TwiddleGenerator {
  import opened Wrappers
  import opened Arith
  import opened Bits
  import opened Text
  import opened TwiddleTable
  import opened Markers
  import Layout

  // ---------------------------------------------------------------------------
  // read_attributes

  datatype Attributes = Attributes(twiddlePrecision: int, dspAmount: nat, transformSize: int)

  /** The exceptions read_attributes can raise, with the index of the line. */
  datatype ReadError =
    | UnpackError(line: nat)        // `[declaration, assignment] = line.split(":=")` on a second ":="
    | BadLiteral(line: nat)         // int(value) raises ValueError
    | NegativeExponent(line: nat)   // 2**int(value) with a negative value is not an integer
    | Unbound(name: string)         // the return reads a local no line assigned

  /** The three locals after some lines; None is a local not yet assigned. */
  datatype Bindings = Bindings(precision: Option<int>, dsp: Option<nat>, size: Option<int>)

  /** A line the loop looks at: it contains both ":=" and ";". */
  predicate Assigns(line: string) {
    Contains(line, ":=") && Contains(line, ";")
  }

  function Declaration(line: string): string {
    Before(line, ":=")
  }

  function Assignment(line: string): string {
    After(line, ":=")
  }

  /** `assignment.split(";")[0]`. */
  function ValueText(line: string): string {
    Before(Assignment(line), ";")
  }

  /** The line splits into exactly two parts and its declaration names the marker. */
  predicate Declares(line: string, m: Marker) {
    Assigns(line) && !Contains(Assignment(line), ":=") && Contains(Declaration(line), MarkerText(m))
  }

  /** The value a declaring line binds for a marker: int(value), or 2**int(value)
      for DFT_LG_DSPS; None when Python would raise instead. */
  function BoundValue(line: string, m: Marker): Option<int> {
    match ParseInt(Python3, ValueText(line))
    case None => None
    case Some(v) =>
      if m == DftLgDsps then (if v >= 0 then Some(Pow2(v) as int) else None)
      else Some(v)
  }

  /** A line on which the loop body raises. */
  predicate Faulty(line: string) {
    Assigns(line) &&
    (Contains(Assignment(line), ":=") ||
     exists m: Marker :: Contains(Declaration(line), MarkerText(m)) && BoundValue(line, m).None?)
  }

  /** The local that `marker` assigns. */
  function FieldOf(b: Bindings, m: Marker): Option<int> {
    match m
    case TwPres => b.precision
    case DftLgDsps => (match b.dsp case None => None case Some(d) => Some(d as int))
    case DftSize => b.size
  }

  function ParseField(v: string, idx: nat): Result<int, ReadError> {
    match ParseInt(Python3, v)
    case None => Err(BadLiteral(idx))
    case Some(x) => Ok(x)
  }

  /** One pass of the loop body over line number idx. */
  function Step(b: Bindings, line: string, idx: nat): Result<Bindings, ReadError> {
    if !Assigns(line) then Ok(b)
    else if Contains(Assignment(line), ":=") then Err(UnpackError(idx))
    else
      var declaration, value := Declaration(line), ValueText(line);
      var b1 :- if Contains(declaration, MarkerText(TwPres)) then
                  var x :- ParseField(value, idx); Ok(b.(precision := Some(x)))
                else Ok(b);
      var b2 :- if Contains(declaration, MarkerText(DftLgDsps)) then
                  var x :- ParseField(value, idx);
                  if x < 0 then Err(NegativeExponent(idx)) else Ok(b1.(dsp := Some(Pow2(x))))
                else Ok(b1);
      if Contains(declaration, MarkerText(DftSize)) then
        var x :- ParseField(value, idx); Ok(b2.(size := Some(x)))
      else Ok(b2)
  }

  /** The loop over all lines, stopping at the first exception. */
  function Scan(lines: seq<string>): Result<Bindings, ReadError> {
    if lines == [] then Ok(Bindings(None, None, None))
    else
      var b :- Scan(lines[..|lines| - 1]);
      Step(b, lines[|lines| - 1], |lines| - 1)
  }

  /** The return statement: the first unassigned local in tuple order raises. */
  function Finish(r: Result<Bindings, ReadError>): Result<Attributes, ReadError> {
    match r
    case Err(e) => Err(e)
    case Ok(b) =>
      if b.precision.None? then Err(Unbound("twiddle_precision"))
      else if b.dsp.None? then Err(Unbound("dsp_amount"))
      else if b.size.None? then Err(Unbound("transform_size"))
      else Ok(Attributes(b.precision.value, b.dsp.value, b.size.value))
  }

  /** read_attributes over the lines of the constants file (the open() is not modelled). */
  method ReadAttributes(lines: seq<string>) returns (r: Result<Attributes, ReadError>)
    ensures r == Finish(Scan(lines))
  {
    var precision: Option<int> := None;
    var dsp: Option<nat> := None;
    var size: Option<int> := None;
    var i := 0;
    while i < |lines|
      invariant 0 <= i <= |lines|
      invariant Scan(lines[..i]) == Ok(Bindings(precision, dsp, size))
    {
      var line := lines[i];
      assert lines[..i + 1][..i] == lines[..i];
      if Contains(line, ":=") && Contains(line, ";") {
        var assignment := After(line, ":=");
        if Contains(assignment, ":=") {
          r := Err(UnpackError(i));
          assert Scan(lines[..i + 1]) == Err(UnpackError(i));
          ScanStopsAtError(lines, i + 1);
          return;
        }
        var declaration := Before(line, ":=");
        var value := Before(assignment, ";");
        var failure: Option<ReadError> := None;
        if Contains(declaration, "TW_PRES") {
          match ParseInt(Python3, value)
          case None => failure := Some(BadLiteral(i));
          case Some(v) => precision := Some(v);
        }
        if failure.None? && Contains(declaration, "DFT_LG_DSPS") {
          match ParseInt(Python3, value)
          case None => failure := Some(BadLiteral(i));
          case Some(v) =>
            if v < 0 {
              failure := Some(NegativeExponent(i));
            } else {
              dsp := Some(Pow2(v));
            }
        }
        if failure.None? && Contains(declaration, "DFT_SIZE") {
          match ParseInt(Python3, value)
          case None => failure := Some(BadLiteral(i));
          case Some(v) => size := Some(v);
        }
        if failure.Some? {
          r := Err(failure.value);
          assert Scan(lines[..i + 1]) == Err(failure.value);
          ScanStopsAtError(lines, i + 1);
          return;
        }
      }
      i := i + 1;
    }
    assert lines[..i] == lines;
    r := Finish(Ok(Bindings(precision, dsp, size)));
  }

  /** Once a line raises, no later line changes the outcome. */
  lemma {:induction false} ScanStopsAtError(lines: seq<string>, i: nat)
    requires i <= |lines| && Scan(lines[..i]).Err?
    ensures Scan(lines) == Scan(lines[..i])
    decreases |lines| - i
  {
    if i < |lines| {
      assert lines[..i + 1][..i] == lines[..i];
      ScanStopsAtError(lines, i + 1);
    } else {
      assert lines[..i] == lines;
    }
  }

  /** What one line does to the locals: the markers its declaration names get
      the line's value, the others keep theirs; it raises exactly when it is Faulty. */
  lemma StepEffect(b: Bindings, line: string, idx: nat)
    ensures Step(b, line, idx).Err? <==> Faulty(line)
    ensures Step(b, line, idx).Err? ==> Step(b, line, idx).error.line == idx
    ensures Step(b, line, idx).Ok? ==>
              forall m: Marker ::
                FieldOf(Step(b, line, idx).value, m) ==
                  if Declares(line, m) then BoundValue(line, m) else FieldOf(b, m)
    ensures Step(b, line, idx).Ok? ==>
              forall m: Marker :: Declares(line, m) ==> BoundValue(line, m).Some?
  {
    if Assigns(line) && !Contains(Assignment(line), ":=") {
      var declaration := Declaration(line);
      if Contains(declaration, MarkerText(TwPres)) && BoundValue(line, TwPres).None? {
        assert Faulty(line);
      } else if Contains(declaration, MarkerText(DftLgDsps)) && BoundValue(line, DftLgDsps).None? {
        assert Faulty(line);
      } else if Contains(declaration, MarkerText(DftSize)) && BoundValue(line, DftSize).None? {
        assert Faulty(line);
      }
    }
  }

  /** Some line of `lines` declares the marker. */
  predicate DeclaredIn(lines: seq<string>, m: Marker) {
    exists i :: 0 <= i < |lines| && Declares(lines[i], m)
  }

  lemma DeclaredInSnoc(lines: seq<string>, m: Marker)
    requires lines != [] && !Declares(lines[|lines| - 1], m)
    ensures DeclaredIn(lines, m) <==> DeclaredIn(lines[..|lines| - 1], m)
    ensures forall i :: 0 <= i < |lines| - 1 ==> lines[i] == lines[..|lines| - 1][i]
  {
    var init := lines[..|lines| - 1];
    if DeclaredIn(lines, m) {
      var i :| 0 <= i < |lines| && Declares(lines[i], m);
      assert Declares(init[i], m);
    }
    if DeclaredIn(init, m) {
      var i :| 0 <= i < |init| && Declares(init[i], m);
      assert Declares(lines[i], m);
    }
  }

  /** Index of the last line that declares the marker. */
  function LastDeclaration(lines: seq<string>, m: Marker): (r: Option<nat>)
    ensures r.Some? ==> r.value < |lines|
  {
    if lines == [] then None
    else if Declares(lines[|lines| - 1], m) then Some(|lines| - 1)
    else LastDeclaration(lines[..|lines| - 1], m)
  }

  /** LastDeclaration is the latest declaring line, and None exactly when no line declares. */
  lemma {:induction false} LastDeclarationIsLatest(lines: seq<string>, m: Marker)
    ensures LastDeclaration(lines, m).None? <==> !DeclaredIn(lines, m)
    ensures LastDeclaration(lines, m).Some? ==>
              var i := LastDeclaration(lines, m).value;
              Declares(lines[i], m) && forall j :: i < j < |lines| ==> !Declares(lines[j], m)
  {
    if lines != [] {
      var n := |lines| - 1;
      if !Declares(lines[n], m) {
        var init := lines[..n];
        LastDeclarationIsLatest(init, m);
        DeclaredInSnoc(lines, m);
      }
    }
  }

  /** The value the last declaring line binds, None when no line declares the marker. */
  function DeclaredValue(lines: seq<string>, m: Marker): Option<int> {
    match LastDeclaration(lines, m)
    case None => None
    case Some(i) => BoundValue(lines[i], m)
  }

  /** read_attributes keeps the value of the LAST line that declares each
      marker; a marker no line declares leaves its local unassigned. */
  lemma {:induction false} ScanLastWins(lines: seq<string>, m: Marker)
    requires Scan(lines).Ok?
    ensures FieldOf(Scan(lines).value, m) == DeclaredValue(lines, m)
  {
    if lines != [] {
      var n := |lines| - 1;
      var init := lines[..n];
      var b := Scan(init).value;
      assert Scan(lines) == Step(b, lines[n], n);
      StepField(b, lines[n], n, m);
      ScanLastWins(init, m);
    }
  }

  /** StepEffect for one marker. */
  lemma StepField(b: Bindings, line: string, idx: nat, m: Marker)
    requires Step(b, line, idx).Ok?
    ensures FieldOf(Step(b, line, idx).value, m) ==
              if Declares(line, m) then BoundValue(line, m) else FieldOf(b, m)
  {
    StepEffect(b, line, idx);
  }

  /** A scan that runs through met no line on which the body raises. */
  lemma {:induction false} OkHasNoFault(lines: seq<string>)
    requires Scan(lines).Ok?
    ensures forall j :: 0 <= j < |lines| ==> !Faulty(lines[j])
  {
    if lines != [] {
      var n := |lines| - 1;
      var init := lines[..n];
      OkHasNoFault(init);
      StepEffect(Scan(init).value, lines[n], n);
      assert forall j :: 0 <= j < n ==> lines[j] == init[j];
    }
  }

  /** The error of a raising scan names a faulty line with no faulty line before it. */
  lemma {:induction false} ScanErrorLine(lines: seq<string>)
    ensures Scan(lines).Err? ==>
              var e := Scan(lines).error;
              !e.Unbound? && e.line < |lines| && Faulty(lines[e.line]) &&
              forall j :: 0 <= j < e.line ==> !Faulty(lines[j])
  {
    if lines != [] {
      var n := |lines| - 1;
      var init := lines[..n];
      assert forall j :: 0 <= j < n ==> lines[j] == init[j];
      if Scan(init).Ok? {
        OkHasNoFault(init);
        StepEffect(Scan(init).value, lines[n], n);
      } else {
        ScanErrorLine(init);
      }
    }
  }

  /** read_attributes raises at the FIRST line that makes the loop body raise,
      and runs through when there is none. */
  lemma ScanFirstFault(lines: seq<string>)
    ensures Scan(lines).Err? <==> exists i :: 0 <= i < |lines| && Faulty(lines[i])
    ensures Scan(lines).Err? ==>
              var e := Scan(lines).error;
              !e.Unbound? && e.line < |lines| && Faulty(lines[e.line]) &&
              forall j :: 0 <= j < e.line ==> !Faulty(lines[j])
  {
    ScanErrorLine(lines);
    if Scan(lines).Ok? {
      OkHasNoFault(lines);
    }
  }

  /** read_attributes returns normally exactly when no line raises and every
      marker is declared; each parameter is then its last declaration's value. */
  lemma ReadAttributesSucceeds(lines: seq<string>)
    ensures Finish(Scan(lines)).Ok? <==>
              (forall i :: 0 <= i < |lines| ==> !Faulty(lines[i])) &&
              forall m: Marker :: DeclaredIn(lines, m)
    ensures Finish(Scan(lines)).Ok? ==>
              var a := Finish(Scan(lines)).value;
              Some(a.twiddlePrecision) == DeclaredValue(lines, TwPres) &&
              Some(a.dspAmount as int) == DeclaredValue(lines, DftLgDsps) &&
              Some(a.transformSize) == DeclaredValue(lines, DftSize)
  {
    ScanFirstFault(lines);
    if Scan(lines).Ok? {
      ScanBindsDeclared(lines, TwPres);
      ScanBindsDeclared(lines, DftLgDsps);
      ScanBindsDeclared(lines, DftSize);
      ScanLastWins(lines, TwPres);
      ScanLastWins(lines, DftLgDsps);
      ScanLastWins(lines, DftSize);
      var b := Scan(lines).value;
      assert forall m: Marker :: DeclaredIn(lines, m) <==> FieldOf(b, m).Some?;
    }
  }

  /** A declaring line that does not raise binds a value. */
  lemma DeclarationBinds(line: string, m: Marker)
    requires Declares(line, m) && !Faulty(line)
    ensures BoundValue(line, m).Some?
  {
  }

  /** When no line raises, a local is assigned exactly when some line declares its marker. */
  lemma ScanBindsDeclared(lines: seq<string>, m: Marker)
    requires Scan(lines).Ok?
    ensures FieldOf(Scan(lines).value, m).Some? <==> DeclaredIn(lines, m)
  {
    ScanFirstFault(lines);
    ScanLastWins(lines, m);
    LastDeclarationIsLatest(lines, m);
    if DeclaredIn(lines, m) {
      var i := LastDeclaration(lines, m).value;
      DeclarationBinds(lines[i], m);
    }
  }

  // ---------------------------------------------------------------------------
  // calculate_twiddles

  /** Writing the columns [0, m) of row k in ascending order; a later write to an
      index overwrites an earlier one. */
  function WriteRowLast(t: seq<Slot>, k: nat, m: nat): (r: seq<Slot>)
    ensures |r| == |t|
  {
    if m == 0 then t
    else
      var prev := WriteRowLast(t, k, m - 1);
      if Key(k, m - 1) < |prev| then prev[Key(k, m - 1) := Tw(k, m - 1)] else prev
  }

  /** The rows [0, rows) of the k/n loop, each over the columns [0, cols). */
  function FillLast(t: seq<Slot>, rows: nat, cols: nat): (r: seq<Slot>)
    ensures |r| == |t|
  {
    if rows == 0 then t else WriteRowLast(FillLast(t, rows - 1, cols), rows - 1, cols)
  }

  lemma {:induction false} WriteRowLastAt(N: nat, t: seq<Slot>, k: nat, m: nat, p: nat)
    requires |t| == TableSize(N) && k < N / 2 && m <= N && p < |t|
    ensures WriteRowLast(t, k, m)[p] ==
              match RowLast(k, m, p) case Some(n) => Tw(k, n) case None => t[p]
  {
    if m > 0 {
      WriteRowLastAt(N, t, k, m - 1, p);
      KeyInTable(N, k, m - 1);
      if k > 0 {
        RowColumn(k, m - 1, p);
      }
    }
  }

  /** The k/n fill of an empty table leaves at each index the latest pair that
      writes it. */
  lemma {:induction false} FillLastIsLastWriter(N: nat, rows: nat, p: nat)
    requires rows <= N / 2 && p < TableSize(N)
    ensures FillLast(EmptyTable(TableSize(N)), rows, N)[p] == LastWriter(rows, N, p)
  {
    if rows > 0 {
      FillLastIsLastWriter(N, rows - 1, p);
      WriteRowLastAt(N, FillLast(EmptyTable(TableSize(N)), rows - 1, N), rows - 1, N, p);
    }
  }

  /** calculate_twiddles(N): a list of N*N/2 zeros, then twiddles[k*n] = twiddle(k, n)
      for k < N/2 and n < N in that order. */
  method CalculateTwiddles(N: nat) returns (twiddles: array<Slot>)
    ensures fresh(twiddles) && twiddles.Length == TableSize(N)
    ensures twiddles[..] == FillLast(EmptyTable(TableSize(N)), N / 2, N)
    ensures forall p :: 0 <= p < twiddles.Length ==> twiddles[p] == LastWriter(N / 2, N, p)
  {
    twiddles := new Slot[TableSize(N)](_ => Empty);
    ghost var empty := EmptyTable(TableSize(N));
    assert twiddles[..] == empty;
    var k := 0;
    while k < N / 2
      invariant 0 <= k <= N / 2
      invariant twiddles[..] == FillLast(empty, k, N)
    {
      var n := 0;
      while n < N
        invariant 0 <= n <= N
        invariant twiddles[..] == WriteRowLast(FillLast(empty, k, N), k, n)
      {
        KeyInTable(N, k, n);
        twiddles[k * n] := Tw(k, n);
        n := n + 1;
      }
      k := k + 1;
    }
    forall p | 0 <= p < twiddles.Length
      ensures twiddles[p] == LastWriter(N / 2, N, p)
    {
      FillLastIsLastWriter(N, N / 2, p);
    }
  }

  // ---------------------------------------------------------------------------
  // binary_of_width and format_twiddle

  /** binary_of_width(number, width): "{0:0<width>b}" of the number, or the
      bitwise complement of that of -1-number for a negative number. */
  function BinaryOfWidth(number: int, width: nat): string {
    if number < 0 then Complement(ZeroPad(ToBinary(-1 - number), width))
    else ZeroPad(ToBinary(number), width)
  }

  /** In range, the encoding has exactly `width` binary digits whose unsigned
      value is the number modulo 2^width. */
  lemma BinaryOfWidthCorrect(x: int, width: nat)
    requires width >= 1 && -(Pow2(width) as int) <= x < Pow2(width)
    ensures |BinaryOfWidth(x, width)| == width && IsBits(BinaryOfWidth(x, width))
    ensures Value(BinaryOfWidth(x, width)) == x % Pow2(width)
  {
    var P := Pow2(width);
    ModInRange(x, P);
    if x < 0 {
      var padded := ZeroPad(ToBinary(-1 - x), width);
      ZeroPadBinary(-1 - x, width);
      ComplementValue(padded);
    } else {
      ZeroPadBinary(x, width);
    }
  }

  /** Decoding the encoding as a width-bit two's-complement number gives the
      number back, for every number the width can represent. */
  lemma BinaryOfWidthRoundTrip(x: int, width: nat)
    requires width >= 1 && -(Pow2(width - 1) as int) <= x < Pow2(width - 1)
    ensures Signed(BinaryOfWidth(x, width)) == x
  {
    var P, H := Pow2(width), Pow2(width - 1);
    assert P == 2 * H;
    BinaryOfWidthCorrect(x, width);
    ModInRange(x, P);
    LeadingDigit(BinaryOfWidth(x, width));
  }

  /** Out of range the encoding is wider than `width`: the overflow is not caught. */
  lemma BinaryOfWidthOverflow(x: int, width: nat)
    requires width >= 1 && (x >= Pow2(width) || x < -(Pow2(width) as int))
    ensures |BinaryOfWidth(x, width)| > width
  {
    var m := if x < 0 then -1 - x else x;
    ToBinaryFits(m, width);
  }

  /** The 8-bit instance: every x in [-128, 127] comes back, 0 is eight '0's
      and -1 is eight '1's. */
  lemma EightBitEncoding(x: int)
    requires -128 <= x <= 127
    ensures |BinaryOfWidth(x, 8)| == 8 && Signed(BinaryOfWidth(x, 8)) == x
    ensures BinaryOfWidth(0, 8) == "00000000" && BinaryOfWidth(-1, 8) == "11111111"
  {
    assert Pow2(8) == 256 && Pow2(7) == 128;
    BinaryOfWidthCorrect(x, 8);
    BinaryOfWidthRoundTrip(x, 8);
    assert ToBinary(0) == "0";
    assert ZeroPad("0", 8) == "00000000";
  }

  /** The integer part of format_twiddle: the real and imaginary parts, already
      scaled and truncated, each as binary_of_width(·, 8). */
  function FormatTwiddle(parts: (int, int)): (string, string) {
    (BinaryOfWidth(parts.0, 8), BinaryOfWidth(parts.1, 8))
  }

  lemma FormatTwiddleRoundTrip(parts: (int, int))
    requires -128 <= parts.0 <= 127 && -128 <= parts.1 <= 127
    ensures |FormatTwiddle(parts).0| == 8 && |FormatTwiddle(parts).1| == 8
    ensures Signed(FormatTwiddle(parts).0) == parts.0 && Signed(FormatTwiddle(parts).1) == parts.1
  {
    EightBitEncoding(parts.0);
    EightBitEncoding(parts.1);
  }

  lemma FormatTwiddleIsBits(parts: (int, int))
    ensures IsBits(FormatTwiddle(parts).0 + FormatTwiddle(parts).1)
  {
    ToBinaryCorrect(if parts.0 < 0 then -1 - parts.0 else parts.0);
    ToBinaryCorrect(if parts.1 < 0 then -1 - parts.1 else parts.1);
  }

  // ---------------------------------------------------------------------------
  // emission

  /** The 16 characters between the quotes of one element. */
  function Literal(s: Slot, q: (nat, nat) -> (int, int)): string {
    var parts := FormatTwiddle(Quantized(s, q));
    parts.0 + parts.1
  }

  /** The literals of operation a of DSP pair c: element b reads table index
      (a*half + c)*b, where half = dsp/2. */
  function RowLiterals(table: seq<Slot>, q: (nat, nat) -> (int, int), N: nat, half: nat, c: nat, a: nat): (r: seq<string>)
    ensures |r| == N
  {
    seq(N, b requires 0 <= b < N => Literal(Lookup(table, Key(Layout.RowIndex(a, c, half), b)), q))
  }

  /** The literals of DSP pair c, one row per operation a < N/dsp. */
  function GroupLiterals(table: seq<Slot>, q: (nat, nat) -> (int, int), N: nat, dsp: nat, c: nat): (r: seq<seq<string>>)
    requires dsp >= 1
    ensures |r| == N / dsp
  {
    seq(N / dsp, a requires 0 <= a < N / dsp => RowLiterals(table, q, N, dsp / 2, c, a))
  }

  /** All dsp/2 groups. */
  function Emission(table: seq<Slot>, q: (nat, nat) -> (int, int), N: nat, dsp: nat): (r: seq<seq<seq<string>>>)
    requires dsp >= 1
    ensures |r| == dsp / 2
  {
    seq(dsp / 2, c requires 0 <= c < dsp / 2 => GroupLiterals(table, q, N, dsp, c))
  }

  /** The test `a == operations_per_dsp - 1` on the float N/dsp: it holds
      exactly when (a + 1)*dsp == N, so never when dsp does not divide N. */
  lemma LastOperationTest(N: nat, dsp: nat, a: nat)
    requires dsp >= 1
    ensures (a + 1) * dsp == N <==> N % dsp == 0 && a + 1 == N / dsp
  {
    if (a + 1) * dsp == N {
      DivModUnique(N, dsp, a + 1, 0);
    }
    if N % dsp == 0 && a + 1 == N / dsp {
      assert N == dsp * (N / dsp) + N % dsp;
    }
  }

  /** The body of the loop over b: the element that sample b of operation a of
      DSP pair c adds, which reads an index inside the table. */
  method EmitElement(table: seq<Slot>, q: (nat, nat) -> (int, int), N: nat, dsp: nat, c: nat, a: nat, b: nat)
    returns (element: string)
    requires |table| == TableSize(N)
    requires dsp >= 2 && dsp % 2 == 0 && a < N / dsp && c < dsp / 2 && b < N
    ensures Key(Layout.RowIndex(a, c, dsp / 2), b) < |table|
    ensures element == Layout.Element(Literal(table[Key(Layout.RowIndex(a, c, dsp / 2), b)], q), b,
                                      N % dsp == 0 && a + 1 == N / dsp && b + 1 == N)
  {
    Layout.LookupInTable(N, dsp, a, c, b);
    Layout.RowsCoverHalf(a, dsp);
    LastOperationTest(N, dsp, a);
    var x := (a * dsp / 2 + c) * b;
    assert x == Key(Layout.RowIndex(a, c, dsp / 2), b);
    var twiddle := if table[x].Tw? then table[x] else Empty;
    var parts := FormatTwiddle(Quantized(twiddle, q));
    var realBits, imagBits := parts.0, parts.1;
    var digits := realBits + imagBits;
    assert twiddle == table[x] && digits == Literal(table[x], q);
    element := "\"" + digits + "\"";
    if !(b == N - 1 && (a + 1) * dsp == N) {
      element := element + ",";
    }
    if (b + 1) % 4 == 0 {
      element := element + "\n";
    }
  }

  /** The loop over b: the row of operation a of DSP pair c. */
  method EmitRow(table: seq<Slot>, q: (nat, nat) -> (int, int), N: nat, dsp: nat, c: nat, a: nat)
    returns (text: string)
    requires |table| == TableSize(N)
    requires dsp >= 2 && dsp % 2 == 0 && a < N / dsp && c < dsp / 2
    ensures text == Layout.Row(RowLiterals(table, q, N, dsp / 2, c, a), N % dsp == 0 && a + 1 == N / dsp, N)
  {
    ghost var lits := RowLiterals(table, q, N, dsp / 2, c, a);
    ghost var final := N % dsp == 0 && a + 1 == N / dsp;
    text := "";
    var b := 0;
    while b < N
      invariant 0 <= b <= N
      invariant text == Layout.Row(lits, final, b)
    {
      var element := EmitElement(table, q, N, dsp, c, a, b);
      assert lits[b] == Literal(table[Key(Layout.RowIndex(a, c, dsp / 2), b)], q);
      Layout.RowStep(lits, final, b);
      text := text + element;
      b := b + 1;
    }
  }

  /** One pass of the loop over c: the parenthesised group of DSP pair c. */
  method EmitGroup(table: seq<Slot>, q: (nat, nat) -> (int, int), N: nat, dsp: nat, c: nat)
    returns (text: string)
    requires |table| == TableSize(N)
    requires dsp >= 2 && dsp % 2 == 0 && c < dsp / 2
    ensures text == Layout.Group(GroupLiterals(table, q, N, dsp, c), N % dsp == 0)
  {
    ghost var rows := GroupLiterals(table, q, N, dsp, c);
    var ops := N / dsp;
    var elements := "";
    var a := 0;
    while a < ops
      invariant 0 <= a <= ops
      invariant elements == Layout.Rows(rows, N % dsp == 0, a)
    {
      var row := EmitRow(table, q, N, dsp, c, a);
      Layout.RowsStep(rows, N % dsp == 0, a);
      elements := elements + row;
      a := a + 1;
    }
    text := "(" + elements + ")";
  }

  /** The loops at the end of the script, without the fixed header and footer. */
  method EmitTwiddles(table: seq<Slot>, q: (nat, nat) -> (int, int), N: nat, dsp: nat) returns (output: string)
    requires |table| == TableSize(N)
    requires dsp >= 1 && (dsp == 1 || dsp % 2 == 0)
    ensures output == Layout.Groups(Emission(table, q, N, dsp), N % dsp == 0, dsp / 2)
  {
    var half := dsp / 2;
    ghost var groups := Emission(table, q, N, dsp);
    ghost var closes := N % dsp == 0;
    ghost var texts := seq(half, c requires 0 <= c < half => Layout.Group(groups[c], closes));
    output := "";
    var c := 0;
    while c < half
      invariant 0 <= c <= half
      invariant output == Layout.Join(texts, c)
    {
      var group := EmitGroup(table, q, N, dsp, c);
      assert group == texts[c];
      Layout.JoinStep(texts, c);
      output := output + group;
      if c != half - 1 {
        output := output + ",\n";
      }
      assert output == Layout.Join(texts, c + 1);
      c := c + 1;
    }
    Layout.JoinGroups(groups, closes, texts, half);
  }

  // ---------------------------------------------------------------------------
  // properties of the emitted text

  /** A falsy slot is emitted as complex(0, 0): sixteen '0' characters. */
  lemma EmptySlotLiteral(q: (nat, nat) -> (int, int))
    ensures Literal(Empty, q) == Repeat('0', 16)
  {
    assert ToBinary(0) == "0";
    assert ZeroPad("0", 8) == Repeat('0', 8);
    assert Repeat('0', 8) + Repeat('0', 8) == Repeat('0', 16);
  }

  /** Every literal is a digit string; when both scaled parts fit in 8 bits it
      has 16 characters whose halves decode back to the parts. */
  lemma LiteralShape(s: Slot, q: (nat, nat) -> (int, int))
    ensures IsBits(Literal(s, q))
    ensures var parts := Quantized(s, q);
            -128 <= parts.0 <= 127 && -128 <= parts.1 <= 127 ==>
              |Literal(s, q)| == 16 &&
              Signed(Literal(s, q)[..8]) == parts.0 && Signed(Literal(s, q)[8..]) == parts.1
  {
    var parts := Quantized(s, q);
    FormatTwiddleIsBits(parts);
    if -128 <= parts.0 <= 127 && -128 <= parts.1 <= 127 {
      FormatTwiddleRoundTrip(parts);
      var lit := Literal(s, q);
      assert lit[..8] == FormatTwiddle(parts).0;
      assert lit[8..] == FormatTwiddle(parts).1;
    }
  }

  /** Group c holds N/dsp operations of N digit-string literals each. */
  lemma GroupUniform(table: seq<Slot>, q: (nat, nat) -> (int, int), N: nat, dsp: nat, c: nat)
    requires dsp >= 1
    ensures Layout.Uniform(GroupLiterals(table, q, N, dsp, c), N)
  {
    var rows := GroupLiterals(table, q, N, dsp, c);
    forall a, b | 0 <= a < |rows| && 0 <= b < N
      ensures IsBits(rows[a][b])
    {
      LiteralShape(Lookup(table, Key(Layout.RowIndex(a, c, dsp / 2), b)), q);
    }
  }

  /** Each DSP pair's group holds exactly ops*N quoted literals, where
      ops = N/dsp, separated by ops*N - 1 commas (every element carries one when
      dsp does not divide N), inside one pair of parentheses; the whole text
      holds dsp/2 groups. */
  lemma EmissionCounts(table: seq<Slot>, q: (nat, nat) -> (int, int), N: nat, dsp: nat, c: nat)
    requires dsp >= 1 && c < dsp / 2
    ensures var g := Layout.Group(Emission(table, q, N, dsp)[c], N % dsp == 0);
            var cells := (N / dsp) * N;
            Layout.Count(g, '"') == 2 * cells &&
            Layout.Count(g, ',') == (if N % dsp == 0 && cells > 0 then cells - 1 else cells) &&
            Layout.Count(g, '(') == 1 && Layout.Count(g, ')') == 1
    ensures Layout.Count(Layout.Groups(Emission(table, q, N, dsp), N % dsp == 0, dsp / 2), '(') == dsp / 2
  {
    var groups := Emission(table, q, N, dsp);
    forall c' | 0 <= c' < |groups|
      ensures Layout.Uniform(groups[c'], N)
    {
      GroupUniform(table, q, N, dsp, c');
    }
    Layout.GroupCounts(groups[c], N % dsp == 0, N);
    Layout.GroupsCounts(groups, N % dsp == 0, N, dsp / 2);
  }

  /** Applied to the list calculate_twiddles builds, element b of operation a
      in group c shows the latest pair (k', n') whose product is the index
      (a*(dsp/2) + c)*b, or sixteen '0's when no pair has that product. */
  lemma EmittedTwiddle(q: (nat, nat) -> (int, int), N: nat, dsp: nat, table: seq<Slot>, c: nat, a: nat, b: nat)
    requires |table| == TableSize(N)
    requires forall p :: 0 <= p < |table| ==> table[p] == LastWriter(N / 2, N, p)
    requires dsp >= 2 && dsp % 2 == 0 && c < dsp / 2 && a < N / dsp && b < N
    ensures var x := Key(Layout.RowIndex(a, c, dsp / 2), b);
            Emission(table, q, N, dsp)[c][a][b] == Literal(LastWriter(N / 2, N, x), q)
  {
    Layout.LookupInTable(N, dsp, a, c, b);
  }
  /** When dsp divides N the last-element test holds, so a non-empty group
      does not end its element list with a comma. */
  lemma EmissionNoTrailingComma(table: seq<Slot>, q: (nat, nat) -> (int, int), N: nat, dsp: nat, c: nat)
    requires dsp >= 1 && c < dsp / 2 && N % dsp == 0 && N / dsp > 0 && N > 0
    ensures var rows := Emission(table, q, N, dsp)[c];
            var body := Layout.Rows(rows, N % dsp == 0, |rows|);
            |body| > 0 && body[|body| - 1] != ','
  {
    GroupUniform(table, q, N, dsp, c);
    Layout.NoTrailingComma(Emission(table, q, N, dsp)[c], N);
  }
  /** With DFT_LG_DSPS = 1 (dsp = 2) and DFT_SIZE = 8 there is one group of
      4 operations holding 4*8 = 32 quoted literals and 31 commas. */
  lemma SmallConfigurationShape(table: seq<Slot>, q: (nat, nat) -> (int, int))
    ensures |Emission(table, q, 8, 2)| == 1 && |Emission(table, q, 8, 2)[0]| == 4
    ensures var g := Layout.Group(Emission(table, q, 8, 2)[0], true);
            Layout.Count(g, '"') == 64 && Layout.Count(g, ',') == 31
  {
    EmissionCounts(table, q, 8, 2, 0);
  }
}
