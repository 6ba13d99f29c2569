/** The original script twgen.py (Python 2): it scans the constants package
    for the three parameters, keeping the first non-zero value of each, fills
    the flat table through the memoizing w(i, j) (the first write to an index
    wins), encodes each component with bin(), '0'-padding to 8 digits and
    negate() for negative ones, and emits the DSP-pair groups. The float
    twiddle scaled by 2**PRES is the parameter q, which gives
    (int(cos(...)*point), -int(sin(...)*point)) of a pair (i, j). */
module Twgen {
  import opened Wrappers
  import opened Arith
  import opened Bits
  import opened Text
  import opened TwiddleTable
  import opened Markers
  import Layout
  import TwiddleGenerator

  // ---------------------------------------------------------------------------
  // the parameter scan

  /** The globals after the scan. DSPS is 2**lgDsps; it is kept as its
      exponent because a negative exponent makes it a float. */
  datatype Parameters = Parameters(precision: int, lgDsps: int, size: int)

  datatype ScanError =
    | BadLiteral(line: nat)   // int(...) raises ValueError on line `line`
    | Unbound(name: string)   // N/DSPS or 2**PRES on a global still None

  /** PRES, the exponent of DSPS and N; None is a global still None. */
  datatype Bindings = Bindings(precision: Option<int>, lgDsps: Option<int>, size: Option<int>)

  /** `l.split(":=")[1].split(";")[0]`. */
  function ValueText(line: string): string {
    Before(Before(After(line, ":="), ":="), ";")
  }

  /** The line holds ":=" and the marker's name anywhere. */
  predicate Mentions(line: string, m: Marker) {
    Contains(line, ":=") && Contains(line, MarkerText(m))
  }

  function FieldOf(b: Bindings, m: Marker): Option<int> {
    match m
    case TwPres => b.precision
    case DftLgDsps => b.lgDsps
    case DftSize => b.size
  }

  /** The global is truthy, so `not X` skips later lines: PRES and N when
      bound to a non-zero value, DSPS = 2**v whenever it is bound. */
  predicate Settled(b: Bindings, m: Marker) {
    FieldOf(b, m).Some? && (m == DftLgDsps || FieldOf(b, m).value != 0)
  }

  /** The loop body looks at the line for the marker's global: the line
      mentions it and the global is not yet settled. */
  predicate LooksAt(b: Bindings, line: string, m: Marker) {
    Mentions(line, m) && !Settled(b, m)
  }

  /** The line raises: it is looked at for some global and int() rejects its
      value text. */
  predicate Raises(b: Bindings, line: string) {
    ParseInt(Python2, ValueText(line)).None? && exists m: Marker :: LooksAt(b, line, m)
  }

  /** The global after the line: its value when the line is looked at for it. */
  function Update(b: Bindings, line: string, m: Marker): Option<int> {
    if LooksAt(b, line, m) then ParseInt(Python2, ValueText(line)) else FieldOf(b, m)
  }

  /** One pass of the loop body over line number idx. The three tests only
      read their own global, so their order decides nothing but which of
      them raises. */
  function Step(b: Bindings, line: string, idx: nat): Result<Bindings, ScanError> {
    if Raises(b, line) then Err(BadLiteral(idx))
    else Ok(Bindings(Update(b, line, TwPres), Update(b, line, DftLgDsps), Update(b, line, DftSize)))
  }

  /** The loop over all lines, stopped by the first exception. */
  function Scan(lines: seq<string>): Result<Bindings, ScanError> {
    if lines == [] then Ok(Bindings(None, None, None))
    else
      var b :- Scan(lines[..|lines| - 1]);
      Step(b, lines[|lines| - 1], |lines| - 1)
  }

  /** The statements after the loop: `N/DSPS` raises when N, then when DSPS, is
      still None, and `2**PRES` when PRES is. */
  function Finish(r: Result<Bindings, ScanError>): Result<Parameters, ScanError> {
    match r
    case Err(e) => Err(e)
    case Ok(b) =>
      if b.size.None? then Err(Unbound("N"))
      else if b.lgDsps.None? then Err(Unbound("DSPS"))
      else if b.precision.None? then Err(Unbound("PRES"))
      else Ok(Parameters(b.precision.value, b.lgDsps.value, b.size.value))
  }

  /** One statement of the loop body, `if((not X) and "NAME" in l): X = int(value)`,
      on a line holding ":=": the global's new value, or the ValueError. The
      three statements read only their own global, so each may start from the
      globals as they were before the line. */
  method Assign(b: Bindings, m: Marker, l: string, value: string, idx: nat)
    returns (x: Option<int>, failure: Option<ScanError>)
    requires Contains(l, ":=") && value == ValueText(l)
    ensures failure.Some? <==> LooksAt(b, l, m) && ParseInt(Python2, ValueText(l)).None?
    ensures failure.Some? ==> failure.value == BadLiteral(idx) && Raises(b, l)
    ensures failure.None? ==> x == Update(b, l, m)
  {
    x := FieldOf(b, m);
    failure := None;
    var truthy := x.Some? && (m == DftLgDsps || x.value != 0);
    if !truthy && Contains(l, MarkerText(m)) {
      match ParseInt(Python2, value)
      case None =>
        failure := Some(BadLiteral(idx));
        RaisesAt(b, l, m);
      case Some(v) =>
        x := Some(v);
    }
  }

  /** The body of the scan loop for line number idx. */
  method ScanLine(current: Bindings, l: string, idx: nat) returns (next: Result<Bindings, ScanError>)
    ensures next == Step(current, l, idx)
  {
    if !Contains(l, ":=") {
      StepEffect(current, l, idx);
      return Ok(current);
    }
    var value := Before(Before(After(l, ":="), ":="), ";");
    var pres, lgDsps, size: Option<int>;
    var failure: Option<ScanError>;
    pres, failure := Assign(current, TwPres, l, value, idx);
    if failure.None? {
      lgDsps, failure := Assign(current, DftLgDsps, l, value, idx);
    }
    if failure.None? {
      size, failure := Assign(current, DftSize, l, value, idx);
    }
    if failure.Some? {
      return Err(failure.value);
    }
    NoRaise(current, l);
    next := Ok(Bindings(pres, lgDsps, size));
  }

  /** The scan at the top of the script, over the lines of the constants file. */
  method ReadParameters(lines: seq<string>) returns (r: Result<Parameters, ScanError>)
    ensures r == Finish(Scan(lines))
  {
    var pres: Option<int> := None;
    var lgDsps: Option<int> := None;
    var size: Option<int> := None;
    var i := 0;
    while i < |lines|
      invariant 0 <= i <= |lines|
      invariant Scan(lines[..i]) == Ok(Bindings(pres, lgDsps, size))
    {
      assert lines[..i + 1][..i] == lines[..i];
      var next := ScanLine(Bindings(pres, lgDsps, size), lines[i], i);
      assert Scan(lines[..i + 1]) == next;
      if next.Err? {
        ScanStopsAtError(lines, i + 1);
        return Err(next.error);
      }
      pres, lgDsps, size := next.value.precision, next.value.lgDsps, next.value.size;
      i := i + 1;
    }
    assert lines[..i] == lines;
    r := Finish(Ok(Bindings(pres, lgDsps, size)));
  }

  /** Once a line raises, no later line changes the outcome. */
  lemma {:induction false} ScanStopsAtError(lines: seq<string>, i: nat)
    requires i <= |lines| && Scan(lines[..i]).Err?
    ensures Scan(lines) == Scan(lines[..i])
    decreases |lines| - i
  {
    if i < |lines| {
      assert lines[..i + 1][..i] == lines[..i];
      ScanStopsAtError(lines, i + 1);
    } else {
      assert lines[..i] == lines;
    }
  }

  lemma RaisesAt(b: Bindings, line: string, m: Marker)
    requires ParseInt(Python2, ValueText(line)).None? && LooksAt(b, line, m)
    ensures Raises(b, line)
  {
  }

  lemma NoRaise(b: Bindings, line: string)
    requires ParseInt(Python2, ValueText(line)).None? ==>
               !LooksAt(b, line, TwPres) && !LooksAt(b, line, DftLgDsps) && !LooksAt(b, line, DftSize)
    ensures !Raises(b, line)
  {
  }

  /** Step unfolded for one line: every global it is looked at for takes the line's
      value, every other global keeps its value, and a line that int()
      rejects raises when it is looked at for any global. */
  lemma StepEffect(b: Bindings, line: string, idx: nat)
    ensures Step(b, line, idx).Err? <==> Raises(b, line)
    ensures Step(b, line, idx).Err? ==> Step(b, line, idx).error == BadLiteral(idx)
    ensures Step(b, line, idx).Ok? ==>
              forall m: Marker :: FieldOf(Step(b, line, idx).value, m) == Update(b, line, m)
    ensures !Contains(line, ":=") ==> Step(b, line, idx) == Ok(b)
  {
  }

  /** The global after a line that does not raise. */
  lemma StepField(b: Bindings, line: string, idx: nat, m: Marker)
    requires Step(b, line, idx).Ok?
    ensures FieldOf(Step(b, line, idx).value, m) == Update(b, line, m)
  {
  }

  /** The line settles the marker's global when it is looked at for it. */
  predicate Settles(line: string, m: Marker) {
    Mentions(line, m) && ParseInt(Python2, ValueText(line)).Some? &&
    (m == DftLgDsps || ParseInt(Python2, ValueText(line)).value != 0)
  }

  /** Index of the first line that settles the marker. */
  function FirstSettling(lines: seq<string>, m: Marker): (r: Option<nat>)
    ensures r.Some? ==> r.value < |lines|
  {
    if lines == [] then None
    else if FirstSettling(lines[..|lines| - 1], m).Some? then FirstSettling(lines[..|lines| - 1], m)
    else if Settles(lines[|lines| - 1], m) then Some(|lines| - 1)
    else None
  }

  /** FirstSettling is the earliest settling line, and None when no line settles. */
  lemma {:induction false} FirstSettlingIsFirst(lines: seq<string>, m: Marker)
    ensures FirstSettling(lines, m).Some? ==>
              var i := FirstSettling(lines, m).value;
              Settles(lines[i], m) && forall j :: 0 <= j < i ==> !Settles(lines[j], m)
    ensures FirstSettling(lines, m).None? ==> forall j :: 0 <= j < |lines| ==> !Settles(lines[j], m)
  {
    if lines != [] {
      var n := |lines| - 1;
      var init := lines[..n];
      FirstSettlingIsFirst(init, m);
      match FirstSettling(init, m)
      case Some(i) =>
        assert FirstSettling(lines, m) == Some(i);
        assert lines[i] == init[i];
        forall j | 0 <= j < i
          ensures !Settles(lines[j], m)
        {
          assert lines[j] == init[j];
        }
      case None =>
        assert FirstSettling(lines, m) == if Settles(lines[n], m) then Some(n) else None;
        forall j | 0 <= j < n
          ensures !Settles(lines[j], m)
        {
          assert lines[j] == init[j];
        }
    }
  }

  /** Some line mentions the marker. */
  predicate MentionedIn(lines: seq<string>, m: Marker) {
    exists i :: 0 <= i < |lines| && Mentions(lines[i], m)
  }

  lemma MentionedInSnoc(lines: seq<string>, m: Marker)
    requires lines != []
    ensures MentionedIn(lines, m) <==>
              MentionedIn(lines[..|lines| - 1], m) || Mentions(lines[|lines| - 1], m)
  {
    var n := |lines| - 1;
    var init := lines[..n];
    if MentionedIn(init, m) {
      var j :| 0 <= j < n && Mentions(init[j], m);
      assert lines[j] == init[j];
    }
    if MentionedIn(lines, m) && !Mentions(lines[n], m) {
      var j :| 0 <= j < |lines| && Mentions(lines[j], m);
      assert lines[j] == init[j];
    }
  }

  /** The scan keeps the FIRST settling value of each global: the value of the
      first line that mentions it with a non-zero value (any value for
      DFT_LG_DSPS). Without such a line the global is 0 when some line
      mentions it, and None when none does. */
  lemma {:induction false} ScanFirstWins(lines: seq<string>, m: Marker)
    requires Scan(lines).Ok?
    ensures FieldOf(Scan(lines).value, m) ==
              match FirstSettling(lines, m)
              case Some(i) => ParseInt(Python2, ValueText(lines[i]))
              case None => if MentionedIn(lines, m) then Some(0) else None
    ensures m == DftLgDsps && MentionedIn(lines, m) ==> FirstSettling(lines, m).Some?
  {
    if lines != [] {
      var n := |lines| - 1;
      var init, last := lines[..n], lines[n];
      var b := Scan(init).value;
      assert Scan(lines) == Step(b, last, n);
      StepField(b, last, n, m);
      ScanFirstWins(init, m);
      MentionedInSnoc(lines, m);
      match FirstSettling(init, m)
      case Some(i) =>
        FirstSettlingIsFirst(init, m);
        assert lines[i] == init[i];
        assert Settled(b, m);
      case None =>
        assert !Settled(b, m);
        if Mentions(last, m) {
          assert LooksAt(b, last, m);
          assert ParseInt(Python2, ValueText(last)).Some?;
        }
    }
  }

  /** A line that Raises for the globals the lines before it left makes the
      whole scan raise. */
  lemma RaisingLineStops(lines: seq<string>, i: nat)
    requires i < |lines| && Scan(lines[..i]).Ok? && Raises(Scan(lines[..i]).value, lines[i])
    ensures Scan(lines).Err?
  {
    var upto := lines[..i + 1];
    assert upto[..i] == lines[..i] && upto[i] == lines[i];
    assert Scan(upto) == Step(Scan(lines[..i]).value, lines[i], i);
    ScanStopsAtError(lines, i + 1);
  }

  /** The error of a raising scan names a line that Raises for the globals the
      lines before it left. */
  lemma {:induction false} ScanErrorLine(lines: seq<string>)
    ensures Scan(lines).Err? ==>
              var e := Scan(lines).error;
              e.BadLiteral? && e.line < |lines| && Scan(lines[..e.line]).Ok? &&
              Raises(Scan(lines[..e.line]).value, lines[e.line])
  {
    if lines != [] {
      var n := |lines| - 1;
      var init := lines[..n];
      ScanErrorLine(init);
      if Scan(init).Ok? {
        StepEffect(Scan(init).value, lines[n], n);
      } else {
        var e := Scan(init).error;
        assert lines[..e.line] == init[..e.line];
        assert lines[e.line] == init[e.line];
      }
    }
  }

  /** The scan raises at the first line that Raises for the globals the lines
      before it left, and runs through when there is no such line. */
  lemma ScanFirstFault(lines: seq<string>)
    ensures Scan(lines).Err? ==>
              var e := Scan(lines).error;
              e.BadLiteral? && e.line < |lines| && Scan(lines[..e.line]).Ok? &&
              Raises(Scan(lines[..e.line]).value, lines[e.line])
    ensures Scan(lines).Err? <==>
              exists i :: 0 <= i < |lines| && Scan(lines[..i]).Ok? && Raises(Scan(lines[..i]).value, lines[i])
  {
    ScanErrorLine(lines);
    if exists i :: 0 <= i < |lines| && Scan(lines[..i]).Ok? && Raises(Scan(lines[..i]).value, lines[i]) {
      var i :| 0 <= i < |lines| && Scan(lines[..i]).Ok? && Raises(Scan(lines[..i]).value, lines[i]);
      RaisingLineStops(lines, i);
    }
  }

  /** Once every global is settled no later line can change or break the scan,
      not even one that int() would reject. */
  lemma {:induction false} ScanIgnoresSettled(lines: seq<string>, more: seq<string>)
    requires Scan(lines).Ok? && forall m: Marker :: Settled(Scan(lines).value, m)
    ensures Scan(lines + more) == Scan(lines)
  {
    if more != [] {
      var k := |more| - 1;
      ScanIgnoresSettled(lines, more[..k]);
      assert (lines + more)[..|lines + more| - 1] == lines + more[..k];
      var b := Scan(lines).value;
      StepEffect(b, more[k], |lines| + k);
    } else {
      assert lines + more == lines;
    }
  }

  // ---------------------------------------------------------------------------
  // the memo table lz and w(i, j)

  /** The table after w(i, j) wrote index i*j: only a falsy slot is written. */
  function Memoize(t: seq<Slot>, i: nat, j: nat): (r: seq<Slot>)
    requires Key(i, j) < |t|
    ensures |r| == |t|
  {
    if t[Key(i, j)].Empty? then t[Key(i, j) := Tw(i, j)] else t
  }

  /** w(i, j) leaves every other index alone, and index i*j holds Tw(i, j)
      exactly when it was falsy before; otherwise it keeps its pair. */
  lemma MemoizeEffect(t: seq<Slot>, i: nat, j: nat)
    requires Key(i, j) < |t|
    ensures forall p :: 0 <= p < |t| && p != Key(i, j) ==> Memoize(t, i, j)[p] == t[p]
    ensures Memoize(t, i, j)[Key(i, j)].Tw?
    ensures Memoize(t, i, j)[Key(i, j)] == Tw(i, j) <==> (t[Key(i, j)].Empty? || t[Key(i, j)] == Tw(i, j))
  {
  }

  /** The inner loop over j < m for one i, skipping no index: an index out of
      range stops the script (see Memo.Fill), so it is left as it is here. */
  function MemoRow(t: seq<Slot>, i: nat, m: nat): (r: seq<Slot>)
    ensures |r| == |t|
  {
    if m == 0 then t
    else
      var prev := MemoRow(t, i, m - 1);
      if Key(i, m - 1) < |prev| then Memoize(prev, i, m - 1) else prev
  }

  /** The loops over i < rows and j < cols of the fill. */
  function FillFirst(t: seq<Slot>, rows: nat, cols: nat): (r: seq<Slot>)
    ensures |r| == |t|
  {
    if rows == 0 then t else MemoRow(FillFirst(t, rows - 1, cols), rows - 1, cols)
  }

  lemma {:induction false} MemoRowAt(t: seq<Slot>, i: nat, m: nat, p: nat)
    requires p < |t|
    ensures MemoRow(t, i, m)[p] ==
              if t[p].Tw? then t[p]
              else match RowFirst(i, m, p) case Some(n) => Tw(i, n) case None => t[p]
  {
    if m > 0 {
      MemoRowAt(t, i, m - 1, p);
      if i > 0 {
        RowColumn(i, m - 1, p);
      }
    }
  }

  /** The fill of an all-falsy table leaves at each index the earliest pair
      that writes it. */
  lemma {:induction false} FillFirstIsFirstWriter(N: nat, rows: nat, p: nat)
    requires p < TableSize(N)
    ensures FillFirst(EmptyTable(TableSize(N)), rows, N)[p] == FirstWriter(rows, N, p)
  {
    if rows > 0 {
      FillFirstIsFirstWriter(N, rows - 1, p);
      MemoRowAt(FillFirst(EmptyTable(TableSize(N)), rows - 1, N), rows - 1, N, p);
    }
  }

  /** The global list lz with the closure w over it. */
  class Memo {
    const n: nat
    const lz: array<Slot>

    predicate Valid() {
      lz.Length == TableSize(n)
    }

    /** `lz = [False]*(N*N/2)`. */
    constructor (N: nat)
      ensures n == N && Valid() && fresh(lz)
      ensures lz[..] == EmptyTable(TableSize(N))
    {
      n := N;
      lz := new Slot[TableSize(N)](_ => Empty);
    }

    /** w(i, j): index i*j is written when it is falsy, and the entry it then
        holds is returned; None is the IndexError of an index past the end. */
    method W(i: nat, j: nat) returns (entry: Option<Slot>)
      modifies lz
      ensures Key(i, j) < lz.Length ==> lz[..] == Memoize(old(lz[..]), i, j) && entry == Some(lz[Key(i, j)])
      ensures Key(i, j) >= lz.Length ==> lz[..] == old(lz[..]) && entry.None?
    {
      var x := i * j;
      if x >= lz.Length {
        return None;
      }
      if lz[x].Empty? {
        lz[x] := Tw(i, j);
      }
      entry := Some(lz[x]);
    }

    /** The loops over i <= N/2 and j < N calling w(i, j). Every call stays
        inside the table except for N = 1, where the first call raises
        (false) before anything is written. */
    method Fill() returns (ok: bool)
      requires Valid()
      modifies lz
      ensures ok <==> n != 1
      ensures ok ==> lz[..] == FillFirst(old(lz[..]), n / 2 + 1, n)
      ensures !ok ==> lz[..] == old(lz[..])
      ensures ok && old(lz[..]) == EmptyTable(lz.Length) ==>
                forall p :: 0 <= p < lz.Length ==> lz[p] == FirstWriter(n / 2 + 1, n, p)
    {
      ghost var start := lz[..];
      var i := 0;
      while i < n / 2 + 1
        invariant 0 <= i <= n / 2 + 1
        invariant lz[..] == FillFirst(start, i, n)
        invariant n == 1 ==> i == 0
      {
        var j := 0;
        while j < n
          invariant 0 <= j <= n
          invariant lz[..] == MemoRow(FillFirst(start, i, n), i, j)
          invariant n == 1 ==> j == 0
        {
          var entry := W(i, j);
          if entry.None? {
            MemoKeyInTable(n, i, j);
            return false;
          }
          j := j + 1;
        }
        i := i + 1;
      }
      ok := true;
      if start == EmptyTable(lz.Length) {
        forall p | 0 <= p < lz.Length
          ensures lz[p] == FirstWriter(n / 2 + 1, n, p)
        {
          FillFirstIsFirstWriter(n, n / 2 + 1, p);
        }
      }
    }
  }
  // ---------------------------------------------------------------------------
  // negate and the component encoding

  /** The digits of b in negate(inn): bin() of the complement's value plus one. */
  function NegateDigits(inn: string): string {
    ToBinary(Value(Complement(inn)) + 1)
  }

  /** negate(inn) with PRES = pres: the digits, left-padded up to pres
      characters with the complement of inn's first digit. */
  function NegateSpec(inn: string, pres: int): string
    requires |inn| > 0
  {
    var out := NegateDigits(inn);
    Repeat(if inn[0] == '0' then '1' else '0', pres - |out|) + out
  }

  /** negate(inn): the complement's digits are read into b by doubling, b is
      halved back, incremented and printed with bin(). */
  method Negate(inn: string, pres: int) returns (result: string)
    requires |inn| > 0
    ensures result == NegateSpec(inn, pres)
  {
    var out := Complement(inn);
    var b := 0;
    var k := 0;
    while k < |out|
      invariant 0 <= k <= |out|
      invariant b == 2 * Value(out[..k])
    {
      assert out[..k + 1] == out[..k] + [out[k]];
      ValueSnoc(out[..k], out[k]);
      b := b + (if out[k] == '1' then 1 else 0);
      b := b * 2;
      k := k + 1;
    }
    assert out[..k] == out;
    b := b / 2;
    b := b + 1;
    var digits := ToBinary(b);
    result := Repeat(if inn[0] == '0' then '1' else '0', pres - |digits|) + digits;
  }

  /** The number negate prints is 2^L minus the value of the L-digit input:
      the two's complement of inn. */
  lemma NegateMagnitude(inn: string)
    requires IsBits(inn)
    ensures Value(NegateDigits(inn)) == Pow2(|inn|) - Value(inn)
  {
    ComplementValue(inn);
    ToBinaryCorrect(Value(Complement(inn)) + 1);
  }

  /** The 8-digit magnitude of m. */
  function Magnitude(m: nat): string {
    ZeroPad(ToBinary(m), 8)
  }

  lemma MagnitudeDigits(m: nat)
    requires m < 256
    ensures |Magnitude(m)| == 8 && IsBits(Magnitude(m)) && Value(Magnitude(m)) == m
    ensures m < 128 ==> Magnitude(m)[0] == '0'
  {
    assert Pow2(8) == 256 && Pow2(7) == 128;
    ZeroPadBinary(m, 8);
    LeadingDigit(Magnitude(m));
  }

  /** For 1 <= m <= 128 the digits negate prints are the 8 digits of 256 - m:
      the 8-bit two's complement of -m. */
  lemma NegateDigitsEightBit(m: nat)
    requires 1 <= m <= 128
    ensures NegateDigits(Magnitude(m)) == ToBinary(256 - m)
  {
    MagnitudeDigits(m);
    NegateOfByte(Magnitude(m), m);
  }

  /** negate prints 256 - m for any 8-digit string of value m. */
  lemma NegateOfByte(inn: string, m: nat)
    requires |inn| == 8 && IsBits(inn) && Value(inn) == m && 1 <= m <= 128
    ensures NegateDigits(inn) == ToBinary(256 - m)
  {
    ComplementValue(inn);
    Pow2Byte();
  }

  /** A number in [128, 256) has 8 binary digits, the first of them '1'. */
  lemma UpperHalfDigits(n: nat)
    requires 128 <= n < 256
    ensures |ToBinary(n)| == 8 && IsBits(ToBinary(n)) && ToBinary(n)[0] == '1'
    ensures Signed(ToBinary(n)) == n - 256
  {
    ToBinaryCorrect(n);
    assert Pow2(8) == 256 && Pow2(7) == 128;
    ToBinaryFits(n, 8);
    ToBinaryFits(n, 7);
  }

  /** With PRES <= 8, negate of the 8-digit magnitude of m in [1, 128] is the
      8-bit two's complement of -m. */
  lemma NegateEightBit(m: nat, pres: int)
    requires 1 <= m <= 128 && pres <= 8
    ensures NegateSpec(Magnitude(m), pres) == ToBinary(256 - m)
    ensures |NegateSpec(Magnitude(m), pres)| == 8 && Signed(NegateSpec(Magnitude(m), pres)) == -(m as int)
  {
    NegateDigitsEightBit(m);
    UpperHalfDigits(256 - m);
    var inn, out := Magnitude(m), ToBinary(256 - m);
    var pad := Repeat(if inn[0] == '0' then '1' else '0', pres - |out|);
    assert pad == [];
    assert NegateSpec(inn, pres) == pad + out;
  }

  /** With PRES > 8 and m in [1, 127] the digits are padded with '1's to PRES
      characters: the PRES-bit two's complement of -m. */
  lemma NegateSignExtends(m: nat, pres: int)
    requires 1 <= m <= 127 && pres > 8
    ensures NegateSpec(Magnitude(m), pres) == Repeat('1', pres - 8) + ToBinary(256 - m)
    ensures |NegateSpec(Magnitude(m), pres)| == pres && Signed(NegateSpec(Magnitude(m), pres)) == -(m as int)
  {
    NegateDigitsEightBit(m);
    UpperHalfDigits(256 - m);
    MagnitudeDigits(m);
    var inn, out := Magnitude(m), ToBinary(256 - m);
    assert inn[0] == '0';
    assert NegateSpec(inn, pres) == Repeat('1', pres - 8) + out;
    SignExtend(pres - 8, out);
  }

  /** For -128 (m = 128) the magnitude starts with '1', so with PRES > 8 the
      padding is '0's and the PRES-bit reading is +128. */
  lemma NegateMinimumPadding(pres: int)
    requires pres > 8
    ensures NegateSpec(Magnitude(128), pres) == Repeat('0', pres - 8) + ToBinary(128)
    ensures Signed(NegateSpec(Magnitude(128), pres)) == 128
  {
    NegateDigitsEightBit(128);
    UpperHalfDigits(128);
    MagnitudeDigits(128);
    var r := NegateSpec(Magnitude(128), pres);
    ValueZeroPrefix(pres - 8, ToBinary(128));
    ToBinaryCorrect(128);
    assert r[0] == '0';
  }

  /** The text of one component in the emitter: bin() of the magnitude padded
      with '0's to 8 digits, and negate() of that for a negative component. */
  function EncodeComponent(v: int, pres: int): string {
    var padded := ZeroPad(ToBinary(if v < 0 then -v else v), 8);
    if v < 0 then NegateSpec(padded, pres) else padded
  }

  /** The statements of the emitter that turn a component into digits. */
  method Encode(v: int, pres: int) returns (digits: string)
    ensures digits == EncodeComponent(v, pres)
  {
    var magnitude := ToBinary(if v < 0 then -v else v);
    var negative := v < 0;
    digits := Repeat('0', 8 - |magnitude|) + magnitude;
    if negative {
      digits := Negate(digits, pres);
    }
  }

  /** A component in [0, 256) becomes its 8-digit binary. */
  lemma EncodeNonNegative(v: int, pres: int)
    requires 0 <= v < 256
    ensures |EncodeComponent(v, pres)| == 8 && IsBits(EncodeComponent(v, pres))
    ensures Value(EncodeComponent(v, pres)) == v
  {
    MagnitudeDigits(v);
  }

  /** With PRES <= 8 a component in [-128, 0) becomes its 8-bit two's
      complement. */
  lemma EncodeNegative(v: int, pres: int)
    requires -128 <= v < 0 && pres <= 8
    ensures |EncodeComponent(v, pres)| == 8 && IsBits(EncodeComponent(v, pres))
    ensures Signed(EncodeComponent(v, pres)) == v && Value(EncodeComponent(v, pres)) == v + 256
  {
    NegateEightBit(-v, pres);
    ToBinaryCorrect(256 + v);
  }

  /** With PRES <= 8 the script's encoding of a component in [-128, 127] is
      the one binary_of_width(v, 8) of the refactored generator gives. */
  lemma EncodersAgree(v: int, pres: int)
    requires -128 <= v <= 127 && pres <= 8
    ensures EncodeComponent(v, pres) == TwiddleGenerator.BinaryOfWidth(v, 8)
  {
    Pow2Byte();
    TwiddleGenerator.BinaryOfWidthCorrect(v, 8);
    ModInRange(v, 256);
    if v < 0 {
      EncodeNegative(v, pres);
    } else {
      EncodeNonNegative(v, pres);
    }
    SameByte(EncodeComponent(v, pres), TwiddleGenerator.BinaryOfWidth(v, 8), if v < 0 then v + 256 else v);
  }

  lemma SameByte(s: string, t: string, n: nat)
    requires |s| == 8 && |t| == 8 && IsBits(s) && IsBits(t) && Value(s) == n && Value(t) == n
    ensures s == t
  {
    ValueInjective(s, t);
  }
  // ---------------------------------------------------------------------------
  // emission

  /** The 16 characters between the quotes of one element: the two encoded
      components of the entry, (0, 0) for a falsy slot. */
  function Literal(s: Slot, q: (nat, nat) -> (int, int), pres: int): string {
    var parts := Quantized(s, q);
    EncodeComponent(parts.0, pres) + EncodeComponent(parts.1, pres)
  }

  /** The literals of operation a of DSP pair c: element b reads lz at
      (a*half + c)*b, where half = DSPS/2. */
  function RowLiterals(table: seq<Slot>, q: (nat, nat) -> (int, int), pres: int, N: nat, half: nat, c: nat, a: nat)
    : (r: seq<string>)
    ensures |r| == N
  {
    seq(N, b requires 0 <= b < N => Literal(Lookup(table, Key(Layout.RowIndex(a, c, half), b)), q, pres))
  }

  /** The literals of DSP pair c, one row per operation a < RUNS_PER_DSP = N/DSPS. */
  function GroupLiterals(table: seq<Slot>, q: (nat, nat) -> (int, int), pres: int, N: nat, dsp: nat, c: nat)
    : (r: seq<seq<string>>)
    requires dsp >= 1
    ensures |r| == N / dsp
  {
    seq(N / dsp, a requires 0 <= a < N / dsp => RowLiterals(table, q, pres, N, dsp / 2, c, a))
  }

  /** All DSPS/2 groups. */
  function Emission(table: seq<Slot>, q: (nat, nat) -> (int, int), pres: int, N: nat, dsp: nat)
    : (r: seq<seq<seq<string>>>)
    requires dsp >= 1
    ensures |r| == dsp / 2
  {
    seq(dsp / 2, c requires 0 <= c < dsp / 2 => GroupLiterals(table, q, pres, N, dsp, c))
  }

  /** The statements that turn the entry of lz into its 16 digits: the entry's
      components, (0, 0) for a falsy one, each encoded. */
  method EmitLiteral(entry: Slot, q: (nat, nat) -> (int, int), pres: int) returns (digits: string)
    ensures digits == Literal(entry, q, pres)
  {
    var re: int, im: int;
    if entry.Tw? {
      var parts := q(entry.k, entry.n);
      re, im := parts.0, parts.1;
    } else {
      re, im := 0, 0;
    }
    var realDigits := Encode(re, pres);
    var imagDigits := Encode(im, pres);
    digits := realDigits + imagDigits;
  }

  /** The body of the loop over b: the element of sample b of operation a of
      DSP pair c, which reads an index inside lz. The last-element test
      compares integers, so it holds exactly at the group's last element. */
  method EmitElement(table: seq<Slot>, q: (nat, nat) -> (int, int), pres: int, N: nat, dsp: nat, c: nat, a: nat, b: nat)
    returns (element: string)
    requires |table| == TableSize(N)
    requires dsp >= 2 && dsp % 2 == 0 && a < N / dsp && c < dsp / 2 && b < N
    ensures Key(Layout.RowIndex(a, c, dsp / 2), b) < |table|
    ensures element == Layout.Element(Literal(table[Key(Layout.RowIndex(a, c, dsp / 2), b)], q, pres), b,
                                      a + 1 == N / dsp && b + 1 == N)
    ensures element == Layout.Element(RowLiterals(table, q, pres, N, dsp / 2, c, a)[b], b,
                                      a + 1 == N / dsp && b + 1 == N)
  {
    Layout.LookupInTable(N, dsp, a, c, b);
    Layout.RowsCoverHalf(a, dsp);
    var x := (a * dsp / 2 + c) * b;
    assert x == Key(Layout.RowIndex(a, c, dsp / 2), b);
    var digits := EmitLiteral(table[x], q, pres);
    element := "\"" + digits + "\"";
    if !(b == N - 1 && a == N / dsp - 1) {
      element := element + ",";
    }
    if (b + 1) % 4 == 0 {
      element := element + "\n";
    }
  }

  /** The loop over b: the row of operation a of DSP pair c. */
  method EmitRow(table: seq<Slot>, q: (nat, nat) -> (int, int), pres: int, N: nat, dsp: nat, c: nat, a: nat)
    returns (text: string)
    requires |table| == TableSize(N)
    requires dsp >= 2 && dsp % 2 == 0 && a < N / dsp && c < dsp / 2
    ensures text == Layout.Row(RowLiterals(table, q, pres, N, dsp / 2, c, a), a + 1 == N / dsp, N)
  {
    ghost var lits := RowLiterals(table, q, pres, N, dsp / 2, c, a);
    ghost var final := a + 1 == N / dsp;
    text := "";
    var b := 0;
    while b < N
      invariant 0 <= b <= N
      invariant text == Layout.Row(lits, final, b)
    {
      var element := EmitElement(table, q, pres, N, dsp, c, a, b);
      Layout.RowStep(lits, final, b);
      text := text + element;
      b := b + 1;
    }
  }

  /** One pass of the loop over c: the parenthesised group of DSP pair c. */
  method EmitGroup(table: seq<Slot>, q: (nat, nat) -> (int, int), pres: int, N: nat, dsp: nat, c: nat)
    returns (text: string)
    requires |table| == TableSize(N)
    requires dsp >= 2 && dsp % 2 == 0 && c < dsp / 2
    ensures text == Layout.Group(GroupLiterals(table, q, pres, N, dsp, c), true)
  {
    ghost var rows := GroupLiterals(table, q, pres, N, dsp, c);
    var runs := N / dsp;
    var elements := "";
    var a := 0;
    while a < runs
      invariant 0 <= a <= runs
      invariant elements == Layout.Rows(rows, true, a)
    {
      var row := EmitRow(table, q, pres, N, dsp, c, a);
      Layout.RowsStep(rows, true, a);
      elements := elements + row;
      a := a + 1;
    }
    text := "(" + elements + ")";
  }

  /** The loops that build `output` after its fixed header, for DSPS = dsp a
      power of two. */
  method EmitTwiddles(table: seq<Slot>, q: (nat, nat) -> (int, int), pres: int, N: nat, dsp: nat)
    returns (output: string)
    requires |table| == TableSize(N)
    requires dsp >= 1 && (dsp == 1 || dsp % 2 == 0)
    ensures output == Layout.Groups(Emission(table, q, pres, N, dsp), true, dsp / 2)
  {
    var half := dsp / 2;
    ghost var groups := Emission(table, q, pres, N, dsp);
    ghost var texts := seq(half, c requires 0 <= c < half => Layout.Group(groups[c], true));
    output := "";
    var c := 0;
    while c < half
      invariant 0 <= c <= half
      invariant output == Layout.Join(texts, c)
    {
      var group := EmitGroup(table, q, pres, N, dsp, c);
      assert group == texts[c];
      Layout.JoinStep(texts, c);
      output := output + group;
      if !(c == half - 1) {
        output := output + ",\n";
      }
      assert output == Layout.Join(texts, c + 1);
      c := c + 1;
    }
    Layout.JoinGroups(groups, true, texts, half);
  }
  // ---------------------------------------------------------------------------
  // properties of the emitted text

  /** A falsy slot is emitted as (0, 0): sixteen '0' characters. */
  lemma EmptySlotLiteral(q: (nat, nat) -> (int, int), pres: int)
    ensures Literal(Empty, q, pres) == Repeat('0', 16)
  {
    assert ToBinary(0) == "0";
    assert ZeroPad("0", 8) == Repeat('0', 8);
    assert Repeat('0', 8) + Repeat('0', 8) == Repeat('0', 16);
  }

  /** Every component text is a digit string. */
  lemma EncodeIsBits(v: int, pres: int)
    ensures IsBits(EncodeComponent(v, pres))
  {
    var m: nat := if v < 0 then -v else v;
    ToBinaryCorrect(m);
    var padded := ZeroPad(ToBinary(m), 8);
    assert IsBits(padded);
    if v < 0 {
      NegateSpecIsBits(padded, pres);
    }
  }

  lemma NegateSpecIsBits(inn: string, pres: int)
    requires |inn| > 0
    ensures IsBits(NegateSpec(inn, pres))
  {
    ToBinaryCorrect(Value(Complement(inn)) + 1);
  }

  /** Both components of an entry in [-128, 127] fit in 8 bits. */
  predicate InByte(parts: (int, int)) {
    -128 <= parts.0 <= 127 && -128 <= parts.1 <= 127
  }

  /** Every literal is a digit string; with PRES <= 8 and both scaled parts in
      8 bits it has 16 characters whose halves decode back to the parts. */
  lemma LiteralShape(s: Slot, q: (nat, nat) -> (int, int), pres: int)
    ensures IsBits(Literal(s, q, pres))
    ensures InByte(Quantized(s, q)) && pres <= 8 ==>
              |Literal(s, q, pres)| == 16 &&
              Signed(Literal(s, q, pres)[..8]) == Quantized(s, q).0 &&
              Signed(Literal(s, q, pres)[8..]) == Quantized(s, q).1
  {
    var parts := Quantized(s, q);
    EncodeIsBits(parts.0, pres);
    EncodeIsBits(parts.1, pres);
    if InByte(parts) && pres <= 8 {
      EncodersAgree(parts.0, pres);
      EncodersAgree(parts.1, pres);
      TwiddleGenerator.EightBitEncoding(parts.0);
      TwiddleGenerator.EightBitEncoding(parts.1);
      var lit := Literal(s, q, pres);
      assert lit[..8] == EncodeComponent(parts.0, pres);
      assert lit[8..] == EncodeComponent(parts.1, pres);
    }
  }

  /** With PRES <= 8 an entry in 8 bits is emitted as the refactored
      generator emits it. */
  lemma LiteralsAgree(s: Slot, q: (nat, nat) -> (int, int), pres: int)
    requires InByte(Quantized(s, q)) && pres <= 8
    ensures Literal(s, q, pres) == TwiddleGenerator.Literal(s, q)
  {
    EncodersAgree(Quantized(s, q).0, pres);
    EncodersAgree(Quantized(s, q).1, pres);
  }

  /** Over one table, with PRES <= 8, every entry in 8 bits and DSPS dividing
      N, the script and the refactored generator emit the same text. */
  lemma EmissionsAgree(table: seq<Slot>, q: (nat, nat) -> (int, int), pres: int, N: nat, dsp: nat)
    requires dsp >= 1 && pres <= 8 && N % dsp == 0
    requires forall p :: 0 <= p < |table| ==> InByte(Quantized(table[p], q))
    ensures Emission(table, q, pres, N, dsp) == TwiddleGenerator.Emission(table, q, N, dsp)
    ensures Layout.Groups(Emission(table, q, pres, N, dsp), true, dsp / 2)
         == Layout.Groups(TwiddleGenerator.Emission(table, q, N, dsp), N % dsp == 0, dsp / 2)
  {
    var mine, theirs := Emission(table, q, pres, N, dsp), TwiddleGenerator.Emission(table, q, N, dsp);
    forall c | 0 <= c < dsp / 2
      ensures mine[c] == theirs[c]
    {
      forall a | 0 <= a < N / dsp
        ensures mine[c][a] == theirs[c][a]
      {
        forall b | 0 <= b < N
          ensures mine[c][a][b] == theirs[c][a][b]
        {
          var x := Key(Layout.RowIndex(a, c, dsp / 2), b);
          LiteralsAgree(Lookup(table, x), q, pres);
        }
      }
    }
  }
  /** Group c holds RUNS_PER_DSP operations of N digit-string literals each. */
  lemma GroupUniform(table: seq<Slot>, q: (nat, nat) -> (int, int), pres: int, N: nat, dsp: nat, c: nat)
    requires dsp >= 1
    ensures Layout.Uniform(GroupLiterals(table, q, pres, N, dsp, c), N)
  {
    var rows := GroupLiterals(table, q, pres, N, dsp, c);
    forall a, b | 0 <= a < |rows| && 0 <= b < N
      ensures IsBits(rows[a][b])
    {
      LiteralShape(Lookup(table, Key(Layout.RowIndex(a, c, dsp / 2), b)), q, pres);
    }
  }

  /** Each DSP pair's group holds exactly runs*N quoted literals, where
      runs = N/DSPS, separated by runs*N - 1 commas, inside one pair of
      parentheses; the whole text
      holds DSPS/2 groups. */
  lemma EmissionCounts(table: seq<Slot>, q: (nat, nat) -> (int, int), pres: int, N: nat, dsp: nat, c: nat)
    requires dsp >= 1 && c < dsp / 2
    ensures var rows := Emission(table, q, pres, N, dsp)[c];
            var g := Layout.Group(rows, true);
            var cells := (N / dsp) * N;
            Layout.Count(g, '"') == 2 * cells &&
            Layout.Count(g, ',') == (if cells > 0 then cells - 1 else 0) &&
            Layout.Count(g, '(') == 1 && Layout.Count(g, ')') == 1
    ensures Layout.Count(Layout.Groups(Emission(table, q, pres, N, dsp), true, dsp / 2), '(') == dsp / 2
  {
    var groups := Emission(table, q, pres, N, dsp);
    forall c' | 0 <= c' < |groups|
      ensures Layout.Uniform(groups[c'], N)
    {
      GroupUniform(table, q, pres, N, dsp, c');
    }
    Layout.GroupCounts(groups[c], true, N);
    Layout.GroupsCounts(groups, true, N, dsp / 2);
  }

  /** A non-empty group does not end its element list with a comma. */
  lemma EmissionNoTrailingComma(table: seq<Slot>, q: (nat, nat) -> (int, int), pres: int, N: nat, dsp: nat, c: nat)
    requires dsp >= 1 && c < dsp / 2 && N / dsp > 0 && N > 0
    ensures var rows := Emission(table, q, pres, N, dsp)[c];
            var body := Layout.Rows(rows, true, |rows|);
            |body| > 0 && body[|body| - 1] != ','
  {
    GroupUniform(table, q, pres, N, dsp, c);
    Layout.NoTrailingComma(Emission(table, q, pres, N, dsp)[c], N);
  }

  /** Applied to lz after the fill, element b of operation a in group c shows
      the earliest pair (i, j) with i <= N/2 whose product is the index
      (a*(DSPS/2) + c)*b, or sixteen '0's when no pair has that product. */
  lemma EmittedTwiddle(q: (nat, nat) -> (int, int), pres: int, N: nat, dsp: nat, table: seq<Slot>, c: nat, a: nat, b: nat)
    requires |table| == TableSize(N)
    requires forall p :: 0 <= p < |table| ==> table[p] == FirstWriter(N / 2 + 1, N, p)
    requires dsp >= 2 && dsp % 2 == 0 && c < dsp / 2 && a < N / dsp && b < N
    ensures var x := Key(Layout.RowIndex(a, c, dsp / 2), b);
            Emission(table, q, pres, N, dsp)[c][a][b] == Literal(FirstWriter(N / 2 + 1, N, x), q, pres)
  {
    Layout.LookupInTable(N, dsp, a, c, b);
  }
}
