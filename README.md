# Twiddle table generators

Two scripts generate the same VHDL package. The package holds the DFT twiddle
factors for a pipeline of DSP slices.

- `modules/fitness/twiddle_generator.py` is the refactored generator (Python 3).
- `twgen.py` is the original script (Python 2).

Both scripts do the same four things:

1. Read three parameters from the constants package: `TW_PRES`,
   `DFT_LG_DSPS` and `DFT_SIZE`.
2. Fill a flat table of `N*N/2` slots, where the pair `(k, n)` is written at
   index `k*n`.
3. Encode the real and imaginary parts of each twiddle as 8-digit
   two's-complement strings.
4. Emit one parenthesised group per DSP pair. Element `b` of operation `a` in
   group `c` reads index `(a*dsp/2 + c)*b`.

The two scripts differ in observable ways:

| | `twiddle_generator.py` | `twgen.py` |
|---|---|---|
| reading parameters | the last declaring line wins | the first non-zero value wins |
| filling the table | the last write to an index wins | the memo `w` keeps the first write |
| negative components | `binary_of_width` complements `-1-x` | `negate()` computes complement plus one, padded to `PRES` digits |

The model is in Dafny, one module per concern:

| module | file | what it holds |
|---|---|---|
| `Wrappers` | `wrappers.dfy` | `Option` and `Result` |
| `Arith` | `arith.dfy` | division and product facts |
| `Bits` | `bits.dfy` | digit strings, most significant digit first, with their unsigned and two's-complement readings |
| `Text` | `text.dfy` | Python's `in` and `split` on strings, and `int()` on Python 2 and on Python 3 |
| `Markers` | `markers.dfy` | the three parameter names |
| `TwiddleTable` | `twiddle_table.dfy` | the table slots; which pair survives at an index under last-write-wins and first-write-wins |
| `Layout` | `layout.dfy` | the index map of the emitter and the grammar of the emitted text, with lemmas counting its characters |
| `TwiddleGenerator` | `twiddle_generator.dfy` | the refactored script |
| `Twgen` | `twgen.dfy` | the original script `twgen.py` |

How the model represents the source:

- **The twiddle value.** A slot holds the symbolic pair `Tw(k, n)` that
  wrote it, or `Empty` for a slot never written. `Empty` stands for Python's
  `0` or `False`. A written entry is always truthy: `exp` never returns
  exactly zero, and a tuple is never falsy.
- **The float computation.** Computing and scaling the twiddle is a parameter
  `q: (nat, nat) -> (int, int)`, which gives the truncated, scaled real and
  imaginary parts for a pair.
- **Loops.** They are methods with loop invariants: `ReadAttributes`,
  `ReadParameters`, `CalculateTwiddles`, `Memo.Fill`, `Negate` and the `Emit*`
  methods. Each is proved equal to a specification function, and the
  lemmas are stated about those functions.
- **twgen's `lz` and `w`.** They are the class `Twgen.Memo`, with a constant
  array field `lz`.
- **Which pair an index keeps.** The k loop of `calculate_twiddles` stops
  below `N/2`, so for `N = 12` the pair `(6, 1)` never writes. Index 6 keeps
  `(3, 2)` in `twiddle_generator.py` and `(1, 6)` in `twgen.py`
  (`TwiddleTable.WritersDiffer`).
- **`int()` on the two interpreters.** `twgen.py` runs on Python 2 and
  `twiddle_generator.py` on Python 3, and `Text.ParseInt` takes the
  interpreter as an argument. Python 2 skips the C library's whitespace
  (blank, tab, line feed, vertical tab, form feed, carriage return). It
  also skips that whitespace between the sign and the digits, so
  `TW_PRES : integer := - 3;` binds `-3` in twgen. Python 3 skips the same six
  ASCII characters and every non-ASCII character for which `str.isspace()`
  holds, such as U+00A0. It does not skip the ASCII separators
  U+001C-U+001F. It accepts nothing between the sign and the digits.

Observed behaviour, stated as lemmas:

- **When the last comma is dropped.** `twiddle_generator.py` tests
  `a == operations_per_dsp - 1` on a float. That test holds only when `dsp`
  divides `N` (`LastOperationTest`). Otherwise every element of a group is
  followed by a comma.
- **twgen's last comma.** twgen compares integers, so each group always drops
  its last comma.
- **twgen with `N = 1`.** The first `w(0, 0)` reads past the empty list, so
  `Memo.Fill` returns `false`.
- **twgen's negate of -128 with `PRES > 8`.** The padding is `'0'`s, so the
  `PRES`-digit reading is +128 (`NegateMinimumPadding`).

## Model

| member | source | states |
|---|---|---|
| TwiddleGenerator.ReadAttributes | modules/fitness/twiddle_generator.py:25-33 | the loop over the lines returns what the scan specification Finish(Scan(lines)) gives: the three values or the first exception |
| TwiddleGenerator.StepEffect | modules/fitness/twiddle_generator.py:27-32 | a line with ":=" and ";" raises exactly when it has a second ":=" or a marker whose value int() rejects (or a negative DFT_LG_DSPS); otherwise each marker its declaration names takes the line's value and the others are kept |
| TwiddleGenerator.LastDeclarationIsLatest | modules/fitness/twiddle_generator.py:26-32 | the chosen line is the latest declaring line for the marker, and there is none exactly when no line declares it |
| TwiddleGenerator.ScanLastWins | modules/fitness/twiddle_generator.py:26-32 | when no line raises, each local holds the value of the LAST line declaring its marker, with DFT_LG_DSPS bound to 2**value |
| TwiddleGenerator.ScanFirstFault | modules/fitness/twiddle_generator.py:26-32 | the scan raises iff some line is faulty, and then at the first faulty line |
| TwiddleGenerator.ScanBindsDeclared | modules/fitness/twiddle_generator.py:26-32 | without an exception a local is assigned exactly when some line declares its marker |
| TwiddleGenerator.ReadAttributesSucceeds | modules/fitness/twiddle_generator.py:26-33 | read_attributes returns iff no line raises and all three markers are declared; the results are the last declared values |
| Text.FindIsFirst | modules/fitness/twiddle_generator.py:27 | the substring search finds the first occurrence, and none exactly when there is no occurrence |
| Text.SplitReassembles | modules/fitness/twiddle_generator.py:28 | the two pieces around the first ":=" reassemble the line |
| Text.ParseShowInt | modules/fitness/twiddle_generator.py:29-32 | on either interpreter, int() reads back the decimal text of every integer, whatever whitespace that interpreter skips surrounds it |
| Text.NonAsciiSpace | modules/fitness/twiddle_generator.py:29-32 | Python 3's int() skips a no-break space U+00A0 before the digits and Python 2's rejects it; both reject the ASCII separator U+001C |
| Text.SpaceAfterSign | twgen.py:25-27 | Python 2's int() reads a sign, whitespace and digits as the signed number; Python 3's rejects the same text when the gap is non-empty |
| TwiddleGenerator.CalculateTwiddles | modules/fitness/twiddle_generator.py:40-45 | the list has N*N/2 slots, and each slot holds the last pair (k, n), k < N/2 and n < N, whose product is its index; it is falsy when no pair has that product |
| TwiddleGenerator.FillLastIsLastWriter | modules/fitness/twiddle_generator.py:41-44 | the k/n fill of the zero list equals, index by index, the closed-form last writer |
| TwiddleTable.LastWriterIsLatest | modules/fitness/twiddle_generator.py:42-44 | the last writer writes the index, no pair enumerated after it does, and it is Empty iff no pair writes the index |
| TwiddleTable.KeyInTable | modules/fitness/twiddle_generator.py:42-44 | every write k*n with k < N/2 and n < N lies inside the N*N/2 list |
| TwiddleTable.WritersDiffer | modules/fitness/twiddle_generator.py:42-44 | for N = 12 index 6 keeps (3, 2) under last-write-wins over k < 6 but (1, 6) under twgen's first-write-wins over i <= 6 |
| TwiddleGenerator.BinaryOfWidthCorrect | modules/fitness/twiddle_generator.py:47-55 | for -2^width <= x < 2^width the result has exactly width digits, all '0'/'1', with unsigned value x mod 2^width |
| TwiddleGenerator.BinaryOfWidthRoundTrip | modules/fitness/twiddle_generator.py:47-55 | reading the result as width-bit two's complement gives x back for every x in [-2^(width-1), 2^(width-1)) |
| TwiddleGenerator.BinaryOfWidthOverflow | modules/fitness/twiddle_generator.py:47-55 | outside that range the result is longer than width: the overflow is not caught |
| TwiddleGenerator.EightBitEncoding | modules/fitness/twiddle_generator.py:47-55 | every x in [-128, 127] has 8 digits and comes back; 0 gives "00000000" and -1 gives "11111111" |
| TwiddleGenerator.FormatTwiddleRoundTrip | modules/fitness/twiddle_generator.py:57-61 | both parts in [-128, 127] are emitted as 8 digits that decode back to the parts |
| TwiddleGenerator.FormatTwiddleIsBits | modules/fitness/twiddle_generator.py:57-61 | the two encoded parts are digit strings for every input |
| Layout.RowIndexInjective | modules/fitness/twiddle_generator.py:101 | two (operation, pair) positions with c < dsp/2 never use the same twiddle row |
| Layout.RowsBijection | modules/fitness/twiddle_generator.py:97-101 | with N = ops*dsp and dsp even, (a, c) to a*dsp/2 + c is injective, lands below N/2 and reaches every row below N/2 |
| Layout.LookupInTable | modules/fitness/twiddle_generator.py:99-102 | for dsp even, every index (a*dsp/2 + c)*b the loops read lies inside the N*N/2 table, whether or not dsp divides N |
| TwiddleGenerator.LastOperationTest | modules/fitness/twiddle_generator.py:108 | the float test a == N/dsp - 1 holds exactly when dsp divides N and a is the last operation |
| TwiddleGenerator.EmitElement | modules/fitness/twiddle_generator.py:101-109 | the element reads an index inside the table and is the quoted literal of that slot, then a comma unless it is the last element of a group whose last-element test can hold, then a line break when b + 1 is a multiple of 4 |
| TwiddleGenerator.EmitRow | modules/fitness/twiddle_generator.py:100-109 | the loop over b emits the Layout.Row rendering of the operation's literals |
| TwiddleGenerator.EmitGroup | modules/fitness/twiddle_generator.py:98-110 | one pass over c emits "(" + the operations' rows + ")" |
| TwiddleGenerator.EmitTwiddles | modules/fitness/twiddle_generator.py:97-111 | the loops emit the dsp/2 groups of Emission(...) separated by ",\n", with the last comma of each group dropped only when dsp divides N |
| TwiddleGenerator.EmptySlotLiteral | modules/fitness/twiddle_generator.py:102-107 | a falsy slot is replaced by complex(0, 0) and emitted as sixteen '0' characters |
| TwiddleGenerator.LiteralShape | modules/fitness/twiddle_generator.py:106-107 | each literal is a digit string; with both parts in 8 bits it has 16 characters whose halves decode to the parts |
| TwiddleGenerator.EmittedTwiddle | modules/fitness/twiddle_generator.py:99-107 | over the list calculate_twiddles returns, element (c, a, b) shows the last writer of index (a*dsp/2 + c)*b |
| TwiddleGenerator.EmissionCounts | modules/fitness/twiddle_generator.py:97-111 | each group holds exactly ops*N quoted literals (ops = N/dsp), ops*N - 1 commas when dsp divides N and ops*N otherwise, one parenthesis of each kind; the text holds dsp/2 groups |
| TwiddleGenerator.EmissionNoTrailingComma | modules/fitness/twiddle_generator.py:108 | when dsp divides N a non-empty group does not end its element list with a comma |
| TwiddleGenerator.SmallConfigurationShape | modules/fitness/twiddle_generator.py:97-111 | with dsp = 2 and N = 8 the text is one group of 4 operations with 32 quoted literals and 31 commas |
| Layout.RowCounts | modules/fitness/twiddle_generator.py:100-109 | a row of j elements holds 2j quotes, j commas less one at the group's last element, and j/4 line breaks |
| Layout.GroupCounts | modules/fitness/twiddle_generator.py:98-110 | a group of ops rows of cols literals holds 2*ops*cols quotes, ops*cols - 1 commas when its last test holds (ops*cols otherwise) and one "(" and one ")" |
| Layout.NoTrailingComma | modules/fitness/twiddle_generator.py:108 | when the last-element test holds, the element list ends in a quote or line break, not a comma |
| Layout.GroupsCounts | modules/fitness/twiddle_generator.py:97-111 | the ",\n"-joined text of j groups holds exactly j "(" and j ")" |
| Twgen.ReadParameters | twgen.py:20-30 | the scan loop and the statements after it give Finish(Scan(lines)): the three globals, or the first ValueError, or the TypeError for a global still None (N, then DSPS, then PRES) |
| Twgen.ScanLine | twgen.py:24-27 | one pass of the loop body over a line gives Step: without ":=" nothing changes; otherwise the three guarded assignments run in source order (PRES, DSPS, N) and the first int() failure is the exception |
| Twgen.Assign | twgen.py:25-27 | one guarded assignment raises exactly when the global is still falsy, the line mentions its marker and int() rejects the value text; otherwise the global becomes what Update gives |
| Twgen.EmitLiteral | twgen.py:87-105 | the statements for one slot emit Literal: the real then the imaginary component text, with (0, 0) for a falsy slot |
| Twgen.FirstSettlingIsFirst | twgen.py:23-27 | the settling line found is the earliest one, and none exists exactly when no line settles the global |
| Twgen.ScanFirstWins | twgen.py:23-27 | without an exception each global holds the value of the FIRST line that mentions it with a non-zero value (any value for DFT_LG_DSPS, as 2**v is never 0); else 0 if some line mentions it, else None |
| Twgen.ScanFirstFault | twgen.py:23-27 | the scan raises iff some line raises for the globals the earlier lines left, and then at the first such line |
| Twgen.ScanIgnoresSettled | twgen.py:25-27 | once all three globals are truthy no further line changes the scan or raises, even one int() would reject |
| Twgen.Memo.constructor | twgen.py:31 | lz is a fresh list of N*N/2 falsy slots |
| Twgen.MemoizeEffect | twgen.py:32-35 | w(i, j) writes index i*j only when it is falsy, leaves every other index alone, and leaves a truthy slot at i*j |
| Twgen.Memo.W | twgen.py:32-35 | w(i, j) updates lz as Memoize says and returns the entry stored at i*j; an index past the end is the IndexError None with lz unchanged |
| Twgen.Memo.Fill | twgen.py:37-39 | the fill runs through iff N != 1 and then leaves the FillFirst fold of the table; from an all-falsy lz each slot holds the first writer; for N = 1 it raises before writing |
| Twgen.MemoRowAt | twgen.py:38-39 | one row of w calls leaves a truthy slot alone and puts the earliest column of the row that writes a falsy index there |
| Twgen.FillFirstIsFirstWriter | twgen.py:31-39 | the fill of the all-falsy lz equals, index by index, the closed-form first writer over i <= N/2 |
| TwiddleTable.FirstWriterIsEarliest | twgen.py:37-39 | the first writer writes the index, no pair enumerated before it does, and it is Empty iff no pair writes the index |
| TwiddleTable.MemoKeyInTable | twgen.py:31-39 | an index i*j with i <= N/2 and j < N lies inside the N*N/2 list iff N != 1 |
| Twgen.Negate | twgen.py:41-51 | the doubling loop and what follows it return NegateSpec(inn, PRES): the digits of value(complement(inn)) + 1, padded to PRES characters with the complement of inn[0] |
| Twgen.NegateMagnitude | twgen.py:42-48 | the number printed is 2^len(inn) - value(inn), so b after the loop and halving is 2^len(inn) - 1 - value(inn) |
| Bits.ComplementValue | twgen.py:42 | a digit string and its complement add up to 2^len - 1 |
| Twgen.NegateDigitsEightBit | twgen.py:42-50 | for the 8-digit magnitude of m in [1, 128] the printed digits are the binary of 256 - m |
| Twgen.NegateEightBit | twgen.py:41-51 | with PRES <= 8 negate returns the 8-digit binary of 256 - m, whose two's-complement reading is -m |
| Twgen.NegateSignExtends | twgen.py:51 | with PRES > 8 and m in [1, 127] the result is PRES - 8 '1's before the binary of 256 - m, PRES digits reading -m |
| Bits.SignExtend | twgen.py:51 | prefixing '1's to a digit string starting with '1' keeps its two's-complement reading |
| Twgen.NegateMinimumPadding | twgen.py:51 | for m = 128 and PRES > 8 the padding is '0's and the PRES-digit reading is +128 |
| Twgen.MagnitudeDigits | twgen.py:91-98 | the '0'-padded bin() of m < 256 has 8 digits with value m, starting with '0' when m < 128 |
| Twgen.Encode | twgen.py:91-104 | the statements for one component return EncodeComponent(v, PRES): the padded magnitude, negated when v < 0 |
| Twgen.EncodeNonNegative | twgen.py:91-98 | a component in [0, 256) is its binary zero-padded to 8 characters |
| Twgen.EncodeNegative | twgen.py:91-104 | with PRES <= 8 a component in [-128, 0) is 8 digits whose two's-complement reading is the component |
| Twgen.EncodeIsBits | twgen.py:91-104 | every component text is a digit string |
| Twgen.EncodersAgree | twgen.py:91-104 | with PRES <= 8 twgen's encoding of v in [-128, 127] equals binary_of_width(v, 8) of the refactored generator |
| Twgen.EmptySlotLiteral | twgen.py:87-98 | a falsy slot is emitted as (0, 0), sixteen '0' characters |
| Twgen.LiteralShape | twgen.py:91-105 | each literal is a digit string; with PRES <= 8 and both parts in 8 bits it has 16 characters decoding to the parts |
| Twgen.LiteralsAgree | twgen.py:87-105 | with PRES <= 8 and parts in 8 bits twgen's literal of a slot equals the refactored generator's |
| Twgen.EmitElement | twgen.py:86-107 | the element reads an index inside lz and is the quoted literal of that slot, a comma unless it is the group's last element, and a line break when b + 1 is a multiple of 4 |
| Twgen.EmitRow | twgen.py:85-107 | the loop over b emits the Layout.Row rendering of the operation's literals |
| Twgen.EmitGroup | twgen.py:83-108 | one pass over c emits "(" + the operations' rows + ")", the last operation dropping its last comma |
| Twgen.EmitTwiddles | twgen.py:82-109 | the loops emit the DSPS/2 groups of Emission(...) separated by ",\n", each group without its last comma |
| Twgen.EmissionCounts | twgen.py:82-109 | each group holds RUNS_PER_DSP*N quoted literals and one comma fewer, one parenthesis of each kind; the text holds DSPS/2 groups |
| Twgen.EmissionNoTrailingComma | twgen.py:106 | a non-empty group does not end its element list with a comma |
| Twgen.EmittedTwiddle | twgen.py:86-88 | over lz after the fill, element (c, a, b) shows the first writer of index (a*DSPS/2 + c)*b |
| Twgen.EmissionsAgree | twgen.py:82-109 | over one table, with PRES <= 8, all parts in 8 bits and DSPS dividing N, twgen and the refactored generator emit the same text |

## Left out

- File input and output are left out: `open(...)`/`file(...)`, `print`, and
  the fixed VHDL header and footer. The readers take the file's lines as a
  sequence, and the emitters return the text between the header and the
  footer.
- Floating point is left out: `exp`, `cos`, `sin`, `pi`, the scaling by
  `2**precision` and `int()` truncation of floats. The computed parts are
  the parameter `q`. twgen computes them when `w` writes a slot, and the
  model applies `q` when the slot is emitted; since `q` is a function of the
  pair alone, the two give the same result.
- Python 3's `int()` also accepts underscores between digits and decimal
  digits of other scripts. The model accepts neither.
- The script-level sequencing (read, then fill, then emit) is not one
  member. The emitters take the table contents and the parameters as
  arguments.
- A negative `DFT_SIZE` is left out. Tables and emitters take `N` as a
  natural number, and the Python loops over negative ranges are not
  modelled.
- TwiddleGenerator.ReadAttributes: a negative `DFT_LG_DSPS` makes Python 3 bind
  the float `2**v`. The model reports `NegativeExponent` at that line instead.
- TwiddleGenerator.EmitTwiddles: `x = int((a*dsp_amount/2+c)*b)` is computed in
  floating point. The model uses exact integers, which agree while the
  products stay below 2^53.
- Twgen.EmitTwiddles: with a negative `DFT_LG_DSPS`, DSPS is a float and
  `range(DSPS/2)` raises a TypeError. The emitter requires `dsp` to be 1 or
  even, i.e. the integer `2**v` for `v >= 0`, so that error path is not
  modelled.
- Twgen.ScanFirstWins: it treats a bound DSPS as truthy for any exponent.
  In Python 2, `2**v` for `v <= -1075` underflows to the falsy `0.0`, so a
  later line could set DSPS again. Negative exponents are not modelled
  further. The exponent, not `2**v`, is what `Parameters` holds.
- Twgen.Negate: it requires a non-empty input. Python raises an IndexError on
  `inn[0]` for an empty input, and the only caller passes at least 8 digits.
- Twgen.EmitElement: the emitter reads the contents of `lz` passed as a
  sequence, rather than the global list itself.
