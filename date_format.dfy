/**
 * The display-date helper `formatDate` of utils.js.
 *
 * The date library (ISO parsing, custom-format parsing, validity checks and
 * rendering in the French `DD/MM/YYYY` convention) is not part of this model:
 * it is passed in as a `DateLib`, a pair of oracles. What is modelled is the
 * order in which input shapes are tried, the first-success rule and the
 * pass-through fallback when nothing parses or anything throws.
 */
module DateFormat {
  import opened Wrappers

  /**
   * A calendar date as the date library holds it. The model never inspects
   * its fields: a date only travels from the parse oracle to the render oracle.
   */
  datatype Date = Date(year: int, month: int, day: int)

  /** How a parse is asked for: the library's own default (ISO-like) parse, or a custom pattern. */
  datatype Format = Default | Custom(pattern: string)

  /** What one parse attempt gives: a valid date, an invalid one, or an exception. */
  datatype Parsed = Valid(date: Date) | Invalid | Raised

  /**
   * The date library as two oracles: `parse(input, format)` and
   * `render(date, pattern)`, the latter `None` when rendering throws.
   */
  datatype DateLib = DateLib(parse: (string, Format) -> Parsed, render: (Date, string) -> Option<string>)

  /** The display pattern every successful parse is rendered with. */
  const DisplayPattern: string := "DD/MM/YYYY"

  /** The shapes tried, in this order, after the default parse has failed. */
  const AlternateFormats: seq<Format> := [Custom("YYYY-DD-MM"), Custom("DD-MM-YYYY"), Custom("MM-DD-YYYY")]

  /** Every format in the order `formatDate` tries them. */
  const Order: seq<Format> := [Default] + AlternateFormats

  /** The text shown for a date that parsed: its rendering, or the input itself if rendering throws. */
  function Shown(lib: DateLib, d: Date, input: string): string
  {
    match lib.render(d, DisplayPattern)
    case Some(t) => t
    case None => input
  }

  /**
   * Tries `fmts` in order on `input`: the first valid parse is rendered, an
   * invalid one moves on to the next format, an exception ends the attempt
   * with the input itself, and so does running out of formats.
   */
  function Attempt(lib: DateLib, input: string, fmts: seq<Format>): string
    decreases |fmts|
  {
    if fmts == [] then input
    else match lib.parse(input, fmts[0])
      case Valid(d) => Shown(lib, d, input)
      case Invalid => Attempt(lib, input, fmts[1..])
      case Raised => input
  }

  /** The value `formatDate(input)` returns. */
  function Formatted(lib: DateLib, input: string): string
  {
    Attempt(lib, input, Order)
  }

  /**
   * formatDate: the default parse first, then a loop over the alternate
   * formats that returns at the first valid parse; the input unchanged when
   * none is valid or anything throws.
   */
  method FormatDate(lib: DateLib, input: string) returns (r: string)
    ensures r == Formatted(lib, input)
  {
    var parsed := lib.parse(input, Default);
    if parsed.Raised? {
      return input;
    }
    if parsed.Valid? {
      var rendered := lib.render(parsed.date, DisplayPattern);
      if rendered.None? {
        return input;
      }
      return rendered.value;
    }
    assert Order[1..] == AlternateFormats;
    for i := 0 to |AlternateFormats|
      invariant Formatted(lib, input) == Attempt(lib, input, AlternateFormats[i..])
    {
      var alternate := lib.parse(input, AlternateFormats[i]);
      if alternate.Raised? {
        return input;
      }
      if alternate.Valid? {
        var rendered := lib.render(alternate.date, DisplayPattern);
        if rendered.None? {
          return input;
        }
        return rendered.value;
      }
      assert AlternateFormats[i..][1..] == AlternateFormats[i + 1..];
    }
    return input;
  }

  /**
   * The k-th format of `fmts` decides on its own when it does not report an
   * invalid date and every earlier one does.
   */
  lemma {:induction false} AttemptReachesFirstDecisive(lib: DateLib, input: string, fmts: seq<Format>, k: nat)
    requires k < |fmts|
    requires forall j :: 0 <= j < k ==> lib.parse(input, fmts[j]) == Invalid
    requires lib.parse(input, fmts[k]) != Invalid
    ensures Attempt(lib, input, fmts) == Attempt(lib, input, fmts[k..k + 1])
  {
    if k == 0 {
      assert fmts[0..1][1..] == [];
    } else {
      assert lib.parse(input, fmts[0]) == Invalid;
      var rest := fmts[1..];
      assert Attempt(lib, input, fmts) == Attempt(lib, input, rest);
      forall j | 0 <= j < k - 1
        ensures lib.parse(input, rest[j]) == Invalid
      {
        assert rest[j] == fmts[j + 1];
      }
      AttemptReachesFirstDecisive(lib, input, rest, k - 1);
      assert rest[k - 1..k] == fmts[k..k + 1];
    }
  }

  /**
   * The first format (in Order) that parses validly is the one rendered,
   * provided every format before it reported an invalid date.
   */
  lemma FirstValidFormatWins(lib: DateLib, input: string, k: nat, d: Date)
    requires k < |Order|
    requires forall j :: 0 <= j < k ==> lib.parse(input, Order[j]) == Invalid
    requires lib.parse(input, Order[k]) == Valid(d)
    ensures Formatted(lib, input) == Shown(lib, d, input)
    ensures lib.render(d, DisplayPattern).Some? ==> Formatted(lib, input) == lib.render(d, DisplayPattern).value
  {
    AttemptReachesFirstDecisive(lib, input, Order, k);
  }

  /** An exception from a parse attempt that is reached ends formatting with the input unchanged. */
  lemma RaisedParsePassesThrough(lib: DateLib, input: string, k: nat)
    requires k < |Order|
    requires forall j :: 0 <= j < k ==> lib.parse(input, Order[j]) == Invalid
    requires lib.parse(input, Order[k]) == Raised
    ensures Formatted(lib, input) == input
  {
    AttemptReachesFirstDecisive(lib, input, Order, k);
  }

  /** When no format parses, the input is returned unchanged. */
  lemma {:induction false} NoFormatPassesThrough(lib: DateLib, input: string, fmts: seq<Format>)
    requires forall j :: 0 <= j < |fmts| ==> lib.parse(input, fmts[j]) == Invalid
    ensures Attempt(lib, input, fmts) == input
  {
    if fmts != [] {
      assert lib.parse(input, fmts[0]) == Invalid;
      NoFormatPassesThrough(lib, input, fmts[1..]);
    }
  }

  /** formatDate never invents text: it returns the input or a rendering of some parse of it. */
  lemma {:induction false} AttemptIsInputOrRendering(lib: DateLib, input: string, fmts: seq<Format>)
    ensures var r := Attempt(lib, input, fmts);
      r == input || exists j, d :: 0 <= j < |fmts| && lib.parse(input, fmts[j]) == Valid(d) && lib.render(d, DisplayPattern) == Some(r)
  {
    if fmts != [] && lib.parse(input, fmts[0]).Invalid? {
      AttemptIsInputOrRendering(lib, input, fmts[1..]);
      var r := Attempt(lib, input, fmts);
      if r != input {
        var j, d :| 0 <= j < |fmts[1..]| && lib.parse(input, fmts[1..][j]) == Valid(d) && lib.render(d, DisplayPattern) == Some(r);
        assert fmts[j + 1] == fmts[1..][j];
      }
    }
  }
}
