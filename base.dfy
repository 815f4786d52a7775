/** base.go: intervals over Go's built-in ordered types, compared with the
    native operators, with the parsers for string and int64 endpoints. */
module BaseIntervals {
  import opened Errors
  import opened Consts
  import opened GoStrings
  import opened Sortable
  import opened Intervals

  /** Go's int64. */
  newtype int64 = x: int | -0x8000_0000_0000_0000 <= x < 0x8000_0000_0000_0000

  /** Go's `<` on int64. */
  function Int64Less(a: int64, b: int64): bool {
    a < b
  }

  /** `BaseInterval[T baseSortable]`: two endpoints stored verbatim and the
      open/closed flags. */
  datatype BaseInterval<T(==)> = BaseInterval(left: T, right: T, openClosedType: OpenClosedType) {

    /** Membership with the native order `less` (Go's `<`; `e > left` is
        `less(left, e)`) and native equality. */
    predicate Contains(less: (T, T) -> bool, e: T): (r: bool)
      ensures less(left, e) && less(e, right) ==> r
      ensures e == left && LeftClosed(openClosedType) ==> r
      ensures e == right && RightClosed(openClosedType) ==> r
      ensures e != left && e != right ==> (r <==> less(left, e) && less(e, right))
      ensures r ==> (less(left, e) && less(e, right)) || e == left || e == right
    {
      || (less(left, e) && less(e, right))
      || (e == right && openClosedType & OpenClosed == OpenClosed)
      || (e == left && openClosedType & ClosedOpen == ClosedOpen)
    }

    /** The notation of the interval, each endpoint rendered by `sprint`
        (fmt.Sprint; the identity for strings). */
    method String(sprint: T -> string) returns (s: string)
      ensures s == Render(LeftClosed(openClosedType), sprint(left), sprint(right), RightClosed(openClosedType))
    {
      var bs := "";
      if LeftClosed(openClosedType) {
        bs := bs + LeftClosedBracket;
      } else {
        bs := bs + LeftOpenBracket;
      }
      bs := bs + sprint(left);
      bs := bs + [Spacer];
      bs := bs + sprint(right);
      if RightClosed(openClosedType) {
        bs := bs + RightClosedBracket;
      } else {
        bs := bs + RightOpenBracket;
      }
      s := bs;
    }
  }

  /** NewBaseInterval: the endpoints as given, and the first of the optional
      flags, or Default (left-closed, right-open) when none is given. */
  function NewBaseInterval<T(==)>(left: T, right: T, openCloseType: seq<OpenClosedType>): (i: BaseInterval<T>)
    ensures i.left == left && i.right == right
    ensures |openCloseType| > 0 ==> i.openClosedType == openCloseType[0]
    ensures |openCloseType| == 0 ==> i.openClosedType == Default
  {
    var t := if |openCloseType| > 0 then openCloseType[0] else Default;
    BaseInterval(left, right, t)
  }

  /** With a strict total order for `<`, native membership is the generic
      membership under the comparison that order induces. */
  lemma ContainsAgrees<T(!new)>(i: BaseInterval<T>, less: (T, T) -> bool, e: T)
    requires IsStrictTotalOrder(less)
    ensures i.Contains(less, e) == Interval(i.left, i.right, i.openClosedType).Contains(CompareOf(less), e)
  {
    var cmp := CompareOf(less);
    assert cmp(i.left, e) < 0 <==> less(i.left, e);
    assert cmp(i.right, e) > 0 <==> less(e, i.right);
    assert cmp(i.left, e) == 0 <==> e == i.left;
    assert cmp(i.right, e) == 0 <==> e == i.right;
  }

  /** For string endpoints (Go's byte-wise `<`) and int64 endpoints,
      membership is the generic one, so the generic results about ordered,
      single-point and inverted intervals apply. */
  lemma NativeContainsAgree(s: BaseInterval<string>, e: string, n: BaseInterval<int64>, x: int64)
    ensures s.Contains(StringLess, e) == Interval(s.left, s.right, s.openClosedType).Contains(CompareOf(StringLess), e)
    ensures n.Contains(Int64Less, x) == Interval(n.left, n.right, n.openClosedType).Contains(CompareOf(Int64Less), x)
    ensures IsTotalOrder(CompareOf(StringLess)) && IsTotalOrder(CompareOf(Int64Less))
  {
    StringLessIsStrictTotalOrder();
    CompareOfIsTotalOrder(StringLess);
    CompareOfIsTotalOrder(Int64Less);
    ContainsAgrees(s, StringLess, e);
    ContainsAgrees(n, Int64Less, x);
  }

  // ---------------------------------------------------------------- parsing

  /** What ParseStrInterval returns: the structural error of blowUp, else
      the flag error, else the interval of the two trimmed value strings. */
  function StrIntervalOf(str: string): (r: Result<BaseInterval<string>, Error>)
    ensures BlowUp(str).Err? ==> r == Err(BlowUp(str).error)
    ensures BlowUp(str).Ok? && FlagsOf(BlowUp(str).value.leftFlag, BlowUp(str).value.rightFlag).Err? ==>
      r == Err(OpenClosedFlagErr)
    ensures r.Ok? <==> BlowUp(str).Ok? && IsClosedFlag([str[0]]).Ok? && IsClosedFlag([str[|str| - 1]]).Ok?
    ensures r.Err? ==> !r.error.ValueParseErr?
    ensures r.Ok? ==> r.value.left == BlowUp(str).value.leftValue && r.value.right == BlowUp(str).value.rightValue
    ensures r.Ok? ==> (
      && r.value.openClosedType <= Closed
      && (LeftClosed(r.value.openClosedType) <==> str[0] == '[' || str[0] == ']')
      && (RightClosed(r.value.openClosedType) <==> str[|str| - 1] == '[' || str[|str| - 1] == ']'))
  {
    match BlowUp(str)
    case Err(e) => Err(e)
    case Ok(p) =>
      match FlagsOf(p.leftFlag, p.rightFlag)
      case Err(e) => Err(e)
      case Ok(t) => Ok(NewBaseInterval(p.leftValue, p.rightValue, [t]))
  }

  /** ParseStrInterval. */
  method ParseStrInterval(intervalStr: string) returns (i: Result<BaseInterval<string>, Error>)
    ensures i == StrIntervalOf(intervalStr)
  {
    var parts := BlowUp(intervalStr);
    if parts.Err? {
      return Err(parts.error);
    }
    var openClosedType, err := GetOpenClosedType(parts.value.leftFlag, parts.value.rightFlag);
    if err.Some? {
      return Err(err.value);
    }
    return Ok(NewBaseInterval(parts.value.leftValue, parts.value.rightValue, [openClosedType]));
  }

  /** What ParseIntInterval returns, with `parseInt` standing for
      strconv.ParseInt(_, 10, 64). Structural and flag errors come first,
      then the left value's error, then the right value's; on success the
      result is the string interval with both values parsed. */
  function IntIntervalOf(str: string, parseInt: string -> Result<int64, string>): (r: Result<BaseInterval<int64>, Error>)
    ensures BlowUp(str).Err? ==> r == Err(BlowUp(str).error)
    ensures StrIntervalOf(str).Err? ==> r == Err(StrIntervalOf(str).error)
    ensures StrIntervalOf(str).Ok? && parseInt(StrIntervalOf(str).value.left).Err? ==>
      r == Err(ValueParseErr(parseInt(StrIntervalOf(str).value.left).error))
    ensures StrIntervalOf(str).Ok? && parseInt(StrIntervalOf(str).value.left).Ok? &&
            parseInt(StrIntervalOf(str).value.right).Err? ==>
      r == Err(ValueParseErr(parseInt(StrIntervalOf(str).value.right).error))
    ensures r.Ok? <==>
      && StrIntervalOf(str).Ok?
      && parseInt(StrIntervalOf(str).value.left).Ok?
      && parseInt(StrIntervalOf(str).value.right).Ok?
    ensures r.Ok? ==>
      var s := StrIntervalOf(str).value;
      r.value == BaseInterval(parseInt(s.left).value, parseInt(s.right).value, s.openClosedType)
  {
    match BlowUp(str)
    case Err(e) => Err(e)
    case Ok(p) =>
      match FlagsOf(p.leftFlag, p.rightFlag)
      case Err(e) => Err(e)
      case Ok(t) =>
        match parseInt(p.leftValue)
        case Err(e) => Err(ValueParseErr(e))
        case Ok(lfv) =>
          match parseInt(p.rightValue)
          case Err(e) => Err(ValueParseErr(e))
          case Ok(rfv) => Ok(NewBaseInterval(lfv, rfv, [t]))
  }

  /** ParseIntInterval. */
  method ParseIntInterval(intervalStr: string, parseInt: string -> Result<int64, string>)
    returns (i: Result<BaseInterval<int64>, Error>)
    ensures i == IntIntervalOf(intervalStr, parseInt)
  {
    var parts := BlowUp(intervalStr);
    if parts.Err? {
      return Err(parts.error);
    }
    var openClosedType, err := GetOpenClosedType(parts.value.leftFlag, parts.value.rightFlag);
    if err.Some? {
      return Err(err.value);
    }
    var lfv := parseInt(parts.value.leftValue);
    if lfv.Err? {
      return Err(ValueParseErr(lfv.error));
    }
    var rfv := parseInt(parts.value.rightValue);
    if rfv.Err? {
      return Err(ValueParseErr(rfv.error));
    }
    return Ok(NewBaseInterval(lfv.value, rfv.value, [openClosedType]));
  }

  // ------------------------------------------------------------- round trip

  /** Formatting a string interval and parsing the text gives it back when
      its flags are 0..3, its endpoints are clean (no comma, no space at an
      edge) and their combined length is at least 2. */
  lemma StrRoundTrip(i: BaseInterval<string>)
    requires i.openClosedType <= Closed && Clean(i.left) && Clean(i.right) && |i.left| + |i.right| >= 2
    ensures StrIntervalOf(Render(LeftClosed(i.openClosedType), i.left, i.right, RightClosed(i.openClosedType))) == Ok(i)
  {
    RenderRoundTrip(i.openClosedType, i.left, i.right);
  }

  /** Every parsed string interval whose endpoints have combined length at
      least 2 formats to a text that parses back to it. */
  lemma StrReparse(str: string)
    requires StrIntervalOf(str).Ok?
    requires |StrIntervalOf(str).value.left| + |StrIntervalOf(str).value.right| >= 2
    ensures var i := StrIntervalOf(str).value;
      StrIntervalOf(Render(LeftClosed(i.openClosedType), i.left, i.right, RightClosed(i.openClosedType))) == Ok(i)
  {
    StrRoundTrip(StrIntervalOf(str).value);
  }

  /** The string interval a well-formed text denotes. */
  lemma StrParse(str: string, lf: char, a: string, b: string, rf: char)
    requires str == [lf] + a + [Spacer] + b + [rf]
    requires Spacer !in a && Spacer !in b && |a| + |b| >= 2 && lf in "[(" && rf in "])"
    ensures StrIntervalOf(str) == Ok(BaseInterval(Trim(a, Space), Trim(b, Space), FlagsFor(lf == '[', rf == ']')))
  {
    BlowUpValues(lf, a, b, rf);
    assert BlowUp(str) == Ok(Parts([lf], Trim(a, Space), Trim(b, Space), [rf]));
    FlagsOfBrackets(lf, rf);
  }

  /** Blank values parse to empty endpoints: "[ , )" gives ("", "", ClosedOpen). */
  lemma StrBlankEndpoints()
    ensures StrIntervalOf("[ , )") == Ok(BaseInterval("", "", ClosedOpen))
  {
    TrimLeading("", 1, Space);
    StrParse("[ , )", '[', " ", " ", ')');
  }

  /** The notation of that interval, "[,)", is too short to parse, so the
      length condition of StrRoundTrip cannot be dropped. */
  lemma StrBlankEndpointsTooShort()
    ensures StrIntervalOf(Render(true, "", "", false)) == Err(ParseTooShortErr)
  {
  }

  /** Formatting an int64 interval with `sprint` and parsing it with
      `parseInt` gives it back when `parseInt` undoes `sprint` and every
      rendered number is clean and non-empty. */
  lemma IntRoundTrip(i: BaseInterval<int64>, sprint: int64 -> string, parseInt: string -> Result<int64, string>)
    requires forall x :: parseInt(sprint(x)) == Ok(x) && Clean(sprint(x)) && |sprint(x)| > 0
    requires i.openClosedType <= Closed
    ensures IntIntervalOf(Render(LeftClosed(i.openClosedType), sprint(i.left), sprint(i.right), RightClosed(i.openClosedType)), parseInt) == Ok(i)
  {
    RenderRoundTrip(i.openClosedType, sprint(i.left), sprint(i.right));
  }

  /** Spaces around the values do not change the parsed int64 interval. */
  lemma IntWhitespaceTolerance(lf: char, a: string, b: string, rf: char, n1: nat, n2: nat, n3: nat, n4: nat,
                               parseInt: string -> Result<int64, string>)
    requires Spacer !in a && Spacer !in b && |a| + |b| >= 2
    ensures IntIntervalOf([lf] + Padded(a, n1, n2) + [Spacer] + Padded(b, n3, n4) + [rf], parseInt)
         == IntIntervalOf([lf] + a + [Spacer] + b + [rf], parseInt)
  {
    BlowUpPadding(lf, a, b, rf, n1, n2, n3, n4);
  }

  /** The interval a well-formed text denotes: the trimmed values parsed,
      and the flags read from the two brackets. */
  lemma IntParse(str: string, lf: char, a: string, b: string, rf: char, parseInt: string -> Result<int64, string>)
    requires str == [lf] + a + [Spacer] + b + [rf]
    requires Spacer !in a && Spacer !in b && |a| + |b| >= 2 && lf in "[(" && rf in "])"
    requires parseInt(Trim(a, Space)).Ok? && parseInt(Trim(b, Space)).Ok?
    ensures IntIntervalOf(str, parseInt)
         == Ok(BaseInterval(parseInt(Trim(a, Space)).value, parseInt(Trim(b, Space)).value, FlagsFor(lf == '[', rf == ']')))
  {
    StrParse(str, lf, a, b, rf);
  }

  /** IntParse for a right value `pb` that is a clean `b` behind `n` spaces (`n` may be 0). */
  lemma IntParsePadded(str: string, lf: char, a: string, pb: string, n: nat, b: string, rf: char,
                       parseInt: string -> Result<int64, string>)
    requires str == [lf] + a + [Spacer] + pb + [rf] && pb == Repeat(Space, n) + b
    requires Spacer !in a && Spacer !in b && NoEdge(a, Space) && NoEdge(b, Space)
    requires |a| + |b| >= 2 && lf in "[(" && rf in "])"
    requires parseInt(a).Ok? && parseInt(b).Ok?
    ensures IntIntervalOf(str, parseInt) == Ok(BaseInterval(parseInt(a).value, parseInt(b).value, FlagsFor(lf == '[', rf == ']')))
  {
    assert Spacer !in pb;
    TrimLeading(b, n, Space);
    TrimNothing(a, Space);
    IntParse(str, lf, a, pb, rf, parseInt);
  }

  // The expectations of the package's ParseIntInterval tests, for any
  // `parseInt` that reads the decimal numbers involved.

  lemma IntExampleClosed(parseInt: string -> Result<int64, string>)
    requires parseInt("1") == Ok(1) && parseInt("2") == Ok(2)
    ensures IntIntervalOf("[1,2]", parseInt) == Ok(BaseInterval(1, 2, Closed))
  {
    IntParsePadded("[1,2]", '[', "1", "2", 0, "2", ']', parseInt);
  }

  lemma IntExampleClosedOpen(parseInt: string -> Result<int64, string>)
    requires parseInt("1") == Ok(1) && parseInt("2") == Ok(2)
    ensures IntIntervalOf("[1,2)", parseInt) == Ok(BaseInterval(1, 2, ClosedOpen))
  {
    IntParsePadded("[1,2)", '[', "1", "2", 0, "2", ')', parseInt);
  }

  lemma IntExamplePadded(parseInt: string -> Result<int64, string>)
    requires parseInt("1") == Ok(1) && parseInt("20000") == Ok(20000)
    ensures IntIntervalOf("[1,  20000)", parseInt) == Ok(BaseInterval(1, 20000, ClosedOpen))
  {
    IntParsePadded("[1,  20000)", '[', "1", "  20000", 2, "20000", ')', parseInt);
  }

  lemma IntExampleOpen(parseInt: string -> Result<int64, string>)
    requires parseInt("0") == Ok(0) && parseInt("20000") == Ok(20000)
    ensures IntIntervalOf("(0,  20000)", parseInt) == Ok(BaseInterval(0, 20000, Open))
  {
    IntParsePadded("(0,  20000)", '(', "0", "  20000", 2, "20000", ')', parseInt);
  }

  lemma IntExampleNegative(parseInt: string -> Result<int64, string>)
    requires parseInt("-1") == Ok(-1) && parseInt("20000") == Ok(20000)
    ensures IntIntervalOf("(-1,  20000)", parseInt) == Ok(BaseInterval(-1, 20000, Open))
  {
    IntParsePadded("(-1,  20000)", '(', "-1", "  20000", 2, "20000", ')', parseInt);
  }
}
