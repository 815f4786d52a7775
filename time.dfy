/** time.go: intervals of points in time. A time.Time is reduced to the
    instant it denotes (After, Before and Equal compare instants), and
    time.Parse / Time.Format are parameters. */
module TimeIntervals {
  import opened Errors
  import opened Consts
  import opened GoStrings
  import opened Sortable
  import opened Intervals
  import opened BaseIntervals

  /** The instant a time.Time denotes, as a count of some fixed unit from
      some fixed origin. */
  type Instant = int

  /** `TimeInterval`: two instants stored verbatim and the open/closed flags. */
  datatype TimeInterval = TimeInterval(left: Instant, right: Instant, openClosedType: OpenClosedType) {

    /** Membership: strictly after left and strictly before right, or equal
        to a closed end. */
    predicate Contains(e: Instant): (r: bool)
      ensures left < e < right ==> r
      ensures e == left && LeftClosed(openClosedType) ==> r
      ensures e == right && RightClosed(openClosedType) ==> r
      ensures e != left && e != right ==> (r <==> left < e < right)
      ensures r ==> left <= e <= right || e == right || e == left
    {
      || (e > left && e < right)
      || (e == left && openClosedType & ClosedOpen == ClosedOpen)
      || (e == right && openClosedType & OpenClosed == OpenClosed)
    }

    /** The notation of the interval, each end written by
        `format(instant, layout)` (Time.Format) with the chosen layout. */
    method String(layout: seq<string>, format: (Instant, string) -> string) returns (s: string)
      ensures s == Render(LeftClosed(openClosedType), format(left, LayoutOf(layout)),
                          format(right, LayoutOf(layout)), RightClosed(openClosedType))
    {
      var l := DefaultTimeLayout;
      if |layout| > 0 {
        l := layout[0];
      }
      assert l == LayoutOf(layout);
      var bs := "";
      if LeftClosed(openClosedType) {
        bs := bs + LeftClosedBracket;
      } else {
        bs := bs + LeftOpenBracket;
      }
      bs := bs + format(left, l);
      assert bs == LeftBracket(LeftClosed(openClosedType)) + format(left, l);
      bs := bs + [Spacer];
      bs := bs + format(right, l);
      if RightClosed(openClosedType) {
        bs := bs + RightClosedBracket;
      } else {
        bs := bs + RightOpenBracket;
      }
      s := bs;
    }
  }

  /** The layout in force: the first of the optional layouts, or the
      package default. */
  function LayoutOf(layout: seq<string>): (l: string)
    ensures |layout| > 0 ==> l == layout[0]
    ensures |layout| == 0 ==> l == DefaultTimeLayout
  {
    if |layout| > 0 then layout[0] else DefaultTimeLayout
  }

  /** NewTimeInterval: the instants as given, and the first of the optional
      flags, or Default (left-closed, right-open) when none is given. */
  function NewTimeInterval(left: Instant, right: Instant, openCloseType: seq<OpenClosedType>): (i: TimeInterval)
    ensures i.left == left && i.right == right
    ensures |openCloseType| > 0 ==> i.openClosedType == openCloseType[0]
    ensures |openCloseType| == 0 ==> i.openClosedType == Default
  {
    var t := if |openCloseType| > 0 then openCloseType[0] else Default;
    TimeInterval(left, right, t)
  }

  /** Time membership is the generic membership under the comparison the
      order of instants induces, which is a total order; so the generic
      results about ordered, single-point and inverted intervals apply. */
  lemma TimeContainsAgrees(i: TimeInterval, e: Instant)
    ensures i.Contains(e) == Interval(i.left, i.right, i.openClosedType).Contains(CompareOf(IntLess), e)
    ensures IsTotalOrder(CompareOf(IntLess))
  {
    IntLessIsStrictTotalOrder();
    CompareOfIsTotalOrder(IntLess);
    var cmp := CompareOf(IntLess);
    assert cmp(i.left, e) < 0 <==> i.left < e;
    assert cmp(i.right, e) > 0 <==> e < i.right;
    assert cmp(i.left, e) == 0 <==> e == i.left;
    assert cmp(i.right, e) == 0 <==> e == i.right;
  }

  /** For left before right, membership is the textbook one: each end
      compared strictly, or with equality at a closed end. */
  lemma TimeContainsOrdered(i: TimeInterval, e: Instant)
    requires i.left < i.right
    ensures i.Contains(e) <==>
      && (i.left < e || (i.left == e && LeftClosed(i.openClosedType)))
      && (e < i.right || (e == i.right && RightClosed(i.openClosedType)))
  {
    TimeContainsAgrees(i, e);
    ContainsOrdered(Interval(i.left, i.right, i.openClosedType), CompareOf(IntLess), e);
  }

  // ---------------------------------------------------------------- parsing

  /** What ParseTimeInterval returns, with `parseTime(layout, value)`
      standing for time.Parse. Structural and flag errors come first, then
      the left value's error, then the right value's; on success the result
      is the string interval with both values parsed in the chosen layout. */
  function TimeIntervalOf(str: string, layout: seq<string>, parseTime: (string, string) -> Result<Instant, string>)
    : (r: Result<TimeInterval, Error>)
    ensures BlowUp(str).Err? ==> r == Err(BlowUp(str).error)
    ensures StrIntervalOf(str).Err? ==> r == Err(StrIntervalOf(str).error)
    ensures StrIntervalOf(str).Ok? && parseTime(LayoutOf(layout), StrIntervalOf(str).value.left).Err? ==>
      r == Err(ValueParseErr(parseTime(LayoutOf(layout), StrIntervalOf(str).value.left).error))
    ensures StrIntervalOf(str).Ok? && parseTime(LayoutOf(layout), StrIntervalOf(str).value.left).Ok? &&
            parseTime(LayoutOf(layout), StrIntervalOf(str).value.right).Err? ==>
      r == Err(ValueParseErr(parseTime(LayoutOf(layout), StrIntervalOf(str).value.right).error))
    ensures r.Ok? <==>
      && StrIntervalOf(str).Ok?
      && parseTime(LayoutOf(layout), StrIntervalOf(str).value.left).Ok?
      && parseTime(LayoutOf(layout), StrIntervalOf(str).value.right).Ok?
    ensures r.Ok? ==>
      var s := StrIntervalOf(str).value;
      r.value == TimeInterval(parseTime(LayoutOf(layout), s.left).value,
                              parseTime(LayoutOf(layout), s.right).value, s.openClosedType)
  {
    match BlowUp(str)
    case Err(e) => Err(e)
    case Ok(p) =>
      match FlagsOf(p.leftFlag, p.rightFlag)
      case Err(e) => Err(e)
      case Ok(t) =>
        var l := LayoutOf(layout);
        match parseTime(l, p.leftValue)
        case Err(e) => Err(ValueParseErr(e))
        case Ok(lt) =>
          match parseTime(l, p.rightValue)
          case Err(e) => Err(ValueParseErr(e))
          case Ok(rt) => Ok(NewTimeInterval(lt, rt, [t]))
  }

  /** ParseTimeInterval. */
  method ParseTimeInterval(intervalStr: string, layout: seq<string>,
                           parseTime: (string, string) -> Result<Instant, string>)
    returns (ti: Result<TimeInterval, Error>)
    ensures ti == TimeIntervalOf(intervalStr, layout, parseTime)
  {
    var parts := BlowUp(intervalStr);
    if parts.Err? {
      return Err(parts.error);
    }
    var openClosedType, err := GetOpenClosedType(parts.value.leftFlag, parts.value.rightFlag);
    if err.Some? {
      return Err(err.value);
    }
    var l := DefaultTimeLayout;
    if |layout| > 0 {
      l := layout[0];
    }
    var lt := parseTime(l, parts.value.leftValue);
    if lt.Err? {
      return Err(ValueParseErr(lt.error));
    }
    var rt := parseTime(l, parts.value.rightValue);
    if rt.Err? {
      return Err(ValueParseErr(rt.error));
    }
    return Ok(NewTimeInterval(lt.value, rt.value, [openClosedType]));
  }

  /** The interval a well-formed text denotes: the trimmed values parsed
      in the chosen layout, and the flags read from the two brackets alone,
      whatever the values are. */
  lemma TimeParse(str: string, lf: char, a: string, b: string, rf: char, layout: seq<string>,
                  parseTime: (string, string) -> Result<Instant, string>)
    requires str == [lf] + a + [Spacer] + b + [rf]
    requires Spacer !in a && Spacer !in b && |a| + |b| >= 2 && lf in "[(" && rf in "])"
    requires parseTime(LayoutOf(layout), Trim(a, Space)).Ok? && parseTime(LayoutOf(layout), Trim(b, Space)).Ok?
    ensures TimeIntervalOf(str, layout, parseTime)
         == Ok(TimeInterval(parseTime(LayoutOf(layout), Trim(a, Space)).value,
                            parseTime(LayoutOf(layout), Trim(b, Space)).value, FlagsFor(lf == '[', rf == ']')))
  {
    StrParse(str, lf, a, b, rf);
  }

  /** TimeParse for a right value `pb` that is a clean `b` behind `n` spaces. */
  lemma TimeParsePadded(str: string, lf: char, a: string, pb: string, n: nat, b: string, rf: char,
                        layout: seq<string>, parseTime: (string, string) -> Result<Instant, string>)
    requires str == [lf] + a + [Spacer] + pb + [rf] && pb == Repeat(Space, n) + b
    requires Spacer !in a && Spacer !in b && NoEdge(a, Space) && NoEdge(b, Space)
    requires |a| + |b| >= 2 && lf in "[(" && rf in "])"
    requires parseTime(LayoutOf(layout), a).Ok? && parseTime(LayoutOf(layout), b).Ok?
    ensures TimeIntervalOf(str, layout, parseTime)
         == Ok(TimeInterval(parseTime(LayoutOf(layout), a).value, parseTime(LayoutOf(layout), b).value,
                            FlagsFor(lf == '[', rf == ']')))
  {
    assert Spacer !in pb;
    TrimLeading(b, n, Space);
    TrimNothing(a, Space);
    TimeParse(str, lf, a, pb, rf, layout, parseTime);
  }

  // ------------------------------------------------------------- round trip

  /** Formatting a time interval and parsing the text in the same layout
      gives it back when parsing undoes formatting in that layout and every
      formatted instant is clean and non-empty. */
  lemma TimeRoundTrip(i: TimeInterval, layout: seq<string>, format: (Instant, string) -> string,
                      parseTime: (string, string) -> Result<Instant, string>)
    requires forall x :: parseTime(LayoutOf(layout), format(x, LayoutOf(layout))) == Ok(x)
    requires forall x :: Clean(format(x, LayoutOf(layout))) && |format(x, LayoutOf(layout))| > 0
    requires i.openClosedType <= Closed
    ensures TimeIntervalOf(Render(LeftClosed(i.openClosedType), format(i.left, LayoutOf(layout)),
                                  format(i.right, LayoutOf(layout)), RightClosed(i.openClosedType)),
                           layout, parseTime) == Ok(i)
  {
    var l := LayoutOf(layout);
    RenderRoundTrip(i.openClosedType, format(i.left, l), format(i.right, l));
  }

  // The expectations of the package's ParseTimeInterval tests, for any
  // `parseTime` that reads the two instants involved: the flags come from
  // the brackets whatever the values.

  const Stamp1: string := "2022-01-01T13:12:11Z"
  const Stamp2: string := "2022-05-01T13:12:11Z"

  /** The two timestamps of the tests are clean values. */
  lemma StampsClean()
    ensures Spacer !in Stamp1 && NoEdge(Stamp1, Space) && Spacer !in Stamp2 && NoEdge(Stamp2, Space)
  {
  }

  /** The test texts with flags `lf` and `rf` (each TimeExample...Text
      lemma spells one of them out). */
  lemma StampExample(lf: char, rf: char, parseTime: (string, string) -> Result<Instant, string>, t1: Instant, t2: Instant)
    requires lf in "[(" && rf in "])"
    requires parseTime(DefaultTimeLayout, Stamp1) == Ok(t1) && parseTime(DefaultTimeLayout, Stamp2) == Ok(t2)
    ensures TimeIntervalOf([lf] + Stamp1 + [Spacer] + " " + Stamp2 + [rf], [], parseTime)
         == Ok(TimeInterval(t1, t2, FlagsFor(lf == '[', rf == ']')))
  {
    StampsClean();
    assert " " + Stamp2 == Repeat(Space, 1) + Stamp2;
    TimeParsePadded([lf] + Stamp1 + [Spacer] + " " + Stamp2 + [rf], lf, Stamp1, " " + Stamp2, 1, Stamp2, rf,
                    [], parseTime);
  }

  lemma TimeExampleClosed(parseTime: (string, string) -> Result<Instant, string>, t1: Instant, t2: Instant)
    requires parseTime(DefaultTimeLayout, "2022-01-01T13:12:11Z") == Ok(t1)
    requires parseTime(DefaultTimeLayout, "2022-05-01T13:12:11Z") == Ok(t2)
    ensures TimeIntervalOf("[2022-01-01T13:12:11Z, 2022-05-01T13:12:11Z]", [], parseTime)
         == Ok(TimeInterval(t1, t2, Closed))
  {
    TimeExampleClosedText();
    StampExample('[', ']', parseTime, t1, t2);
  }

  lemma TimeExampleClosedText()
    ensures "[2022-01-01T13:12:11Z, 2022-05-01T13:12:11Z]" == ['['] + Stamp1 + [Spacer] + " " + Stamp2 + [']']
  {
  }

  lemma TimeExampleOpen(parseTime: (string, string) -> Result<Instant, string>, t1: Instant, t2: Instant)
    requires parseTime(DefaultTimeLayout, "2022-01-01T13:12:11Z") == Ok(t1)
    requires parseTime(DefaultTimeLayout, "2022-05-01T13:12:11Z") == Ok(t2)
    ensures TimeIntervalOf("(2022-01-01T13:12:11Z, 2022-05-01T13:12:11Z)", [], parseTime)
         == Ok(TimeInterval(t1, t2, Open))
  {
    TimeExampleOpenText();
    StampExample('(', ')', parseTime, t1, t2);
  }

  lemma TimeExampleOpenText()
    ensures "(2022-01-01T13:12:11Z, 2022-05-01T13:12:11Z)" == ['('] + Stamp1 + [Spacer] + " " + Stamp2 + [')']
  {
  }

  lemma TimeExampleOpenClosed(parseTime: (string, string) -> Result<Instant, string>, t1: Instant, t2: Instant)
    requires parseTime(DefaultTimeLayout, "2022-01-01T13:12:11Z") == Ok(t1)
    requires parseTime(DefaultTimeLayout, "2022-05-01T13:12:11Z") == Ok(t2)
    ensures TimeIntervalOf("(2022-01-01T13:12:11Z, 2022-05-01T13:12:11Z]", [], parseTime)
         == Ok(TimeInterval(t1, t2, OpenClosed))
  {
    TimeExampleOpenClosedText();
    StampExample('(', ']', parseTime, t1, t2);
  }

  lemma TimeExampleOpenClosedText()
    ensures "(2022-01-01T13:12:11Z, 2022-05-01T13:12:11Z]" == ['('] + Stamp1 + [Spacer] + " " + Stamp2 + [']']
  {
  }

  lemma TimeExampleClosedOpen(parseTime: (string, string) -> Result<Instant, string>, t1: Instant, t2: Instant)
    requires parseTime(DefaultTimeLayout, "2022-01-01T13:12:11Z") == Ok(t1)
    requires parseTime(DefaultTimeLayout, "2022-05-01T13:12:11Z") == Ok(t2)
    ensures TimeIntervalOf("[2022-01-01T13:12:11Z, 2022-05-01T13:12:11Z)", [], parseTime)
         == Ok(TimeInterval(t1, t2, ClosedOpen))
  {
    TimeExampleClosedOpenText();
    StampExample('[', ')', parseTime, t1, t2);
  }

  lemma TimeExampleClosedOpenText()
    ensures "[2022-01-01T13:12:11Z, 2022-05-01T13:12:11Z)" == ['['] + Stamp1 + [Spacer] + " " + Stamp2 + [')']
  {
  }

  /** With an explicit layout, the values are parsed in that layout. */
  lemma TimeExampleLayout(parseTime: (string, string) -> Result<Instant, string>, t1: Instant, t2: Instant)
    requires parseTime("2006-01-02", "2022-01-01") == Ok(t1)
    requires parseTime("2006-01-02", "2022-05-01") == Ok(t2)
    ensures TimeIntervalOf("[2022-01-01, 2022-05-01)", ["2006-01-02"], parseTime)
         == Ok(TimeInterval(t1, t2, ClosedOpen))
  {
    TimeParsePadded("[2022-01-01, 2022-05-01)", '[', "2022-01-01", " 2022-05-01", 1, "2022-05-01", ')',
                    ["2006-01-02"], parseTime);
  }
}
