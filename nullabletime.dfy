/** nullabletime.go: time intervals whose ends may be missing (a nil
    *time.Time, here None). A missing end leaves that side unbounded; the
    text form writes it as NULL. */
module NullableTimeIntervals {
  import opened Errors
  import opened Consts
  import opened GoStrings
  import opened Intervals
  import opened BaseIntervals
  import opened TimeIntervals

  /** The token that stands for a missing end. */
  const NullFlag: string := "NULL"

  /** `NullableTimeInterval`: two optional instants and the open/closed flags. */
  datatype NullableTimeInterval = NullableTimeInterval(left: Option<Instant>, right: Option<Instant>,
                                                       openClosedType: OpenClosedType) {

    /** Membership. A missing element is in no interval; with both ends the
        rule is the time interval's; with neither end nothing is contained;
        with one end missing only the other end bounds the interval. */
    predicate Contains(e: Option<Instant>): (r: bool)
      ensures r ==> e.Some? && (left.Some? || right.Some?)
      ensures r && left.Some? && right.None? ==> left.value <= e.value
      ensures r && left.None? && right.Some? ==> e.value <= right.value
      ensures e.Some? && left.Some? && e.value == left.value && LeftClosed(openClosedType) ==> r
      ensures e.Some? && right.Some? && e.value == right.value && RightClosed(openClosedType) ==> r
    {
      if e.None? then false
      else if left.Some? && right.Some? then
        || (e.value > left.value && e.value < right.value)
        || (e.value == left.value && openClosedType & ClosedOpen == ClosedOpen)
        || (e.value == right.value && openClosedType & OpenClosed == OpenClosed)
      else if left.None? && right.None? then false
      else if left.None? then
        e.value < right.value || (e.value == right.value && openClosedType & OpenClosed == OpenClosed)
      else
        e.value > left.value || (e.value == left.value && openClosedType & ClosedOpen == ClosedOpen)
    }

    /** The notation of the interval: each present end written by
        `format(instant, layout)` (Time.Format), each missing end as NULL. */
    method String(layout: seq<string>, format: (Instant, string) -> string) returns (s: string)
      ensures s == Render(LeftClosed(openClosedType), EndText(left, LayoutOf(layout), format),
                          EndText(right, LayoutOf(layout), format), RightClosed(openClosedType))
    {
      var l := DefaultTimeLayout;
      if |layout| > 0 {
        l := layout[0];
      }
      var bs := "";
      if LeftClosed(openClosedType) {
        bs := bs + LeftClosedBracket;
      } else {
        bs := bs + LeftOpenBracket;
      }
      if left.Some? {
        bs := bs + format(left.value, l);
      } else {
        bs := bs + NullFlag;
      }
      assert bs == LeftBracket(LeftClosed(openClosedType)) + EndText(left, LayoutOf(layout), format);
      bs := bs + [Spacer];
      if right.Some? {
        bs := bs + format(right.value, l);
      } else {
        bs := bs + NullFlag;
      }
      if RightClosed(openClosedType) {
        bs := bs + RightClosedBracket;
      } else {
        bs := bs + RightOpenBracket;
      }
      s := bs;
    }
  }

  /** How String writes one end. */
  function EndText(v: Option<Instant>, layout: string, format: (Instant, string) -> string): string {
    if v.Some? then format(v.value, layout) else NullFlag
  }

  /** NewNullableTimeInterval: the ends as given, and the first of the
      optional flags, or Default (left-closed, right-open) when none is given. */
  function NewNullableTimeInterval(left: Option<Instant>, right: Option<Instant>, openCloseType: seq<OpenClosedType>)
    : (i: NullableTimeInterval)
    ensures i.left == left && i.right == right
    ensures |openCloseType| > 0 ==> i.openClosedType == openCloseType[0]
    ensures |openCloseType| == 0 ==> i.openClosedType == Default
  {
    var t := if |openCloseType| > 0 then openCloseType[0] else Default;
    NullableTimeInterval(left, right, t)
  }

  // ------------------------------------------------------------- membership

  /** The missing element is in no interval, and the interval with both ends
      missing contains nothing. */
  lemma NothingForNull(i: NullableTimeInterval, e: Option<Instant>)
    ensures !i.Contains(None)
    ensures i.left.None? && i.right.None? ==> !i.Contains(e)
  {
  }

  /** With both ends present, membership is that of the time interval with
      those ends. */
  lemma BothEndsAgree(i: NullableTimeInterval, e: Instant)
    requires i.left.Some? && i.right.Some?
    ensures i.Contains(Some(e)) == TimeInterval(i.left.value, i.right.value, i.openClosedType).Contains(e)
  {
  }

  /** A missing left end is unbounded: membership is that of the time
      interval whose left end is any instant below the element, and the
      left flag plays no part. */
  lemma LeftUnbounded(i: NullableTimeInterval, e: Instant, lo: Instant, t: OpenClosedType)
    requires i.left.None? && i.right.Some? && lo < e
    requires t & OpenClosed == i.openClosedType & OpenClosed
    ensures i.Contains(Some(e)) == TimeInterval(lo, i.right.value, i.openClosedType).Contains(e)
    ensures i.Contains(Some(e)) <==> e < i.right.value || (e == i.right.value && RightClosed(i.openClosedType))
    ensures i.(openClosedType := t).Contains(Some(e)) == i.Contains(Some(e))
  {
  }

  /** A missing right end is unbounded: membership is that of the time
      interval whose right end is any instant above the element, and the
      right flag plays no part. */
  lemma RightUnbounded(i: NullableTimeInterval, e: Instant, hi: Instant, t: OpenClosedType)
    requires i.left.Some? && i.right.None? && e < hi
    requires t & ClosedOpen == i.openClosedType & ClosedOpen
    ensures i.Contains(Some(e)) == TimeInterval(i.left.value, hi, i.openClosedType).Contains(e)
    ensures i.Contains(Some(e)) <==> e > i.left.value || (e == i.left.value && LeftClosed(i.openClosedType))
    ensures i.(openClosedType := t).Contains(Some(e)) == i.Contains(Some(e))
  {
  }

  /** The expectations of the package's Contains tests, on the intervals its
      texts denote, with tm0 = 2022-10-01, tm1 = 2022-09-30 and
      sep = 2022-09-01 (so sep < tm1 < tm0). */
  lemma ContainsExamples(tm0: Instant, tm1: Instant, sep: Instant)
    requires sep < tm1 < tm0
    ensures var ti0 := NullableTimeInterval(Some(tm0), None, Closed);
      ti0.Contains(Some(tm0)) && !ti0.Contains(Some(tm1))
    ensures var ti1 := NullableTimeInterval(Some(tm0), None, OpenClosed);
      !ti1.Contains(Some(tm1)) && !ti1.Contains(Some(tm0))
    ensures var ti2 := NullableTimeInterval(None, Some(tm0), OpenClosed);
      ti2.Contains(Some(tm0)) && ti2.Contains(Some(tm1))
    ensures var ti3 := NullableTimeInterval(None, Some(tm0), Open);
      !ti3.Contains(Some(tm0)) && ti3.Contains(Some(tm1))
    ensures var ti4 := NullableTimeInterval(Some(sep), Some(tm0), Open);
      !ti4.Contains(Some(tm0)) && ti4.Contains(Some(tm1)) && !ti4.Contains(None)
  {
  }

  // ---------------------------------------------------------------- parsing

  /** strings.ToUpper(value) == NullFlag. */
  predicate IsNullToken(value: string): (r: bool)
    ensures r <==> |value| == |NullFlag| && forall k :: 0 <= k < |value| ==> UpperByte(value[k]) == NullFlag[k]
  {
    ToUpper(value) == NullFlag
  }

  /** The null token is "null" in any mix of cases, and nothing else. */
  lemma NullTokenSpelling(value: string)
    ensures IsNullToken(value) <==>
      && |value| == 4
      && (value[0] == 'n' || value[0] == 'N') && (value[1] == 'u' || value[1] == 'U')
      && (value[2] == 'l' || value[2] == 'L') && (value[3] == 'l' || value[3] == 'L')
  {
    var u := ToUpper(value);
    if |value| == 4 {
      assert u == NullFlag <==> u[0] == 'N' && u[1] == 'U' && u[2] == 'L' && u[3] == 'L';
    }
  }

  /** What parseNullableTimeStr returns: a missing end for the null token,
      otherwise the instant `parseTime(layout, value)` (time.Parse) reads,
      or its error. */
  function NullableTimeOf(layout: string, value: string, parseTime: (string, string) -> Result<Instant, string>)
    : (r: Result<Option<Instant>, Error>)
    ensures r == Ok(None) <==> IsNullToken(value)
    ensures r.Ok? && r.value.Some? <==> !IsNullToken(value) && parseTime(layout, value).Ok?
    ensures r.Ok? && r.value.Some? ==> r.value.value == parseTime(layout, value).value
    ensures r.Err? ==> r.error == ValueParseErr(parseTime(layout, value).error)
  {
    if IsNullToken(value) then Ok(None)
    else match parseTime(layout, value)
      case Err(e) => Err(ValueParseErr(e))
      case Ok(t) => Ok(Some(t))
  }

  /** What ParseNullableTimeInterval returns. Structural and flag errors
      come first, then the left value's error, then the right value's; on
      success the result is the string interval with each value read as
      NULL or parsed in the chosen layout. */
  function NullableTimeIntervalOf(str: string, layout: seq<string>,
                                  parseTime: (string, string) -> Result<Instant, string>)
    : (r: Result<NullableTimeInterval, Error>)
    ensures BlowUp(str).Err? ==> r == Err(BlowUp(str).error)
    ensures StrIntervalOf(str).Err? ==> r == Err(StrIntervalOf(str).error)
    ensures StrIntervalOf(str).Ok? && NullableTimeOf(LayoutOf(layout), StrIntervalOf(str).value.left, parseTime).Err? ==>
      r == Err(NullableTimeOf(LayoutOf(layout), StrIntervalOf(str).value.left, parseTime).error)
    ensures StrIntervalOf(str).Ok? && NullableTimeOf(LayoutOf(layout), StrIntervalOf(str).value.left, parseTime).Ok? &&
            NullableTimeOf(LayoutOf(layout), StrIntervalOf(str).value.right, parseTime).Err? ==>
      r == Err(NullableTimeOf(LayoutOf(layout), StrIntervalOf(str).value.right, parseTime).error)
    ensures r.Ok? <==>
      && StrIntervalOf(str).Ok?
      && NullableTimeOf(LayoutOf(layout), StrIntervalOf(str).value.left, parseTime).Ok?
      && NullableTimeOf(LayoutOf(layout), StrIntervalOf(str).value.right, parseTime).Ok?
    ensures r.Ok? ==>
      var s := StrIntervalOf(str).value;
      r.value == NullableTimeInterval(NullableTimeOf(LayoutOf(layout), s.left, parseTime).value,
                                      NullableTimeOf(LayoutOf(layout), s.right, parseTime).value, s.openClosedType)
  {
    match BlowUp(str)
    case Err(e) => Err(e)
    case Ok(p) =>
      match FlagsOf(p.leftFlag, p.rightFlag)
      case Err(e) => Err(e)
      case Ok(t) =>
        var l := LayoutOf(layout);
        match NullableTimeOf(l, p.leftValue, parseTime)
        case Err(e) => Err(e)
        case Ok(lt) =>
          match NullableTimeOf(l, p.rightValue, parseTime)
          case Err(e) => Err(e)
          case Ok(rt) => Ok(NewNullableTimeInterval(lt, rt, [t]))
  }

  /** ParseNullableTimeInterval. */
  method ParseNullableTimeInterval(intervalStr: string, layout: seq<string>,
                                   parseTime: (string, string) -> Result<Instant, string>)
    returns (ti: Result<NullableTimeInterval, Error>)
    ensures ti == NullableTimeIntervalOf(intervalStr, layout, parseTime)
  {
    var parts := BlowUp(intervalStr);
    if parts.Err? {
      return Err(parts.error);
    }
    var openClosedType, err := GetOpenClosedType(parts.value.leftFlag, parts.value.rightFlag);
    if err.Some? {
      return Err(err.value);
    }
    var l := DefaultTimeLayout;
    if |layout| > 0 {
      l := layout[0];
    }
    var lt := NullableTimeOf(l, parts.value.leftValue, parseTime);
    if lt.Err? {
      return Err(lt.error);
    }
    var rt := NullableTimeOf(l, parts.value.rightValue, parseTime);
    if rt.Err? {
      return Err(rt.error);
    }
    return Ok(NewNullableTimeInterval(lt.value, rt.value, [openClosedType]));
  }

  /** The interval a well-formed text denotes: each trimmed value read as
      NULL or parsed, and the flags read from the two brackets alone,
      whether the ends are present or not. */
  lemma NullableParse(str: string, lf: char, a: string, b: string, rf: char, layout: seq<string>,
                      parseTime: (string, string) -> Result<Instant, string>)
    requires str == [lf] + a + [Spacer] + b + [rf]
    requires Spacer !in a && Spacer !in b && NoEdge(a, Space) && NoEdge(b, Space)
    requires |a| + |b| >= 2 && lf in "[(" && rf in "])"
    requires NullableTimeOf(LayoutOf(layout), a, parseTime).Ok? && NullableTimeOf(LayoutOf(layout), b, parseTime).Ok?
    ensures NullableTimeIntervalOf(str, layout, parseTime)
         == Ok(NullableTimeInterval(NullableTimeOf(LayoutOf(layout), a, parseTime).value,
                                    NullableTimeOf(LayoutOf(layout), b, parseTime).value,
                                    FlagsFor(lf == '[', rf == ']')))
  {
    TrimNothing(a, Space);
    TrimNothing(b, Space);
    StrParse(str, lf, a, b, rf);
  }

  // ------------------------------------------------------------- round trip

  /** NULL is a clean value that reads back as a missing end. */
  lemma NullFlagReadsBack(layout: string, parseTime: (string, string) -> Result<Instant, string>)
    ensures Clean(NullFlag) && |NullFlag| == 4
    ensures NullableTimeOf(layout, NullFlag, parseTime) == Ok(None)
  {
    NullTokenSpelling(NullFlag);
  }

  /** One end as String writes it reads back as that end, when its
      formatted instant parses back, is clean and non-empty and does not
      spell null. */
  lemma EndTextReadsBack(v: Option<Instant>, layout: string, format: (Instant, string) -> string,
                         parseTime: (string, string) -> Result<Instant, string>)
    requires v.Some? ==> var text := format(v.value, layout);
      parseTime(layout, text) == Ok(v.value) && Clean(text) && |text| > 0 && !IsNullToken(text)
    ensures NullableTimeOf(layout, EndText(v, layout, format), parseTime) == Ok(v)
    ensures Clean(EndText(v, layout, format)) && |EndText(v, layout, format)| > 0
  {
    NullFlagReadsBack(layout, parseTime);
  }

  /** Formatting a nullable time interval and parsing the text in the same
      layout gives it back when parsing undoes formatting in that layout and
      every formatted instant is clean, non-empty and not a spelling of
      null. */
  lemma NullableRoundTrip(i: NullableTimeInterval, layout: seq<string>, format: (Instant, string) -> string,
                          parseTime: (string, string) -> Result<Instant, string>)
    requires forall x :: parseTime(LayoutOf(layout), format(x, LayoutOf(layout))) == Ok(x)
    requires forall x :: Clean(format(x, LayoutOf(layout))) && |format(x, LayoutOf(layout))| > 0
    requires forall x :: !IsNullToken(format(x, LayoutOf(layout)))
    requires i.openClosedType <= Closed
    ensures NullableTimeIntervalOf(Render(LeftClosed(i.openClosedType), EndText(i.left, LayoutOf(layout), format),
                                          EndText(i.right, LayoutOf(layout), format), RightClosed(i.openClosedType)),
                                   layout, parseTime) == Ok(i)
  {
    var l := LayoutOf(layout);
    if i.left.Some? {
      var x := i.left.value;
      assert parseTime(l, format(x, l)) == Ok(x);
      assert Clean(format(x, l)) && |format(x, l)| > 0 && !IsNullToken(format(x, l));
    }
    if i.right.Some? {
      var x := i.right.value;
      assert parseTime(l, format(x, l)) == Ok(x);
      assert Clean(format(x, l)) && |format(x, l)| > 0 && !IsNullToken(format(x, l));
    }
    EndTextReadsBack(i.left, l, format, parseTime);
    EndTextReadsBack(i.right, l, format, parseTime);
    RenderRoundTrip(i.openClosedType, EndText(i.left, l, format), EndText(i.right, l, format));
  }

  // The expectations of the package's ParseNullableTimeInterval tests.

  /** "null" is a clean value that reads as a missing end. */
  lemma NullReads(layout: string, parseTime: (string, string) -> Result<Instant, string>)
    ensures NullableTimeOf(layout, "null", parseTime) == Ok(None)
    ensures Spacer !in "null" && NoEdge("null", Space)
  {
    NullTokenSpelling("null");
  }

  /** A clean value that does not spell null reads as the instant it parses to. */
  lemma StampReads(layout: string, value: string, parseTime: (string, string) -> Result<Instant, string>, tm: Instant)
    requires parseTime(layout, value) == Ok(tm) && |value| != 4
    ensures NullableTimeOf(layout, value, parseTime) == Ok(Some(tm))
  {
    NullTokenSpelling(value);
  }

  /** "[null,null)": both ends missing, whatever `parseTime` does. */
  lemma NullableExampleBothNull(parseTime: (string, string) -> Result<Instant, string>)
    ensures NullableTimeIntervalOf("[null,null)", [], parseTime) == Ok(NullableTimeInterval(None, None, ClosedOpen))
  {
    NullReads(DefaultTimeLayout, parseTime);
    NullableParse("[null,null)", '[', "null", "null", ')', [], parseTime);
  }

  /** "[null,2022-10-01T00:00:00Z]": a missing left end beside a parsed
      right end, both flags closed. */
  lemma NullableExampleLeftNull(parseTime: (string, string) -> Result<Instant, string>, tm: Instant)
    requires parseTime(DefaultTimeLayout, "2022-10-01T00:00:00Z") == Ok(tm)
    ensures NullableTimeIntervalOf("[null,2022-10-01T00:00:00Z]", [], parseTime)
         == Ok(NullableTimeInterval(None, Some(tm), Closed))
  {
    NullReads(DefaultTimeLayout, parseTime);
    StampReads(DefaultTimeLayout, "2022-10-01T00:00:00Z", parseTime, tm);
    LeftNullText();
    NullableParse("[null,2022-10-01T00:00:00Z]", '[', "null", "2022-10-01T00:00:00Z", ']', [], parseTime);
  }

  /** "(2022-10-01 00:00:00,null)" in layout "2006-01-02 15:04:05": a
      parsed left end (its inner space kept) beside a missing right end. */
  lemma NullableExampleRightNull(parseTime: (string, string) -> Result<Instant, string>, tm: Instant)
    requires parseTime("2006-01-02 15:04:05", "2022-10-01 00:00:00") == Ok(tm)
    ensures NullableTimeIntervalOf("(2022-10-01 00:00:00,null)", ["2006-01-02 15:04:05"], parseTime)
         == Ok(NullableTimeInterval(Some(tm), None, Open))
  {
    NullReads("2006-01-02 15:04:05", parseTime);
    StampReads("2006-01-02 15:04:05", "2022-10-01 00:00:00", parseTime, tm);
    RightNullText();
    NullableParse("(2022-10-01 00:00:00,null)", '(', "2022-10-01 00:00:00", "null", ')',
                  ["2006-01-02 15:04:05"], parseTime);
  }

  /** The two test texts spelled out piece by piece. */
  lemma LeftNullText()
    ensures "[null,2022-10-01T00:00:00Z]" == ['['] + "null" + [Spacer] + "2022-10-01T00:00:00Z" + [']']
    ensures Spacer !in "2022-10-01T00:00:00Z" && NoEdge("2022-10-01T00:00:00Z", Space)
  {
  }

  lemma RightNullText()
    ensures "(2022-10-01 00:00:00,null)" == ['('] + "2022-10-01 00:00:00" + [Spacer] + "null" + [')']
    ensures Spacer !in "2022-10-01 00:00:00" && NoEdge("2022-10-01 00:00:00", Space)
  {
  }
}
