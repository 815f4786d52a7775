/** interval.go: the flag queries, the generic interval over a caller's
    `CompareTo`, and the textual codec shared by every specialisation
    (blowUp, isClosedFlag, getOpenClosedType, and the rendering that every
    `String` method performs). */
module Intervals {
  import opened Errors
  import opened Consts
  import opened GoStrings
  import opened Sortable

  // ---------------------------------------------------------------- flags

  /** True iff the ClosedOpen bit (bit 1) is set; no other bit matters. */
  function LeftClosed(t: OpenClosedType): (closed: bool)
    ensures closed <==> (t as int) % 4 >= 2
  {
    t & ClosedOpen == ClosedOpen
  }

  /** True iff the OpenClosed bit (bit 0) is set; no other bit matters. */
  function RightClosed(t: OpenClosedType): (closed: bool)
    ensures closed <==> (t as int) % 2 == 1
  {
    t & OpenClosed == OpenClosed
  }

  /** What the named flag values mean at each end. */
  lemma NamedFlags()
    ensures LeftClosed(Closed) && RightClosed(Closed)
    ensures !LeftClosed(Open) && !RightClosed(Open)
    ensures LeftClosed(ClosedOpen) && !RightClosed(ClosedOpen)
    ensures !LeftClosed(OpenClosed) && RightClosed(OpenClosed)
    ensures Default == ClosedOpen
  {
  }

  /** Two flag values that agree on bits 0 and 1 answer both queries alike. */
  lemma HighBitsIgnored(t: OpenClosedType, u: OpenClosedType)
    requires t & Closed == u & Closed
    ensures LeftClosed(t) == LeftClosed(u) && RightClosed(t) == RightClosed(u)
  {
  }

  /** The flag value with the given closed ends, built as getOpenClosedType
      builds it: ClosedOpen for a closed left, OR-ed with OpenClosed for a
      closed right. */
  function FlagsFor(leftClosed: bool, rightClosed: bool): (t: OpenClosedType)
    ensures t <= Closed
    ensures LeftClosed(t) == leftClosed && RightClosed(t) == rightClosed
  {
    (if leftClosed then ClosedOpen else Open) | (if rightClosed then OpenClosed else Open)
  }

  /** On 0..3 the two queries lose nothing: FlagsFor rebuilds the value. */
  lemma FlagsForQueries(t: OpenClosedType)
    requires t <= Closed
    ensures FlagsFor(LeftClosed(t), RightClosed(t)) == t
  {
  }

  // ----------------------------------------------------- generic interval

  /** `Interval[T SortComparable[T]]`: two endpoints, stored as given with
      no ordering check, and the open/closed flags. */
  datatype Interval<T> = Interval(left: T, right: T, openClosedType: OpenClosedType) {

    /** Membership through the caller's `CompareTo`: strictly between the
        ends, or equal to an end that is closed. */
    predicate Contains(compareTo: (T, T) -> int, e: T): (r: bool)
      ensures compareTo(left, e) < 0 && compareTo(right, e) > 0 ==> r
      ensures compareTo(left, e) == 0 && LeftClosed(openClosedType) ==> r
      ensures compareTo(right, e) == 0 && RightClosed(openClosedType) ==> r
      ensures compareTo(left, e) == 0 && !LeftClosed(openClosedType) ==>
        (r <==> compareTo(right, e) == 0 && RightClosed(openClosedType))
      ensures compareTo(right, e) == 0 && !RightClosed(openClosedType) ==>
        (r <==> compareTo(left, e) == 0 && LeftClosed(openClosedType))
      ensures compareTo(left, e) != 0 && compareTo(right, e) != 0 ==>
        (r <==> compareTo(left, e) < 0 && compareTo(right, e) > 0)
    {
      if compareTo(left, e) < 0 && compareTo(right, e) > 0 then true
      else if compareTo(left, e) == 0 && openClosedType & ClosedOpen == ClosedOpen then true
      else if compareTo(right, e) == 0 && openClosedType & OpenClosed == OpenClosed then true
      else false
    }

    /** The notation of the interval: a bracket per end chosen by the flags,
        and the two endpoints as `sprint` renders them, joined by a comma. */
    method String(sprint: T -> string) returns (s: string)
      ensures s == Render(LeftClosed(openClosedType), sprint(left), sprint(right), RightClosed(openClosedType))
    {
      var bs := "";
      if LeftClosed(openClosedType) {
        bs := bs + LeftClosedBracket;
      } else {
        bs := bs + LeftOpenBracket;
      }
      bs := bs + sprint(left);
      bs := bs + [Spacer];
      bs := bs + sprint(right);
      if RightClosed(openClosedType) {
        bs := bs + RightClosedBracket;
      } else {
        bs := bs + RightOpenBracket;
      }
      s := bs;
    }
  }

  /** With left before right, membership is the textbook one: after the left
      end (or on it, if closed) and before the right end (or on it, if closed). */
  lemma ContainsOrdered<T(!new)>(i: Interval<T>, compareTo: (T, T) -> int, e: T)
    requires IsTotalOrder(compareTo)
    requires compareTo(i.left, i.right) < 0
    ensures i.Contains(compareTo, e) <==>
      && (compareTo(i.left, e) < 0 || (compareTo(i.left, e) == 0 && LeftClosed(i.openClosedType)))
      && (compareTo(i.right, e) > 0 || (compareTo(i.right, e) == 0 && RightClosed(i.openClosedType)))
  {
    var l, r := compareTo(i.left, e), compareTo(i.right, e);
    if l == 0 {
      // e sits on the left end, so the right end lies after it
      assert compareTo(e, i.left) == 0;
      assert compareTo(i.right, i.left) > 0;
      assert compareTo(e, i.right) <= 0;
      assert compareTo(i.right, e) <= 0 ==> compareTo(i.right, i.left) <= 0;
    }
    if r == 0 {
      assert compareTo(e, i.right) == 0;
      assert compareTo(i.left, e) <= 0;
      assert compareTo(e, i.left) <= 0 ==> compareTo(i.right, i.left) <= 0;
    }
  }

  /** With equal ends, only that point can be a member, and it is one iff at
      least one end is closed: Closed holds exactly the point, Open nothing,
      and the half-open flags hold the point too. */
  lemma ContainsPoint<T(!new)>(i: Interval<T>, compareTo: (T, T) -> int, e: T)
    requires IsTotalOrder(compareTo)
    requires compareTo(i.left, i.right) == 0
    ensures i.Contains(compareTo, e) <==>
      compareTo(i.left, e) == 0 && (LeftClosed(i.openClosedType) || RightClosed(i.openClosedType))
    ensures i.openClosedType == Closed ==> (i.Contains(compareTo, e) <==> compareTo(i.left, e) == 0)
    ensures i.openClosedType == Open ==> !i.Contains(compareTo, e)
  {
    var l, r := compareTo(i.left, e), compareTo(i.right, e);
    assert compareTo(i.right, i.left) == 0;
    // compareTo(_, e) agrees on the two ends
    assert l <= 0 ==> r <= 0;
    assert r <= 0 ==> l <= 0;
    assert compareTo(e, i.left) <= 0 ==> compareTo(e, i.right) <= 0;
    assert compareTo(e, i.right) <= 0 ==> compareTo(e, i.left) <= 0;
  }

  /** With the left end after the right end nothing lies between them, yet a
      closed end still contains itself: no ordering check is made. */
  lemma ContainsInverted<T(!new)>(i: Interval<T>, compareTo: (T, T) -> int, e: T)
    requires IsTotalOrder(compareTo)
    requires compareTo(i.left, i.right) > 0
    ensures i.Contains(compareTo, e) <==>
      || (compareTo(i.left, e) == 0 && LeftClosed(i.openClosedType))
      || (compareTo(i.right, e) == 0 && RightClosed(i.openClosedType))
  {
  }

  // ------------------------------------------------------------- notation

  /** A value the notation can carry unchanged: no comma, and no space at
      either end (the parser would trim it). */
  predicate Clean(v: string) {
    Spacer !in v && NoEdge(v, Space)
  }

  /** The bracket of the left end and of the right end. */
  function LeftBracket(closed: bool): string {
    if closed then LeftClosedBracket else LeftOpenBracket
  }

  function RightBracket(closed: bool): string {
    if closed then RightClosedBracket else RightOpenBracket
  }

  /** What every `String` method writes into its buffer. */
  function Render(leftClosed: bool, leftValue: string, rightValue: string, rightClosed: bool): (s: string)
    ensures |s| == |leftValue| + |rightValue| + 3
    ensures s[0] == (if leftClosed then '[' else '(')
    ensures s[|s| - 1] == (if rightClosed then ']' else ')')
    ensures s[1..|leftValue| + 1] == leftValue && s[|leftValue| + 1] == Spacer
    ensures s[|leftValue| + 2..|s| - 1] == rightValue
  {
    LeftBracket(leftClosed) + leftValue + [Spacer] + rightValue + RightBracket(rightClosed)
  }

  /** The five results of blowUp when it succeeds. */
  datatype Parts = Parts(leftFlag: string, leftValue: string, rightValue: string, rightFlag: string)

  /** blowUp: split the notation into its two one-byte flags and its two
      trimmed values. Too short (under 5 bytes) is reported first; otherwise
      the bytes between the flags must hold exactly one comma. A flag is the
      one-byte string of its byte; Go's `string(str[0])` differs from that
      only for bytes of 0x80 and above, which no flag table holds either way. */
  function BlowUp(str: string): (r: Result<Parts, Error>)
    ensures r == Err(ParseTooShortErr) <==> |str| < 5
    ensures r == Err(ValueStrErr) <==> |str| >= 5 && Count(str[1..|str| - 1], Spacer) != 1
    ensures r.Ok? <==> |str| >= 5 && Count(str[1..|str| - 1], Spacer) == 1
    ensures r.Ok? ==> r.value.leftFlag == [str[0]] && r.value.rightFlag == [str[|str| - 1]]
    ensures r.Ok? ==> Clean(r.value.leftValue) && Clean(r.value.rightValue)
  {
    var strLen := |str|;
    if strLen < 5 then Err(ParseTooShortErr)
    else
      var leftFlag, rightFlag := [str[0]], [str[strLen - 1]];
      var values := Split(str[1..strLen - 1], Spacer);
      if |values| != 2 then Err(ValueStrErr)
      else Ok(Parts(leftFlag, Trim(values[0], Space), Trim(values[1], Space), rightFlag))
  }

  /** The values blowUp returns are the two sides of the comma, trimmed. */
  lemma BlowUpValues(lf: char, a: string, b: string, rf: char)
    requires Spacer !in a && Spacer !in b && |a| + |b| >= 2
    ensures BlowUp([lf] + a + [Spacer] + b + [rf]) == Ok(Parts([lf], Trim(a, Space), Trim(b, Space), [rf]))
  {
    var s := [lf] + a + [Spacer] + b + [rf];
    assert s[1..|s| - 1] == a + [Spacer] + b;
    SplitTwo(a, b, Spacer);
  }

  /** isClosedFlag: a bracket from the open table is open, one from the
      closed table is closed, anything else is an error. The direction of
      the bracket is not checked. */
  function IsClosedFlag(flag: string): (r: Result<bool, Error>)
    ensures r == Ok(false) <==> flag == "(" || flag == ")"
    ensures r == Ok(true) <==> flag == "[" || flag == "]"
    ensures r.Err? ==> r.error == OpenClosedFlagErr
  {
    if flag in OpenFlags then Ok(false)
    else if flag in ClosedFlags then Ok(true)
    else Err(OpenClosedFlagErr)
  }

  /** What getOpenClosedType computes: the left flag decides the ClosedOpen
      bit and the right flag the OpenClosed bit; a bad left flag is reported
      whatever the right flag is. */
  function FlagsOf(lf: string, rf: string): (r: Result<OpenClosedType, Error>)
    ensures IsClosedFlag(lf).Err? ==> r == Err(OpenClosedFlagErr)
    ensures r.Ok? <==> IsClosedFlag(lf).Ok? && IsClosedFlag(rf).Ok?
    ensures r.Err? ==> r.error == OpenClosedFlagErr
    ensures r.Ok? ==> (
      && r.value <= Closed
      && (LeftClosed(r.value) <==> IsClosedFlag(lf) == Ok(true))
      && (RightClosed(r.value) <==> IsClosedFlag(rf) == Ok(true)))
  {
    match IsClosedFlag(lf)
    case Err(e) => Err(e)
    case Ok(leftClosed) =>
      match IsClosedFlag(rf)
      case Err(e) => Err(e)
      case Ok(rightClosed) => Ok(FlagsFor(leftClosed, rightClosed))
  }

  /** The flags of a left bracket byte and a right bracket byte. */
  lemma FlagsOfBrackets(lf: char, rf: char)
    requires lf in "[(" && rf in "])"
    ensures FlagsOf([lf], [rf]) == Ok(FlagsFor(lf == '[', rf == ']'))
  {
    assert IsClosedFlag([lf]) == Ok(lf == '[');
    assert IsClosedFlag([rf]) == Ok(rf == ']');
  }

  /** getOpenClosedType: accumulate the flag bits into a local, returning
      early on a bad flag together with what has been accumulated. */
  method GetOpenClosedType(lf: string, rf: string) returns (openClosedType: OpenClosedType, err: Option<Error>)
    ensures err.None? <==> FlagsOf(lf, rf).Ok?
    ensures err.None? ==> openClosedType == FlagsOf(lf, rf).value
    ensures err.Some? ==> err.value == OpenClosedFlagErr
    ensures IsClosedFlag(lf).Err? ==> openClosedType == Open
    ensures IsClosedFlag(lf).Ok? && IsClosedFlag(rf).Err? ==>
      openClosedType == (if IsClosedFlag(lf).value then ClosedOpen else Open)
  {
    openClosedType := Open;
    var left := IsClosedFlag(lf);
    if left.Err? {
      return openClosedType, Some(left.error);
    } else if left.value {
      openClosedType := openClosedType | ClosedOpen;
    }
    var right := IsClosedFlag(rf);
    if right.Err? {
      return openClosedType, Some(right.error);
    } else if right.value {
      openClosedType := openClosedType | OpenClosed;
    }
    return openClosedType, None;
  }

  /** The codec round trip: rendering flags 0..3 and two clean values of
      combined length at least 2, then blowing the text up and decoding its
      flags, gives back the same values and flags. */
  lemma RenderRoundTrip(t: OpenClosedType, lv: string, rv: string)
    requires t <= Closed && Clean(lv) && Clean(rv) && |lv| + |rv| >= 2
    ensures var s := Render(LeftClosed(t), lv, rv, RightClosed(t));
      && BlowUp(s) == Ok(Parts(LeftBracket(LeftClosed(t)), lv, rv, RightBracket(RightClosed(t))))
      && FlagsOf(LeftBracket(LeftClosed(t)), RightBracket(RightClosed(t))) == Ok(t)
  {
    var lb, rb := LeftBracket(LeftClosed(t)), RightBracket(RightClosed(t));
    assert Render(LeftClosed(t), lv, rv, RightClosed(t)) == [lb[0]] + lv + [Spacer] + rv + [rb[0]];
    BlowUpValues(lb[0], lv, rv, rb[0]);
    FlagsForQueries(t);
  }

  /** A value with `n` spaces before it and `m` after it. */
  function Padded(v: string, n: nat, m: nat): (r: string)
    ensures Spacer !in v ==> Spacer !in r
  {
    Repeat(Space, n) + v + Repeat(Space, m)
  }

  /** Spaces around either value are ignored. */
  lemma BlowUpPadding(lf: char, a: string, b: string, rf: char, n1: nat, n2: nat, n3: nat, n4: nat)
    requires Spacer !in a && Spacer !in b && |a| + |b| >= 2
    ensures BlowUp([lf] + Padded(a, n1, n2) + [Spacer] + Padded(b, n3, n4) + [rf])
         == BlowUp([lf] + a + [Spacer] + b + [rf])
  {
    BlowUpValues(lf, Padded(a, n1, n2), Padded(b, n3, n4), rf);
    BlowUpValues(lf, a, b, rf);
    TrimPadding(a, n1, n2, Space);
    TrimPadding(b, n3, n4, Space);
  }
}
