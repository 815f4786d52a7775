/** The constants of const.go: the open/closed flag values, the bracket and
    separator bytes of the textual notation, and the bracket lookup tables. */
module Consts {

  /** Go's `OpenClosedType uint8`: bit 1 (value 2) marks a closed left end,
      bit 0 (value 1) a closed right end; the other six bits are ignored. */
  type OpenClosedType = bv8

  const Open: OpenClosedType := 0
  const OpenClosed: OpenClosedType := 1
  const ClosedOpen: OpenClosedType := OpenClosed << 1
  const Closed: OpenClosedType := ClosedOpen | OpenClosed

  /** The flags an interval gets when its constructor is given none. */
  const Default: OpenClosedType := ClosedOpen

  /** The layout used by the time specialisations when the caller gives none. */
  const DefaultTimeLayout: string := "2006-01-02T15:04:05Z"

  // The bracket strings (Go names: LeftClosed, LeftOpen, RightClosed, RightOpen).
  const LeftClosedBracket: string := "["
  const LeftOpenBracket: string := "("
  const RightClosedBracket: string := "]"
  const RightOpenBracket: string := ")"

  /** Go's `Spacer = ","`, the one-byte separator between the two values. */
  const Spacer: char := ','
  /** Go's `Space = " "`, the one-byte cutset trimmed around each value. */
  const Space: char := ' '

  /** The brackets that mark an open end, on either side. */
  const OpenFlags: set<string> := {LeftOpenBracket, RightOpenBracket}
  /** The brackets that mark a closed end, on either side. */
  const ClosedFlags: set<string> := {LeftClosedBracket, RightClosedBracket}

  /** The four named flag values, and how Closed and Default are built. */
  lemma FlagValues()
    ensures Open == 0 && OpenClosed == 1 && ClosedOpen == 2 && Closed == 3
    ensures Closed == ClosedOpen | OpenClosed && Default == ClosedOpen
  {
  }

  /** The tables hold exactly the four brackets, and no bracket is both. */
  lemma FlagTables()
    ensures OpenFlags == {"(", ")"} && ClosedFlags == {"[", "]"}
    ensures OpenFlags * ClosedFlags == {}
  {
  }
}
