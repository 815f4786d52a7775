/** The behaviour of the few functions of Go's `strings` package that the
    notation codec calls: Split and Trim with a one-byte separator or cutset,
    and ToUpper on ASCII. A Go string is a sequence of bytes; here each
    `char` stands for one byte, so lengths and indices are byte counts. */
module GoStrings {

  /** The number of bytes of `s` equal to `c`. */
  function Count(s: string, c: char): nat
    decreases |s|
  {
    if |s| == 0 then 0 else (if s[0] == c then 1 else 0) + Count(s[1..], c)
  }

  lemma {:induction false} CountZero(s: string, c: char)
    ensures Count(s, c) == 0 <==> c !in s
    decreases |s|
  {
    if |s| > 0 {
      CountZero(s[1..], c);
      assert s == [s[0]] + s[1..];
    }
  }

  /** `n` copies of `c`. */
  function Repeat(c: char, n: nat): (r: string)
    ensures |r| == n && forall i :: 0 <= i < n ==> r[i] == c
  {
    if n == 0 then "" else [c] + Repeat(c, n - 1)
  }

  /** strings.Join with a one-byte separator. */
  function Join(parts: seq<string>, sep: char): string
    decreases |parts|
  {
    if |parts| == 0 then ""
    else if |parts| == 1 then parts[0]
    else parts[0] + [sep] + Join(parts[1..], sep)
  }

  /** strings.Split with a one-byte separator: the pieces between the
      separators, in order, so one more piece than there are separators
      (an empty string splits into one empty piece). */
  function Split(s: string, sep: char): (parts: seq<string>)
    ensures |parts| == Count(s, sep) + 1
    ensures forall i :: 0 <= i < |parts| ==> sep !in parts[i]
    decreases |s|
  {
    if |s| == 0 then [""]
    else
      var rest := Split(s[1..], sep);
      if s[0] == sep then [""] + rest
      else
        assert sep !in rest[0];
        [[s[0]] + rest[0]] + rest[1..]
  }

  /** Splitting loses nothing: joining the pieces gives the input back. */
  lemma {:induction false} JoinSplit(s: string, sep: char)
    ensures Join(Split(s, sep), sep) == s
    decreases |s|
  {
    if |s| > 0 {
      var rest := Split(s[1..], sep);
      JoinSplit(s[1..], sep);
      if s[0] == sep {
        assert Split(s, sep)[1..] == rest;
      } else if |rest| == 1 {
        assert Split(s, sep) == [[s[0]] + rest[0]];
      } else {
        var parts := Split(s, sep);
        assert parts[1..] == rest[1..];
        assert Join(rest, sep) == rest[0] + [sep] + Join(rest[1..], sep);
        assert s == [s[0]] + s[1..];
      }
    }
  }

  /** A string without the separator is one piece. */
  lemma SplitNoSeparator(s: string, sep: char)
    requires sep !in s
    ensures Split(s, sep) == [s]
  {
    CountZero(s, sep);
    JoinSplit(s, sep);
  }

  /** Two separator-free pieces around one separator split back into
      exactly those two pieces. */
  lemma {:induction false} SplitTwo(a: string, b: string, sep: char)
    requires sep !in a && sep !in b
    ensures Split(a + [sep] + b, sep) == [a, b]
    decreases |a|
  {
    var s := a + [sep] + b;
    if |a| == 0 {
      assert s[1..] == b;
      SplitNoSeparator(b, sep);
    } else {
      assert s[1..] == a[1..] + [sep] + b;
      SplitTwo(a[1..], b, sep);
      assert [a[0]] + a[1..] == a;
    }
  }

  /** strings.TrimLeft with a one-byte cutset: drop the leading run of `c`. */
  function TrimLeft(s: string, c: char): (r: string)
    ensures |r| <= |s| && r == s[|s| - |r|..]
    ensures forall i :: 0 <= i < |s| - |r| ==> s[i] == c
    ensures |r| > 0 ==> r[0] != c
    decreases |s|
  {
    if |s| > 0 && s[0] == c then TrimLeft(s[1..], c) else s
  }

  /** strings.TrimRight with a one-byte cutset: drop the trailing run of `c`. */
  function TrimRight(s: string, c: char): (r: string)
    ensures |r| <= |s| && r == s[..|r|]
    ensures forall i :: |r| <= i < |s| ==> s[i] == c
    ensures |r| > 0 ==> r[|r| - 1] != c
    decreases |s|
  {
    if |s| > 0 && s[|s| - 1] == c then TrimRight(s[..|s| - 1], c) else s
  }

  /** Neither the first nor the last byte of `s` is `c`. */
  predicate NoEdge(s: string, c: char) {
    |s| == 0 || (s[0] != c && s[|s| - 1] != c)
  }

  /** strings.Trim with a one-byte cutset: the left run, then the right run
      of `c` removed. What remains neither starts nor ends with `c`, is a
      no longer than `s` (see TrimNothing for when it is `s` itself). */
  function Trim(s: string, c: char): (r: string)
    ensures NoEdge(r, c)
    ensures |r| <= |s|
  {
    TrimRight(TrimLeft(s, c), c)
  }

  /** A string with nothing to trim is its own trimmed form. */
  lemma TrimNothing(s: string, c: char)
    requires NoEdge(s, c)
    ensures Trim(s, c) == s
  {
  }

  /** A byte absent from `s` is absent from its trimmed form. */
  lemma TrimKeepsOut(s: string, c: char, x: char)
    requires x !in s
    ensures x !in Trim(s, c)
  {
    var l := TrimLeft(s, c);
    assert forall i :: 0 <= i < |l| ==> l[i] == s[|s| - |l| + i];
    var r := TrimRight(l, c);
    assert forall i :: 0 <= i < |r| ==> r[i] == l[i];
  }

  /** Trimming the left of a concatenation: the right part survives intact
      unless the left part was all `c`. */
  lemma {:induction false} TrimLeftAppend(w: string, x: string, c: char)
    ensures TrimLeft(w + x, c) == if TrimLeft(w, c) == "" then TrimLeft(x, c) else TrimLeft(w, c) + x
    decreases |w|
  {
    if |w| == 0 {
      assert w + x == x;
    } else {
      assert (w + x)[1..] == w[1..] + x;
      TrimLeftAppend(w[1..], x, c);
    }
  }

  lemma {:induction false} TrimRightPadding(w: string, m: nat, c: char)
    ensures TrimRight(w + Repeat(c, m), c) == TrimRight(w, c)
    decreases m
  {
    if m > 0 {
      var s := w + Repeat(c, m);
      assert s[..|s| - 1] == w + Repeat(c, m - 1);
      TrimRightPadding(w, m - 1, c);
    } else {
      assert w + Repeat(c, m) == w;
    }
  }

  /** Padding a value with `c` on either side does not change its trimmed form. */
  lemma TrimPadding(v: string, n: nat, m: nat, c: char)
    ensures Trim(Repeat(c, n) + v + Repeat(c, m), c) == Trim(v, c)
  {
    var pad, pad' := Repeat(c, n), Repeat(c, m);
    assert pad + v + pad' == pad + (v + pad');
    TrimLeftAppend(pad, v + pad', c);
    assert TrimLeft(pad, c) == "";
    TrimLeftAppend(v, pad', c);
    if TrimLeft(v, c) != "" {
      TrimRightPadding(TrimLeft(v, c), m, c);
    } else {
      assert TrimLeft(pad', c) == "";
    }
  }

  /** A clean value behind a run of `c` trims back to itself. */
  lemma TrimLeading(v: string, n: nat, c: char)
    requires NoEdge(v, c)
    ensures Trim(Repeat(c, n) + v, c) == v
  {
    TrimPadding(v, n, 0, c);
    assert Repeat(c, n) + v + Repeat(c, 0) == Repeat(c, n) + v;
    TrimNothing(v, c);
  }

  /** unicode.ToUpper restricted to ASCII: a..z become A..Z. */
  function UpperByte(b: char): char {
    if 'a' <= b <= 'z' then (b as int - 32) as char else b
  }

  /** strings.ToUpper on ASCII text, byte by byte. */
  function ToUpper(s: string): (r: string)
    ensures |r| == |s| && forall i :: 0 <= i < |s| ==> r[i] == UpperByte(s[i])
    decreases |s|
  {
    if |s| == 0 then "" else [UpperByte(s[0])] + ToUpper(s[1..])
  }
}
