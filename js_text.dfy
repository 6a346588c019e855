/** The pieces of JavaScript's string and array semantics that the site's
    helpers rely on: `slice`, `split`, `pop`, `trim` and the decimal rendering
    of a number inside a template literal. */
module JsText {

  /** One UTF-16 code unit: JavaScript strings are sequences of these, and
      `length`, `slice` and `split` count them. */
  type CodeUnit = c: int | 0 <= c < 0x1_0000

  const NEWLINE: CodeUnit := 0x0A

  /** How `String.prototype.slice` and `TypedArray.prototype.slice` resolve a
      relative index: a negative index counts back from the end, and the
      result is clamped to `[0, len]`. */
  function ClampIndex(i: int, len: nat): (r: nat)
    ensures r <= len
    ensures 0 <= i <= len ==> r == i
    ensures i < 0 ==> r == if len + i < 0 then 0 else len + i
    ensures len < i ==> r == len
  {
    if i < 0 then (if len + i < 0 then 0 else len + i)
    else if i > len then len
    else i
  }

  /** `s.slice(start, end)`: never fails, and is empty when the resolved end
      does not lie after the resolved start. */
  function Slice<T>(s: seq<T>, start: int, end: int): (r: seq<T>)
    ensures 0 <= start <= end <= |s| ==> r == s[start..end]
    ensures |r| <= |s|
  {
    var from := ClampIndex(start, |s|);
    var to := ClampIndex(end, |s|);
    if to <= from then [] else s[from..to]
  }

  /** Slicing at a midpoint and concatenating gives the slice of the whole
      range back. */
  lemma SliceSplit<T>(s: seq<T>, a: int, b: int, c: int)
    requires 0 <= a <= b <= c <= |s|
    ensures Slice(s, a, b) + Slice(s, b, c) == Slice(s, a, c)
  {
    assert s[a..c] == s[a..b] + s[b..c];
  }

  // ---------------------------------------------------------------------
  // split and join

  /** `s.split(sep)` for a one-unit separator: the pieces between
      separators, so there is always at least one piece. */
  function Split<T(==)>(s: seq<T>, sep: T): (pieces: seq<seq<T>>)
    ensures |pieces| >= 1
    ensures forall i :: 0 <= i < |pieces| ==> sep !in pieces[i]
    decreases |s|
  {
    if s == [] then [[]]
    else
      var rest := Split(s[1..], sep);
      if s[0] == sep then [[]] + rest
      else [[s[0]] + rest[0]] + rest[1..]
  }

  /** `pieces.join(sep)`. */
  function Join<T>(pieces: seq<seq<T>>, sep: T): seq<T>
  {
    if |pieces| == 0 then []
    else if |pieces| == 1 then pieces[0]
    else pieces[0] + [sep] + Join(pieces[1..], sep)
  }

  /** The number of occurrences of `x` in `s`. */
  function Count<T(==)>(s: seq<T>, x: T): nat
  {
    multiset(s)[x]
  }

  /** Joining the pieces of a split with the same separator gives the
      original sequence back. */
  lemma {:induction false} JoinSplit<T>(s: seq<T>, sep: T)
    ensures Join(Split(s, sep), sep) == s
    decreases |s|
  {
    if s != [] {
      var rest := Split(s[1..], sep);
      JoinSplit(s[1..], sep);
      if s[0] == sep {
        assert Split(s, sep) == [[]] + rest;
        assert ([[]] + rest)[1..] == rest;
      } else {
        var pieces := Split(s, sep);
        assert pieces == [[s[0]] + rest[0]] + rest[1..];
        if |rest| > 1 {
          assert pieces[1..] == rest[1..];
          assert Join(rest, sep) == rest[0] + [sep] + Join(rest[1..], sep);
        }
        assert s == [s[0]] + s[1..];
      }
    }
  }

  /** Splitting yields exactly one more piece than there are separators. */
  lemma {:induction false} SplitCount<T>(s: seq<T>, sep: T)
    ensures |Split(s, sep)| == Count(s, sep) + 1
    decreases |s|
  {
    if s != [] {
      SplitCount(s[1..], sep);
      assert s == [s[0]] + s[1..];
      assert multiset(s) == multiset{s[0]} + multiset(s[1..]);
    }
  }

  /** The piece `pop()` takes from `s.split(sep)`. */
  function LastPiece<T(==)>(s: seq<T>, sep: T): seq<T>
  {
    var pieces := Split(s, sep);
    pieces[|pieces| - 1]
  }

  /** The last piece of a split is the longest suffix free of the separator:
      it is a suffix, contains no separator, and is either the whole
      sequence or is preceded by a separator. */
  lemma {:induction false} LastPieceIsFinalSegment<T>(s: seq<T>, sep: T)
    ensures var p := LastPiece(s, sep);
      && |p| <= |s|
      && p == s[|s| - |p|..]
      && sep !in p
      && (|p| < |s| ==> s[|s| - |p| - 1] == sep)
    decreases |s|
  {
    if s != [] {
      var t := s[1..];
      LastPieceIsFinalSegment(t, sep);
      LastPieceStep(s, sep);
      var p, q := LastPiece(s, sep), LastPiece(t, sep);
      if s[0] != sep && |Split(t, sep)| == 1 {
        SingleSplitIsWhole(t, sep);
        assert p == s;
      } else {
        if s[0] != sep {
          SeparatorOfSplit(t, sep);
        }
        assert s[|s| - |q|..] == t[|t| - |q|..];
      }
    }
  }

  /** How one more leading element changes the last piece. */
  lemma LastPieceStep<T>(s: seq<T>, sep: T)
    requires s != []
    ensures LastPiece(s, sep) ==
      if s[0] == sep || |Split(s[1..], sep)| > 1 then LastPiece(s[1..], sep)
      else [s[0]] + LastPiece(s[1..], sep)
  {
  }

  /** A split into one piece leaves the sequence whole. */
  lemma SingleSplitIsWhole<T>(s: seq<T>, sep: T)
    requires |Split(s, sep)| == 1
    ensures LastPiece(s, sep) == s
  {
    JoinSplit(s, sep);
  }

  /** A split into several pieces means a separator occurs. */
  lemma {:induction false} SeparatorOfSplit<T>(s: seq<T>, sep: T)
    requires |Split(s, sep)| > 1
    ensures sep in s
    decreases |s|
  {
    if s[0] != sep {
      SeparatorOfSplit(s[1..], sep);
    }
  }

  // ---------------------------------------------------------------------
  // trim

  /** The code units `String.prototype.trim` removes: ECMAScript's
      WhiteSpace (tab, vertical tab, form feed, space, no-break space,
      byte-order mark and the Zs space separators) and its LineTerminators. */
  predicate IsJsWhitespace(c: CodeUnit)
  {
    || c == 0x09 || c == 0x0A || c == 0x0B || c == 0x0C || c == 0x0D
    || c == 0x20 || c == 0xA0 || c == 0x1680
    || (0x2000 <= c <= 0x200A)
    || c == 0x2028 || c == 0x2029 || c == 0x202F || c == 0x205F
    || c == 0x3000 || c == 0xFEFF
  }

  /** Drops leading whitespace. */
  function TrimStart(s: seq<CodeUnit>): (r: seq<CodeUnit>)
    ensures |r| <= |s|
    ensures r == [] || !IsJsWhitespace(r[0])
  {
    if s != [] && IsJsWhitespace(s[0]) then TrimStart(s[1..]) else s
  }

  /** What `TrimStart` drops is a whitespace prefix. */
  lemma {:induction false} TrimStartDrops(s: seq<CodeUnit>)
    ensures var r := TrimStart(s);
      && r == s[|s| - |r|..]
      && forall k :: 0 <= k < |s| - |r| ==> IsJsWhitespace(s[k])
    decreases |s|
  {
    if s != [] && IsJsWhitespace(s[0]) {
      TrimStartDrops(s[1..]);
      var r := TrimStart(s);
      assert s[1..][|s| - 1 - |r|..] == s[|s| - |r|..];
      assert forall k :: 1 <= k < |s| - |r| ==> s[k] == s[1..][k - 1];
    }
  }

  /** Drops trailing whitespace. */
  function TrimEnd(s: seq<CodeUnit>): (r: seq<CodeUnit>)
    ensures |r| <= |s|
    ensures r == [] || !IsJsWhitespace(r[|r| - 1])
  {
    if s != [] && IsJsWhitespace(s[|s| - 1]) then TrimEnd(s[..|s| - 1]) else s
  }

  /** What `TrimEnd` drops is a whitespace suffix. */
  lemma {:induction false} TrimEndDrops(s: seq<CodeUnit>)
    ensures var r := TrimEnd(s);
      && r == s[..|r|]
      && forall k :: |r| <= k < |s| ==> IsJsWhitespace(s[k])
    decreases |s|
  {
    if s != [] && IsJsWhitespace(s[|s| - 1]) {
      TrimEndDrops(s[..|s| - 1]);
      var r := TrimEnd(s);
      assert s[..|s| - 1][..|r|] == s[..|r|];
      assert forall k :: |r| <= k < |s| - 1 ==> s[k] == s[..|s| - 1][k];
    }
  }

  /** `r` is `s` with exactly the first `i` and the units after `i + |r|`
      removed, and all of those are whitespace. */
  ghost predicate TrimmedAt(s: seq<CodeUnit>, r: seq<CodeUnit>, i: nat)
  {
    && i + |r| <= |s|
    && r == s[i..i + |r|]
    && (forall k :: 0 <= k < i ==> IsJsWhitespace(s[k]))
    && (forall k :: i + |r| <= k < |s| ==> IsJsWhitespace(s[k]))
  }

  /** `s.trim()`: the string without whitespace at either end. */
  function Trim(s: seq<CodeUnit>): (r: seq<CodeUnit>)
    ensures |r| <= |s|
  {
    TrimEnd(TrimStart(s))
  }

  /** A trimmed string neither starts nor ends with whitespace. */
  lemma TrimEnds(s: seq<CodeUnit>)
    ensures var r := Trim(s);
      r == [] || (!IsJsWhitespace(r[0]) && !IsJsWhitespace(r[|r| - 1]))
  {
    TrimEndDrops(TrimStart(s));
  }

  /** What trimming leaves is the infix of `s` between a whitespace prefix
      and a whitespace suffix. */
  lemma TrimIsInfix(s: seq<CodeUnit>)
    ensures exists i :: TrimmedAt(s, Trim(s), i)
  {
    var head := TrimStart(s);
    TrimStartDrops(s);
    TrimEndDrops(head);
    assert TrimmedAt(s, Trim(s), |s| - |head|);
  }

  /** Every unit of `s` is whitespace. */
  predicate AllWhitespace(s: seq<CodeUnit>)
  {
    forall k :: 0 <= k < |s| ==> IsJsWhitespace(s[k])
  }

  /** Trimming leaves nothing exactly when the string is blank. */
  lemma TrimBlank(s: seq<CodeUnit>)
    ensures Trim(s) == [] <==> AllWhitespace(s)
  {
    var r := Trim(s);
    TrimIsInfix(s);
    var i: nat :| TrimmedAt(s, r, i);
    if r != [] {
      assert r[0] == s[i];
    }
  }

  /** Trimming never introduces a unit the string did not hold. */
  lemma TrimKeepsUnits(s: seq<CodeUnit>)
    ensures forall x :: x in Trim(s) ==> x in s
  {
    var r := Trim(s);
    TrimIsInfix(s);
    var i: nat :| TrimmedAt(s, r, i);
    assert r == s[i..i + |r|];
    assert forall k :: 0 <= k < |r| ==> r[k] == s[i + k];
  }

  // ---------------------------------------------------------------------
  // numbers in template literals

  function DigitChar(d: nat): (c: char)
    requires d < 10
  {
    ['0', '1', '2', '3', '4', '5', '6', '7', '8', '9'][d]
  }

  predicate IsDigit(c: char)
  {
    '0' <= c <= '9'
  }

  function DigitValue(c: char): (d: nat)
    requires IsDigit(c)
    ensures d < 10
  {
    c as int - '0' as int
  }

  /** How `${n}` renders a non-negative integer: its decimal digits, with no
      leading zero except for zero itself. */
  function NatToString(n: nat): (s: string)
    ensures |s| >= 1
    ensures forall k :: 0 <= k < |s| ==> IsDigit(s[k])
    ensures s[0] == '0' ==> n == 0
  {
    if n < 10 then [DigitChar(n)]
    else NatToString(n / 10) + [DigitChar(n % 10)]
  }

  /** Reads a run of decimal digits as a number. */
  function ParseDecimal(s: string): nat
    requires forall k :: 0 <= k < |s| ==> IsDigit(s[k])
  {
    if s == [] then 0
    else ParseDecimal(s[..|s| - 1]) * 10 + DigitValue(s[|s| - 1])
  }

  /** The decimal rendering loses nothing: reading it back gives the number. */
  lemma {:induction false} ParseNatToString(n: nat)
    ensures ParseDecimal(NatToString(n)) == n
  {
    var s := NatToString(n);
    if n < 10 {
      DigitRoundTrip(n);
      assert s[..0] == [];
    } else {
      ParseNatToString(n / 10);
      DigitRoundTrip(n % 10);
      assert s == NatToString(n / 10) + [DigitChar(n % 10)];
      assert s[..|s| - 1] == NatToString(n / 10);
      assert s[|s| - 1] == DigitChar(n % 10);
    }
  }

  lemma DigitRoundTrip(d: nat)
    requires d < 10
    ensures IsDigit(DigitChar(d)) && DigitValue(DigitChar(d)) == d
  {
  }
}
