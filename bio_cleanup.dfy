/** The line clean-up at the end of the bio widget's `formatBioText`
    (`src/components/BlueskyBio.jsx`): the text is split at line feeds,
    every line trimmed, and the lines left empty dropped. */
module BioCleanup {
  import opened JsText

  /** `.map(line => line.trim()).filter(line => line.length > 0)` over
      the lines from index `i` on. */
  function CleanFrom(lines: seq<seq<CodeUnit>>, i: nat): (r: seq<seq<CodeUnit>>)
    requires i <= |lines|
    ensures |r| <= |lines| - i
    decreases |lines| - i
  {
    if i == |lines| then []
    else
      var line := Trim(lines[i]);
      (if line == [] then [] else [line]) + CleanFrom(lines, i + 1)
  }

  function CleanLines(lines: seq<seq<CodeUnit>>): (r: seq<seq<CodeUnit>>)
    ensures |r| <= |lines|
  {
    CleanFrom(lines, 0)
  }

  /** The indices, from `i` on, of the lines whose trim is not empty, in
      their original order. */
  function KeptLineIndices(lines: seq<seq<CodeUnit>>, i: nat): (idx: seq<nat>)
    requires i <= |lines|
    ensures forall k :: 0 <= k < |idx| ==> i <= idx[k] < |lines|
    decreases |lines| - i
  {
    if i == |lines| then []
    else if Trim(lines[i]) == [] then KeptLineIndices(lines, i + 1)
    else [i] + KeptLineIndices(lines, i + 1)
  }

  /** Every kept index is a line that does not trim to nothing. */
  lemma {:induction false} KeptIndicesNonBlank(lines: seq<seq<CodeUnit>>, i: nat)
    requires i <= |lines|
    ensures forall k :: 0 <= k < |KeptLineIndices(lines, i)| ==>
      Trim(lines[KeptLineIndices(lines, i)[k]]) != []
    decreases |lines| - i
  {
    if i < |lines| {
      KeptIndicesNonBlank(lines, i + 1);
      if Trim(lines[i]) != [] {
        IndexCons(i, KeptLineIndices(lines, i + 1));
      }
    }
  }

  /** The kept indices increase strictly, so each line is kept at most once
      and in its original place. */
  lemma {:induction false} KeptIndicesIncreasing(lines: seq<seq<CodeUnit>>, i: nat)
    requires i <= |lines|
    ensures forall k, m :: 0 <= k < m < |KeptLineIndices(lines, i)| ==>
      KeptLineIndices(lines, i)[k] < KeptLineIndices(lines, i)[m]
    decreases |lines| - i
  {
    if i < |lines| {
      KeptIndicesIncreasing(lines, i + 1);
      if Trim(lines[i]) != [] {
        IndexCons(i, KeptLineIndices(lines, i + 1));
      }
    }
  }

  /** Every line that does not trim to nothing is kept. */
  lemma {:induction false} KeptIndicesComplete(lines: seq<seq<CodeUnit>>, i: nat)
    requires i <= |lines|
    ensures forall j :: i <= j < |lines| && Trim(lines[j]) != [] ==> j in KeptLineIndices(lines, i)
    decreases |lines| - i
  {
    if i < |lines| {
      KeptIndicesComplete(lines, i + 1);
    }
  }

  lemma IndexCons(i: nat, kk: seq<nat>)
    ensures forall k :: 1 <= k < |[i] + kk| ==> ([i] + kk)[k] == kk[k - 1]
  {
  }

  /** The lines kept from index `i` on are the trims of the lines at the
      kept indices, one for one. */
  ghost predicate Aligned(lines: seq<seq<CodeUnit>>, i: nat)
    requires i <= |lines|
  {
    && |CleanFrom(lines, i)| == |KeptLineIndices(lines, i)|
    && forall k :: 0 <= k < |CleanFrom(lines, i)| ==>
      CleanFrom(lines, i)[k] == Trim(lines[KeptLineIndices(lines, i)[k]])
  }

  /** The clean-up keeps exactly the trims of the non-blank lines, in
      their original order. */
  lemma {:induction false} CleanFromKept(lines: seq<seq<CodeUnit>>, i: nat)
    requires i <= |lines|
    ensures Aligned(lines, i)
    decreases |lines| - i
  {
    if i < |lines| {
      CleanFromKept(lines, i + 1);
      if Trim(lines[i]) != [] {
        AlignedCons(lines, i, CleanFrom(lines, i + 1), KeptLineIndices(lines, i + 1));
      }
    }
  }

  lemma AlignedCons(lines: seq<seq<CodeUnit>>, i: nat, c: seq<seq<CodeUnit>>, kk: seq<nat>)
    requires i < |lines| && |c| == |kk|
    requires forall k :: 0 <= k < |kk| ==> kk[k] < |lines| && c[k] == Trim(lines[kk[k]])
    ensures var r, idx := [Trim(lines[i])] + c, [i] + kk;
      && |r| == |idx|
      && forall k :: 0 <= k < |r| ==> r[k] == Trim(lines[idx[k]])
  {
    var r, idx := [Trim(lines[i])] + c, [i] + kk;
    forall k | 1 <= k < |r| ensures r[k] == Trim(lines[idx[k]]) {
      assert r[k] == c[k - 1] && idx[k] == kk[k - 1];
    }
  }

  /** What trimming keeps of a line that is not blank: a non-empty line
      neither starting nor ending with whitespace, holding only units of
      the original. */
  lemma KeptLine(line: seq<CodeUnit>)
    requires Trim(line) != []
    ensures var t := Trim(line);
      && !IsJsWhitespace(t[0]) && !IsJsWhitespace(t[|t| - 1])
      && (NEWLINE in t ==> NEWLINE in line)
  {
    TrimKeepsUnits(line);
    TrimEnds(line);
  }

  /** Every kept line is non-empty and trimmed, and holds a line feed only
      if its source line did. */
  lemma CleanLinesTrimmed(lines: seq<seq<CodeUnit>>)
    ensures var r, idx := CleanLines(lines), KeptLineIndices(lines, 0);
      && |r| == |idx|
      && forall k :: 0 <= k < |r| ==>
        && r[k] != [] && !IsJsWhitespace(r[k][0]) && !IsJsWhitespace(r[k][|r[k]| - 1])
        && (NEWLINE in r[k] ==> NEWLINE in lines[idx[k]])
  {
    var r, idx := CleanLines(lines), KeptLineIndices(lines, 0);
    CleanFromKept(lines, 0);
    KeptIndicesNonBlank(lines, 0);
    forall k | 0 <= k < |r|
      ensures r[k] != [] && !IsJsWhitespace(r[k][0]) && !IsJsWhitespace(r[k][|r[k]| - 1])
      ensures NEWLINE in r[k] ==> NEWLINE in lines[idx[k]]
    {
      KeptLine(lines[idx[k]]);
    }
  }

  /** Nothing is kept exactly when every line trims to nothing. */
  lemma CleanLinesEmpty(lines: seq<seq<CodeUnit>>)
    ensures CleanLines(lines) == [] <==> forall i :: 0 <= i < |lines| ==> Trim(lines[i]) == []
  {
    var idx := KeptLineIndices(lines, 0);
    CleanFromKept(lines, 0);
    KeptIndicesNonBlank(lines, 0);
    KeptIndicesComplete(lines, 0);
    assert idx != [] ==> Trim(lines[idx[0]]) != [];
  }

  /** Every kept line is non-empty and trimmed; lines free of line breaks
      stay free of them; and nothing is kept exactly when every line is
      blank. */
  lemma CleanLinesContents(lines: seq<seq<CodeUnit>>)
    ensures var r := CleanLines(lines);
      forall k :: 0 <= k < |r| ==>
        r[k] != [] && !IsJsWhitespace(r[k][0]) && !IsJsWhitespace(r[k][|r[k]| - 1])
    ensures (forall i :: 0 <= i < |lines| ==> NEWLINE !in lines[i]) ==>
      forall k :: 0 <= k < |CleanLines(lines)| ==> NEWLINE !in CleanLines(lines)[k]
    ensures CleanLines(lines) == [] <==> forall i :: 0 <= i < |lines| ==> AllWhitespace(lines[i])
  {
    CleanLinesTrimmed(lines);
    CleanLinesEmpty(lines);
    forall i | 0 <= i < |lines| ensures Trim(lines[i]) == [] <==> AllWhitespace(lines[i]) {
      TrimBlank(lines[i]);
    }
  }

  lemma {:induction false} JoinBlank(pieces: seq<seq<CodeUnit>>)
    ensures AllWhitespace(Join(pieces, NEWLINE)) <==> forall i :: 0 <= i < |pieces| ==> AllWhitespace(pieces[i])
    decreases |pieces|
  {
    if |pieces| > 1 {
      JoinBlank(pieces[1..]);
      var j := Join(pieces, NEWLINE);
      var tail := Join(pieces[1..], NEWLINE);
      assert j == pieces[0] + [NEWLINE] + tail;
      assert forall k :: 0 <= k < |pieces[0]| ==> j[k] == pieces[0][k];
      assert forall k :: 0 <= k < |tail| ==> j[|pieces[0]| + 1 + k] == tail[k];
      assert forall i :: 1 <= i < |pieces| ==> pieces[i] == pieces[1..][i - 1];
    }
  }
}
