/** The two string transformations of the driver: `sanitizeErrString`,
    which packs a FORA exception's text onto one bounded line, and
    `replaceWhitespace`, which normalises a frame descriptor before it is
    printed in the reasoner summary. */
module Text {

  /** `s.replace(from, to)` for one-character patterns. */
  function Replace(s: string, from: char, to: char): (r: string)
    ensures |r| == |s|
    ensures forall i :: 0 <= i < |s| ==> r[i] == (if s[i] == from then to else s[i])
  {
    if s == [] then [] else [if s[0] == from then to else s[0]] + Replace(s[1..], from, to)
  }

  /** Reference meaning of "newlines and tabs become spaces", one character at a time. */
  function Blank(c: char): char {
    if c == '\n' || c == '\t' then ' ' else c
  }

  /** Longest error text printed unabridged. */
  const ErrLimit := 2500
  /** Characters kept from each end of a longer error text. */
  const KeepChars := 1250
  /** The marker put where the middle of a long error text was dropped. */
  const Ellipsis := " ... "

  /** `sanitizeErrString`: newlines and tabs become spaces; a result longer
      than 2500 bytes keeps its first and last 1250 bytes joined
      by `" ... "`. */
  function SanitizeErrString(errString: string): (r: string)
    ensures '\n' !in r && '\t' !in r
    ensures |r| <= 2 * KeepChars + |Ellipsis|
    ensures |errString| <= ErrLimit ==>
              |r| == |errString| && forall i :: 0 <= i < |r| ==> r[i] == Blank(errString[i])
    ensures |errString| > ErrLimit ==>
              && |r| == KeepChars + |Ellipsis| + KeepChars
              && r[KeepChars..KeepChars + |Ellipsis|] == Ellipsis
              && (forall i :: 0 <= i < KeepChars ==> r[i] == Blank(errString[i]))
              && (forall i :: |r| - KeepChars <= i < |r| ==>
                    r[i] == Blank(errString[i + (|errString| - |r|)]))
  {
    var s := Replace(Replace(errString, '\n', ' '), '\t', ' ');
    assert forall i :: 0 <= i < |s| ==> s[i] == Blank(errString[i]);
    if |s| > ErrLimit then
      var r := s[..KeepChars] + Ellipsis + s[|s| - KeepChars..];
      assert forall i :: |r| - KeepChars <= i < |r| ==> r[i] == s[i + (|s| - |r|)];
      r
    else s
  }

  /** Sanitising twice changes nothing more: an abridged text is exactly
      2505 bytes long and splits back into the same three pieces. */
  lemma SanitizeIdempotent(errString: string)
    ensures SanitizeErrString(SanitizeErrString(errString)) == SanitizeErrString(errString)
  {
    var r := SanitizeErrString(errString);
    ReplaceAbsent(r, '\n');
    ReplaceAbsent(r, '\t');
    if |r| > ErrLimit {
      assert r == r[..KeepChars] + r[KeepChars..KeepChars + |Ellipsis|] + r[|r| - KeepChars..];
    }
  }

  // ---------------------------------------------------------------------
  // replaceWhitespace

  ghost predicate HasDoubleSpace(s: string) {
    exists i :: 0 <= i < |s| - 1 && s[i] == ' ' && s[i + 1] == ' '
  }

  /** What the printed descriptor promises: one line, blanks never doubled. */
  ghost predicate Normalized(s: string) {
    '\t' !in s && '\n' !in s && !HasDoubleSpace(s)
  }

  lemma DoubleSpaceInTail(s: string)
    requires |s| >= 1 && HasDoubleSpace(s)
    requires |s| >= 2 ==> !(s[0] == ' ' && s[1] == ' ')
    ensures HasDoubleSpace(s[1..])
  {
    var i :| 0 <= i < |s| - 1 && s[i] == ' ' && s[i + 1] == ' ';
    assert i >= 1;
    assert s[1..][i - 1] == s[i] && s[1..][i] == s[i + 1];
  }

  lemma NoDoubleSpaceInTail(s: string)
    requires |s| >= 1 && !HasDoubleSpace(s)
    ensures !HasDoubleSpace(s[1..])
  {
    forall i | 0 <= i < |s[1..]| - 1 ensures !(s[1..][i] == ' ' && s[1..][i + 1] == ' ') {
      assert s[1..][i] == s[i + 1] && s[1..][i + 1] == s[i + 2];
    }
  }

  /** One pass of `s.replace('  ', ' ')`: scanning left to right, each
      non-overlapping pair of spaces becomes one space. */
  function CollapsePairs(s: string): (r: string)
    ensures |r| <= |s|
    ensures HasDoubleSpace(s) ==> |r| < |s|
    ensures !HasDoubleSpace(s) ==> r == s
    ensures forall i :: 0 <= i < |r| ==> r[i] in s
  {
    if |s| < 2 then s
    else if s[0] == ' ' && s[1] == ' ' then
      var rest := CollapsePairs(s[2..]);
      assert forall c :: c in s[2..] ==> c in s;
      [' '] + rest
    else
      var rest := CollapsePairs(s[1..]);
      assert forall c :: c in s[1..] ==> c in s;
      assert HasDoubleSpace(s) ==> HasDoubleSpace(s[1..]) by {
        if HasDoubleSpace(s) { DoubleSpaceInTail(s); }
      }
      assert !HasDoubleSpace(s) ==> !HasDoubleSpace(s[1..]) by {
        if !HasDoubleSpace(s) { NoDoubleSpaceInTail(s); }
      }
      [s[0]] + rest
  }

  /** The `while True` loop of `replaceWhitespace`: repeat the pass until
      it changes nothing. Each pass that changes something is shorter, so
      the loop ends. */
  function CollapseAll(s: string): (r: string)
    ensures !HasDoubleSpace(r)
    ensures forall i :: 0 <= i < |r| ==> r[i] in s
    decreases |s|
  {
    var s2 := CollapsePairs(s);
    if s == s2 then s
    else
      var r := CollapseAll(s2);
      assert forall i :: 0 <= i < |r| ==> r[i] in s2;
      r
  }

  /** `replaceWhitespace`: tabs and newlines become spaces, then runs of
      spaces are collapsed. */
  function ReplaceWhitespace(s: string): (r: string)
    ensures Normalized(r)
  {
    var blanked := Replace(Replace(s, '\t', ' '), '\n', ' ');
    var r := CollapseAll(blanked);
    assert '\t' !in blanked && '\n' !in blanked;
    r
  }

  /** Reference definition of collapsing: every maximal run of spaces
      becomes a single space; `afterSpace` says whether a space was just
      emitted. */
  function SqueezeFrom(afterSpace: bool, s: string): string
    decreases |s|
  {
    if s == [] then []
    else if s[0] == ' ' then (if afterSpace then [] else [' ']) + SqueezeFrom(true, s[1..])
    else [s[0]] + SqueezeFrom(false, s[1..])
  }

  function Squeeze(s: string): string {
    SqueezeFrom(false, s)
  }

  lemma {:induction false} SqueezeOfPairs(afterSpace: bool, s: string)
    ensures SqueezeFrom(afterSpace, CollapsePairs(s)) == SqueezeFrom(afterSpace, s)
    decreases |s|
  {
    var lead: string := if afterSpace then [] else [' '];
    if |s| < 2 {
    } else if s[0] == ' ' && s[1] == ' ' {
      var rest := CollapsePairs(s[2..]);
      var c := [' '] + rest;
      assert CollapsePairs(s) == c;
      assert c[0] == ' ' && c[1..] == rest;
      assert SqueezeFrom(afterSpace, c) == lead + SqueezeFrom(true, rest);
      assert s[1..][0] == ' ' && s[1..][1..] == s[2..];
      assert SqueezeFrom(true, s[1..]) == SqueezeFrom(true, s[2..]);
      assert SqueezeFrom(afterSpace, s) == lead + SqueezeFrom(true, s[1..]);
      SqueezeOfPairs(true, s[2..]);
    } else {
      var rest := CollapsePairs(s[1..]);
      var c := [s[0]] + rest;
      assert CollapsePairs(s) == c;
      assert c[0] == s[0] && c[1..] == rest;
      SqueezeOfPairs(s[0] == ' ', s[1..]);
    }
  }

  lemma {:induction false} SqueezeKeepsNormal(afterSpace: bool, s: string)
    requires !HasDoubleSpace(s)
    requires afterSpace && s != [] ==> s[0] != ' '
    ensures SqueezeFrom(afterSpace, s) == s
    decreases |s|
  {
    if s != [] {
      assert !HasDoubleSpace(s[1..]) by { NoDoubleSpaceInTail(s); }
      if s[0] == ' ' && |s| >= 2 {
        assert s[1] != ' ' by { assert !(s[0] == ' ' && s[1] == ' '); }
      }
      SqueezeKeepsNormal(s[0] == ' ', s[1..]);
    }
  }

  lemma {:induction false} CollapseAllIsSqueeze(s: string)
    ensures CollapseAll(s) == Squeeze(s)
    decreases |s|
  {
    var s2 := CollapsePairs(s);
    if s == s2 {
      assert !HasDoubleSpace(s);
      SqueezeKeepsNormal(false, s);
    } else {
      CollapseAllIsSqueeze(s2);
      SqueezeOfPairs(false, s);
    }
  }

  /** The fixpoint loop computes the single-pass reference: whitespace is
      blanked and each run of blanks becomes one space. */
  lemma ReplaceWhitespaceIsSqueeze(s: string)
    ensures ReplaceWhitespace(s) == Squeeze(Replace(Replace(s, '\t', ' '), '\n', ' '))
  {
    CollapseAllIsSqueeze(Replace(Replace(s, '\t', ' '), '\n', ' '));
  }

  /** Blanking a character that does not occur changes nothing. */
  lemma ReplaceAbsent(s: string, c: char)
    requires c !in s
    ensures Replace(s, c, ' ') == s
  {
    var r := Replace(s, c, ' ');
    assert forall i :: 0 <= i < |s| ==> r[i] == s[i];
  }

  /** Normalising a normalised descriptor changes nothing. */
  lemma ReplaceWhitespaceIdempotent(s: string)
    ensures ReplaceWhitespace(ReplaceWhitespace(s)) == ReplaceWhitespace(s)
  {
    var r := ReplaceWhitespace(s);
    ReplaceAbsent(r, '\t');
    ReplaceAbsent(r, '\n');
  }

  /** The characters of `s` that are not blanks, in order. */
  function NonBlank(s: string): string {
    if s == [] then []
    else if s[0] == ' ' || s[0] == '\t' || s[0] == '\n' then NonBlank(s[1..])
    else [s[0]] + NonBlank(s[1..])
  }

  lemma {:induction false} TextOfReplace(s: string, c: char)
    requires c == '\t' || c == '\n'
    ensures NonBlank(Replace(s, c, ' ')) == NonBlank(s)
  {
    if s != [] {
      TextOfReplace(s[1..], c);
      assert Replace(s, c, ' ')[1..] == Replace(s[1..], c, ' ');
    }
  }

  lemma {:induction false} TextOfSqueeze(afterSpace: bool, s: string)
    ensures NonBlank(SqueezeFrom(afterSpace, s)) == NonBlank(s)
    decreases |s|
  {
    if s != [] {
      TextOfSqueeze(s[0] == ' ', s[1..]);
      if s[0] == ' ' {
        if !afterSpace {
          assert ([' '] + SqueezeFrom(true, s[1..]))[1..] == SqueezeFrom(true, s[1..]);
        } else {
          assert [] + SqueezeFrom(true, s[1..]) == SqueezeFrom(true, s[1..]);
        }
      } else {
        assert ([s[0]] + SqueezeFrom(false, s[1..]))[1..] == SqueezeFrom(false, s[1..]);
      }
    }
  }

  /** Normalising only touches blanks: every other character survives, in order. */
  lemma ReplaceWhitespaceKeepsText(s: string)
    ensures NonBlank(ReplaceWhitespace(s)) == NonBlank(s)
  {
    ReplaceWhitespaceIsSqueeze(s);
    var b1 := Replace(s, '\t', ' ');
    TextOfReplace(s, '\t');
    TextOfReplace(b1, '\n');
    TextOfSqueeze(false, Replace(b1, '\n', ' '));
  }
}
