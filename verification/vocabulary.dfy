/**
 Reading the two parallel vocabulary files (source words and their
 translations). A file is given as the list of its lines; each line is
 stripped the way Python's `str.strip()` strips, and the two lists must end
 up the same length or loading fails.
 */
module Vocabulary {
  import opened Common

  /** The characters Python's `str.isspace()` accepts. */
  predicate IsSpace(c: char) {
    || c == '\t' || c == '\n' || c == '\U{B}' || c == '\U{C}' || c == '\r'
    || ('\U{1C}' <= c <= '\U{1F}') || c == ' ' || c == '\U{85}' || c == '\U{A0}'
    || c == '\U{1680}' || ('\U{2000}' <= c <= '\U{200A}') || c == '\U{2028}'
    || c == '\U{2029}' || c == '\U{202F}' || c == '\U{205F}' || c == '\U{3000}'
  }

  predicate AllSpace(s: string) {
    forall i :: 0 <= i < |s| ==> IsSpace(s[i])
  }

  /** Neither end of `s` is whitespace. */
  predicate IsStripped(s: string) {
    |s| == 0 || (!IsSpace(s[0]) && !IsSpace(s[|s| - 1]))
  }

  /** Leading whitespace removed. */
  function StripLeft(s: string): (r: string)
    ensures |r| <= |s| && r == s[|s| - |r|..]
    ensures AllSpace(s[..|s| - |r|])
    ensures |r| == 0 || !IsSpace(r[0])
    decreases |s|
  {
    if |s| > 0 && IsSpace(s[0]) then StripLeft(s[1..]) else s
  }

  /** Trailing whitespace removed. */
  function StripRight(s: string): (r: string)
    ensures |r| <= |s| && r == s[..|r|]
    ensures AllSpace(s[|r|..])
    ensures |r| == 0 || !IsSpace(r[|r| - 1])
    decreases |s|
  {
    if |s| > 0 && IsSpace(s[|s| - 1]) then StripRight(s[..|s| - 1]) else s
  }

  /** Python's `s.strip()`. */
  function Strip(s: string): (r: string)
    ensures IsStripped(r)
    ensures |r| <= |s|
  {
    var l := StripLeft(s);
    var r := StripRight(l);
    assert |r| == 0 || !IsSpace(r[0]) by {
      if |r| > 0 { assert r[0] == l[0]; }
    }
    r
  }

  /** What Strip removes is whitespace, at the two ends of `s`. */
  lemma StripShape(s: string) returns (a: nat, b: nat)
    ensures a <= b <= |s| && Strip(s) == s[a..b]
    ensures AllSpace(s[..a]) && AllSpace(s[b..])
  {
    var l := StripLeft(s);
    var r := StripRight(l);
    a, b := |s| - |l|, |s| - |l| + |r|;
    assert r == s[a..b];
    assert s[b..] == l[|r|..];
  }

  /** Stripping changes nothing on a string already stripped. */
  lemma StripStripped(s: string)
    requires IsStripped(s)
    ensures Strip(s) == s
  {
    NothingToStrip(s);
  }

  lemma NothingToStrip(s: string)
    requires IsStripped(s)
    ensures StripLeft(s) == s && StripRight(s) == s
  {
  }

  lemma StripIdempotent(s: string)
    ensures Strip(Strip(s)) == Strip(s)
  {
    StripStripped(Strip(s));
  }

  /** A line is blank exactly when it is whitespace only. */
  lemma StripBlank(s: string)
    ensures |Strip(s)| == 0 <==> AllSpace(s)
  {
    var a, b := StripShape(s);
    if |Strip(s)| == 0 {
      forall i | 0 <= i < |s| ensures IsSpace(s[i]) {
        if i < a { assert s[..a][i] == s[i]; } else { assert s[b..][i - b] == s[i]; }
      }
    }
  }

  predicate NonBlank(line: string) { |Strip(line)| > 0 }

  /** `[line.strip() for line in lines]`. */
  function StripAll(lines: seq<string>): (r: seq<string>)
    ensures |r| == |lines|
    ensures forall i :: 0 <= i < |r| ==> r[i] == Strip(lines[i])
    decreases |lines|
  {
    if |lines| == 0 then [] else [Strip(lines[0])] + StripAll(lines[1..])
  }

  /** `[x.strip() for x in lines if x.strip()]`: the stripped non-blank
      lines, in file order. */
  function CleanLines(lines: seq<string>): (r: seq<string>)
    ensures |r| <= |lines|
    ensures forall i :: 0 <= i < |r| ==> |r[i]| > 0 && IsStripped(r[i])
    decreases |lines|
  {
    if |lines| == 0 then []
    else
      var head := Strip(lines[0]);
      (if |head| > 0 then [head] else []) + CleanLines(lines[1..])
  }

  /** CleanLines keeps exactly the non-blank lines, stripped. */
  lemma {:induction false} CleanLinesIsStripOfNonBlank(lines: seq<string>)
    ensures CleanLines(lines) == StripAll(Filter(lines, NonBlank))
    decreases |lines|
  {
    if |lines| > 0 {
      CleanLinesIsStripOfNonBlank(lines[1..]);
      var rest := Filter(lines[1..], NonBlank);
      if NonBlank(lines[0]) {
        assert Filter(lines, NonBlank) == [lines[0]] + rest;
        assert ([lines[0]] + rest)[1..] == rest;
      } else {
        assert Filter(lines, NonBlank) == rest;
      }
    }
  }

  /** A list of stripped non-blank lines is left as it is. */
  lemma {:induction false} CleanLinesFixed(lines: seq<string>)
    requires forall i :: 0 <= i < |lines| ==> |lines[i]| > 0 && IsStripped(lines[i])
    ensures CleanLines(lines) == lines
    decreases |lines|
  {
    if |lines| > 0 {
      StripStripped(lines[0]);
      CleanLinesFixed(lines[1..]);
      assert lines == [lines[0]] + lines[1..];
    }
  }

  /** Cleaning an already cleaned list changes nothing. */
  lemma CleanLinesIdempotent(lines: seq<string>)
    ensures CleanLines(CleanLines(lines)) == CleanLines(lines)
  {
    CleanLinesFixed(CleanLines(lines));
  }

  datatype LoadError = LengthMismatch(sourceCount: nat, translationCount: nat)

  /** The pairing check both loaders end with. */
  function CheckPaired(eng: seq<string>, rus: seq<string>): (r: Result<(seq<string>, seq<string>), LoadError>)
    ensures r.Success? <==> |eng| == |rus|
    ensures r.Success? ==> r.value == (eng, rus)
    ensures r.Failure? ==> r.error == LengthMismatch(|eng|, |rus|)
  {
    if |eng| != |rus| then Failure(LengthMismatch(|eng|, |rus|)) else Success((eng, rus))
  }

  /** `load_words` of the interval and SM-2 schedulers: blank lines are
      dropped before the two lists are compared. */
  function LoadWords(engLines: seq<string>, rusLines: seq<string>): (r: Result<(seq<string>, seq<string>), LoadError>)
    ensures r.Success? <==> |Filter(engLines, NonBlank)| == |Filter(rusLines, NonBlank)|
    ensures r.Success? ==> |r.value.0| == |r.value.1|
    ensures r.Success? ==> forall i :: 0 <= i < |r.value.0| ==> |r.value.0[i]| > 0 && |r.value.1[i]| > 0
    ensures r.Success? ==> r.value.0 == StripAll(Filter(engLines, NonBlank))
    ensures r.Success? ==> r.value.1 == StripAll(Filter(rusLines, NonBlank))
  {
    CleanLinesIsStripOfNonBlank(engLines);
    CleanLinesIsStripOfNonBlank(rusLines);
    CheckPaired(CleanLines(engLines), CleanLines(rusLines))
  }

  /** The loader of the linear drill: every line is kept, blank ones
      included, so the raw line counts must agree. */
  function LoadAllLines(engLines: seq<string>, rusLines: seq<string>): (r: Result<(seq<string>, seq<string>), LoadError>)
    ensures r.Success? <==> |engLines| == |rusLines|
    ensures r.Success? ==> r.value == (StripAll(engLines), StripAll(rusLines))
  {
    CheckPaired(StripAll(engLines), StripAll(rusLines))
  }
}
