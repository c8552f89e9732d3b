/** The display logic of the analysis dashboard
    (frontend/src/components/AnalysisDashboard.jsx): the colour and the label
    a match score is shown with, and how the keys of the detailed assessment
    are turned into headings.  Rendering and the SVG arc are not modelled. */
module AnalysisDashboard {

  const GREEN := "#10b981"
  const ORANGE := "#f59e0b"
  const RED := "#ef4444"

  const EXCELLENT := "Excellent Match"
  const GOOD := "Good Match"
  const MODERATE := "Moderate Match"
  const WEAK := "Weak Match"

  /** `getScoreColor`. */
  function ScoreColor(score: real): (c: string)
    ensures c == GREEN <==> score >= 80.0
    ensures c == ORANGE <==> 60.0 <= score < 80.0
    ensures c == RED <==> score < 60.0
  {
    if score >= 80.0 then GREEN
    else if score >= 60.0 then ORANGE
    else RED
  }

  /** `getScoreLabel`. */
  function ScoreLabel(score: real): (l: string)
    ensures l == EXCELLENT <==> score >= 80.0
    ensures l == GOOD <==> 60.0 <= score < 80.0
    ensures l == MODERATE <==> 40.0 <= score < 60.0
    ensures l == WEAK <==> score < 40.0
  {
    if score >= 80.0 then EXCELLENT
    else if score >= 60.0 then GOOD
    else if score >= 40.0 then MODERATE
    else WEAK
  }

  /** The rank of a colour and of a label, best first, so that monotonicity
      can be stated. */
  function ColorRank(c: string): int {
    if c == GREEN then 2 else if c == ORANGE then 1 else 0
  }

  function LabelRank(l: string): int {
    if l == EXCELLENT then 3 else if l == GOOD then 2 else if l == MODERATE then 1 else 0
  }

  /** A higher score is never shown in a worse colour or with a worse label. */
  lemma DisplayMonotone(a: real, b: real)
    requires a <= b
    ensures ColorRank(ScoreColor(a)) <= ColorRank(ScoreColor(b))
    ensures LabelRank(ScoreLabel(a)) <= LabelRank(ScoreLabel(b))
  {
  }

  /** The two displays agree: green exactly with "Excellent Match", orange
      exactly with "Good Match", and red with both of the lower labels. */
  lemma ColorMatchesLabel(score: real)
    ensures ScoreColor(score) == GREEN <==> ScoreLabel(score) == EXCELLENT
    ensures ScoreColor(score) == ORANGE <==> ScoreLabel(score) == GOOD
    ensures ScoreColor(score) == RED <==> ScoreLabel(score) == MODERATE || ScoreLabel(score) == WEAK
  {
  }

  // ---------------------------------------------------------------------
  // Headings of the detailed assessment
  // ---------------------------------------------------------------------

  /** `\w` of a JavaScript regular expression without the `u` flag. */
  predicate IsWordChar(c: char) {
    ('a' <= c <= 'z') || ('A' <= c <= 'Z') || ('0' <= c <= '9') || c == '_'
  }

  /** `toUpperCase` on a single `\w` character: only a-z change. */
  function Upper(c: char): (u: char)
    ensures IsWordChar(c) <==> IsWordChar(u)
    ensures 'a' <= c <= 'z' ==> 'A' <= u <= 'Z' && u as int == c as int - 32
    ensures !('a' <= c <= 'z') ==> u == c
  {
    if 'a' <= c <= 'z' then (c as int - 32) as char else c
  }

  /** `.replace(/_/g, ' ')`. */
  function UnderscoresToSpaces(s: string): (r: string)
    ensures |r| == |s|
    ensures forall i :: 0 <= i < |s| ==> r[i] == (if s[i] == '_' then ' ' else s[i])
    decreases |s|
  {
    if s == [] then [] else [if s[0] == '_' then ' ' else s[0]] + UnderscoresToSpaces(s[1..])
  }

  /** `\b\w` matches at position `i` of `s`, where `afterWord` says whether
      the character before `s` is a word character. */
  predicate BeginsWord(s: string, i: int, afterWord: bool)
    requires 0 <= i < |s|
  {
    IsWordChar(s[i]) && !(if i == 0 then afterWord else IsWordChar(s[i - 1]))
  }

  /** `\b\w` matches at position `i` of the whole string `s`. */
  predicate StartsWord(s: string, i: int)
    requires 0 <= i < |s|
  {
    BeginsWord(s, i, false)
  }

  /** `.replace(/\b\w/g, l => l.toUpperCase())`, scanning left to right. */
  function CapitalizeWords(s: string, afterWord: bool): (r: string)
    ensures |r| == |s|
    ensures forall i :: 0 <= i < |s| ==> r[i] == (if BeginsWord(s, i, afterWord) then Upper(s[i]) else s[i])
    decreases |s|
  {
    if s == [] then []
    else
      var c := s[0];
      var rest := CapitalizeWords(s[1..], IsWordChar(c));
      assert forall i :: 1 <= i < |s| ==>
        (BeginsWord(s, i, afterWord) <==> BeginsWord(s[1..], i - 1, IsWordChar(c)));
      [if BeginsWord(s, 0, afterWord) then Upper(c) else c] + rest
  }

  /** The heading shown for a key of `detailed_analysis`. */
  function PrettifyKey(key: string): (r: string)
    ensures |r| == |key|
    ensures forall i :: 0 <= i < |r| ==> r[i] != '_'
  {
    CapitalizeWords(UnderscoresToSpaces(key), false)
  }

  /** Every underscore became a space, the first character of every word is
      upper-cased, and every other character is kept as it is (nothing is
      lower-cased). */
  lemma PrettifyKeyShape(key: string)
    ensures forall i :: 0 <= i < |key| && key[i] == '_' ==> PrettifyKey(key)[i] == ' '
    ensures forall i :: 0 <= i < |key| && key[i] != '_' ==>
              var t := UnderscoresToSpaces(key);
              PrettifyKey(key)[i] == (if StartsWord(t, i) then Upper(key[i]) else key[i])
  {
    var t := UnderscoresToSpaces(key);
    var p := CapitalizeWords(t, false);
    forall i | 0 <= i < |key|
      ensures p[i] != '_'
      ensures key[i] == '_' ==> p[i] == ' '
      ensures key[i] != '_' ==> p[i] == (if StartsWord(t, i) then Upper(key[i]) else key[i])
    {
      assert t[i] == (if key[i] == '_' then ' ' else key[i]);
      assert p[i] == (if StartsWord(t, i) then Upper(t[i]) else t[i]);
    }
  }

  /** Word boundaries survive capitalisation, since `Upper` keeps word
      characters word characters. */
  lemma CapitalizeKeepsWordChars(s: string, afterWord: bool)
    ensures forall i :: 0 <= i < |s| ==> (IsWordChar(CapitalizeWords(s, afterWord)[i]) <==> IsWordChar(s[i]))
  {
  }

  /** Prettifying a heading again changes nothing. */
  lemma PrettifyKeyIdempotent(key: string)
    ensures PrettifyKey(PrettifyKey(key)) == PrettifyKey(key)
  {
    var t := UnderscoresToSpaces(key);
    var p := CapitalizeWords(t, false);
    PrettifyKeyShape(key);
    var t2 := UnderscoresToSpaces(p);
    assert t2 == p;
    CapitalizeKeepsWordChars(t, false);
    var p2 := CapitalizeWords(p, false);
    forall i | 0 <= i < |p| ensures p2[i] == p[i] {
      assert p[i] == (if StartsWord(t, i) then Upper(t[i]) else t[i]);
      assert StartsWord(p, i) <==> StartsWord(t, i);
      assert p2[i] == (if StartsWord(p, i) then Upper(p[i]) else p[i]);
    }
  }
}
