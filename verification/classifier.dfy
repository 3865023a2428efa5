/**
 `isOkuriAri`: which of the two partitions a headword belongs to. After at
 most one leading `>` or `#`, an okuri-ari headword starts with a non-ASCII
 character and contains a lowercase ASCII letter somewhere (typically the
 romanised inflection, as in `おくr`, but not necessarily at the end).
 */
module Classifier {

  predicate IsLowerAscii(c: char) {
    'a' <= c <= 'z'
  }

  predicate IsAscii(c: char) {
    c as int <= 127
  }

  /** The prefix/suffix markers `>` and `#`, at most one of which is stripped. */
  predicate IsMarker(c: char) {
    c == '>' || c == '#'
  }

  /** Whether some character is a lowercase ASCII letter. */
  function ContainsLower(s: string): (b: bool)
    ensures b <==> exists i :: 0 <= i < |s| && IsLowerAscii(s[i])
  {
    if |s| == 0 then false
    else if IsLowerAscii(s[0]) then true
    else
      var b := ContainsLower(s[1..]);
      assert forall i :: 1 <= i < |s| ==> s[i] == s[1..][i - 1];
      b
  }

  /**
   `isOkuriAri`: false for the empty string; strip one leading marker; false
   when nothing remains or the next character is ASCII; otherwise true
   exactly when the remainder holds a lowercase ASCII letter. So a headword is
   okuri-ari exactly when, after at most one leading `>` or `#`, its first
   character is non-ASCII and a lowercase ASCII letter occurs somewhere in
   it; in particular uppercase and non-ASCII letters never make one.
   */
  function IsOkuriAri(s: string): (r: bool)
    ensures r ==> exists i :: 0 <= i < |s| && IsLowerAscii(s[i])
    ensures r <==>
      var off := if |s| > 0 && IsMarker(s[0]) then 1 else 0;
      off < |s| && !IsAscii(s[off]) && exists i :: off <= i < |s| && IsLowerAscii(s[i])
  {
    if |s| == 0 then false
    else
      var rest := if IsMarker(s[0]) then s[1..] else s;
      if |rest| == 0 then false
      else if IsAscii(rest[0]) then false
      else
        assert IsMarker(s[0]) ==> forall i :: 0 <= i < |rest| ==> rest[i] == s[i + 1];
        ContainsLower(rest)
  }

  /** A headword made only of ASCII characters is never okuri-ari. */
  lemma AsciiHeadwordNotOkuriAri(s: string)
    requires forall i :: 0 <= i < |s| ==> IsAscii(s[i])
    ensures !IsOkuriAri(s)
  {
    if |s| > 1 && IsMarker(s[0]) {
      assert IsAscii(s[1..][0]);
    }
  }

  /** One leading marker is transparent when what follows does not start with another marker. */
  lemma MarkerStripped(m: char, t: string)
    requires IsMarker(m)
    requires |t| > 0 && !IsMarker(t[0])
    ensures IsOkuriAri([m] + t) == IsOkuriAri(t)
  {
    assert ([m] + t)[1..] == t;
  }

  /** Only one marker is stripped: a second one is an ASCII first character. */
  lemma SecondMarkerNotStripped(m1: char, m2: char, t: string)
    requires IsMarker(m1) && IsMarker(m2)
    ensures !IsOkuriAri([m1, m2] + t)
  {
    assert ([m1, m2] + t)[1..][0] == m2;
  }

  /** Appending text never turns an okuri-ari headword into an okuri-nashi one. */
  lemma OkuriAriStableUnderAppend(s: string, x: string)
    requires IsOkuriAri(s)
    ensures IsOkuriAri(s + x)
  {
    var rest := if IsMarker(s[0]) then s[1..] else s;
    var rest' := if IsMarker((s + x)[0]) then (s + x)[1..] else s + x;
    assert rest' == rest + x;
    var i :| 0 <= i < |rest| && IsLowerAscii(rest[i]);
    assert rest'[i] == rest[i];
  }

  /** A non-ASCII stem followed by a lowercase ASCII letter is okuri-ari, with or without a marker. */
  lemma StemWithInflection(stem: char, mid: string, l: char)
    requires !IsAscii(stem) && IsLowerAscii(l)
    ensures IsOkuriAri([stem] + mid + [l])
    ensures IsOkuriAri(['>'] + ([stem] + mid + [l]))
  {
    var s := [stem] + mid + [l];
    assert s[|s| - 1] == l;
    MarkerStripped('>', s);
  }

  /** The headwords `あr`, `>あr` and `#あr` are okuri-ari. */
  lemma ClassifierExamples()
    ensures IsOkuriAri("あr")
    ensures IsOkuriAri(">あr")
    ensures IsOkuriAri("#あr")
  {
    assert "あr" == ['あ'] + [] + ['r'];
    StemWithInflection('あ', [], 'r');
    assert ">あr" == ['>'] + "あr";
    MarkerStripped('#', "あr");
    assert "#あr" == ['#'] + "あr";
  }

  /** The headwords `あ`, `>>あr`, `akasi` and the empty headword are okuri-nashi. */
  lemma ClassifierRejects()
    ensures !IsOkuriAri("あ")
    ensures !IsOkuriAri(">>あr")
    ensures !IsOkuriAri("akasi")
    ensures !IsOkuriAri("")
  {
    SecondMarkerNotStripped('>', '>', "あr");
    assert ">>あr" == ['>', '>'] + "あr";
  }
}
