/**
 The candidate-list codec of a dictionary line: the `/cand;annot/cand/.../`
 trailer after the headword is decoded into (text, annotation) pairs and
 encoded back.
 */
module Candidates {
  import opened Text

  /** One conversion result for a headword, with an optional annotation ("" when absent). */
  datatype Candidate = Candidate(text: string, annotation: string)

  /**
   The shape every decoded candidate has: the text has no `/` or `;` and does
   not begin with `[` or a control character, and the annotation has no `/`.
   */
  predicate WellFormed(c: Candidate) {
    && '/' !in c.text && ';' !in c.text
    && (c.text != [] ==> c.text[0] != '[' && !IsControl(c.text[0]))
    && '/' !in c.annotation
  }

  predicate AllWellFormed(cs: seq<Candidate>) {
    forall i :: 0 <= i < |cs| ==> WellFormed(cs[i])
  }

  /** What a candidate needs for its encoded form to decode back to it: well formed, and not both parts empty. */
  predicate Encodable(c: Candidate) {
    WellFormed(c) && (c.text != [] || c.annotation != [])
  }

  predicate AllEncodable(cs: seq<Candidate>) {
    forall i :: 0 <= i < |cs| ==> Encodable(cs[i])
  }

  /** The serialised form of one candidate: `text`, or `text;annotation` when the annotation is non-empty. */
  function CandidateString(c: Candidate): (r: string)
    ensures c.annotation == [] ==> r == c.text
    ensures c.annotation != [] ==> r == c.text + ";" + c.annotation
    ensures HasPrefix(r, c.text)
    ensures r == [] <==> c.text == [] && c.annotation == []
  {
    if c.annotation == [] then c.text else c.text + ";" + c.annotation
  }

  /** Splitting the serialised form at its first `;` gives the candidate back. */
  lemma CutInvertsCandidateString(c: Candidate)
    requires ';' !in c.text
    ensures var r := Cut(CandidateString(c), ';'); Candidate(r.0, r.1) == c
  {
    if c.annotation != [] {
      CutJoin(c.text, ';', c.annotation);
    }
  }

  /** The candidate a non-empty segment denotes: split at its first `;`. */
  function SegmentCandidate(seg: string): (c: Candidate)
    ensures ';' !in c.text
    ensures ';' in seg ==> seg == c.text + ";" + c.annotation
    ensures ';' !in seg ==> c == Candidate(seg, [])
  {
    var r := Cut(seg, ';');
    Candidate(r.0, r.1)
  }

  /**
   Merging the annotation `incoming` into a candidate with the same text: an
   empty incoming annotation or one equal to the existing annotation changes
   nothing, an empty existing annotation is replaced, and otherwise the two
   are joined with `delimiter`.
   */
  function JoinAnnotation(c: Candidate, incoming: string, delimiter: string): (r: Candidate)
    ensures r.text == c.text
    ensures HasPrefix(r.annotation, c.annotation)
    ensures r.annotation == c.annotation <==> incoming == [] || incoming == c.annotation
    ensures |incoming| <= |r.annotation| && r.annotation[|r.annotation| - |incoming|..] == incoming
    ensures incoming != [] && c.annotation == [] ==> r.annotation == incoming
    ensures incoming != [] && c.annotation != [] && incoming != c.annotation ==>
      r.annotation == c.annotation + delimiter + incoming
  {
    if incoming == [] then c
    else if c.annotation == [] then c.(annotation := incoming)
    else if c.annotation != incoming then c.(annotation := c.annotation + delimiter + incoming)
    else c
  }

  /**
   Decoding the candidate-list trailer, as a scan over the remaining input.
   Characters are skipped up to a `/`; the scan ends at the end of input or
   at a control character met outside a segment. After a `/`, end of input or
   a control character ends the list; a `[` opens a skip block that extends
   to the next `]`; otherwise the segment runs to the next `/` (or the end),
   an empty segment yields nothing, and a non-empty one yields its candidate.
   */
  function ScanCandidates(s: string): (cs: seq<Candidate>)
    ensures AllWellFormed(cs)
    decreases |s|
  {
    if |s| == 0 || IsControl(s[0]) then []
    else if s[0] != '/' then ScanCandidates(s[1..])
    else
      var t := s[1..];
      if |t| == 0 || IsControl(t[0]) then []
      else if t[0] == '[' then ScanCandidates(t[IndexOf(t, ']')..])
      else
        var n := IndexOf(t, '/');
        if n == 0 then ScanCandidates(t)
        else
          var seg := t[..n];
          var c := SegmentCandidate(seg);
          assert '/' !in seg;
          assert c.text != [] ==> c.text[0] == seg[0];
          assert ';' in seg ==> c.text + ";" + c.annotation == seg;
          assert WellFormed(c);
          [c] + ScanCandidates(t[n..])
  }

  /** Outside a segment, a character other than `/` or a control character is skipped. */
  lemma ScanSkipsChar(s: string)
    requires |s| > 0 && !IsControl(s[0]) && s[0] != '/'
    ensures ScanCandidates(s) == ScanCandidates(s[1..])
  {
  }

  /** A `/` opening a skip block resumes the scan at the block's closing `]`. */
  lemma ScanSkipBlock(s: string, n: nat)
    requires |s| > 1 && s[0] == '/' && s[1] == '['
    requires n == IndexOf(s[1..], ']')
    ensures ScanCandidates(s) == ScanCandidates(s[1..][n..])
  {
  }

  /** A `/` opening a non-empty segment of length `n` yields that segment's candidate. */
  lemma ScanSegment(s: string, n: nat)
    requires |s| > 1 && s[0] == '/' && !IsControl(s[1]) && s[1] != '['
    requires n == IndexOf(s[1..], '/') && n > 0
    ensures ScanCandidates(s) == [SegmentCandidate(s[1..][..n])] + ScanCandidates(s[1..][n..])
  {
  }

  /** The end of input, or a control character outside a segment, ends the list. */
  lemma ScanStops(s: string)
    requires |s| == 0 || IsControl(s[0]) || (s[0] == '/' && (|s| == 1 || IsControl(s[1])))
    ensures ScanCandidates(s) == []
  {
  }

  /** A `/` directly followed by another `/` opens an empty segment, which yields nothing. */
  lemma ScanEmptySegment(s: string)
    requires |s| > 1 && s[0] == '/' && s[1] == '/'
    ensures ScanCandidates(s) == ScanCandidates(s[1..])
  {
  }

  /** `joinCandidates`: `//` for no candidates, else `/c1/c2/.../cn/`. */
  function JoinCandidates(cs: seq<Candidate>): (r: string)
    ensures cs == [] ==> r == "//"
    ensures |r| >= 2 && r[0] == '/' && r[|r| - 1] == '/'
  {
    if |cs| == 0 then "//" else JoinBody(cs) + "/"
  }

  /** Each candidate preceded by `/`, without the closing `/`. */
  function JoinBody(cs: seq<Candidate>): (r: string)
    ensures |cs| > 0 ==> |r| > 0 && r[0] == '/'
  {
    if |cs| == 0 then [] else "/" + CandidateString(cs[0]) + JoinBody(cs[1..])
  }

  /**
   How the encoded list grows: one candidate alone is `/c/`, and a candidate in
   front of a non-empty list is written `/c` ahead of that list's encoding.
   */
  lemma JoinCandidatesCons(c: Candidate, cs: seq<Candidate>)
    ensures cs == [] ==> JoinCandidates([c]) == "/" + CandidateString(c) + "/"
    ensures cs != [] ==> JoinCandidates([c] + cs) == "/" + CandidateString(c) + JoinCandidates(cs)
  {
    assert ([c] + cs)[0] == c && ([c] + cs)[1..] == cs;
    assert [c][1..] == [];
  }

  /** Characters ahead of the first `/` are ignored, unless one is a control character. */
  lemma {:induction false} LeadingTextIgnored(pre: string, s: string)
    requires '/' !in pre
    requires forall i :: 0 <= i < |pre| ==> !IsControl(pre[i])
    ensures ScanCandidates(pre + s) == ScanCandidates(s)
    decreases |pre|
  {
    if |pre| > 0 {
      assert (pre + s)[1..] == pre[1..] + s;
      LeadingTextIgnored(pre[1..], s);
    } else {
      assert pre + s == s;
    }
  }

  /** A `/` followed by the end of input or a control character ends the list. */
  lemma SlashThenEndStops(c: char, rest: string)
    requires IsControl(c)
    ensures ScanCandidates("/") == []
    ensures ScanCandidates("/" + [c] + rest) == []
  {
  }

  /** `//` holds no candidate. */
  lemma EmptyListDecodesEmpty()
    ensures ScanCandidates("//") == []
  {
    assert "//"[1..] == "/";
  }

  /**
   A skip block contributes no candidate: `/[` up to and including the next
   `]` is dropped, whatever it contains, and the scan resumes after it.
   */
  lemma SkipBlockDropped(blk: string, rest: string)
    requires ']' !in blk
    ensures ScanCandidates("/[" + blk + "]" + rest) == ScanCandidates(rest)
  {
    var s := "/[" + blk + "]" + rest;
    assert s[1..] == ['['] + blk + ([']'] + rest);
    IndexOfAppend(['['] + blk, [']'] + rest, ']');
    ScanSkipBlock(s, 1 + |blk|);
    assert s[1..][1 + |blk|..] == [']'] + rest;
    ScanSkipsChar([']'] + rest);
    assert ([']'] + rest)[1..] == rest;
  }

  /**
   Skip-block transparency: `/x/[blk]/y/` decodes to exactly the candidates
   `x` and `y` (as `/a/[x/y]/b/` decodes to `a`, `b`).
   */
  lemma SkipBlockBetween(x: Candidate, blk: string, y: Candidate)
    requires Encodable(x) && Encodable(y)
    requires ']' !in blk
    ensures ScanCandidates("/" + CandidateString(x) + ("/[" + blk + "]" + ("/" + CandidateString(y) + "/")))
         == [x, y]
  {
    var sy := CandidateString(y);
    var tail := "/" + sy + "/";
    ScanEncodedHead(y, "/");
    assert ScanCandidates("/") == [];
    assert ScanCandidates(tail) == [y];
    SkipBlockDropped(blk, tail);
    ScanEncodedHead(x, "/[" + blk + "]" + tail);
  }

  /** A segment holding only `;` is not empty: it yields a candidate whose text and annotation are both empty. */
  lemma SemicolonSegmentExample()
    ensures ScanCandidates("/;/") == [Candidate("", "")]
  {
    ScanSegmentFront(";", "/");
    assert ['/'] + (";" + "/") == "/;/";
    assert ScanCandidates("/") == [];
    assert Cut(";", ';') == ([], [], true) by {
      CutJoin([], ';', []);
      assert [] + [';'] + [] == ";";
    }
  }

  /** A non-empty segment between a `/` and the `/` that starts the rest decodes to its candidate. */
  lemma ScanSegmentFront(seg: string, u: string)
    requires |seg| > 0 && '/' !in seg && seg[0] != '[' && !IsControl(seg[0])
    requires |u| > 0 && u[0] == '/'
    ensures ScanCandidates(['/'] + (seg + u)) == [SegmentCandidate(seg)] + ScanCandidates(u)
  {
    var s := ['/'] + (seg + u);
    assert s[1..] == seg + u;
    IndexOfAppend(seg, u, '/');
    ScanSegment(s, |seg|);
    assert (seg + u)[..|seg|] == seg;
    assert (seg + u)[|seg|..] == u;
  }

  /** The serialised form of an encodable candidate is a segment that opens with neither `[` nor a control character. */
  lemma EncodedSegment(c: Candidate)
    requires Encodable(c)
    ensures var str := CandidateString(c);
      |str| > 0 && '/' !in str && str[0] != '[' && !IsControl(str[0])
  {
    var str := CandidateString(c);
    if c.annotation != [] {
      assert str == c.text + ";" + c.annotation;
      assert forall i :: 0 <= i < |str| ==>
        str[i] == (if i < |c.text| then c.text[i] else if i == |c.text| then ';' else c.annotation[i - |c.text| - 1]);
      if c.text == [] {
        assert str[0] == ';';
      } else {
        assert str[0] == c.text[0];
      }
    }
  }

  /** Decoding one encoded candidate in front of further text starting with `/`. */
  lemma ScanEncodedHead(c: Candidate, u: string)
    requires Encodable(c)
    requires |u| > 0 && u[0] == '/'
    ensures ScanCandidates("/" + CandidateString(c) + u) == [c] + ScanCandidates(u)
  {
    var str := CandidateString(c);
    EncodedSegment(c);
    ScanSegmentFront(str, u);
    assert "/" + str + u == ['/'] + (str + u);
    CutInvertsCandidateString(c);
  }

  /** The encoded body, closed by a `/`, decodes to the candidates it was built from. */
  lemma {:induction false} JoinBodyRoundTrip(cs: seq<Candidate>)
    requires AllEncodable(cs)
    ensures ScanCandidates(JoinBody(cs) + "/") == cs
    decreases |cs|
  {
    if |cs| == 0 {
      assert JoinBody(cs) + "/" == "/";
    } else {
      var u := JoinBody(cs[1..]) + "/";
      JoinBodyRoundTrip(cs[1..]);
      assert JoinBody(cs) + "/" == "/" + CandidateString(cs[0]) + u;
      ScanEncodedHead(cs[0], u);
      assert cs == [cs[0]] + cs[1..];
    }
  }

  /** Round trip: decoding the encoded list of encodable candidates gives the list back. */
  lemma RoundTrip(cs: seq<Candidate>)
    requires AllEncodable(cs)
    ensures ScanCandidates(JoinCandidates(cs)) == cs
  {
    if |cs| == 0 {
      EmptyListDecodesEmpty();
    } else {
      JoinBodyRoundTrip(cs);
    }
  }
}
