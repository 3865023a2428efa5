/**
 `parseCandidates` as the library runs it: a counting pass that sizes the
 result, then a materialising pass with the same scan. Both are index-based
 loops over the input; each is proved to agree with `ScanCandidates`.
 */
module CandidateParser {
  import opened Text
  import opened Candidates

  /** The inner scans of both passes: the index of the next `c` at or after `from`, or `|s|`. */
  method ScanTo(s: string, from: nat, c: char) returns (q: nat)
    requires from <= |s|
    ensures q == from + IndexOf(s[from..], c)
  {
    q := from;
    while q < |s| && s[q] != c
      invariant from <= q <= |s|
      invariant forall i :: from <= i < q ==> s[i] != c
    {
      q := q + 1;
    }
    IndexOfUnique(s[from..], c, q - from);
  }

  /** A `/` that opens a skip block: the scan resumes at the block's closing `]`, index `q`. */
  lemma SkipBlockAt(s: string, p: nat, q: nat)
    requires p + 1 < |s| && s[p] == '/' && s[p + 1] == '['
    requires q == p + 1 + IndexOf(s[p + 1..], ']')
    ensures q <= |s|
    ensures ScanCandidates(s[p..]) == ScanCandidates(s[q..])
  {
    assert s[p..][1..] == s[p + 1..];
    ScanSkipBlock(s[p..], q - (p + 1));
    assert s[p + 1..][q - (p + 1)..] == s[q..];
  }

  /** A `/` directly followed by `/`: the empty segment yields nothing. */
  lemma EmptySegmentAt(s: string, p: nat)
    requires p + 1 < |s| && s[p] == '/' && s[p + 1] == '/'
    ensures ScanCandidates(s[p..]) == ScanCandidates(s[p + 1..])
  {
    assert s[p..][1..] == s[p + 1..];
    ScanEmptySegment(s[p..]);
  }

  /** A `/` opening the non-empty segment `s[p + 1..q]` yields its candidate. */
  lemma SegmentAt(s: string, p: nat, q: nat)
    requires p + 1 < |s| && s[p] == '/' && !IsControl(s[p + 1]) && s[p + 1] != '['
    requires q == p + 1 + IndexOf(s[p + 1..], '/') && q > p + 1
    ensures q <= |s|
    ensures ScanCandidates(s[p..]) == [SegmentCandidate(s[p + 1..q])] + ScanCandidates(s[q..])
  {
    SuffixSlices(s, p, q);
    ScanSegment(s[p..], q - (p + 1));
  }

  /** How the slices of the suffix at `p` relate to the slices of `s`. */
  lemma SuffixSlices(s: string, p: nat, q: nat)
    requires p < q <= |s|
    ensures s[p..][1..] == s[p + 1..]
    ensures s[p..][1..][q - (p + 1)..] == s[q..]
    ensures s[p..][1..][..q - (p + 1)] == s[p + 1..q]
  {
  }

  /** Any other character outside a segment is skipped. */
  lemma SkipCharAt(s: string, p: nat)
    requires p < |s| && !IsControl(s[p]) && s[p] != '/'
    ensures ScanCandidates(s[p..]) == ScanCandidates(s[p + 1..])
  {
    assert s[p..][1..] == s[p + 1..];
    ScanSkipsChar(s[p..]);
  }

  /** The scan ends here: end of input, a control character, or a `/` followed by either. */
  lemma StopsAt(s: string, p: nat)
    requires p <= |s|
    requires p == |s| || IsControl(s[p]) || (s[p] == '/' && (p + 1 == |s| || IsControl(s[p + 1])))
    ensures ScanCandidates(s[p..]) == []
  {
    if p < |s| && s[p] == '/' && p + 1 < |s| {
      assert s[p..][1] == s[p + 1];
    }
    ScanStops(s[p..]);
  }

  /** The first pass: the number of candidates the list holds. */
  method CountCandidates(s: string) returns (count: nat)
    ensures count == |ScanCandidates(s)|
  {
    count := 0;
    var p := 0;
    while p < |s| && !IsControl(s[p])
      invariant p <= |s|
      invariant count + |ScanCandidates(s[p..])| == |ScanCandidates(s)|
      decreases |s| - p
    {
      if s[p] == '/' {
        // `q` starts where the library's incremented `p` points: just after the `/`.
        var q := p + 1;
        if q >= |s| || IsControl(s[q]) {
          StopsAt(s, p);
          break;
        }
        if s[q] == '[' {
          q := ScanTo(s, q, ']');
          SkipBlockAt(s, p, q);
          p := q;
          continue;
        }
        q := ScanTo(s, q, '/');
        if q == p + 1 {
          EmptySegmentAt(s, p);
          p := p + 1;
          continue;
        }
        SegmentAt(s, p, q);
        count := count + 1;
        p := q;
      } else {
        SkipCharAt(s, p);
        p := p + 1;
      }
    }
    StopsAt(s, p);
  }

  /**
   `parseCandidates`: counts first, answers "no candidates" when the count is
   zero, and otherwise collects the candidates with a second identical scan.
   */
  method ParseCandidates(s: string) returns (cs: seq<Candidate>)
    ensures cs == ScanCandidates(s)
  {
    var count := CountCandidates(s);
    if count == 0 {
      return [];
    }
    cs := [];
    var p := 0;
    while p < |s| && !IsControl(s[p])
      invariant p <= |s|
      invariant cs + ScanCandidates(s[p..]) == ScanCandidates(s)
      decreases |s| - p
    {
      if s[p] == '/' {
        var q := p + 1;
        if q >= |s| || IsControl(s[q]) {
          StopsAt(s, p);
          break;
        }
        if s[q] == '[' {
          q := ScanTo(s, q, ']');
          SkipBlockAt(s, p, q);
          p := q;
          continue;
        }
        q := ScanTo(s, q, '/');
        if q == p + 1 {
          EmptySegmentAt(s, p);
          p := p + 1;
          continue;
        }
        SegmentAt(s, p, q);
        var c := SegmentCandidate(s[p + 1..q]);
        assert cs + ScanCandidates(s[p..]) == (cs + [c]) + ScanCandidates(s[q..]);
        cs := cs + [c];
        p := q;
      } else {
        SkipCharAt(s, p);
        p := p + 1;
      }
    }
    StopsAt(s, p);
  }
}
