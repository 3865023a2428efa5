/**
 The dictionary of `skkdic.go`: two partitions (okuri-ari and okuri-nashi),
 the annotation delimiter, line parsing, the merge dispatch, the line loop of
 `Read`, and the queries `Lookup`, `RemoveCandidates` and `Complete`.
 */
module Dictionaries {
  import opened Optional
  import opened Text
  import opened Candidates
  import opened Entries
  import opened Classifier
  import opened OrderedKeys
  import opened Merge

  /** The okuri-ari tree is traversed in descending and the okuri-nashi tree in ascending headword order. */
  datatype Dictionary = Dictionary(delimiter: string, okuriAri: Partition, okuriNashi: Partition)

  /** The annotation delimiter used unless another one is given. */
  const DefaultDelimiter: string := ","

  /** How the candidates of a read line are merged; any value other than `Sub` and `And` adds. */
  type MergeMode = int

  const Add: MergeMode := 0
  const Sub: MergeMode := 1
  const And: MergeMode := 2

  /** Both partitions are valid, and every headword sits in the partition its classification names. */
  predicate Valid(d: Dictionary) {
    ValidPartition(d.okuriAri, true) && ValidPartition(d.okuriNashi, false)
  }

  /** The partition a headword belongs to. */
  function PartitionOf(d: Dictionary, h: string): Partition {
    if IsOkuriAri(h) then d.okuriAri else d.okuriNashi
  }

  /** Replaces the partition `h` belongs to; the other partition is untouched. */
  function WithPartition(d: Dictionary, h: string, m: Partition): (r: Dictionary)
    ensures r.delimiter == d.delimiter
    ensures PartitionOf(r, h) == m
    ensures forall k :: IsOkuriAri(k) != IsOkuriAri(h) ==> PartitionOf(r, k) == PartitionOf(d, k)
  {
    if IsOkuriAri(h) then d.(okuriAri := m) else d.(okuriNashi := m)
  }

  /** `New`: an empty dictionary with the given annotation delimiter. */
  function New(delimiter: string): (d: Dictionary)
    ensures d.delimiter == delimiter && Valid(d)
    ensures forall h :: Lookup(d, h) == None
  {
    Dictionary(delimiter, map[], map[])
  }

  /**
   `Lookup`: the candidates stored for a headword, `None` when there is no
   entry. In a valid dictionary the headword is found whichever partition it
   is in, and a found list is never empty.
   */
  function Lookup(d: Dictionary, h: string): (r: Option<seq<Candidate>>)
    ensures Valid(d) ==> (r.Some? <==> h in d.okuriAri || h in d.okuriNashi)
    ensures Valid(d) && r.Some? ==> |r.value| > 0 && UniqueTexts(r.value)
  {
    var m := PartitionOf(d, h);
    if h in m then Some(m[h].candidates) else None
  }

  /** `RemoveCandidates`: deletes the entry of one headword and nothing else. */
  function RemoveCandidates(d: Dictionary, h: string): (r: Dictionary)
    ensures Lookup(r, h) == None
    ensures forall k :: k != h ==> Lookup(r, k) == Lookup(d, k)
    ensures Valid(d) ==> Valid(r)
  {
    WithPartition(d, h, PartitionOf(d, h) - {h})
  }

  /**
   `parseLine`: split at the first space into headword and candidate list.
   A line without a space, with an empty headword, or whose list decodes to
   nothing yields the empty headword and no candidates.
   */
  function ParseLine(line: string): (r: (string, seq<Candidate>))
    ensures r.0 == [] <==> r.1 == []
    ensures r.0 != [] ==> && ' ' !in r.0
                          && HasPrefix(line, r.0 + [' '])
                          && r.1 == ScanCandidates(line[|r.0| + 1..])
  {
    var (h, rest, found) := Cut(line, ' ');
    if !found || h == [] then ([], [])
    else
      var cs := ScanCandidates(rest);
      assert line[..|h| + 1] == h + [' '] && line[|h| + 1..] == rest;
      if |cs| == 0 then ([], []) else (h, cs)
  }

  /** A line made of a space-free headword, a space and a body parses to that headword and the body's candidates. */
  lemma ParseEntryLine(h: string, body: string)
    requires h != [] && ' ' !in h
    ensures var cs := ScanCandidates(body);
      ParseLine(h + " " + body) == if cs == [] then ([], []) else (h, cs)
  {
    CutJoin(h, ' ', body);
  }

  /** The merge the mode selects, applied to the headword's partition; other keys keep their entries. */
  function MergeInto(m: Partition, h: string, cs: seq<Candidate>, mode: MergeMode, delimiter: string): (r: Partition)
    ensures forall k :: k != h ==> (k in r <==> k in m) && (k in r ==> r[k] == m[k])
    ensures ValidPartition(m, IsOkuriAri(h)) && h != [] && |cs| > 0 ==> ValidPartition(r, IsOkuriAri(h))
  {
    MergePreservesValid(m, IsOkuriAri(h), h, cs, delimiter);
    if mode == Sub then SubEntry(m, h, cs)
    else if mode == And then AndEntry(m, h, cs)
    else AddEntry(m, h, cs, delimiter)
  }

  /** Replacing a partition by one that agrees off `h` changes no other headword's lookup. */
  lemma WithPartitionFrame(d: Dictionary, h: string, m: Partition)
    requires forall k :: k != h ==> (k in m <==> k in PartitionOf(d, h)) && (k in m ==> m[k] == PartitionOf(d, h)[k])
    ensures forall k :: k != h ==> Lookup(WithPartition(d, h, m), k) == Lookup(d, k)
  {
    var r := WithPartition(d, h, m);
    forall k | k != h ensures Lookup(r, k) == Lookup(d, k) {
      if IsOkuriAri(k) == IsOkuriAri(h) {
        assert PartitionOf(r, k) == m && PartitionOf(d, k) == PartitionOf(d, h);
      } else {
        assert PartitionOf(r, k) == PartitionOf(d, k);
      }
    }
  }

  /**
   `processCandidates`: nothing happens for an empty headword or an empty
   list; otherwise the headword's partition is chosen by `isOkuriAri` and the
   mode picks subtraction, intersection, or (for every other value) addition.
   Only the headword's own entry can change, and validity is kept.
   */
  function ProcessCandidates(d: Dictionary, h: string, cs: seq<Candidate>, mode: MergeMode): (r: Dictionary)
    ensures h == [] || |cs| == 0 ==> r == d
    ensures r.delimiter == d.delimiter
    ensures forall k :: k != h ==> Lookup(r, k) == Lookup(d, k)
    ensures Valid(d) ==> Valid(r)
  {
    if h == [] || |cs| == 0 then d
    else
      var m' := MergeInto(PartitionOf(d, h), h, cs, mode, d.delimiter);
      WithPartitionFrame(d, h, m');
      WithPartition(d, h, m')
  }

  /**
   Addition: the headword ends up present, its texts are the old ones plus the
   incoming ones, each exactly once, the old texts keep their positions, and
   a candidate whose text is not offered again is left as it was.
   */
  lemma AddLookup(d: Dictionary, h: string, cs: seq<Candidate>, mode: MergeMode)
    requires Valid(d) && h != [] && |cs| > 0
    requires mode != Sub && mode != And
    ensures var before := if Lookup(d, h).Some? then Lookup(d, h).value else [];
      var after := Lookup(ProcessCandidates(d, h, cs, mode), h);
      && after.Some?
      && TextSet(after.value) == TextSet(before) + TextSet(cs)
      && UniqueTexts(after.value)
      && |before| <= |after.value|
      && Texts(after.value)[..|before|] == Texts(before)
      && forall j :: 0 <= j < |before| && before[j].text !in TextSet(cs) ==> after.value[j] == before[j]
  {
    assert TextSet([]) == {};
  }

  /**
   The union merge of one annotation: adding `t;b` under a headword that
   already holds text `t` at position `i` replaces that candidate by the
   annotation join with the dictionary's delimiter (`b` alone when the stored
   annotation is empty, `a` + delimiter + `b` when both are non-empty and
   differ, unchanged otherwise), and leaves every other candidate in place.
   */
  lemma AddJoinsAnnotation(d: Dictionary, h: string, i: nat, b: string, mode: MergeMode)
    requires Valid(d) && mode != Sub && mode != And
    requires Lookup(d, h).Some? && i < |Lookup(d, h).value|
    ensures var before := Lookup(d, h).value;
      Lookup(ProcessCandidates(d, h, [Candidate(before[i].text, b)], mode), h)
        == Some(before[i := JoinAnnotation(before[i], b, d.delimiter)])
  {
    var m := PartitionOf(d, h);
    AddEntryJoins(m, h, i, b, d.delimiter);
  }

  /** Adding candidates with distinct texts under a new headword stores exactly them, in order. */
  lemma AddFresh(d: Dictionary, h: string, cs: seq<Candidate>)
    requires Valid(d) && h != [] && |cs| > 0 && UniqueTexts(cs)
    requires Lookup(d, h) == None
    ensures Lookup(ProcessCandidates(d, h, cs, Add), h) == Some(cs)
  {
    assert [] + cs == cs;
    AddAllFresh(Entry(h, [], {}), cs, d.delimiter);
    AddEntryAbsent(PartitionOf(d, h), h, cs, d.delimiter);
  }

  /**
   Subtraction: an absent headword stays absent; a present one keeps, in
   order, the candidates whose text is not subtracted, and disappears when
   none is left.
   */
  lemma SubLookup(d: Dictionary, h: string, cs: seq<Candidate>)
    requires Valid(d) && h != [] && |cs| > 0
    ensures Lookup(ProcessCandidates(d, h, cs, Sub), h) ==
      match Lookup(d, h)
      case None => None
      case Some(before) =>
        var k := Keep(before, TextSet(before) - TextSet(cs));
        if k == [] then None else Some(k)
  {
    var m := PartitionOf(d, h);
    if h in m {
      SubEntryKeeps(m, h, cs);
    }
  }

  /** Intersection during the read changes no candidate list: it only marks texts. */
  lemma AndLookup(d: Dictionary, h: string, cs: seq<Candidate>)
    ensures forall k :: Lookup(ProcessCandidates(d, h, cs, And), k) == Lookup(d, k)
  {
  }

  /** Lines starting with `;` are comments. */
  predicate IsComment(line: string) {
    |line| > 0 && line[0] == ';'
  }

  /** One iteration of the line loop of `Read`. */
  function ReadLine(d: Dictionary, line: string, mode: MergeMode): (r: Dictionary)
    ensures IsComment(line) ==> r == d
    ensures r.delimiter == d.delimiter
    ensures Valid(d) ==> Valid(r)
  {
    if IsComment(line) then d
    else
      var (h, cs) := ParseLine(line);
      ProcessCandidates(d, h, cs, mode)
  }

  /** The line loop of `Read`, as a fold over the decoded lines. */
  function ReadLines(d: Dictionary, lines: seq<string>, mode: MergeMode): (r: Dictionary)
    ensures r.delimiter == d.delimiter
    ensures Valid(d) ==> Valid(r)
    decreases |lines|
  {
    if |lines| == 0 then d else ReadLines(ReadLine(d, lines[0], mode), lines[1..], mode)
  }

  lemma {:induction false} ReadLinesAppend(d: Dictionary, a: seq<string>, b: seq<string>, mode: MergeMode)
    ensures ReadLines(d, a + b, mode) == ReadLines(ReadLines(d, a, mode), b, mode)
    decreases |a|
  {
    if |a| == 0 {
      assert a + b == b;
    } else {
      assert (a + b)[0] == a[0] && (a + b)[1..] == a[1..] + b;
      ReadLinesAppend(ReadLine(d, a[0], mode), a[1..], b, mode);
    }
  }

  /**
   `Read` over decoded lines: the line loop, then, for an intersection,
   `cleanEntries` on both partitions. After an intersection no mark is left.
   */
  function Read(d: Dictionary, lines: seq<string>, mode: MergeMode): (r: Dictionary)
    ensures r.delimiter == d.delimiter
    ensures Valid(d) ==> Valid(r)
    ensures mode == And ==> forall k :: k in r.okuriAri ==> r.okuriAri[k].marks == {}
    ensures mode == And ==> forall k :: k in r.okuriNashi ==> r.okuriNashi[k].marks == {}
  {
    var r := ReadLines(d, lines, mode);
    if mode == And then
      CleanEntriesValid(r.okuriAri, true);
      CleanEntriesValid(r.okuriNashi, false);
      r.(okuriAri := CleanEntries(r.okuriAri), okuriNashi := CleanEntries(r.okuriNashi))
    else r
  }

  /** The texts a line offers for headword `h`: none for a comment or a line about another headword. */
  function MentionedBy(line: string, h: string): set<string> {
    if IsComment(line) then {}
    else
      var (h', cs) := ParseLine(line);
      if h' == h then TextSet(cs) else {}
  }

  /** The texts all the lines together offer for headword `h`. */
  function Mentioned(lines: seq<string>, h: string): set<string>
    decreases |lines|
  {
    if |lines| == 0 then {} else MentionedBy(lines[0], h) + Mentioned(lines[1..], h)
  }

  /** A partition whose entries only gained the marks the lines offer for them. */
  predicate PartitionMarked(m: Partition, m': Partition, lines: seq<string>) {
    && m'.Keys == m.Keys
    && forall k :: k in m ==>
         m'[k] == m[k].(marks := m[k].marks + (Mentioned(lines, k) * TextSet(m[k].candidates)))
  }

  predicate Marked(d: Dictionary, d': Dictionary, lines: seq<string>) {
    && d'.delimiter == d.delimiter
    && PartitionMarked(d.okuriAri, d'.okuriAri, lines)
    && PartitionMarked(d.okuriNashi, d'.okuriNashi, lines)
  }

  lemma MentionedSingle(line: string, k: string)
    ensures Mentioned([line], k) == MentionedBy(line, k)
  {
    assert [line][1..] == [];
  }

  /** Marking by the parsed line's headword and candidates grows exactly the marks the line offers. */
  lemma AndEntryMarks(m: Partition, line: string, h: string, cs: seq<Candidate>)
    requires !IsComment(line) && ParseLine(line) == (h, cs)
    ensures PartitionMarked(m, AndEntry(m, h, cs), [line])
  {
    var r := AndEntry(m, h, cs);
    forall k | k in m
      ensures r[k] == m[k].(marks := m[k].marks + (Mentioned([line], k) * TextSet(m[k].candidates)))
    {
      MentionedSingle(line, k);
      if k != h {
        assert Mentioned([line], k) == {};
      }
    }
  }

  /** A partition the line offers nothing to is left as it is. */
  lemma UnmentionedUnchanged(m: Partition, line: string)
    requires forall k :: k in m ==> MentionedBy(line, k) == {}
    ensures PartitionMarked(m, m, [line])
  {
    forall k | k in m
      ensures m[k] == m[k].(marks := m[k].marks + (Mentioned([line], k) * TextSet(m[k].candidates)))
    {
      MentionedSingle(line, k);
    }
  }

  /** One line read by intersection marks, in the headword's entry, the texts it offers. */
  lemma AndLineMarks(d: Dictionary, line: string)
    requires Valid(d)
    ensures Marked(d, ReadLine(d, line, And), [line])
  {
    if IsComment(line) {
      UnmentionedUnchanged(d.okuriAri, line);
      UnmentionedUnchanged(d.okuriNashi, line);
    } else {
      var (h, cs) := ParseLine(line);
      ReadLineAnd(d, line);
      if h == [] {
        assert forall k :: MentionedBy(line, k) == {} by {
          assert TextSet([]) == {};
        }
        UnmentionedUnchanged(d.okuriAri, line);
        UnmentionedUnchanged(d.okuriNashi, line);
      } else if IsOkuriAri(h) {
        AndEntryMarks(d.okuriAri, line, h, cs);
        UnmentionedUnchanged(d.okuriNashi, line);
      } else {
        AndEntryMarks(d.okuriNashi, line, h, cs);
        UnmentionedUnchanged(d.okuriAri, line);
      }
    }
  }

  /** A non-comment line read by intersection marks in the headword's partition, or does nothing without a headword. */
  lemma ReadLineAnd(d: Dictionary, line: string)
    requires !IsComment(line)
    ensures var (h, cs) := ParseLine(line);
      ReadLine(d, line, And) == if h == [] then d else WithPartition(d, h, AndEntry(PartitionOf(d, h), h, cs))
  {
  }

  /** Marks accumulate over consecutive stretches of lines, partition by partition. */
  lemma PartitionMarkedCompose(m: Partition, m1: Partition, m2: Partition, line: string, rest: seq<string>)
    requires PartitionMarked(m, m1, [line]) && PartitionMarked(m1, m2, rest)
    ensures PartitionMarked(m, m2, [line] + rest)
  {
    var lines := [line] + rest;
    assert lines[0] == line && lines[1..] == rest;
    forall k | k in m
      ensures m2[k] == m[k].(marks := m[k].marks + (Mentioned(lines, k) * TextSet(m[k].candidates)))
    {
      MentionedSingle(line, k);
      MarksUnion(m[k], Mentioned([line], k), Mentioned(rest, k));
    }
  }

  /** Marking by one set and then by another marks by their union. */
  lemma MarksUnion(e: Entry, a: set<string>, b: set<string>)
    ensures var e1 := e.(marks := e.marks + (a * TextSet(e.candidates)));
      e1.(marks := e1.marks + (b * TextSet(e1.candidates)))
        == e.(marks := e.marks + ((a + b) * TextSet(e.candidates)))
  {
  }

  lemma MarkedCompose(d: Dictionary, d1: Dictionary, d2: Dictionary, line: string, rest: seq<string>)
    requires Marked(d, d1, [line]) && Marked(d1, d2, rest)
    ensures Marked(d, d2, [line] + rest)
  {
    PartitionMarkedCompose(d.okuriAri, d1.okuriAri, d2.okuriAri, line, rest);
    PartitionMarkedCompose(d.okuriNashi, d1.okuriNashi, d2.okuriNashi, line, rest);
  }

  /** Reading lines by intersection, before the clean-up, only marks texts. */
  lemma {:induction false} AndLinesMark(d: Dictionary, lines: seq<string>)
    requires Valid(d)
    ensures Marked(d, ReadLines(d, lines, And), lines)
    decreases |lines|
  {
    if |lines| == 0 {
      assert forall k :: Mentioned(lines, k) == {};
      assert forall k :: k in d.okuriAri ==> d.okuriAri[k].(marks := d.okuriAri[k].marks) == d.okuriAri[k];
      assert forall k :: k in d.okuriNashi ==> d.okuriNashi[k].(marks := d.okuriNashi[k].marks) == d.okuriNashi[k];
    } else {
      var d1 := ReadLine(d, lines[0], And);
      AndLineMarks(d, lines[0]);
      AndLinesMark(d1, lines[1..]);
      MarkedCompose(d, d1, ReadLines(d1, lines[1..], And), lines[0], lines[1..]);
      assert [lines[0]] + lines[1..] == lines;
    }
  }

  /**
   Intersection read: an entry survives exactly when some of its candidates'
   texts are marked, by earlier marks or by the lines read, and then keeps
   just those candidates in their original order; absent headwords stay absent.
   */
  lemma ReadAndLookup(d: Dictionary, lines: seq<string>, h: string)
    requires Valid(d)
    ensures Lookup(Read(d, lines, And), h) ==
      var m := PartitionOf(d, h);
      if h !in m then None
      else
        var k := Keep(m[h].candidates, m[h].marks + Mentioned(lines, h));
        if k == [] then None else Some(k)
  {
    var r := ReadLines(d, lines, And);
    LookupAfterClean(d, lines, h);
    AndLinesMark(d, lines);
    assert PartitionMarked(PartitionOf(d, h), PartitionOf(r, h), lines);
    MarkedKeep(PartitionOf(d, h), PartitionOf(r, h), lines, h);
  }

  /** In a marked partition, the marked candidates of an entry are those its own marks or the lines select. */
  lemma MarkedKeep(m: Partition, p: Partition, lines: seq<string>, h: string)
    requires PartitionMarked(m, p, lines)
    ensures h in p <==> h in m
    ensures h in m ==> Keep(p[h].candidates, p[h].marks) == Keep(m[h].candidates, m[h].marks + Mentioned(lines, h))
  {
    if h in m {
      var cs := m[h].candidates;
      var marks := m[h].marks;
      var x := marks + (Mentioned(lines, h) * TextSet(cs));
      var y := marks + Mentioned(lines, h);
      assert p[h].candidates == cs && p[h].marks == x;
      KeepPresent(cs, x);
      KeepPresent(cs, y);
      assert x * TextSet(cs) == y * TextSet(cs);
    }
  }

  /** After an intersection read, a lookup sees the cleaned entry of the marked partition. */
  lemma LookupAfterClean(d: Dictionary, lines: seq<string>, h: string)
    ensures var p := PartitionOf(ReadLines(d, lines, And), h);
      Lookup(Read(d, lines, And), h) ==
        if h in p && Keep(p[h].candidates, p[h].marks) != [] then Some(Keep(p[h].candidates, p[h].marks))
        else None
  {
    var r := ReadLines(d, lines, And);
    assert PartitionOf(Read(d, lines, And), h) == CleanEntries(PartitionOf(r, h));
  }

  /** Keys within the range `[p, p + MaxRune)`: the bounds of `AscendRange` in `Complete`. */
  predicate InRange(k: string, p: string) {
    !LexLess(k, p) && LexLess(k, p + [MaxRune])
  }

  /** The range holds exactly the extensions of `p` that do not extend `p + MaxRune`. */
  lemma InRangePrefixed(p: string)
    ensures forall k :: InRange(k, p) <==> HasPrefix(k, p) && !HasPrefix(k, p + [MaxRune])
  {
    forall k {
      PrefixRange(p, k);
    }
  }

  /**
   The range walk of `Complete` over ascending keys: keys below `p` are not
   visited, the walk ends at the first key past the range, and the callback
   collects a prefixed key and stops at the first one without the prefix.
   */
  function RangeScan(ks: seq<string>, p: string): (r: seq<string>)
    ensures forall k :: k in r ==> k in ks
    ensures StrictlyAscending(ks) ==> StrictlyAscending(r)
    decreases |ks|
  {
    if |ks| == 0 then []
    else if LexLess(ks[0], p) then RangeScan(ks[1..], p)
    else if !LexLess(ks[0], p + [MaxRune]) then []
    else if HasPrefix(ks[0], p) then
      var rest := RangeScan(ks[1..], p);
      assert forall j :: 0 <= j < |rest| ==> rest[j] in ks[1..];
      [ks[0]] + rest
    else []
  }

  /** Over ascending keys, the walk collects exactly the keys in the range. */
  lemma {:induction false} RangeScanMembers(ks: seq<string>, p: string)
    requires StrictlyAscending(ks)
    ensures forall k :: k in RangeScan(ks, p) <==> k in ks && InRange(k, p)
    decreases |ks|
  {
    if |ks| > 0 {
      var hi := p + [MaxRune];
      assert StrictlyAscending(ks[1..]);
      assert forall k :: k in ks <==> k == ks[0] || k in ks[1..];
      if LexLess(ks[0], p) {
        RangeScanMembers(ks[1..], p);
      } else if !LexLess(ks[0], hi) {
        forall j | 0 < j < |ks| ensures !LexLess(ks[j], hi) {
          if LexLess(ks[j], hi) {
            LexTransitive(ks[0], ks[j], hi);
          }
        }
      } else {
        PrefixRange(p, ks[0]);
        RangeScanMembers(ks[1..], p);
      }
    }
  }

  /**
   `Complete`: the okuri-nashi headwords that extend `p`, in ascending order.
   The exclusive bound `p + MaxRune` leaves out the headwords that extend
   `p` followed by the largest code point.
   */
  function Complete(d: Dictionary, p: string): (r: seq<string>)
    ensures StrictlyAscending(r)
    ensures forall k :: k in r <==> k in d.okuriNashi && HasPrefix(k, p) && !HasPrefix(k, p + [MaxRune])
  {
    var ks := AscendingKeys(d.okuriNashi.Keys);
    RangeScanMembers(ks, p);
    InRangePrefixed(p);
    RangeScan(ks, p)
  }
}
