/**
 `Write` and `writeEntry` of `skkdic.go`: the text a dictionary is written
 as, and the round trip back through `Read`.
 */
module Writer {
  import opened Optional
  import opened Text
  import opened Candidates
  import opened Entries
  import opened Classifier
  import opened OrderedKeys
  import opened Merge
  import opened Dictionaries

  /** The encodings `WithOutputEncoding` accepts. */
  predicate IsKnownEncoding(e: string) {
    e in {"euc-jp", "euc-jis-2004", "shift_jis", "iso-2022-jp", "utf-8"}
  }

  /** The encoding named in the header: UTF-8 unless a known encoding was requested. */
  function OutputEncoding(requested: Option<string>): (e: string)
    ensures IsKnownEncoding(e)
    ensures requested.Some? && IsKnownEncoding(requested.value) ==> e == requested.value
    ensures requested.None? || !IsKnownEncoding(requested.value) ==> e == "utf-8"
  {
    if requested.Some? && IsKnownEncoding(requested.value) then requested.value else "utf-8"
  }

  const OkuriAriHeader: string := ";; okuri-ari entries."
  const OkuriNashiHeader: string := ";; okuri-nasi entries."

  lemma HeadersAreComments()
    ensures IsComment(OkuriAriHeader) && IsComment(OkuriNashiHeader)
  {
  }

  function CodingLine(encoding: string): (line: string)
    ensures IsComment(line)
  {
    ";; -*- coding: " + encoding + " -*-"
  }

  /** `writeEntry`, without its newline: the headword, a space, and the encoded candidate list. */
  function EntryLine(e: Entry): (line: string)
    ensures HasPrefix(line, e.headword + " ")
    ensures line[|e.headword| + 1..] == JoinCandidates(e.candidates)
  {
    var line := e.headword + " " + JoinCandidates(e.candidates);
    assert line[..|e.headword| + 1] == e.headword + " ";
    line
  }

  /** The entry lines of one partition, in the order of `ks`. */
  function SectionLines(m: Partition, ks: seq<string>): (lines: seq<string>)
    requires forall k :: k in ks ==> k in m
    ensures |lines| == |ks|
    decreases |ks|
  {
    if |ks| == 0 then [] else [EntryLine(m[ks[0]])] + SectionLines(m, ks[1..])
  }

  /**
   The lines `Write` produces: the coding header, the okuri-ari header and
   entries in descending headword order, then the okuri-nashi header and
   entries in ascending headword order.
   */
  function WriteLines(d: Dictionary, encoding: string): (lines: seq<string>)
    ensures |lines| == 3 + |d.okuriAri| + |d.okuriNashi|
    ensures lines[0] == CodingLine(encoding) && lines[1] == OkuriAriHeader
    ensures lines[2 + |d.okuriAri|] == OkuriNashiHeader
  {
    [CodingLine(encoding), OkuriAriHeader]
      + SectionLines(d.okuriAri, DescendingKeys(d.okuriAri.Keys))
      + [OkuriNashiHeader]
      + SectionLines(d.okuriNashi, AscendingKeys(d.okuriNashi.Keys))
  }

  /** Every line followed by a newline. */
  function Unlines(lines: seq<string>): (s: string)
    ensures |lines| > 0 ==> HasPrefix(s, lines[0] + "\n")
    decreases |lines|
  {
    if |lines| == 0 then []
    else
      var s := lines[0] + "\n" + Unlines(lines[1..]);
      assert s[..|lines[0]| + 1] == lines[0] + "\n";
      s
  }

  /**
   Splitting text into lines the way the line scanner of `Read` does: at
   every newline, with a last line that lacks its newline still counted.
   */
  function SplitLines(s: string): (lines: seq<string>)
    ensures forall i :: 0 <= i < |lines| ==> '\n' !in lines[i]
    decreases |s|
  {
    if |s| == 0 then []
    else
      var n := IndexOf(s, '\n');
      if n == |s| then [s]
      else
        assert forall j :: 0 <= j < n ==> s[..n][j] == s[j];
        [s[..n]] + SplitLines(s[n + 1..])
  }

  /** A first line free of newlines, followed by a newline, is split off as it is. */
  lemma SplitHead(l: string, rest: string)
    requires '\n' !in l
    ensures SplitLines(l + "\n" + rest) == [l] + SplitLines(rest)
  {
    var s := l + "\n" + rest;
    assert s == l + ("\n" + rest);
    IndexOfAppend(l, "\n" + rest, '\n');
    assert s[..|l|] == l;
    assert s[|l| + 1..] == rest;
  }

  /** Splitting the joined lines gives them back, as long as none holds a newline. */
  lemma {:induction false} SplitUnlines(lines: seq<string>)
    requires forall i :: 0 <= i < |lines| ==> '\n' !in lines[i]
    ensures SplitLines(Unlines(lines)) == lines
    decreases |lines|
  {
    if |lines| > 0 {
      SplitHead(lines[0], Unlines(lines[1..]));
      SplitUnlines(lines[1..]);
      assert lines == [lines[0]] + lines[1..];
    }
  }

  /** `Write`: the dictionary as text, before encoding. */
  function Write(d: Dictionary, encoding: string): (s: string)
    ensures HasPrefix(s, CodingLine(encoding) + "\n")
  {
    Unlines(WriteLines(d, encoding))
  }

  /** An entry that survives being written and read back: a headword the line parser recovers and encodable candidates. */
  predicate WritableEntry(k: string, e: Entry) {
    && ' ' !in k
    && (k != [] ==> k[0] != ';')
    && e.marks == {}
    && AllEncodable(e.candidates)
  }

  predicate Writable(d: Dictionary) {
    && Valid(d)
    && (forall k :: k in d.okuriAri ==> WritableEntry(k, d.okuriAri[k]))
    && (forall k :: k in d.okuriNashi ==> WritableEntry(k, d.okuriNashi[k]))
  }

  /** The partition of one classification. */
  function Part(d: Dictionary, ari: bool): Partition {
    if ari then d.okuriAri else d.okuriNashi
  }

  function SetPart(d: Dictionary, ari: bool, m: Partition): Dictionary {
    if ari then d.(okuriAri := m) else d.(okuriNashi := m)
  }

  /** The entries of `m` whose keys are in `s`. */
  function Restrict(m: Partition, s: set<string>): (r: Partition)
    ensures forall k :: k in r <==> k in m && k in s
    ensures forall k :: k in r ==> r[k] == m[k]
  {
    map k | k in m && k in s :: m[k]
  }

  /** The line of a writable entry is not a comment and parses back to its headword and candidates. */
  lemma ParseWrittenLine(k: string, e: Entry)
    requires k != [] && WritableEntry(k, e) && e.headword == k && |e.candidates| > 0
    ensures !IsComment(EntryLine(e))
    ensures ParseLine(EntryLine(e)) == (k, e.candidates)
  {
    var line := EntryLine(e);
    assert line == k + " " + JoinCandidates(e.candidates);
    assert line[0] == k[0];
    RoundTrip(e.candidates);
    ParseEntryLine(k, JoinCandidates(e.candidates));
  }

  /** Adding a new key's candidates to a restriction of `m` extends the restriction by that key. */
  lemma AddRestrict(m: Partition, s: set<string>, k: string, delimiter: string)
    requires k in m && k !in s
    requires m[k].headword == k && m[k].marks == {} && UniqueTexts(m[k].candidates)
    ensures AddEntry(Restrict(m, s), k, m[k].candidates, delimiter) == Restrict(m, s + {k})
  {
    var e := m[k];
    var r := Restrict(m, s);
    assert [] + e.candidates == e.candidates;
    AddAllFresh(Entry(k, [], {}), e.candidates, delimiter);
    assert AddAll(Entry(k, [], {}), e.candidates, delimiter) == e;
    AddEntryAbsent(r, k, e.candidates, delimiter);
    RestrictInsert(m, s, k);
  }

  /** Restricting to one more key adds that key's entry. */
  lemma RestrictInsert(m: Partition, s: set<string>, k: string)
    requires k in m
    ensures Restrict(m, s)[k := m[k]] == Restrict(m, s + {k})
  {
  }

  /** Reading back the line of one writable entry adds exactly that entry. */
  lemma ReadEntryLine(acc: Dictionary, m: Partition, ari: bool, s: set<string>, k: string)
    requires ValidPartition(m, ari)
    requires forall x :: x in m ==> WritableEntry(x, m[x])
    requires k in m && k !in s
    requires Part(acc, ari) == Restrict(m, s)
    ensures ReadLine(acc, EntryLine(m[k]), Add) == SetPart(acc, ari, Restrict(m, s + {k}))
  {
    var e := m[k];
    ParseWrittenLine(k, e);
    assert ReadLine(acc, EntryLine(e), Add) == ProcessCandidates(acc, k, e.candidates, Add);
    assert PartitionOf(acc, k) == Restrict(m, s);
    assert MergeInto(Restrict(m, s), k, e.candidates, Add, acc.delimiter)
        == AddEntry(Restrict(m, s), k, e.candidates, acc.delimiter);
    AddRestrict(m, s, k, acc.delimiter);
  }

  /** The keys of a listing, as a set. */
  function KeySet(ks: seq<string>): (r: set<string>)
    ensures forall k :: k in r <==> k in ks
    decreases |ks|
  {
    if |ks| == 0 then {}
    else
      var r := {ks[0]} + KeySet(ks[1..]);
      assert forall k :: k in ks <==> k == ks[0] || k in ks[1..];
      r
  }

  predicate Distinct(ks: seq<string>) {
    forall i, j :: 0 <= i < j < |ks| ==> ks[i] != ks[j]
  }

  lemma PartOfSetPart(d: Dictionary, ari: bool, x: Partition, y: Partition)
    ensures Part(SetPart(d, ari, x), ari) == x
    ensures SetPart(SetPart(d, ari, x), ari, y) == SetPart(d, ari, y)
    ensures SetPart(d, ari, Part(d, ari)) == d
  {
  }

  /** The tail of a distinct listing is distinct and misses the head. */
  lemma DistinctTail(ks: seq<string>)
    requires |ks| > 0 && Distinct(ks)
    ensures Distinct(ks[1..]) && ks[0] !in ks[1..]
  {
    assert forall i, j :: 0 <= i < j < |ks[1..]| ==> ks[1..][i] == ks[i + 1] && ks[1..][j] == ks[j + 1];
  }

  /** Reading back a section adds exactly its entries to the partition. */
  lemma {:induction false} ReadSection(acc: Dictionary, m: Partition, ari: bool, s: set<string>, ks: seq<string>)
    requires ValidPartition(m, ari)
    requires forall x :: x in m ==> WritableEntry(x, m[x])
    requires forall k :: k in ks ==> k in m && k !in s
    requires Distinct(ks)
    requires Part(acc, ari) == Restrict(m, s)
    ensures ReadLines(acc, SectionLines(m, ks), Add) == SetPart(acc, ari, Restrict(m, s + KeySet(ks)))
    decreases |ks|, 1
  {
    var lines := SectionLines(m, ks);
    if |ks| == 0 {
      assert lines == [];
      assert ReadLines(acc, lines, Add) == acc;
      assert KeySet(ks) == {};
      assert s + KeySet(ks) == s;
      PartOfSetPart(acc, ari, Part(acc, ari), Part(acc, ari));
    } else {
      var k := ks[0];
      var x := Restrict(m, s + {k});
      var acc' := SetPart(acc, ari, x);
      var s' := s + KeySet(ks);
      calc {
        ReadLines(acc, SectionLines(m, ks), Add);
        { ReadSectionHead(acc, m, ari, s, ks); }
        ReadLines(acc', SectionLines(m, ks[1..]), Add);
        { ReadSectionTail(acc, m, ari, s, ks); }
        SetPart(acc', ari, Restrict(m, s + {k} + KeySet(ks[1..])));
        { assert s + {k} + KeySet(ks[1..]) == s'; }
        SetPart(acc', ari, Restrict(m, s'));
        { PartOfSetPart(acc, ari, x, Restrict(m, s')); }
        SetPart(acc, ari, Restrict(m, s'));
      }
    }
  }

  /** The rest of a section, read after its first line, by induction. */
  lemma {:induction false} ReadSectionTail(acc: Dictionary, m: Partition, ari: bool, s: set<string>, ks: seq<string>)
    requires ValidPartition(m, ari)
    requires forall x :: x in m ==> WritableEntry(x, m[x])
    requires |ks| > 0
    requires forall k :: k in ks ==> k in m && k !in s
    requires Distinct(ks)
    requires Part(acc, ari) == Restrict(m, s)
    ensures var acc' := SetPart(acc, ari, Restrict(m, s + {ks[0]}));
      ReadLines(acc', SectionLines(m, ks[1..]), Add)
        == SetPart(acc', ari, Restrict(m, s + {ks[0]} + KeySet(ks[1..])))
    decreases |ks|, 0
  {
    var x := Restrict(m, s + {ks[0]});
    DistinctTail(ks);
    assert forall y :: y in ks[1..] ==> y in ks;
    PartOfSetPart(acc, ari, x, x);
    ReadSection(SetPart(acc, ari, x), m, ari, s + {ks[0]}, ks[1..]);
  }

  /** The first line of a section adds its entry; the rest of the section follows. */
  lemma ReadSectionHead(acc: Dictionary, m: Partition, ari: bool, s: set<string>, ks: seq<string>)
    requires ValidPartition(m, ari)
    requires forall x :: x in m ==> WritableEntry(x, m[x])
    requires |ks| > 0 && (forall k :: k in ks ==> k in m) && ks[0] !in s
    requires Part(acc, ari) == Restrict(m, s)
    ensures ReadLines(acc, SectionLines(m, ks), Add)
         == ReadLines(SetPart(acc, ari, Restrict(m, s + {ks[0]})), SectionLines(m, ks[1..]), Add)
  {
    var lines := SectionLines(m, ks);
    ReadEntryLine(acc, m, ari, s, ks[0]);
    assert lines[0] == EntryLine(m[ks[0]]);
    assert lines[1..] == SectionLines(m, ks[1..]);
  }

  /** Comment lines are skipped. */
  lemma {:induction false} CommentsSkipped(d: Dictionary, lines: seq<string>, mode: MergeMode)
    requires forall i :: 0 <= i < |lines| ==> IsComment(lines[i])
    ensures ReadLines(d, lines, mode) == d
    decreases |lines|
  {
    if |lines| > 0 {
      CommentsSkipped(d, lines[1..], mode);
    }
  }

  lemma AscendingDistinct(ks: seq<string>)
    requires StrictlyAscending(ks)
    ensures Distinct(ks)
  {
    forall i, j | 0 <= i < j < |ks| ensures ks[i] != ks[j] {
      LexIrreflexive(ks[i]);
    }
  }

  lemma DescendingDistinct(ks: seq<string>)
    requires StrictlyDescending(ks)
    ensures Distinct(ks)
  {
    forall i, j | 0 <= i < j < |ks| ensures ks[i] != ks[j] {
      LexIrreflexive(ks[i]);
    }
  }

  /**
   Round trip: reading the written lines into a new dictionary with the same
   delimiter gives the dictionary back.
   */
  lemma WriteReadRoundTrip(d: Dictionary, encoding: string)
    requires Writable(d)
    ensures Read(New(d.delimiter), WriteLines(d, encoding), Add) == d
  {
    var d0 := New(d.delimiter);
    var head := [CodingLine(encoding), OkuriAriHeader];
    var a := SectionLines(d.okuriAri, DescendingKeys(d.okuriAri.Keys));
    var b := SectionLines(d.okuriNashi, AscendingKeys(d.okuriNashi.Keys));
    var d1 := SetPart(d0, true, d.okuriAri);
    assert WriteLines(d, encoding) == head + a + [OkuriNashiHeader] + b;
    ReadOkuriAriSection(d, encoding);
    ReadOkuriNashiSection(d);
    ReadLinesAppend(d0, head + a + [OkuriNashiHeader], b, Add);
    ReadLinesAppend(d0, head + a, [OkuriNashiHeader], Add);
  }

  /**
   The same round trip on the text: the written text, split into lines and
   read into a new dictionary, gives the dictionary back, provided no written
   line holds a newline of its own.
   */
  lemma WriteTextRoundTrip(d: Dictionary, encoding: string)
    requires Writable(d)
    requires forall i :: 0 <= i < |WriteLines(d, encoding)| ==> '\n' !in WriteLines(d, encoding)[i]
    ensures Read(New(d.delimiter), SplitLines(Write(d, encoding)), Add) == d
  {
    SplitUnlines(WriteLines(d, encoding));
    WriteReadRoundTrip(d, encoding);
  }

  /** The entry line at index `i` of a section is the line of the `i`-th listed key. */
  lemma {:induction false} SectionLineAt(m: Partition, ks: seq<string>, i: nat)
    requires forall k :: k in ks ==> k in m
    requires i < |ks|
    ensures SectionLines(m, ks)[i] == EntryLine(m[ks[i]])
    decreases i
  {
    var rest := ks[1..];
    assert forall k :: k in rest ==> k in ks;
    assert SectionLines(m, ks) == [EntryLine(m[ks[0]])] + SectionLines(m, rest);
    if i > 0 {
      SectionLineAt(m, rest, i - 1);
      assert rest[i - 1] == ks[i];
    }
  }

  /** From offset `off` on, `lines` holds one entry line per key of `ks`, in the order of `ks`. */
  predicate SectionLaidOut(lines: seq<string>, off: nat, m: Partition, ks: seq<string>) {
    && off + |ks| <= |lines|
    && forall i :: 0 <= i < |ks| ==> ks[i] in m && lines[off + i] == EntryLine(m[ks[i]])
  }

  /** A section followed by two more stretches of lines is laid out right after what precedes it. */
  lemma SectionBefore(m: Partition, ks: seq<string>, before: seq<string>, y: seq<string>, z: seq<string>)
    requires forall k :: k in ks ==> k in m
    ensures SectionLaidOut(before + SectionLines(m, ks) + y + z, |before|, m, ks)
  {
    var a := SectionLines(m, ks);
    forall i | 0 <= i < |ks| ensures (before + a + y + z)[|before| + i] == EntryLine(m[ks[i]]) {
      SectionLineAt(m, ks, i);
    }
  }

  /** A section at the end of the lines is laid out right after what precedes it. */
  lemma SectionLast(m: Partition, ks: seq<string>, before: seq<string>)
    requires forall k :: k in ks ==> k in m
    ensures SectionLaidOut(before + SectionLines(m, ks), |before|, m, ks)
  {
    var a := SectionLines(m, ks);
    forall i | 0 <= i < |ks| ensures (before + a)[|before| + i] == EntryLine(m[ks[i]]) {
      SectionLineAt(m, ks, i);
    }
  }

  /** A strictly ascending listing of a partition's keys lists its entries in `lessEntry` order. */
  lemma AscendingEntries(m: Partition, ari: bool, ks: seq<string>)
    requires ValidPartition(m, ari)
    requires forall k :: k in ks ==> k in m
    requires StrictlyAscending(ks)
    ensures forall i, j :: 0 <= i < j < |ks| ==> LessEntry(m[ks[i]], m[ks[j]])
  {
    forall i, j | 0 <= i < j < |ks| ensures LessEntry(m[ks[i]], m[ks[j]]) {
      assert ks[i] in m && ks[j] in m;
    }
  }

  /** A strictly descending listing of a partition's keys lists its entries in `lessEntryReverse` order. */
  lemma DescendingEntries(m: Partition, ari: bool, ks: seq<string>)
    requires ValidPartition(m, ari)
    requires forall k :: k in ks ==> k in m
    requires StrictlyDescending(ks)
    ensures forall i, j :: 0 <= i < j < |ks| ==> LessEntryReverse(m[ks[i]], m[ks[j]])
  {
    forall i, j | 0 <= i < j < |ks| ensures LessEntryReverse(m[ks[i]], m[ks[j]]) {
      assert ks[i] in m && ks[j] in m;
    }
  }

  /**
   The layout of `Write`: after the two header lines, one line per okuri-ari
   entry, ordered by `lessEntryReverse` (descending headwords); then the
   okuri-nashi header and one line per okuri-nashi entry, ordered by
   `lessEntry` (ascending headwords).
   */
  lemma WriteLayout(d: Dictionary, encoding: string)
    requires Valid(d)
    ensures var lines := WriteLines(d, encoding);
      var ka := DescendingKeys(d.okuriAri.Keys);
      var kn := AscendingKeys(d.okuriNashi.Keys);
      && SectionLaidOut(lines, 2, d.okuriAri, ka)
      && SectionLaidOut(lines, 3 + |ka|, d.okuriNashi, kn)
      && (forall i, j :: 0 <= i < j < |ka| ==> LessEntryReverse(d.okuriAri[ka[i]], d.okuriAri[ka[j]]))
      && (forall i, j :: 0 <= i < j < |kn| ==> LessEntry(d.okuriNashi[kn[i]], d.okuriNashi[kn[j]]))
  {
    var ka := DescendingKeys(d.okuriAri.Keys);
    var kn := AscendingKeys(d.okuriNashi.Keys);
    SectionsAt(CodingLine(encoding), d.okuriAri, ka, d.okuriNashi, kn);
    DescendingEntries(d.okuriAri, true, ka);
    AscendingEntries(d.okuriNashi, false, kn);
  }

  /** Where the two sections sit among the lines `Write` produces. */
  lemma SectionsAt(coding: string, ma: Partition, ka: seq<string>, mn: Partition, kn: seq<string>)
    requires forall k :: k in ka ==> k in ma
    requires forall k :: k in kn ==> k in mn
    ensures var lines := [coding, OkuriAriHeader] + SectionLines(ma, ka) + [OkuriNashiHeader] + SectionLines(mn, kn);
      SectionLaidOut(lines, 2, ma, ka) && SectionLaidOut(lines, 3 + |ka|, mn, kn)
  {
    SectionBefore(ma, ka, [coding, OkuriAriHeader], [OkuriNashiHeader], SectionLines(mn, kn));
    SectionLast(mn, kn, [coding, OkuriAriHeader] + SectionLines(ma, ka) + [OkuriNashiHeader]);
  }

  /** The two opening header lines are skipped. */
  lemma HeaderSkipped(d: Dictionary, encoding: string)
    ensures ReadLines(d, [CodingLine(encoding), OkuriAriHeader], Add) == d
  {
    HeadersAreComments();
    CommentsSkipped(d, [CodingLine(encoding), OkuriAriHeader], Add);
  }

  /** The headers and the okuri-ari section, read into a new dictionary, give back the okuri-ari partition. */
  lemma ReadOkuriAriSection(d: Dictionary, encoding: string)
    requires Writable(d)
    ensures var d0 := New(d.delimiter);
      ReadLines(d0, [CodingLine(encoding), OkuriAriHeader] + SectionLines(d.okuriAri, DescendingKeys(d.okuriAri.Keys)), Add)
        == SetPart(d0, true, d.okuriAri)
  {
    var d0 := New(d.delimiter);
    HeaderSkipped(d0, encoding);
    ReadLinesAppend(d0, [CodingLine(encoding), OkuriAriHeader], SectionLines(d.okuriAri, DescendingKeys(d.okuriAri.Keys)), Add);
    ReadOkuriAriEntries(d);
  }

  /** The okuri-ari entry lines, read into a new dictionary, give back the okuri-ari partition. */
  lemma ReadOkuriAriEntries(d: Dictionary)
    requires Writable(d)
    ensures var d0 := New(d.delimiter);
      ReadLines(d0, SectionLines(d.okuriAri, DescendingKeys(d.okuriAri.Keys)), Add) == SetPart(d0, true, d.okuriAri)
  {
    var ari := DescendingKeys(d.okuriAri.Keys);
    DescendingDistinct(ari);
    ReadWholeSection(New(d.delimiter), d.okuriAri, true, ari);
  }

  /** Reading a section that lists every key of a partition once fills an empty partition with it. */
  lemma ReadWholeSection(acc: Dictionary, m: Partition, ari: bool, ks: seq<string>)
    requires ValidPartition(m, ari)
    requires forall x :: x in m ==> WritableEntry(x, m[x])
    requires forall k :: k in ks <==> k in m
    requires Distinct(ks)
    requires Part(acc, ari) == map[]
    ensures ReadLines(acc, SectionLines(m, ks), Add) == SetPart(acc, ari, m)
  {
    RestrictNone(m);
    ReadSection(acc, m, ari, {}, ks);
    RestrictAll(m, ks);
  }

  lemma RestrictNone(m: Partition)
    ensures Restrict(m, {}) == map[]
  {
  }

  /** Restricting to all the keys a listing names, when it names every key, keeps the whole partition. */
  lemma RestrictAll(m: Partition, ks: seq<string>)
    requires forall k :: k in ks <==> k in m
    ensures Restrict(m, {} + KeySet(ks)) == m
  {
    assert {} + KeySet(ks) == m.Keys;
  }

  /** The okuri-nashi header and section, read next, give back the okuri-nashi partition. */
  lemma ReadOkuriNashiSection(d: Dictionary)
    requires Writable(d)
    ensures var d1 := SetPart(New(d.delimiter), true, d.okuriAri);
      && ReadLines(d1, [OkuriNashiHeader], Add) == d1
      && ReadLines(d1, SectionLines(d.okuriNashi, AscendingKeys(d.okuriNashi.Keys)), Add) == d
  {
    var d1 := SetPart(New(d.delimiter), true, d.okuriAri);
    var nashi := AscendingKeys(d.okuriNashi.Keys);
    HeadersAreComments();
    CommentsSkipped(d1, [OkuriNashiHeader], Add);
    AscendingDistinct(nashi);
    ReadWholeSection(d1, d.okuriNashi, false, nashi);
  }
}
