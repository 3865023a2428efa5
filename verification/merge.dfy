/**
 The per-tree merge engine of `skkdic.go`: how one parsed line's candidates
 are merged into a partition under addition, subtraction and intersection,
 and the final clean-up of an intersection read. A partition is the content
 of one of the dictionary's two trees, keyed by headword.
 */
module Merge {
  import opened Optional
  import opened Candidates
  import opened Entries
  import opened Classifier

  type Partition = map<string, Entry>

  /** What every stored entry satisfies: keyed by its own non-empty headword, non-empty, texts unique. */
  predicate ValidEntry(k: string, e: Entry) {
    && k != []
    && e.headword == k
    && |e.candidates| > 0
    && UniqueTexts(e.candidates)
  }

  /** Every key is valid and belongs to this partition: okuri-ari when `ari`, okuri-nashi otherwise. */
  predicate ValidPartition(m: Partition, ari: bool) {
    forall k :: k in m ==> ValidEntry(k, m[k]) && IsOkuriAri(k) == ari
  }

  lemma TextSetCons(c: Candidate, cs: seq<Candidate>)
    ensures TextSet([c] + cs) == {c.text} + TextSet(cs)
  {
    var l := [c] + cs;
    forall t | t in TextSet(l) ensures t in {c.text} + TextSet(cs) {
      var x :| x in l && x.text == t;
      if x != c {
        assert x in cs;
      }
    }
    forall t | t in TextSet(cs) ensures t in TextSet(l) {
      var x :| x in cs && x.text == t;
      assert x in l;
    }
    assert c in l;
  }

  lemma PrefixTransitive(a: seq<string>, b: seq<string>, c: seq<string>)
    requires |a| <= |b| <= |c|
    requires b[..|a|] == a && c[..|b|] == b
    ensures c[..|a|] == a
  {
    assert c[..|a|] == c[..|b|][..|a|];
  }

  /** The loop of `addEntry`: every incoming candidate is added in turn. */
  function AddAll(e: Entry, cs: seq<Candidate>, delimiter: string): (r: Entry)
    ensures r.headword == e.headword && r.marks == e.marks
    ensures TextSet(r.candidates) == TextSet(e.candidates) + TextSet(cs)
    ensures UniqueTexts(e.candidates) ==> UniqueTexts(r.candidates)
    ensures |e.candidates| <= |r.candidates|
    ensures Texts(r.candidates)[..|e.candidates|] == Texts(e.candidates)
    ensures forall j :: 0 <= j < |e.candidates| && e.candidates[j].text !in TextSet(cs) ==>
      r.candidates[j] == e.candidates[j]
    decreases |cs|
  {
    if |cs| == 0 then e
    else
      var e' := AddCandidate(e, cs[0], delimiter);
      var r := AddAll(e', cs[1..], delimiter);
      TextSetCons(cs[0], cs[1..]);
      assert cs == [cs[0]] + cs[1..];
      PrefixTransitive(Texts(e.candidates), Texts(e'.candidates), Texts(r.candidates));
      FramedThrough(e.candidates, e'.candidates, r.candidates, cs[0].text, TextSet(cs[1..]));
      r
  }

  /** Two steps that each leave alone the candidates of other texts leave alone those of neither text. */
  lemma FramedThrough(a: seq<Candidate>, b: seq<Candidate>, c: seq<Candidate>, t: string, ts: set<string>)
    requires |a| <= |b| <= |c|
    requires forall j :: 0 <= j < |a| && a[j].text != t ==> b[j] == a[j]
    requires forall j :: 0 <= j < |b| && b[j].text !in ts ==> c[j] == b[j]
    ensures forall j :: 0 <= j < |a| && a[j].text !in {t} + ts ==> c[j] == a[j]
  {
  }

  /** Adding candidates whose texts are all new appends them in order. */
  lemma {:induction false} AddAllFresh(e: Entry, cs: seq<Candidate>, delimiter: string)
    requires UniqueTexts(e.candidates + cs)
    ensures AddAll(e, cs, delimiter) == e.(candidates := e.candidates + cs)
    decreases |cs|
  {
    if |cs| == 0 {
      assert e.candidates + cs == e.candidates;
    } else {
      var l := e.candidates + cs;
      assert l[|e.candidates|] == cs[0];
      assert cs[0].text !in TextSet(e.candidates) by {
        forall x | x in e.candidates ensures x.text != cs[0].text {
          var j :| 0 <= j < |e.candidates| && e.candidates[j] == x;
          assert l[j] == x;
        }
      }
      var e' := AddCandidate(e, cs[0], delimiter);
      assert e'.candidates == e.candidates + [cs[0]];
      assert e'.candidates + cs[1..] == l;
      AddAllFresh(e', cs[1..], delimiter);
    }
  }

  /**
   `addEntry`: the entry for `h` (created empty when absent) receives every
   incoming candidate; no other entry changes.
   */
  function AddEntry(m: Partition, h: string, cs: seq<Candidate>, delimiter: string): (r: Partition)
    ensures r.Keys == m.Keys + {h}
    ensures forall k :: k in m && k != h ==> r[k] == m[k]
    ensures h in m ==> r[h].headword == m[h].headword && r[h].marks == m[h].marks
    ensures h !in m ==> r[h].headword == h && r[h].marks == {}
    ensures TextSet(r[h].candidates) == (if h in m then TextSet(m[h].candidates) else {}) + TextSet(cs)
    ensures h in m ==> |m[h].candidates| <= |r[h].candidates| &&
                       Texts(r[h].candidates)[..|m[h].candidates|] == Texts(m[h].candidates)
    ensures (h in m ==> UniqueTexts(m[h].candidates)) ==> UniqueTexts(r[h].candidates)
    ensures h in m ==> forall j :: 0 <= j < |m[h].candidates| && m[h].candidates[j].text !in TextSet(cs) ==>
      r[h].candidates[j] == m[h].candidates[j]
  {
    var base := if h in m then m[h] else Entry(h, [], {});
    assert TextSet(base.candidates) == (if h in m then TextSet(m[h].candidates) else {});
    m[h := AddAll(base, cs, delimiter)]
  }

  /** `addEntry` for an absent headword stores what the candidates make of an empty entry. */
  lemma AddEntryAbsent(m: Partition, h: string, cs: seq<Candidate>, delimiter: string)
    requires h !in m
    ensures AddEntry(m, h, cs, delimiter) == m[h := AddAll(Entry(h, [], {}), cs, delimiter)]
  {
  }

  /** `addEntry` of one candidate whose text the entry holds at index `i`: the annotation join at `i`. */
  lemma AddEntryJoins(m: Partition, h: string, i: nat, b: string, delimiter: string)
    requires h in m && UniqueTexts(m[h].candidates) && i < |m[h].candidates|
    ensures var e := m[h];
      AddEntry(m, h, [Candidate(e.candidates[i].text, b)], delimiter)[h].candidates
        == e.candidates[i := JoinAnnotation(e.candidates[i], b, delimiter)]
  {
    var c := Candidate(m[h].candidates[i].text, b);
    var e' := AddCandidate(m[h], c, delimiter);
    assert [c][0] == c && [c][1..] == [];
    assert AddAll(e', [], delimiter) == e';
    assert AddAll(m[h], [c], delimiter) == e';
    assert AddEntry(m, h, [c], delimiter)[h] == e';
    AddCandidateJoins(m[h], i, b, delimiter);
  }

  /**
   The loop of `subEntry`: remove each incoming candidate by text in turn,
   stopping with `None` (the entry is deleted) as soon as the list is empty.
   */
  function SubAll(e: Entry, cs: seq<Candidate>): (r: Option<Entry>)
    ensures r.Some? ==> r.value.headword == e.headword && r.value.marks == e.marks
    ensures r.Some? && (|cs| > 0 || |e.candidates| > 0) ==> |r.value.candidates| > 0
    ensures r.Some? && UniqueTexts(e.candidates) ==> UniqueTexts(r.value.candidates)
    ensures r.None? ==> |cs| > 0
    decreases |cs|
  {
    if |cs| == 0 then Some(e)
    else
      var e' := RemoveCandidate(e, cs[0]);
      if |e'.candidates| == 0 then None
      else
        RemoveCandidateTexts(e, cs[0]);
        SubAll(e', cs[1..])
  }

  /**
   Subtraction as set difference: the surviving candidates are those whose
   text no incoming candidate carries, in their original order, and the
   entry is deleted exactly when none survives of a non-empty subtraction.
   */
  lemma {:induction false} SubAllIsKeep(e: Entry, cs: seq<Candidate>)
    requires UniqueTexts(e.candidates)
    ensures var k := Keep(e.candidates, TextSet(e.candidates) - TextSet(cs));
      SubAll(e, cs) == if |cs| > 0 && k == [] then None else Some(e.(candidates := k))
    decreases |cs|
  {
    var all := TextSet(e.candidates);
    var k := Keep(e.candidates, all - TextSet(cs));
    if |cs| == 0 {
      assert TextSet(cs) == {};
      assert all - TextSet(cs) == all;
      KeepAll(e.candidates, all);
      assert e.(candidates := k) == e;
    } else {
      var t := cs[0].text;
      var e' := RemoveCandidate(e, cs[0]);
      RemoveCandidateIsKeep(e, cs[0]);
      RemoveCandidateTexts(e, cs[0]);
      TextSetCons(cs[0], cs[1..]);
      assert cs == [cs[0]] + cs[1..];
      KeepKeep(e.candidates, all - {t}, (all - {t}) - TextSet(cs[1..]));
      assert (all - {t}) * ((all - {t}) - TextSet(cs[1..])) == all - TextSet(cs);
      assert k == Keep(e'.candidates, TextSet(e'.candidates) - TextSet(cs[1..]));
      if |e'.candidates| == 0 {
        assert Keep(e'.candidates, TextSet(e'.candidates) - TextSet(cs[1..])) == [];
      } else {
        SubAllIsKeep(e', cs[1..]);
        if |cs[1..]| == 0 {
          KeepAll(e'.candidates, TextSet(e'.candidates));
        }
      }
    }
  }

  /** `subEntry`: an absent headword changes nothing; otherwise its entry shrinks or is deleted. */
  function SubEntry(m: Partition, h: string, cs: seq<Candidate>): (r: Partition)
    ensures h !in m ==> r == m
    ensures r.Keys <= m.Keys
    ensures forall k :: k in m && k != h ==> k in r && r[k] == m[k]
    ensures h in r ==> r[h].headword == m[h].headword && r[h].marks == m[h].marks
    ensures h in r && (|cs| > 0 || |m[h].candidates| > 0) ==> |r[h].candidates| > 0
    ensures h in r && UniqueTexts(m[h].candidates) ==> UniqueTexts(r[h].candidates)
  {
    if h !in m then m
    else
      match SubAll(m[h], cs)
      case None => m - {h}
      case Some(e) => m[h := e]
  }

  /** The entry left by `subEntry`, as set difference on texts. */
  lemma SubEntryKeeps(m: Partition, h: string, cs: seq<Candidate>)
    requires h in m && UniqueTexts(m[h].candidates)
    ensures var k := Keep(m[h].candidates, TextSet(m[h].candidates) - TextSet(cs));
      && (h in SubEntry(m, h, cs) <==> |cs| == 0 || k != [])
      && (h in SubEntry(m, h, cs) ==> SubEntry(m, h, cs)[h] == m[h].(candidates := k))
  {
    SubAllIsKeep(m[h], cs);
  }

  /** The loop of `andEntry`: mark every incoming text the entry carries. */
  function AndAll(e: Entry, cs: seq<Candidate>): (r: Entry)
    ensures r.headword == e.headword && r.candidates == e.candidates
    ensures r.marks == e.marks + (TextSet(cs) * TextSet(e.candidates))
    decreases |cs|
  {
    if |cs| == 0 then e
    else
      TextSetCons(cs[0], cs[1..]);
      assert cs == [cs[0]] + cs[1..];
      AndAll(AndCandidate(e, cs[0]), cs[1..])
  }

  /** `andEntry`: an absent headword changes nothing; otherwise only its marks grow. */
  function AndEntry(m: Partition, h: string, cs: seq<Candidate>): (r: Partition)
    ensures r.Keys == m.Keys
    ensures forall k :: k in m && k != h ==> r[k] == m[k]
    ensures h in m ==> r[h] == m[h].(marks := m[h].marks + (TextSet(cs) * TextSet(m[h].candidates)))
  {
    if h !in m then m else m[h := AndAll(m[h], cs)]
  }

  /**
   `cleanEntries`: every entry is cleaned, and the entries left without
   candidates are deleted.
   */
  function CleanEntries(m: Partition): (r: Partition)
    ensures forall k :: k in r <==> k in m && Keep(m[k].candidates, m[k].marks) != []
    ensures forall k :: k in r ==> r[k].headword == m[k].headword && r[k].marks == {}
    ensures forall k :: k in r ==> r[k].candidates == Keep(m[k].candidates, m[k].marks)
  {
    map k | k in m && Clean(m[k]).candidates != [] :: Clean(m[k])
  }

  /**
   Each merge operation keeps a partition valid, when the headword is
   non-empty, belongs to the partition, and the list is non-empty.
   */
  lemma MergePreservesValid(m: Partition, ari: bool, h: string, cs: seq<Candidate>, delimiter: string)
    ensures ValidPartition(m, ari) && h != [] && |cs| > 0 && IsOkuriAri(h) == ari ==>
      && ValidPartition(AddEntry(m, h, cs, delimiter), ari)
      && ValidPartition(SubEntry(m, h, cs), ari)
      && ValidPartition(AndEntry(m, h, cs), ari)
  {
    if ValidPartition(m, ari) && h != [] && |cs| > 0 && IsOkuriAri(h) == ari {
      AddEntryValid(m, ari, h, cs, delimiter);
      SubEntryValid(m, ari, h, cs);
      AndEntryValid(m, ari, h, cs);
    }
  }

  lemma AddEntryValid(m: Partition, ari: bool, h: string, cs: seq<Candidate>, delimiter: string)
    requires ValidPartition(m, ari)
    requires h != [] && |cs| > 0 && IsOkuriAri(h) == ari
    ensures ValidPartition(AddEntry(m, h, cs, delimiter), ari)
  {
    var a := AddEntry(m, h, cs, delimiter);
    assert cs[0] in cs;
    assert cs[0].text in TextSet(a[h].candidates);
    assert |a[h].candidates| > 0;
    assert ValidEntry(h, a[h]);
    forall k | k in a ensures ValidEntry(k, a[k]) && IsOkuriAri(k) == ari {
      if k != h {
        assert a[k] == m[k];
      }
    }
  }

  lemma SubEntryValid(m: Partition, ari: bool, h: string, cs: seq<Candidate>)
    requires ValidPartition(m, ari)
    requires |cs| > 0
    ensures ValidPartition(SubEntry(m, h, cs), ari)
  {
    var r := SubEntry(m, h, cs);
    forall k | k in r ensures ValidEntry(k, r[k]) && IsOkuriAri(k) == ari {
      assert k in m;
      if k != h {
        assert r[k] == m[k];
      }
    }
  }

  lemma AndEntryValid(m: Partition, ari: bool, h: string, cs: seq<Candidate>)
    requires ValidPartition(m, ari)
    ensures ValidPartition(AndEntry(m, h, cs), ari)
  {
    var r := AndEntry(m, h, cs);
    forall k | k in r ensures ValidEntry(k, r[k]) && IsOkuriAri(k) == ari {
      assert r[k].headword == m[k].headword && r[k].candidates == m[k].candidates;
    }
  }

  /** Cleaning keeps a partition valid: what remains is non-empty and keeps unique texts. */
  lemma CleanEntriesValid(m: Partition, ari: bool)
    ensures ValidPartition(m, ari) ==> ValidPartition(CleanEntries(m), ari)
  {
    if ValidPartition(m, ari) {
      var c := CleanEntries(m);
      forall k | k in c ensures UniqueTexts(c[k].candidates) {
        KeepUnique(m[k].candidates, m[k].marks);
      }
    }
  }
}
