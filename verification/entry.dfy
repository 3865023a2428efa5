/**
 One headword's entry: its candidate list (first-seen order, texts unique)
 and the transient set of texts marked during an intersection read.
 */
module Entries {
  import opened Text
  import opened Candidates

  /** `marks` is the library's `andSet`; a nil set and an empty set behave alike. */
  datatype Entry = Entry(headword: string, candidates: seq<Candidate>, marks: set<string>)

  /** The texts of a candidate list, in order. */
  function Texts(cs: seq<Candidate>): (ts: seq<string>)
    ensures |ts| == |cs|
    ensures forall i :: 0 <= i < |cs| ==> ts[i] == cs[i].text
  {
    seq(|cs|, i requires 0 <= i < |cs| => cs[i].text)
  }

  /** The texts of a candidate list, as a set. */
  function TextSet(cs: seq<Candidate>): set<string> {
    set c | c in cs :: c.text
  }

  /** No two candidates share a text: the invariant every stored entry keeps. */
  predicate UniqueTexts(cs: seq<Candidate>) {
    forall i, j :: 0 <= i < j < |cs| ==> cs[i].text != cs[j].text
  }

  /** Index of the first candidate with text `t`, or `|cs|` when there is none. */
  function FindText(cs: seq<Candidate>, t: string): (i: nat)
    ensures i <= |cs|
    ensures forall j :: 0 <= j < i ==> cs[j].text != t
    ensures i < |cs| ==> cs[i].text == t
    ensures i == |cs| <==> t !in TextSet(cs)
  {
    var i := IndexOf(Texts(cs), t);
    assert i < |cs| ==> cs[i] in cs;
    i
  }

  /**
   `addCandidate`: when a candidate with the same text is present its
   annotation is joined with the incoming one and nothing else changes;
   otherwise the candidate is appended.
   */
  function AddCandidate(e: Entry, c: Candidate, delimiter: string): (r: Entry)
    ensures r.headword == e.headword && r.marks == e.marks
    ensures TextSet(r.candidates) == TextSet(e.candidates) + {c.text}
    ensures UniqueTexts(e.candidates) ==> UniqueTexts(r.candidates)
    ensures |Texts(e.candidates)| <= |Texts(r.candidates)|
    ensures Texts(r.candidates)[..|e.candidates|] == Texts(e.candidates)
    ensures c.text in TextSet(e.candidates) ==>
      var i := FindText(e.candidates, c.text);
      && |r.candidates| == |e.candidates|
      && r.candidates[i] == JoinAnnotation(e.candidates[i], c.annotation, delimiter)
      && forall j :: 0 <= j < |e.candidates| && j != i ==> r.candidates[j] == e.candidates[j]
    ensures c.text !in TextSet(e.candidates) ==> r.candidates == e.candidates + [c]
    ensures forall j :: 0 <= j < |e.candidates| && e.candidates[j].text != c.text ==>
      r.candidates[j] == e.candidates[j]
  {
    var cs := e.candidates;
    var i := FindText(cs, c.text);
    if i < |cs| then
      var cs' := cs[i := JoinAnnotation(cs[i], c.annotation, delimiter)];
      SameTexts(cs, cs');
      e.(candidates := cs')
    else
      var cs' := cs + [c];
      AppendTexts(cs, c);
      e.(candidates := cs')
  }

  /** Adding a text already present at index `i` joins the annotation there and changes nothing else. */
  lemma AddCandidateJoins(e: Entry, i: nat, b: string, delimiter: string)
    requires UniqueTexts(e.candidates) && i < |e.candidates|
    ensures AddCandidate(e, Candidate(e.candidates[i].text, b), delimiter).candidates
         == e.candidates[i := JoinAnnotation(e.candidates[i], b, delimiter)]
  {
    var c := Candidate(e.candidates[i].text, b);
    assert e.candidates[i] in e.candidates;
    assert FindText(e.candidates, c.text) == i;
  }

  /** Lists with the same texts position by position have the same text sequence and text set. */
  lemma SameTexts(cs: seq<Candidate>, cs': seq<Candidate>)
    requires |cs| == |cs'|
    requires forall j :: 0 <= j < |cs| ==> cs'[j].text == cs[j].text
    ensures Texts(cs') == Texts(cs) && TextSet(cs') == TextSet(cs)
  {
    forall t | t in TextSet(cs) ensures t in TextSet(cs') {
      var j :| 0 <= j < |cs| && cs[j].text == t;
      assert cs'[j] in cs';
    }
    forall t | t in TextSet(cs') ensures t in TextSet(cs) {
      var j :| 0 <= j < |cs'| && cs'[j].text == t;
      assert cs[j] in cs;
    }
  }

  /** Appending a candidate appends its text. */
  lemma AppendTexts(cs: seq<Candidate>, c: Candidate)
    ensures TextSet(cs + [c]) == TextSet(cs) + {c.text}
    ensures Texts(cs + [c])[..|cs|] == Texts(cs)
  {
    var cs' := cs + [c];
    forall t | t in TextSet(cs') ensures t in TextSet(cs) + {c.text} {
      var j :| 0 <= j < |cs'| && cs'[j].text == t;
      if j < |cs| {
        assert cs[j] in cs;
      }
    }
    forall t | t in TextSet(cs) ensures t in TextSet(cs') {
      var x :| x in cs && x.text == t;
      assert x in cs';
    }
    assert cs'[|cs|] in cs';
  }

  /**
   `removeCandidateAt`: an index outside the list changes nothing; otherwise
   exactly that candidate is removed and the others keep their order.
   */
  function RemoveCandidateAt(e: Entry, i: int): (r: Entry)
    ensures r.headword == e.headword && r.marks == e.marks
    ensures i < 0 || i >= |e.candidates| ==> r == e
    ensures 0 <= i < |e.candidates| ==>
      && |r.candidates| == |e.candidates| - 1
      && (forall j :: 0 <= j < i ==> r.candidates[j] == e.candidates[j])
      && (forall j :: i <= j < |r.candidates| ==> r.candidates[j] == e.candidates[j + 1])
  {
    if i < 0 || i >= |e.candidates| then e
    else e.(candidates := e.candidates[..i] + e.candidates[i + 1..])
  }

  /** Putting the removed candidate back at its index restores the list. */
  lemma RemoveCandidateAtInverse(e: Entry, i: int)
    requires 0 <= i < |e.candidates|
    ensures var r := RemoveCandidateAt(e, i).candidates;
      r[..i] + [e.candidates[i]] + r[i..] == e.candidates
  {
    var r := RemoveCandidateAt(e, i).candidates;
    assert r[..i] == e.candidates[..i];
    assert r[i..] == e.candidates[i + 1..];
    assert e.candidates == e.candidates[..i] + [e.candidates[i]] + e.candidates[i + 1..];
  }

  /**
   `removeCandidate`: removes the first candidate whose text equals the
   given candidate's text, whatever the annotations; no match changes nothing.
   */
  function RemoveCandidate(e: Entry, c: Candidate): (r: Entry)
    ensures r.headword == e.headword && r.marks == e.marks
    ensures c.text !in TextSet(e.candidates) ==> r == e
    ensures c.text in TextSet(e.candidates) ==>
      var i := FindText(e.candidates, c.text);
      r.candidates == e.candidates[..i] + e.candidates[i + 1..]
  {
    RemoveCandidateAt(e, FindText(e.candidates, c.text))
  }

  /**
   `andCandidate`: marks the text when some candidate carries it. The
   candidate list never changes.
   */
  function AndCandidate(e: Entry, c: Candidate): (r: Entry)
    ensures r.headword == e.headword && r.candidates == e.candidates
    ensures r.marks == e.marks + ({c.text} * TextSet(e.candidates))
  {
    if FindText(e.candidates, c.text) < |e.candidates| then e.(marks := e.marks + {c.text}) else e
  }

  /** The candidates whose text is in `keep`, in their original order. */
  function Keep(cs: seq<Candidate>, keep: set<string>): (r: seq<Candidate>)
    ensures |r| <= |cs|
  {
    if |cs| == 0 then []
    else if cs[0].text in keep then [cs[0]] + Keep(cs[1..], keep)
    else Keep(cs[1..], keep)
  }

  /** A candidate is kept exactly when it is in the list and its text is allowed. */
  lemma {:induction false} KeepMembers(cs: seq<Candidate>, keep: set<string>)
    ensures forall c :: c in Keep(cs, keep) <==> c in cs && c.text in keep
    decreases |cs|
  {
    if |cs| > 0 {
      KeepMembers(cs[1..], keep);
      assert cs == [cs[0]] + cs[1..];
    }
  }

  /** Keeping distributes over concatenation, so relative order is preserved. */
  lemma {:induction false} KeepAppend(a: seq<Candidate>, b: seq<Candidate>, keep: set<string>)
    ensures Keep(a + b, keep) == Keep(a, keep) + Keep(b, keep)
    decreases |a|
  {
    if |a| == 0 {
      assert a + b == b;
    } else {
      assert (a + b)[1..] == a[1..] + b;
      KeepAppend(a[1..], b, keep);
    }
  }

  /** Keeping every text present keeps the whole list. */
  lemma {:induction false} KeepEvery(cs: seq<Candidate>, keep: set<string>)
    requires forall j :: 0 <= j < |cs| ==> cs[j].text in keep
    ensures Keep(cs, keep) == cs
    decreases |cs|
  {
    if |cs| > 0 {
      KeepEvery(cs[1..], keep);
      assert cs == [cs[0]] + cs[1..];
    }
  }

  lemma KeepAll(cs: seq<Candidate>, keep: set<string>)
    requires TextSet(cs) <= keep
    ensures Keep(cs, keep) == cs
  {
    forall j | 0 <= j < |cs| ensures cs[j].text in keep {
      assert cs[j] in cs;
    }
    KeepEvery(cs, keep);
  }

  /** Keeping no text keeps nothing. */
  lemma {:induction false} KeepNothing(cs: seq<Candidate>)
    ensures Keep(cs, {}) == []
    decreases |cs|
  {
    if |cs| > 0 {
      KeepNothing(cs[1..]);
    }
  }

  /** Only the texts present matter to what is kept. */
  lemma {:induction false} KeepPresent(cs: seq<Candidate>, keep: set<string>)
    ensures Keep(cs, keep) == Keep(cs, keep * TextSet(cs))
    decreases |cs|
  {
    if |cs| > 0 {
      assert cs[0] in cs;
      KeepPresent(cs[1..], keep);
      KeepPresent(cs[1..], keep * TextSet(cs));
      assert TextSet(cs[1..]) <= TextSet(cs) by {
        forall t | t in TextSet(cs[1..]) ensures t in TextSet(cs) {
          var c :| c in cs[1..] && c.text == t;
          assert c in cs;
        }
      }
      assert keep * TextSet(cs) * TextSet(cs[1..]) == keep * TextSet(cs[1..]);
    }
  }

  /** Keeping twice keeps the texts both sets allow. */
  lemma {:induction false} KeepKeep(cs: seq<Candidate>, a: set<string>, b: set<string>)
    ensures Keep(Keep(cs, a), b) == Keep(cs, a * b)
    decreases |cs|
  {
    if |cs| > 0 {
      KeepKeep(cs[1..], a, b);
    }
  }

  /** The texts that survive are those present and allowed. */
  lemma KeepTextSet(cs: seq<Candidate>, keep: set<string>)
    ensures TextSet(Keep(cs, keep)) == TextSet(cs) * keep
  {
    var r := Keep(cs, keep);
    KeepMembers(cs, keep);
    forall t | t in TextSet(cs) * keep ensures t in TextSet(r) {
      var c :| c in cs && c.text == t;
      assert c in r;
    }
  }

  /** Keeping never introduces a duplicate text. */
  lemma {:induction false} KeepUnique(cs: seq<Candidate>, keep: set<string>)
    requires UniqueTexts(cs)
    ensures UniqueTexts(Keep(cs, keep))
    decreases |cs|
  {
    if |cs| > 0 {
      KeepUnique(cs[1..], keep);
      KeepMembers(cs[1..], keep);
      var rest := Keep(cs[1..], keep);
      forall c | c in rest ensures c.text != cs[0].text {
        var j :| 0 <= j < |cs[1..]| && cs[1..][j] == c;
        assert cs[j + 1] == c;
      }
    }
  }

  /** Keeping all texts but one drops exactly the candidate carrying it. */
  lemma {:induction false} KeepDropsOne(pre: seq<Candidate>, x: Candidate, post: seq<Candidate>, keep: set<string>)
    requires forall j :: 0 <= j < |pre| ==> pre[j].text in keep
    requires forall j :: 0 <= j < |post| ==> post[j].text in keep
    requires x.text !in keep
    ensures Keep(pre + [x] + post, keep) == pre + post
  {
    KeepAppend(pre + [x], post, keep);
    KeepAppend(pre, [x], keep);
    assert Keep([x], keep) == Keep([], keep) by {
      assert [x][1..] == [];
    }
    KeepEvery(pre, keep);
    KeepEvery(post, keep);
  }

  /** With unique texts, removing by text is keeping every other text. */
  lemma RemoveCandidateIsKeep(e: Entry, c: Candidate)
    requires UniqueTexts(e.candidates)
    ensures RemoveCandidate(e, c).candidates == Keep(e.candidates, TextSet(e.candidates) - {c.text})
  {
    var cs := e.candidates;
    var keep := TextSet(cs) - {c.text};
    var i := FindText(cs, c.text);
    if i == |cs| {
      KeepAll(cs, keep);
    } else {
      var pre, post := cs[..i], cs[i + 1..];
      forall j | 0 <= j < |pre| ensures pre[j].text in keep {
        assert pre[j] == cs[j] && cs[j] in cs;
      }
      forall j | 0 <= j < |post| ensures post[j].text in keep {
        assert post[j] == cs[i + 1 + j] && cs[i + 1 + j] in cs;
      }
      assert cs == pre + [cs[i]] + post;
      KeepDropsOne(pre, cs[i], post, keep);
    }
  }

  /** Removing by text keeps the texts unique and drops exactly that text. */
  lemma RemoveCandidateTexts(e: Entry, c: Candidate)
    ensures UniqueTexts(e.candidates) ==> UniqueTexts(RemoveCandidate(e, c).candidates)
    ensures UniqueTexts(e.candidates) ==>
      TextSet(RemoveCandidate(e, c).candidates) == TextSet(e.candidates) - {c.text}
  {
    if UniqueTexts(e.candidates) {
      RemoveCandidateIsKeep(e, c);
      KeepUnique(e.candidates, TextSet(e.candidates) - {c.text});
      KeepTextSet(e.candidates, TextSet(e.candidates) - {c.text});
    }
  }

  /**
   `clean`: afterwards the candidates are exactly the marked ones in their
   original order and the mark set is empty.
   */
  function Clean(e: Entry): (r: Entry)
    ensures r.headword == e.headword && r.marks == {}
    ensures forall c :: c in r.candidates <==> c in e.candidates && c.text in e.marks
    ensures r.candidates == Keep(e.candidates, e.marks)
    ensures e.marks == {} ==> r.candidates == []
  {
    KeepNothing(e.candidates);
    KeepMembers(e.candidates, e.marks);
    Entry(e.headword, Keep(e.candidates, e.marks), {})
  }

  /** A step of the cleaning walk that meets a marked candidate moves past it. */
  lemma CleanStepKeeps(cs: seq<Candidate>, k: nat, keep: set<string>)
    requires k < |cs| && cs[k].text in keep
    ensures Keep(cs[..k + 1], keep) == Keep(cs[..k], keep) + [cs[k]]
    ensures Keep(cs[..k + 1], keep) + cs[k + 1..] == Keep(cs[..k], keep) + cs[k..]
  {
    assert cs[..k + 1] == cs[..k] + [cs[k]];
    KeepAppend(cs[..k], [cs[k]], keep);
    assert [cs[k]][1..] == [];
    assert cs[k..] == [cs[k]] + cs[k + 1..];
  }

  /**
   A step of the cleaning walk that meets an unmarked candidate removes it
   from the position just past the candidates kept so far.
   */
  lemma CleanStepRemoves(cs: seq<Candidate>, k: nat, keep: set<string>)
    requires k < |cs| && cs[k].text !in keep
    ensures Keep(cs[..k + 1], keep) == Keep(cs[..k], keep)
    ensures var w := Keep(cs[..k], keep) + cs[k..];
      w[..|Keep(cs[..k], keep)|] + w[|Keep(cs[..k], keep)| + 1..] == Keep(cs[..k], keep) + cs[k + 1..]
  {
    assert cs[..k + 1] == cs[..k] + [cs[k]];
    KeepAppend(cs[..k], [cs[k]], keep);
    assert [cs[k]][1..] == [];
    var p := Keep(cs[..k], keep);
    var w := p + cs[k..];
    assert w[..|p|] == p;
    assert w[|p| + 1..] == cs[k + 1..];
  }

  /** The state of the cleaning walk after `k` original candidates: the kept ones, then the unvisited rest. */
  predicate CleanWalk(e: Entry, r: Entry, i: nat, k: nat) {
    && k <= |e.candidates|
    && r.headword == e.headword && r.marks == e.marks
    && i == |Keep(e.candidates[..k], e.marks)|
    && r.candidates == Keep(e.candidates[..k], e.marks) + e.candidates[k..]
  }

  /** Stepping over a marked candidate advances the walk. */
  lemma CleanWalkKeeps(e: Entry, r: Entry, i: nat, k: nat)
    requires CleanWalk(e, r, i, k) && i < |r.candidates|
    requires r.candidates[i].text in e.marks
    ensures CleanWalk(e, r, i + 1, k + 1)
  {
    assert r.candidates[i] == e.candidates[k];
    CleanStepKeeps(e.candidates, k, e.marks);
  }

  /** Removing an unmarked candidate in place advances the walk. */
  lemma CleanWalkRemoves(e: Entry, r: Entry, i: nat, k: nat)
    requires CleanWalk(e, r, i, k) && i < |r.candidates|
    requires r.candidates[i].text !in e.marks
    ensures CleanWalk(e, RemoveCandidateAt(r, i), i, k + 1)
  {
    assert r.candidates[i] == e.candidates[k];
    CleanStepRemoves(e.candidates, k, e.marks);
  }

  /**
   The library's loop for `clean`: walk the list, step over a marked
   candidate and remove an unmarked one in place. It computes `Clean`.
   */
  method CleanInPlace(e: Entry) returns (r: Entry)
    ensures r == Clean(e)
  {
    r := e;
    var i := 0;
    ghost var k := 0;
    assert e.candidates[..0] == [] && e.candidates[0..] == e.candidates;
    while i < |r.candidates|
      invariant CleanWalk(e, r, i, k)
      decreases |r.candidates| - i
    {
      if r.candidates[i].text in e.marks {
        CleanWalkKeeps(e, r, i, k);
        i := i + 1;
      } else {
        CleanWalkRemoves(e, r, i, k);
        r := RemoveCandidateAt(r, i);
      }
      k := k + 1;
    }
    assert |e.candidates[k..]| == 0;
    assert e.candidates[..k] == e.candidates;
    r := r.(marks := {});
  }

  /** `lessEntry`: ascending order of headwords. */
  predicate LessEntry(a: Entry, b: Entry) {
    LexLess(a.headword, b.headword)
  }

  /** `lessEntryReverse`: descending order of headwords. */
  predicate LessEntryReverse(a: Entry, b: Entry) {
    LexLess(b.headword, a.headword)
  }

  /**
   Both comparators are strict orders, total on distinct headwords, and each
   is the converse of the other.
   */
  lemma EntryOrders(a: Entry, b: Entry, c: Entry)
    ensures !LessEntry(a, a) && !LessEntryReverse(a, a)
    ensures LessEntryReverse(a, b) <==> LessEntry(b, a)
    ensures LessEntry(a, b) ==> !LessEntry(b, a)
    ensures a.headword != b.headword ==> LessEntry(a, b) || LessEntry(b, a)
    ensures LessEntry(a, b) && LessEntry(b, c) ==> LessEntry(a, c)
    ensures LessEntryReverse(a, b) && LessEntryReverse(b, c) ==> LessEntryReverse(a, c)
  {
    LexIrreflexive(a.headword);
    LexTotal(a.headword, b.headword);
    if LessEntry(a, b) {
      LexAsymmetric(a.headword, b.headword);
    }
    if LessEntry(a, b) && LessEntry(b, c) {
      LexTransitive(a.headword, b.headword, c.headword);
    }
    if LessEntryReverse(a, b) && LessEntryReverse(b, c) {
      LexTransitive(c.headword, b.headword, a.headword);
    }
  }
}
