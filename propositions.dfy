/** The `PATTERNS` table and the proposition records a judgment's text gives rise to. */
module Propositions {
  import opened Options
  import opened PyStr
  import opened Seqs
  import opened Citation
  import opened LineRegex

  /** How a named pattern finds its matches in a judgment's text. */
  datatype Matcher =
    | Sentence                      // the "The question is whether" sentence pattern
    | Line(pattern: LinePattern)    // a `[^\n]*PHRASE[^\n]*` line pattern

  datatype NamedPattern = NamedPattern(name: string, matcher: Matcher)

  /** The matches of the sentence pattern in a text: the regular-expression engine's answer for
      that pattern, which the model takes as given. */
  type SentenceMatcher = string -> seq<string>

  /** `PATTERNS`, in declaration order. Four line patterns carry `(?i)`; the fifth begins with
      the group `(i)`, which matches a literal lowercase `i` and leaves the pattern case-sensitive. */
  const Patterns: seq<NamedPattern> := [
    NamedPattern("The question is whether", Sentence),
    NamedPattern("The leading case", Line(LeadingCase)),
    NamedPattern("The leading authority", Line(LeadingAuthority)),
    NamedPattern("The issue here is whether", Line(IssueHere)),
    NamedPattern("The applicable test is", Line(ApplicableTest)),
    NamedPattern("The applicable threshold is", Line(ApplicableThreshold))
  ]

  const LeadingCase: LinePattern := LinePattern(None, "The leading case", true)
  const LeadingAuthority: LinePattern := LinePattern(None, "The leading authority", true)
  const IssueHere: LinePattern := LinePattern(None, "The issue here is whether", true)
  const ApplicableTest: LinePattern := LinePattern(Some('i'), "The applicable test is", false)
  const ApplicableThreshold: LinePattern := LinePattern(None, "The applicable threshold is", true)

  /** One row of the output table. */
  datatype Proposition = Proposition(
    docId: string,
    title: string,
    url: string,
    proposition: string,
    citation: string,
    patternMatched: string)

  /** What the crawler knows about a case once it has its PDF: title, citation and PDF URL. */
  datatype Case = Case(title: string, citation: string, pdfUrl: string)

  /** `re.finditer(regex, text)` for one named pattern, as the matched texts in order. */
  function Matches(np: NamedPattern, text: string, sentence: SentenceMatcher): seq<string>
  {
    match np.matcher
    case Sentence => sentence(text)
    case Line(lp) => LineMatches(lp, text)
  }

  /** The record built for one match. */
  function Record(c: Case, name: string, m: string): Proposition
  {
    Proposition(DocId(c.citation), c.title, c.pdfUrl, Strip(m), c.citation, name)
  }

  function MatchRecords(c: Case, name: string, ms: seq<string>): seq<Proposition>
  {
    if ms == [] then [] else [Record(c, name, ms[0])] + MatchRecords(c, name, ms[1..])
  }

  function PatternRecords(c: Case, ps: seq<NamedPattern>, text: string, sentence: SentenceMatcher): seq<Proposition>
  {
    if ps == [] then []
    else MatchRecords(c, ps[0].name, Matches(ps[0], text, sentence)) + PatternRecords(c, ps[1..], text, sentence)
  }

  /** The records one case contributes: pattern by pattern in declaration order, and match
      by match in text order within a pattern. */
  function CaseRecords(c: Case, text: string, sentence: SentenceMatcher): seq<Proposition>
  {
    PatternRecords(c, Patterns, text, sentence)
  }

  /** What the crawler does with one case's text: the records of every pattern in `PATTERNS`
      are appended to the list of all propositions. */
  method ProcessCase(all: seq<Proposition>, c: Case, text: string, sentence: SentenceMatcher)
    returns (all': seq<Proposition>)
    ensures all' == all + CaseRecords(c, text, sentence)
  {
    all' := AppendPatterns(all, c, Patterns, text, sentence);
  }

  /** The loop over the pattern table, appending the records of each pattern's matches in turn. */
  method AppendPatterns(all: seq<Proposition>, c: Case, ps: seq<NamedPattern>, text: string, sentence: SentenceMatcher)
    returns (all': seq<Proposition>)
    ensures all' == all + PatternRecords(c, ps, text, sentence)
  {
    all' := all;
    assert ps[0..] == ps;
    for i := 0 to |ps|
      invariant all' + PatternRecords(c, ps[i..], text, sentence) == all + PatternRecords(c, ps, text, sentence)
    {
      var np := ps[i];
      var ms := Matches(np, text, sentence);
      PatternRecordsStep(c, ps, i, text, sentence);
      ghost var before := all';
      all' := AppendMatches(all', c, np.name, ms);
      AppendAssoc(before, MatchRecords(c, np.name, ms), PatternRecords(c, ps[i + 1..], text, sentence));
    }
    assert ps[|ps|..] == [];
  }

  lemma PatternRecordsStep(c: Case, ps: seq<NamedPattern>, i: nat, text: string, sentence: SentenceMatcher)
    requires i < |ps|
    ensures PatternRecords(c, ps[i..], text, sentence)
            == MatchRecords(c, ps[i].name, Matches(ps[i], text, sentence)) + PatternRecords(c, ps[i + 1..], text, sentence)
  {
    assert ps[i..][1..] == ps[i + 1..];
  }

  /** The inner loop over one pattern's matches, one record per match, in text order. */
  method AppendMatches(all: seq<Proposition>, c: Case, name: string, ms: seq<string>)
    returns (all': seq<Proposition>)
    ensures all' == all + MatchRecords(c, name, ms)
  {
    all' := all;
    assert ms[0..] == ms;
    for j := 0 to |ms|
      invariant all' + MatchRecords(c, name, ms[j..]) == all + MatchRecords(c, name, ms)
    {
      MatchRecordsStep(c, name, ms, j);
      ghost var before := all';
      all' := all' + [Record(c, name, ms[j])];
      AppendAssoc(before, [Record(c, name, ms[j])], MatchRecords(c, name, ms[j + 1..]));
    }
    assert ms[|ms|..] == [];
  }

  lemma MatchRecordsStep(c: Case, name: string, ms: seq<string>, j: nat)
    requires j < |ms|
    ensures MatchRecords(c, name, ms[j..]) == [Record(c, name, ms[j])] + MatchRecords(c, name, ms[j + 1..])
  {
    assert ms[j..][1..] == ms[j + 1..];
  }

  // ---------------------------------------------------------------------------
  // What every record says
  // ---------------------------------------------------------------------------

  /** Index of the pattern called `name` in `Patterns` (`|Patterns|` if there is none). */
  function PatternIndex(name: string): (k: nat)
    ensures k <= |Patterns|
    ensures k < |Patterns| ==> Patterns[k].name == name
  {
    PatternIndexFrom(name, 0)
  }

  function PatternIndexFrom(name: string, i: nat): (k: nat)
    requires i <= |Patterns|
    ensures i <= k <= |Patterns|
    ensures k < |Patterns| ==> Patterns[k].name == name
    ensures forall j :: i <= j < k ==> Patterns[j].name != name
    decreases |Patterns| - i
  {
    if i == |Patterns| then i else if Patterns[i].name == name then i else PatternIndexFrom(name, i + 1)
  }

  /** The names in `PATTERNS` are distinct (they even differ in length). */
  lemma PatternNamesDistinct(k: nat)
    requires k < |Patterns|
    ensures PatternIndex(Patterns[k].name) == k
  {
    assert |Patterns[0].name| == 23 && |Patterns[1].name| == 16 && |Patterns[2].name| == 21;
    assert |Patterns[3].name| == 25 && |Patterns[4].name| == 22 && |Patterns[5].name| == 27;
  }

  /** A record of a case: it carries the case's title, PDF URL and citation, its `doc_id` is
      derived from that citation, its proposition is a stripped match of the pattern it names. */
  ghost predicate RecordOf(r: Proposition, c: Case, text: string, sentence: SentenceMatcher)
  {
    && r.docId == DocId(c.citation)
    && r.title == c.title
    && r.url == c.pdfUrl
    && r.citation == c.citation
    && Trimmed(r.proposition)
    && PatternIndex(r.patternMatched) < |Patterns|
    && exists m :: m in Matches(Patterns[PatternIndex(r.patternMatched)], text, sentence) && r.proposition == Strip(m)
  }

  lemma {:induction false} MatchRecordsOf(c: Case, k: nat, ms: seq<string>, text: string, sentence: SentenceMatcher)
    requires k < |Patterns|
    requires forall m :: m in ms ==> m in Matches(Patterns[k], text, sentence)
    ensures forall r :: r in MatchRecords(c, Patterns[k].name, ms) ==>
              RecordOf(r, c, text, sentence) && PatternIndex(r.patternMatched) == k
  {
    PatternNamesDistinct(k);
    if ms != [] {
      MatchRecordsOf(c, k, ms[1..], text, sentence);
      assert ms[0] in ms;
    }
  }

  lemma {:induction false} PatternRecordsFrom(c: Case, k: nat, text: string, sentence: SentenceMatcher)
    requires k <= |Patterns|
    ensures forall r :: r in PatternRecords(c, Patterns[k..], text, sentence) ==> RecordOf(r, c, text, sentence)
    decreases |Patterns| - k
  {
    if k < |Patterns| {
      assert Patterns[k..][1..] == Patterns[k + 1..];
      var head := MatchRecords(c, Patterns[k].name, Matches(Patterns[k], text, sentence));
      var tail := PatternRecords(c, Patterns[k + 1..], text, sentence);
      MatchRecordsOf(c, k, Matches(Patterns[k], text, sentence), text, sentence);
      PatternRecordsFrom(c, k + 1, text, sentence);
      forall r | r in head + tail
        ensures RecordOf(r, c, text, sentence)
      {
        assert r in head || r in tail;
      }
    }
  }

  /** Every record a case produces satisfies `RecordOf`: the field rules of the record dictionary. */
  lemma CaseRecordFields(c: Case, text: string, sentence: SentenceMatcher)
    ensures forall r :: r in CaseRecords(c, text, sentence) ==> RecordOf(r, c, text, sentence)
  {
    PatternRecordsFrom(c, 0, text, sentence);
    assert Patterns[0..] == Patterns;
  }

  /** Records come grouped by pattern, the groups in `PATTERNS` declaration order. */
  ghost predicate GroupedByPattern(rs: seq<Proposition>)
  {
    forall i, j :: 0 <= i < j < |rs| ==> PatternIndex(rs[i].patternMatched) <= PatternIndex(rs[j].patternMatched)
  }

  lemma {:induction false} MatchRecordsNamed(c: Case, name: string, ms: seq<string>)
    ensures forall r :: r in MatchRecords(c, name, ms) ==> r.patternMatched == name
  {
    if ms != [] {
      MatchRecordsNamed(c, name, ms[1..]);
    }
  }

  /** The records of the patterns from the `k`-th on name the `k`-th pattern or a later one. */
  lemma {:induction false} PatternRecordsIndices(c: Case, k: nat, text: string, sentence: SentenceMatcher)
    requires k <= |Patterns|
    ensures forall r :: r in PatternRecords(c, Patterns[k..], text, sentence) ==>
              k <= PatternIndex(r.patternMatched) < |Patterns|
    decreases |Patterns| - k
  {
    if k < |Patterns| {
      assert Patterns[k..][1..] == Patterns[k + 1..];
      MatchRecordsNamed(c, Patterns[k].name, Matches(Patterns[k], text, sentence));
      PatternNamesDistinct(k);
      PatternRecordsIndices(c, k + 1, text, sentence);
    }
  }

  /** A group for pattern `k` followed by grouped records of later patterns is still grouped. */
  lemma GroupedAppend(head: seq<Proposition>, tail: seq<Proposition>, k: nat)
    requires forall r :: r in head ==> PatternIndex(r.patternMatched) == k
    requires forall r :: r in tail ==> PatternIndex(r.patternMatched) > k
    requires GroupedByPattern(tail)
    ensures GroupedByPattern(head + tail)
  {
    var rs := head + tail;
    forall i, j | 0 <= i < j < |rs|
      ensures PatternIndex(rs[i].patternMatched) <= PatternIndex(rs[j].patternMatched)
    {
      if j < |head| {
        assert rs[i] in head && rs[j] in head;
      } else if i < |head| {
        assert rs[i] in head && rs[j] == tail[j - |head|] && tail[j - |head|] in tail;
      } else {
        assert rs[i] == tail[i - |head|] && rs[j] == tail[j - |head|];
      }
    }
  }

  lemma {:induction false} PatternRecordsGrouped(c: Case, k: nat, text: string, sentence: SentenceMatcher)
    requires k <= |Patterns|
    ensures GroupedByPattern(PatternRecords(c, Patterns[k..], text, sentence))
    decreases |Patterns| - k
  {
    if k < |Patterns| {
      assert Patterns[k..][1..] == Patterns[k + 1..];
      var head := MatchRecords(c, Patterns[k].name, Matches(Patterns[k], text, sentence));
      MatchRecordsNamed(c, Patterns[k].name, Matches(Patterns[k], text, sentence));
      PatternNamesDistinct(k);
      PatternRecordsIndices(c, k + 1, text, sentence);
      PatternRecordsGrouped(c, k + 1, text, sentence);
      GroupedAppend(head, PatternRecords(c, Patterns[k + 1..], text, sentence), k);
    }
  }

  lemma CaseRecordsGrouped(c: Case, text: string, sentence: SentenceMatcher)
    ensures GroupedByPattern(CaseRecords(c, text, sentence))
  {
    PatternRecordsGrouped(c, 0, text, sentence);
    assert Patterns[0..] == Patterns;
  }

  lemma {:induction false} PatternRecordsCount(c: Case, ps: seq<NamedPattern>, text: string, sentence: SentenceMatcher)
    ensures |PatternRecords(c, ps, text, sentence)| == MatchCount(ps, text, sentence)
  {
    if ps != [] {
      MatchRecordsLength(c, ps[0].name, Matches(ps[0], text, sentence));
      PatternRecordsCount(c, ps[1..], text, sentence);
    }
  }

  /** The number of matches of all the patterns together. */
  function MatchCount(ps: seq<NamedPattern>, text: string, sentence: SentenceMatcher): nat
  {
    if ps == [] then 0 else |Matches(ps[0], text, sentence)| + MatchCount(ps[1..], text, sentence)
  }

  /** A case produces one record per match of each pattern of `PATTERNS`. */
  lemma CaseRecordsCount(c: Case, text: string, sentence: SentenceMatcher)
    ensures |CaseRecords(c, text, sentence)| == MatchCount(Patterns, text, sentence)
  {
    PatternRecordsCount(c, Patterns, text, sentence);
  }

  lemma {:induction false} MatchRecordsLength(c: Case, name: string, ms: seq<string>)
    ensures |MatchRecords(c, name, ms)| == |ms|
  {
    if ms != [] {
      MatchRecordsLength(c, name, ms[1..]);
    }
  }

  // ---------------------------------------------------------------------------
  // The line patterns of the table
  // ---------------------------------------------------------------------------

  /** The five line patterns satisfy what the line-matching theorems need. */
  lemma LinePatternsWellFormed(k: nat)
    requires 1 <= k < |Patterns|
    ensures Patterns[k].matcher.Line? && WellFormed(Patterns[k].matcher.pattern)
    ensures k != 4 ==> Patterns[k].matcher.pattern.lead.None? && Patterns[k].matcher.pattern.ignoreCase
    ensures k == 4 ==> Patterns[k].matcher.pattern.lead == Some('i') && !Patterns[k].matcher.pattern.ignoreCase
  {
    if k == 1 {
      LeadingCaseWellFormed();
    } else if k == 2 {
      LeadingAuthorityWellFormed();
    } else if k == 3 {
      IssueHereWellFormed();
    } else if k == 4 {
      ApplicableTestWellFormed();
    } else {
      ApplicableThresholdWellFormed();
    }
  }

  lemma LeadingCaseWellFormed() ensures WellFormed(LeadingCase) { assert '\n' !in LeadingCase.phrase; }
  lemma LeadingAuthorityWellFormed() ensures WellFormed(LeadingAuthority) { assert '\n' !in LeadingAuthority.phrase; }
  lemma IssueHereWellFormed() ensures WellFormed(IssueHere) { assert '\n' !in IssueHere.phrase; }
  lemma ApplicableTestWellFormed() ensures WellFormed(ApplicableTest) { assert '\n' !in ApplicableTest.phrase; }
  lemma ApplicableThresholdWellFormed() ensures WellFormed(ApplicableThreshold) { assert '\n' !in ApplicableThreshold.phrase; }

  /** For the four `(?i)` patterns, the matches are exactly the lines holding the phrase in any
      letter case, each whole line once, in text order; they are what `re.finditer` reports. */
  lemma CaseInsensitiveLineMatches(k: nat, text: string, sentence: SentenceMatcher)
    requires 1 <= k < |Patterns| && k != 4
    ensures Patterns[k].matcher.Line?
    ensures var lp := Patterns[k].matcher.pattern;
            && WellFormed(lp) && lp.lead.None? && lp.ignoreCase
            && Matches(Patterns[k], text, sentence) == FindIter(lp, text)
            && forall m :: m in Matches(Patterns[k], text, sentence) <==>
                 m in Lines(text) && exists q :: PhraseAt(m, q, lp)
  {
    LinePatternsWellFormed(k);
    var lp := Patterns[k].matcher.pattern;
    FindIterIsLineFilter(lp, text);
    WholeLineMembers(lp, Lines(text));
  }

  /** `phrase` occurs in `s` at `q`, spelt exactly. */
  predicate ExactAt(s: string, q: nat, phrase: string)
  {
    q + |phrase| <= |s| && s[q..q + |phrase|] == phrase
  }

  /** Case-sensitive phrase matching is plain equality of the slice with the phrase. */
  lemma ExactPhraseAt(s: string, q: nat, p: LinePattern)
    requires !p.ignoreCase
    ensures PhraseAt(s, q, p) <==> ExactAt(s, q, p.phrase)
  {
    if q + |p.phrase| <= |s| && s[q..q + |p.phrase|] == p.phrase {
      forall k | 0 <= k < |p.phrase| ensures s[q + k] == p.phrase[k] {
        assert s[q..q + |p.phrase|][k] == s[q + k];
      }
    }
  }

  /** The `(i)` pattern, "The applicable test is": a line yields a match exactly when it has a
      lowercase `i` followed later on the line by the phrase, spelt exactly; the match runs from
      the line's first lowercase `i` to the end of the line. */
  lemma ApplicableTestLineMatch(line: string)
    ensures var lp := Patterns[4].matcher.pattern;
            LineMatch(lp, line).Some? <==>
              exists f: nat, q: nat :: f < q <= |line| && line[f] == 'i' && ExactAt(line, q, "The applicable test is")
    ensures var lp := Patterns[4].matcher.pattern;
            LineMatch(lp, line).Some? ==>
              exists f: nat :: && f < |line| && line[f] == 'i' && LineMatch(lp, line).value == line[f..]
                               && forall k :: 0 <= k < f ==> line[k] != 'i'
  {
    LinePatternsWellFormed(4);
    var lp := Patterns[4].matcher.pattern;
    assert lp.phrase == "The applicable test is";
    LeadLineMatch(lp, line);
    forall q: nat ensures PhraseAt(line, q, lp) <==> ExactAt(line, q, lp.phrase) {
      ExactPhraseAt(line, q, lp);
    }
  }

  /** "The applicable test is" is matched by `re.finditer` line by line, as above. */
  lemma ApplicableTestMatches(text: string, sentence: SentenceMatcher)
    ensures Matches(Patterns[4], text, sentence) == FindIter(Patterns[4].matcher.pattern, text)
    ensures Matches(Patterns[4], text, sentence) == MatchLines(Patterns[4].matcher.pattern, Lines(text))
  {
    LinePatternsWellFormed(4);
    FindIterIsLineFilter(Patterns[4].matcher.pattern, text);
  }
}
