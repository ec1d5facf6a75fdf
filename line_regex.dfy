/** The crawler's line patterns, `(?i)[^\n]*PHRASE[^\n]*` and `(i)[^\n]*PHRASE[^\n]*`, run with
    `re.finditer`. `FindIter` models what the regular-expression engine does, position by
    position; `LineMatches` says the same thing line by line, and `FindIterIsLineFilter`
    proves the two agree on every text. */
module LineRegex {
  import opened Options
  import opened PyStr

  /** `LEAD [^\n]* PHRASE [^\n]*`: an optional literal lead character (the `(i)` group, which
      matches one `i`), then any run of non-newlines, the literal phrase, and the rest of the
      line. `ignoreCase` is the `(?i)` flag. */
  datatype LinePattern = LinePattern(lead: Option<char>, phrase: string, ignoreCase: bool)

  predicate WellFormed(p: LinePattern)
  {
    |p.phrase| > 0 && '\n' !in p.phrase && (p.lead.Some? ==> p.lead.value != '\n')
  }

  /** The phrase matches `s` starting at `q`. */
  predicate PhraseAt(s: string, q: nat, p: LinePattern)
  {
    q + |p.phrase| <= |s| && forall k :: 0 <= k < |p.phrase| ==> CharMatches(s[q + k], p.phrase[k], p.ignoreCase)
  }

  /** The index of the newline that ends the line holding index `i`, or `|s|`. */
  function LineEnd(s: string, i: nat): (e: nat)
    requires i <= |s|
    ensures i <= e <= |s|
    ensures forall k :: i <= k < e ==> s[k] != '\n'
    ensures e == |s| || s[e] == '\n'
    decreases |s| - i
  {
    if i == |s| || s[i] == '\n' then i else LineEnd(s, i + 1)
  }

  lemma LineEndWithin(s: string, i: nat, j: nat)
    requires i <= |s| && i <= j <= LineEnd(s, i)
    ensures LineEnd(s, j) == LineEnd(s, i)
  {
  }

  // ---------------------------------------------------------------------------
  // The regular-expression engine
  // ---------------------------------------------------------------------------

  /** The leading `[^\n]*` consumes `s[b..q]` and the phrase matches at `q`; the trailing
      `[^\n]*` then runs greedily to the end of the line. */
  ghost predicate BodyAt(s: string, b: nat, q: nat, p: LinePattern)
  {
    b <= q <= |s| && (forall k :: b <= k < q ==> s[k] != '\n') && PhraseAt(s, q, p)
  }

  /** `[^\n]* PHRASE [^\n]*` matches from `b`, for some way of backtracking the leading `[^\n]*`. */
  ghost predicate BodyFrom(s: string, b: nat, p: LinePattern)
  {
    exists q: nat :: BodyAt(s, b, q, p)
  }

  /** The whole pattern matches at index `i`. */
  ghost predicate MatchesAt(s: string, i: nat, p: LinePattern)
  {
    match p.lead
    case None => BodyFrom(s, i, p)
    case Some(c) => i < |s| && CharMatches(s[i], c, p.ignoreCase) && BodyFrom(s, i + 1, p)
  }

  /** A phrase placed by the leading `[^\n]*` ends inside the line it starts on. */
  lemma BodyInLine(s: string, b: nat, q: nat, p: LinePattern)
    requires WellFormed(p) && b <= |s| && BodyAt(s, b, q, p)
    ensures q + |p.phrase| <= LineEnd(s, b)
  {
    var e := LineEnd(s, b);
    if e < q + |p.phrase| {
      assert s[e] == '\n';
      if e >= q {
        var k := e - q;
        assert p.phrase[k] in p.phrase;
        NewlineMatchesOnlyNewline(s[q + k], p.phrase[k], p.ignoreCase);
      }
    }
  }

  /** A match is never empty: it runs past its first character to the end of the line. */
  lemma MatchEndsLater(s: string, i: nat, p: LinePattern)
    requires WellFormed(p) && i <= |s| && MatchesAt(s, i, p)
    ensures LineEnd(s, i) > i
  {
    match p.lead
    case None =>
      var q: nat :| BodyAt(s, i, q, p);
      BodyInLine(s, i, q, p);
    case Some(c) =>
      NewlineMatchesOnlyNewline(s[i], c, p.ignoreCase);
  }

  /** `re.finditer` from index `i`: try the pattern at `i`, `i + 1`, ...; on a match, report
      it (from where it starts to the end of its line) and resume where it ended. */
  ghost function ScanFrom(s: string, i: nat, p: LinePattern): seq<string>
    requires i <= |s| + 1 && WellFormed(p)
    decreases |s| + 1 - i
  {
    if i > |s| then []
    else if MatchesAt(s, i, p) then
      MatchEndsLater(s, i, p);
      [s[i..LineEnd(s, i)]] + ScanFrom(s, LineEnd(s, i), p)
    else ScanFrom(s, i + 1, p)
  }

  /** The texts of `re.finditer(pattern, s)`, in order. */
  ghost function FindIter(p: LinePattern, s: string): seq<string>
    requires WellFormed(p)
  {
    ScanFrom(s, 0, p)
  }

  // ---------------------------------------------------------------------------
  // The same result, line by line
  // ---------------------------------------------------------------------------

  /** The lines of `s` from index `i`, as `s[i..].split('\n')` gives them. */
  function LinesFrom(s: string, i: nat): (ls: seq<string>)
    requires i <= |s|
    ensures |ls| >= 1
    decreases |s| - i
  {
    var e := LineEnd(s, i);
    if e == |s| then [s[i..]] else [s[i..e]] + LinesFrom(s, e + 1)
  }

  /** No line holds a newline. */
  lemma {:induction false} LinesHaveNoNewline(s: string, i: nat)
    requires i <= |s|
    ensures forall k :: 0 <= k < |LinesFrom(s, i)| ==> '\n' !in LinesFrom(s, i)[k]
    decreases |s| - i
  {
    var e := LineEnd(s, i);
    var ls := LinesFrom(s, i);
    assert '\n' !in s[i..e];
    if e < |s| {
      LinesHaveNoNewline(s, e + 1);
      assert ls == [s[i..e]] + LinesFrom(s, e + 1) by { LinesFromCons(s, i); }
    } else {
      LastLine(s, i);
    }
  }

  function Lines(s: string): (ls: seq<string>)
  {
    LinesFrom(s, 0)
  }

  lemma {:induction false} JoinLinesFrom(s: string, i: nat)
    requires i <= |s|
    ensures Join(LinesFrom(s, i), '\n') == s[i..]
    decreases |s| - i
  {
    if LineEnd(s, i) < |s| {
      JoinLinesFrom(s, LineEnd(s, i) + 1);
      JoinLinesStep(s, i);
    } else {
      JoinLastLine(s, i);
    }
  }

  lemma JoinLastLine(s: string, i: nat)
    requires i <= |s| && LineEnd(s, i) == |s|
    ensures Join(LinesFrom(s, i), '\n') == s[i..]
  {
  }

  /** The line that runs to the end of the text is the last one. */
  lemma LastLine(s: string, i: nat)
    requires i <= |s| && LineEnd(s, i) == |s|
    ensures LinesFrom(s, i) == [s[i..LineEnd(s, i)]]
  {
    assert s[i..|s|] == s[i..];
  }

  lemma LinesFromCons(s: string, i: nat)
    requires i <= |s| && LineEnd(s, i) < |s|
    ensures LinesFrom(s, i) == [s[i..LineEnd(s, i)]] + LinesFrom(s, LineEnd(s, i) + 1)
  {
  }

  /** Joining the lines from `i` is the first line, a newline, and the join of the rest. */
  lemma JoinLinesStep(s: string, i: nat)
    requires i <= |s| && LineEnd(s, i) < |s|
    requires Join(LinesFrom(s, LineEnd(s, i) + 1), '\n') == s[LineEnd(s, i) + 1..]
    ensures Join(LinesFrom(s, i), '\n') == s[i..]
  {
    var e := LineEnd(s, i);
    calc {
      Join(LinesFrom(s, i), '\n');
      { LinesFromCons(s, i); JoinCons(s[i..e], LinesFrom(s, e + 1), '\n'); }
      s[i..e] + ['\n'] + Join(LinesFrom(s, e + 1), '\n');
      s[i..e] + ['\n'] + s[e + 1..];
      { SplitAtNewline(s, i, e); }
      s[i..];
    }
  }

  lemma SplitAtNewline(s: string, i: nat, e: nat)
    requires i <= e < |s| && s[e] == '\n'
    ensures s[i..] == s[i..e] + ['\n'] + s[e + 1..]
  {
    assert s[i..] == s[i..e] + s[e..];
    assert s[e..] == ['\n'] + s[e + 1..];
  }

  /** Splitting on newlines loses nothing: joining the lines back with `\n` gives the text. */
  lemma JoinLines(s: string)
    ensures Join(Lines(s), '\n') == s
  {
    JoinLinesFrom(s, 0);
  }

  /** Whether the phrase occurs anywhere in `t`. */
  function Contains(t: string, p: LinePattern): bool
    decreases |t|
  {
    |t| >= |p.phrase| && (PhraseAt(t, 0, p) || Contains(t[1..], p))
  }

  lemma {:induction false} ContainsIff(t: string, p: LinePattern)
    ensures Contains(t, p) <==> exists q: nat :: PhraseAt(t, q, p)
    decreases |t|
  {
    if |t| >= |p.phrase| && !PhraseAt(t, 0, p) {
      ContainsIff(t[1..], p);
      if q: nat :| PhraseAt(t[1..], q, p) {
        PhraseAtSlice(t, 1, |t|, q + 1, p);
        assert t[1..|t|] == t[1..];
      }
      if q: nat :| PhraseAt(t, q, p) {
        PhraseAtSlice(t, 1, |t|, q, p);
        assert t[1..|t|] == t[1..];
      }
    }
  }

  lemma PhraseAtSlice(s: string, lo: nat, hi: nat, q: nat, p: LinePattern)
    requires lo <= q && q + |p.phrase| <= hi <= |s|
    ensures PhraseAt(s[lo..hi], q - lo, p) <==> PhraseAt(s, q, p)
  {
    var t := s[lo..hi];
    if PhraseAt(s, q, p) {
      forall k | 0 <= k < |p.phrase| ensures CharMatches(t[q - lo + k], p.phrase[k], p.ignoreCase) {
        assert t[q - lo + k] == s[q + k];
      }
    }
    if PhraseAt(t, q - lo, p) {
      forall k | 0 <= k < |p.phrase| ensures CharMatches(s[q + k], p.phrase[k], p.ignoreCase) {
        assert t[q - lo + k] == s[q + k];
      }
    }
  }

  /** The phrase occurs in the slice `s[lo..hi]` exactly when it occurs in `s` within those bounds. */
  lemma ContainsSlice(s: string, lo: nat, hi: nat, p: LinePattern)
    requires lo <= hi <= |s|
    ensures Contains(s[lo..hi], p) <==> exists q: nat :: lo <= q && q + |p.phrase| <= hi && PhraseAt(s, q, p)
  {
    ContainsIff(s[lo..hi], p);
    if q: nat :| PhraseAt(s[lo..hi], q, p) {
      PhraseAtSlice(s, lo, hi, lo + q, p);
    }
    if q: nat :| lo <= q && q + |p.phrase| <= hi && PhraseAt(s, q, p) {
      PhraseAtSlice(s, lo, hi, q, p);
    }
  }

  /** The first index at or after `i` whose character matches `c`. */
  function FirstIndexFrom(t: string, c: char, ignoreCase: bool, i: nat): (r: Option<nat>)
    requires i <= |t|
    ensures r.Some? ==> i <= r.value < |t| && CharMatches(t[r.value], c, ignoreCase)
    ensures r.Some? ==> forall k :: i <= k < r.value ==> !CharMatches(t[k], c, ignoreCase)
    ensures r.None? ==> forall k :: i <= k < |t| ==> !CharMatches(t[k], c, ignoreCase)
    decreases |t| - i
  {
    if i == |t| then None
    else if CharMatches(t[i], c, ignoreCase) then Some(i)
    else FirstIndexFrom(t, c, ignoreCase, i + 1)
  }

  /** The match the pattern makes on one line, if any: the whole line when the phrase occurs
      in it; with a lead character, the line from its first lead character, provided the
      phrase occurs after that character. */
  function LineMatch(p: LinePattern, line: string): Option<string>
  {
    match p.lead
    case None => if Contains(line, p) then Some(line) else None
    case Some(c) =>
      match FirstIndexFrom(line, c, p.ignoreCase, 0)
      case None => None
      case Some(f) => if Contains(line[f + 1..], p) then Some(line[f..]) else None
  }

  function OptList(o: Option<string>): seq<string>
  {
    match o
    case None => []
    case Some(x) => [x]
  }

  function MatchLines(p: LinePattern, ls: seq<string>): seq<string>
  {
    if ls == [] then [] else OptList(LineMatch(p, ls[0])) + MatchLines(p, ls[1..])
  }

  /** The matches of the pattern in `s`: each line's match, in line order. */
  function LineMatches(p: LinePattern, s: string): seq<string>
  {
    MatchLines(p, Lines(s))
  }

  // ---------------------------------------------------------------------------
  // The engine and the line-by-line view agree
  // ---------------------------------------------------------------------------

  /** Positions where the pattern does not match are passed over one by one. */
  lemma {:induction false} SkipTo(s: string, i: nat, j: nat, p: LinePattern)
    requires WellFormed(p) && i <= j <= |s| + 1
    requires forall k :: i <= k < j ==> !MatchesAt(s, k, p)
    ensures ScanFrom(s, i, p) == ScanFrom(s, j, p)
    decreases j - i
  {
    if i < j {
      SkipTo(s, i + 1, j, p);
    }
  }

  /** The pattern never matches at a line's end (the newline, or the end of the text), so
      the scan moves on to the next line. */
  lemma AfterLine(s: string, b: nat, p: LinePattern)
    requires WellFormed(p) && b <= |s|
    ensures var e := LineEnd(s, b);
            ScanFrom(s, e, p) == if e == |s| then [] else ScanFrom(s, e + 1, p)
  {
    var e := LineEnd(s, b);
    assert LineEnd(s, e) == e;
    if MatchesAt(s, e, p) {
      MatchEndsLater(s, e, p);
    }
  }

  /** No position of a line matches once the pattern's match on the line is ruled out. */
  lemma WholeLineNoMatch(s: string, b: nat, p: LinePattern)
    requires WellFormed(p) && p.lead.None? && b <= |s|
    requires !Contains(s[b..LineEnd(s, b)], p)
    ensures forall k :: b <= k < LineEnd(s, b) ==> !MatchesAt(s, k, p)
  {
    var e := LineEnd(s, b);
    ContainsSlice(s, b, e, p);
    forall k | b <= k < e ensures !MatchesAt(s, k, p) {
      if q: nat :| BodyAt(s, k, q, p) {
        BodyInLine(s, k, q, p);
        LineEndWithin(s, b, k);
      }
    }
  }

  lemma WholeLineScan(s: string, b: nat, p: LinePattern)
    requires WellFormed(p) && p.lead.None? && b <= |s|
    ensures var e := LineEnd(s, b);
            ScanFrom(s, b, p) == OptList(LineMatch(p, s[b..e])) + ScanFrom(s, e, p)
  {
    var e := LineEnd(s, b);
    var line := s[b..e];
    ContainsSlice(s, b, e, p);
    if Contains(line, p) {
      var q: nat :| b <= q && q + |p.phrase| <= e && PhraseAt(s, q, p);
      assert BodyAt(s, b, q, p);
      assert MatchesAt(s, b, p);
    } else {
      WholeLineNoMatch(s, b, p);
      SkipTo(s, b, e, p);
    }
  }

  /** Before the line's first lead character nothing matches. */
  lemma BeforeLead(s: string, b: nat, j: nat, p: LinePattern)
    requires WellFormed(p) && p.lead.Some? && b <= |s| && b <= j <= LineEnd(s, b)
    requires forall k :: 0 <= k < j - b ==> !CharMatches(s[b..LineEnd(s, b)][k], p.lead.value, p.ignoreCase)
    ensures ScanFrom(s, b, p) == ScanFrom(s, j, p)
  {
    var line := s[b..LineEnd(s, b)];
    forall k | b <= k < j ensures !MatchesAt(s, k, p) {
      assert line[k - b] == s[k];
    }
    SkipTo(s, b, j, p);
  }

  /** From the first lead character at `j`, the match is there exactly when the phrase
      occurs later on the line; otherwise no later position of the line matches either. */
  lemma FromLead(s: string, b: nat, j: nat, p: LinePattern)
    requires WellFormed(p) && p.lead.Some? && b <= |s| && b <= j < LineEnd(s, b)
    requires CharMatches(s[j], p.lead.value, p.ignoreCase)
    ensures var e := LineEnd(s, b);
            ScanFrom(s, j, p) == (if Contains(s[j + 1..e], p) then [s[j..e]] else []) + ScanFrom(s, e, p)
  {
    var e := LineEnd(s, b);
    ContainsSlice(s, j + 1, e, p);
    LineEndWithin(s, b, j);
    LineEndWithin(s, b, j + 1);
    if Contains(s[j + 1..e], p) {
      var q: nat :| j + 1 <= q && q + |p.phrase| <= e && PhraseAt(s, q, p);
      assert BodyAt(s, j + 1, q, p);
      assert MatchesAt(s, j, p);
    } else {
      forall k | j <= k < e ensures !MatchesAt(s, k, p) {
        var next := k + 1;
        if q: nat :| BodyAt(s, next, q, p) {
          LineEndWithin(s, b, next);
          BodyInLine(s, next, q, p);
        }
      }
      SkipTo(s, j, e, p);
    }
  }

  lemma LeadFoundScan(s: string, b: nat, f: nat, p: LinePattern)
    requires WellFormed(p) && p.lead.Some? && b <= |s|
    requires FirstIndexFrom(s[b..LineEnd(s, b)], p.lead.value, p.ignoreCase, 0) == Some(f)
    ensures var e := LineEnd(s, b);
            ScanFrom(s, b, p) == OptList(LineMatch(p, s[b..e])) + ScanFrom(s, e, p)
  {
    var e := LineEnd(s, b);
    var line := s[b..e];
    calc {
      ScanFrom(s, b, p);
      { BeforeLead(s, b, b + f, p); }
      ScanFrom(s, b + f, p);
      { assert line[f] == s[b + f]; FromLead(s, b, b + f, p); }
      (if Contains(s[b + f + 1..e], p) then [s[b + f..e]] else []) + ScanFrom(s, e, p);
      { assert line[f + 1..] == s[b + f + 1..e]; assert line[f..] == s[b + f..e]; }
      (if Contains(line[f + 1..], p) then [line[f..]] else []) + ScanFrom(s, e, p);
      OptList(LineMatch(p, line)) + ScanFrom(s, e, p);
    }
  }

  lemma LeadLineScan(s: string, b: nat, p: LinePattern)
    requires WellFormed(p) && p.lead.Some? && b <= |s|
    ensures var e := LineEnd(s, b);
            ScanFrom(s, b, p) == OptList(LineMatch(p, s[b..e])) + ScanFrom(s, e, p)
  {
    var e := LineEnd(s, b);
    var line := s[b..e];
    match FirstIndexFrom(line, p.lead.value, p.ignoreCase, 0)
    case None =>
      BeforeLead(s, b, e, p);
    case Some(f) =>
      LeadFoundScan(s, b, f, p);
  }

  /** Scanning a line yields that line's match (if any) and then carries on from its end. */
  lemma LineScan(s: string, b: nat, p: LinePattern)
    requires WellFormed(p) && b <= |s|
    ensures var e := LineEnd(s, b);
            ScanFrom(s, b, p) == OptList(LineMatch(p, s[b..e])) + ScanFrom(s, e, p)
  {
    if p.lead.None? { WholeLineScan(s, b, p); } else { LeadLineScan(s, b, p); }
  }

  lemma {:induction false} ScanLines(s: string, b: nat, p: LinePattern)
    requires WellFormed(p) && b <= |s|
    ensures ScanFrom(s, b, p) == MatchLines(p, LinesFrom(s, b))
    decreases |s| - b
  {
    var e := LineEnd(s, b);
    var line := s[b..e];
    var first := OptList(LineMatch(p, line));
    if e < |s| {
      var rest := LinesFrom(s, e + 1);
      calc {
        ScanFrom(s, b, p);
        { LineScan(s, b, p); }
        first + ScanFrom(s, e, p);
        { AfterLine(s, b, p); }
        first + ScanFrom(s, e + 1, p);
        { ScanLines(s, e + 1, p); }
        first + MatchLines(p, rest);
        { MatchLinesCons(p, line, rest); }
        MatchLines(p, [line] + rest);
        { LinesFromCons(s, b); }
        MatchLines(p, LinesFrom(s, b));
      }
    } else {
      calc {
        ScanFrom(s, b, p);
        { LineScan(s, b, p); }
        first + ScanFrom(s, e, p);
        { AfterLine(s, b, p); }
        first + [];
        { MatchLinesCons(p, line, []); }
        MatchLines(p, [line] + []);
        { LastLine(s, b); assert [line] + [] == [line]; }
        MatchLines(p, LinesFrom(s, b));
      }
    }
  }

  lemma MatchLinesCons(p: LinePattern, line: string, rest: seq<string>)
    ensures MatchLines(p, [line] + rest) == OptList(LineMatch(p, line)) + MatchLines(p, rest)
  {
    assert ([line] + rest)[1..] == rest;
  }

  /** `re.finditer` with a line pattern reports, in text order, exactly one match per line
      that the pattern matches on, as `LineMatch` describes it. */
  lemma FindIterIsLineFilter(p: LinePattern, s: string)
    requires WellFormed(p)
    ensures FindIter(p, s) == LineMatches(p, s)
  {
    ScanLines(s, 0, p);
  }

  // ---------------------------------------------------------------------------
  // What a line's match is
  // ---------------------------------------------------------------------------

  /** Without a lead character, the matches are exactly the lines that contain the phrase. */
  lemma {:induction false} WholeLineMembers(p: LinePattern, ls: seq<string>)
    requires p.lead.None?
    ensures forall m :: m in MatchLines(p, ls) <==> m in ls && exists q :: PhraseAt(m, q, p)
  {
    if ls != [] {
      WholeLineMembers(p, ls[1..]);
      ContainsIff(ls[0], p);
      assert ls == [ls[0]] + ls[1..];
    }
  }

  /** With a lead character `c`, a line has a match exactly when some `c` is followed later on
      the line by the phrase; the match then runs from the line's first `c` to its end. */
  lemma LeadLineMatch(p: LinePattern, line: string)
    requires p.lead.Some?
    ensures LineMatch(p, line).Some? <==>
              exists f: nat, q: nat :: f < q <= |line| && PhraseAt(line, q, p) && CharMatches(line[f], p.lead.value, p.ignoreCase)
    ensures LineMatch(p, line).Some? ==>
              exists f: nat :: && f < |line| && LineMatch(p, line).value == line[f..]
                               && CharMatches(line[f], p.lead.value, p.ignoreCase)
                               && forall k :: 0 <= k < f ==> !CharMatches(line[k], p.lead.value, p.ignoreCase)
  {
    match FirstIndexFrom(line, p.lead.value, p.ignoreCase, 0)
    case None =>
    case Some(f) =>
      LeadFollowedByPhrase(p, line, f);
  }

  /** After the line's first lead character at `f`, the phrase occurs exactly when some lead
      character anywhere on the line is followed by the phrase. */
  lemma LeadFollowedByPhrase(p: LinePattern, line: string, f: nat)
    requires p.lead.Some? && FirstIndexFrom(line, p.lead.value, p.ignoreCase, 0) == Some(f)
    ensures Contains(line[f + 1..], p) <==>
              exists f': nat, q: nat :: f' < q <= |line| && PhraseAt(line, q, p) && CharMatches(line[f'], p.lead.value, p.ignoreCase)
  {
    var c := p.lead.value;
    ContainsSlice(line, f + 1, |line|, p);
    assert line[f + 1..|line|] == line[f + 1..];
    if Contains(line[f + 1..], p) {
      var q: nat :| f + 1 <= q && q + |p.phrase| <= |line| && PhraseAt(line, q, p);
      assert f < q <= |line| && PhraseAt(line, q, p) && CharMatches(line[f], c, p.ignoreCase);
    } else {
      if f': nat, q: nat :| f' < q <= |line| && PhraseAt(line, q, p) && CharMatches(line[f'], c, p.ignoreCase) {
        assert f <= f';
      }
    }
  }
}
