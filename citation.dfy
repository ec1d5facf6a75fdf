/** The case citation read from a result row's metadata text, and the `doc_id` derived from it. */
module Citation {
  import opened Options
  import opened PyStr

  /** The citation pattern `\[\d{4}\] NZSC \d+` matches at index `i` of `s`: its fixed
      13-character head (bracket, four digits, `] NZSC `, first docket digit) lies at `i`. */
  predicate CitationAt(s: string, i: nat)
  {
    && i + 13 <= |s|
    && s[i] == '['
    && IsDigit(s[i + 1]) && IsDigit(s[i + 2]) && IsDigit(s[i + 3]) && IsDigit(s[i + 4])
    && s[i + 5] == ']' && s[i + 6] == ' '
    && s[i + 7] == 'N' && s[i + 8] == 'Z' && s[i + 9] == 'S' && s[i + 10] == 'C'
    && s[i + 11] == ' '
    && IsDigit(s[i + 12])
  }

  /** A whole citation as the pattern produces it: the head, then only docket digits. */
  predicate IsCitation(c: string)
  {
    CitationAt(c, 0) && AllDigits(c[12..])
  }

  /** The end of the run of digits that starts at `j` (`\d+` is greedy). */
  function DigitRunEnd(s: string, j: nat): (e: nat)
    requires j <= |s|
    ensures j <= e <= |s|
    ensures forall k :: j <= k < e ==> IsDigit(s[k])
    ensures e == |s| || !IsDigit(s[e])
    decreases |s| - j
  {
    if j < |s| && IsDigit(s[j]) then DigitRunEnd(s, j + 1) else j
  }

  /** The leftmost index at or after `from` where the citation pattern matches. */
  function LeftmostCitation(s: string, from: nat): (r: Option<nat>)
    ensures r.Some? ==> from <= r.value && CitationAt(s, r.value)
    ensures r.Some? ==> forall i :: from <= i < r.value ==> !CitationAt(s, i)
    ensures r.None? ==> forall i :: from <= i ==> !CitationAt(s, i)
    decreases |s| - from
  {
    if from + 13 > |s| then None
    else if CitationAt(s, from) then Some(from)
    else LeftmostCitation(s, from + 1)
  }

  /** The match that starts at a citation head: the head and the whole digit run after it. */
  lemma CitationSlice(meta: string, i: nat)
    requires CitationAt(meta, i)
    ensures var c := meta[i..DigitRunEnd(meta, i + 12)];
            IsCitation(c) && (i + |c| == |meta| || !IsDigit(meta[i + |c|]))
  {
    var e := DigitRunEnd(meta, i + 12);
    var c := meta[i..e];
    assert forall k :: 0 <= k < |c[12..]| ==> c[12..][k] == meta[i + 12 + k];
  }

  /** `re.search(r'\[\d{4}\] NZSC \d+', meta)`: the leftmost match, whose docket digits run
      as far as they go; `None` exactly when the pattern matches nowhere. */
  function SearchCitation(meta: string): (r: Option<string>)
    ensures r.None? <==> forall i :: !CitationAt(meta, i)
    ensures r.Some? ==> IsCitation(r.value)
    ensures r.Some? ==> exists i :: FirstCitationIs(meta, i, r.value)
  {
    match LeftmostCitation(meta, 0)
    case None => None
    case Some(i) =>
      CitationSlice(meta, i);
      var c := meta[i..DigitRunEnd(meta, i + 12)];
      assert FirstCitationIs(meta, i, c);
      Some(c)
  }

  /** `c` is the text of `meta` from index `i`, no citation starts before `i`, and the digits
      of `c` are not followed by a further digit. */
  ghost predicate FirstCitationIs(meta: string, i: nat, c: string)
  {
    && i + |c| <= |meta|
    && meta[i..i + |c|] == c
    && (forall j :: 0 <= j < i ==> !CitationAt(meta, j))
    && (i + |c| == |meta| || !IsDigit(meta[i + |c|]))
  }

  const UnknownPrefix: string := "UNKNOWN_CITATION_"

  /** The citation of a case listed under `year`: the first citation in its metadata text,
      or the placeholder `UNKNOWN_CITATION_<year>` when there is none. */
  function CaseCitation(meta: string, year: nat): (c: string)
    ensures SearchCitation(meta).Some? ==> c == SearchCitation(meta).value && IsCitation(c)
    ensures SearchCitation(meta).None? ==> c == UnknownPrefix + DecimalString(year)
  {
    match SearchCitation(meta)
    case Some(found) => found
    case None => UnknownPrefix + DecimalString(year)
  }

  /** `citation.replace('[', '').replace(']', '').replace(' ', '_')`. */
  function DocId(citation: string): (id: string)
    ensures '[' !in id && ']' !in id && ' ' !in id
  {
    ReplaceAll(RemoveAll(RemoveAll(citation, '['), ']'), ' ', '_')
  }

  /** What one character of a citation becomes in its `doc_id`. */
  function DocIdChar(c: char): string
  {
    if c == '[' || c == ']' then [] else if c == ' ' then "_" else [c]
  }

  /** The `doc_id` built in a single pass, one character at a time. */
  function DocIdCharwise(citation: string): string
  {
    if citation == [] then [] else DocIdChar(citation[0]) + DocIdCharwise(citation[1..])
  }

  /** The three chained replacements act on each character independently: the `doc_id` is
      the citation with every bracket dropped and every space turned into `_`. */
  lemma {:induction false} DocIdIsCharwise(citation: string)
    ensures DocId(citation) == DocIdCharwise(citation)
  {
    if citation != [] {
      var c, rest := citation[0], citation[1..];
      assert citation == [c] + rest;
      RemoveAllAppend([c], rest, '[');
      RemoveAllAppend(RemoveAll([c], '['), RemoveAll(rest, '['), ']');
      var inner := RemoveAll(RemoveAll(rest, '['), ']');
      var head := RemoveAll(RemoveAll([c], '['), ']');
      assert RemoveAll(RemoveAll(citation, '['), ']') == head + inner;
      ReplaceAppend(head, inner);
      DocIdIsCharwise(rest);
    }
  }

  lemma ReplaceAppend(s: string, t: string)
    ensures ReplaceAll(s + t, ' ', '_') == ReplaceAll(s, ' ', '_') + ReplaceAll(t, ' ', '_')
  {
    var l, r := ReplaceAll(s + t, ' ', '_'), ReplaceAll(s, ' ', '_') + ReplaceAll(t, ' ', '_');
    assert |l| == |r|;
    forall k | 0 <= k < |l| ensures l[k] == r[k] {
      if k < |s| { assert (s + t)[k] == s[k]; } else { assert (s + t)[k] == t[k - |s|]; }
    }
  }

  lemma {:induction false} CharwiseAppend(s: string, t: string)
    ensures DocIdCharwise(s + t) == DocIdCharwise(s) + DocIdCharwise(t)
  {
    if s == [] {
      assert s + t == t;
    } else {
      assert (s + t)[1..] == s[1..] + t;
      CharwiseAppend(s[1..], t);
    }
  }

  lemma {:induction false} CharwiseClean(s: string)
    requires '[' !in s && ']' !in s && ' ' !in s
    ensures DocIdCharwise(s) == s
  {
    if s != [] {
      CharwiseClean(s[1..]);
    }
  }

  /** `[YYYY] ` becomes `YYYY_`. */
  lemma CharwiseYear(h: string)
    requires |h| == 7 && h[0] == '[' && AllDigits(h[1..5]) && h[5] == ']' && h[6] == ' '
    ensures DocIdCharwise(h) == h[1..5] + "_"
  {
    var year := h[1..5];
    assert h == [h[0]] + year + [h[5], h[6]];
    CharwiseAppend([h[0]] + year, [h[5], h[6]]);
    CharwiseAppend([h[0]], year);
    CharwiseClean(year);
    assert [h[5], h[6]][1..] == [h[6]];
    assert DocIdCharwise([h[5], h[6]]) == DocIdChar(h[5]) + DocIdCharwise([h[6]]);
  }

  /** `NZSC ` becomes `NZSC_`. */
  lemma CharwiseCourt(h: string)
    requires h == "NZSC "
    ensures DocIdCharwise(h) == "NZSC_"
  {
    assert h == "NZSC" + " ";
    CharwiseAppend("NZSC", " ");
    CharwiseClean("NZSC");
  }

  /** The single-pass form of the citation rule: the pieces of `[YYYY] NZSC N` map one by one. */
  lemma CharwiseCitation(c: string)
    requires IsCitation(c)
    ensures DocIdCharwise(c) == c[1..5] + "_NZSC_" + c[12..]
  {
    var head, court, docket := c[..7], c[7..12], c[12..];
    assert c == head + court + docket;
    assert head[1..5] == c[1..5];
    CharwiseYear(head);
    assert court == "NZSC ";
    CharwiseCourt(court);
    CharwiseAppend(head, court);
    CharwiseAppend(head + court, docket);
    CharwiseClean(docket);
    assert c[1..5] + "_" + "NZSC_" == c[1..5] + "_NZSC_";
  }

  /** A citation `[YYYY] NZSC N` gets the `doc_id` `YYYY_NZSC_N`. */
  lemma CitationDocId(c: string)
    requires IsCitation(c)
    ensures DocId(c) == c[1..5] + "_NZSC_" + c[12..]
  {
    DocIdIsCharwise(c);
    CharwiseCitation(c);
  }

  /** The placeholder citation has no bracket or space, so it is its own `doc_id`. */
  lemma UnknownCitationDocId(year: nat)
    ensures DocId(UnknownPrefix + DecimalString(year)) == UnknownPrefix + DecimalString(year)
  {
    var c := UnknownPrefix + DecimalString(year);
    assert forall k :: 0 <= k < |c| ==> c[k] != '[' && c[k] != ']' && c[k] != ' ' by {
      forall k | 0 <= k < |c| ensures c[k] != '[' && c[k] != ']' && c[k] != ' ' {
        if k >= |UnknownPrefix| { assert IsDigit(DecimalString(year)[k - |UnknownPrefix|]); }
      }
    }
    DocIdIsCharwise(c);
    CharwiseClean(c);
  }

  /** Every case citation gets one of the two `doc_id` shapes. */
  lemma CaseDocId(meta: string, year: nat)
    ensures var c := CaseCitation(meta, year);
            (IsCitation(c) && DocId(c) == c[1..5] + "_NZSC_" + c[12..])
            || (c == UnknownPrefix + DecimalString(year) && DocId(c) == c)
  {
    var c := CaseCitation(meta, year);
    if IsCitation(c) { CitationDocId(c); } else { UnknownCitationDocId(year); }
  }
}
