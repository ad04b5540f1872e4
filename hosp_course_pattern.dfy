/**
 * The hospital-course pattern of `DCSummaryParser.parse_docs`:
 *   hospital course(.{0,50}:)?([\s\S]*?)(terminators)
 * searched case-insensitively, the result being the second group (the body).
 * The optional header group is greedy: `.{0,50}` first takes as many
 * characters as it can (stopping at a newline), then gives them back one at
 * a time looking for a colon after which a terminator follows; only when
 * every such header has failed is the group skipped.
 */
module HospCoursePattern {
  import opened Wrappers
  import opened PhraseSearch

  /** The start phrase, as an alternation of one. */
  const Starts: seq<string> := ["hospital course"]

  /** The alternatives of the terminator group; `NamePattern` is lowered like every other literal. */
  const Terminators: seq<string> :=
    ["condition at discharge", "discharge diagnoses", "discharge diagnosis", "discharge medications",
     "medications on discharge", "addendum", "namepattern", "past medical history:", "allergies:",
     "medications on admission:"]

  /** The most characters `.{0,50}` may take. */
  const HeaderMax: nat := 50

  /**
   * How many characters a greedy `.` repeated at most `cap` times takes from
   * `e`: it stops before a newline, at the end of the text, or after `cap`.
   */
  function HeaderRun(text: string, e: nat, cap: nat): (m: nat)
    requires e <= |text|
    decreases cap
    ensures m <= cap && e + m <= |text|
    ensures forall j :: e <= j < e + m ==> text[j] != '\n'
    ensures m < cap && e + m < |text| ==> text[e + m] == '\n'
  {
    if cap == 0 || e == |text| || text[e] == '\n' then 0
    else 1 + HeaderRun(text, e + 1, cap - 1)
  }

  /**
   * Backtracking over the header: `.{0,50}` holds `k` characters; try the
   * colon and the body after it, else give back one character; after the
   * empty header, skip the group and take the body from `e`.
   */
  function HeaderFrom(text: string, e: nat, k: nat, terminators: seq<string>): (r: Option<Span>)
    requires e + k <= |text|
    decreases k
    ensures r.Some? ==> e <= r.value.start && LazySlice(text, terminators, r.value)
  {
    var withHeader := if ColonAfter(text, e, k) then LazyBody(text, e + k + 1, terminators) else None;
    if withHeader.Some? then withHeader
    else if k == 0 then LazyBody(text, e, terminators)
    else HeaderFrom(text, e, k - 1, terminators)
  }

  /** The match attempt at position `p`. */
  function MatchAt(text: string, p: nat): (r: Option<Span>)
    ensures r.Some? ==> PhraseAt(text, p, Starts[0]) && p + |Starts[0]| <= r.value.start
    ensures r.Some? ==> LazySlice(text, Terminators, r.value)
  {
    if PhraseAt(text, p, Starts[0]) then
      var e := p + |Starts[0]|;
      HeaderFrom(text, e, HeaderRun(text, e, HeaderMax), Terminators)
    else None
  }

  /** `re.search`: attempt a match at `p`, `p + 1`, ... up to the end of the text; the first success wins. */
  function Search(text: string, p: nat): (r: Option<Span>)
    decreases |text| + 1 - p
    ensures r.Some? ==> LazySlice(text, Terminators, r.value)
  {
    if p > |text| then None
    else
      var m := MatchAt(text, p);
      if m.Some? then m else Search(text, p + 1)
  }

  /** The hospital-course cell: group 2 of the first match in `text`, or absent. */
  function Extract(text: string): Option<string>
  {
    Capture(text, Search(text, 0))
  }

  /** The character `k` places after `e` is a colon. */
  predicate ColonAfter(text: string, e: nat, k: nat)
  {
    e + k < |text| && text[e + k] == ':'
  }

  /** Every header of at most `k` characters with a colon, longer than the one before `s`, has no terminator after it. */
  ghost predicate LongerHeadersFail(text: string, e: nat, s: nat, k: nat, terminators: seq<string>)
  {
    forall k': nat :: k' <= k && s < e + k' + 1 && ColonAfter(text, e, k') ==> NoneFrom(text, terminators, e + k' + 1)
  }

  /** A header of `k` characters and a colon fits after position `e`: at most 50 characters, none a newline. */
  ghost predicate ValidHeader(text: string, e: nat, k: nat)
  {
    k <= HeaderMax && ColonAfter(text, e, k) && forall j :: e <= j < e + k ==> text[j] != '\n'
  }

  /**
   * The body starting at `s` is the one the header rule picks after the phrase
   * ending at `e`: `s` is `e` (no header) or follows a valid header, and every
   * longer valid header has no terminator after it.
   */
  ghost predicate HeaderChosen(text: string, e: nat, s: nat)
  {
    (s == e || (e < s && ValidHeader(text, e, s - e - 1))) &&
    forall k :: ValidHeader(text, e, k) && s < e + k + 1 ==> NoneFrom(text, Terminators, e + k + 1)
  }

  /** The hospital-course section as the first occurrence of the phrase determines it. */
  ghost function Reference(text: string): Option<Span>
  {
    match EarliestFrom(text, 0, Starts)
    case None => None
    case Some(p) => MatchAt(text, p)
  }

  /** What backtracking over the header from `k` characters down achieves. */
  lemma {:induction false} HeaderFromSpec(text: string, e: nat, k: nat, terminators: seq<string>)
    requires e + k <= |text|
    decreases k
    ensures match HeaderFrom(text, e, k, terminators)
      case Some(sp) =>
        (sp.start == e || (e < sp.start && sp.start - e - 1 <= k && ColonAfter(text, e, sp.start - e - 1))) &&
        LongerHeadersFail(text, e, sp.start, k, terminators)
      case None => NoneFrom(text, terminators, e)
  {
    var withHeader := if ColonAfter(text, e, k) then LazyBody(text, e + k + 1, terminators) else None;
    var r := HeaderFrom(text, e, k, terminators);
    if withHeader.Some? {
      assert r == withHeader;
    } else {
      assert ColonAfter(text, e, k) ==> NoneFrom(text, terminators, e + k + 1);
      if k == 0 {
        assert r == LazyBody(text, e, terminators);
      } else {
        assert r == HeaderFrom(text, e, k - 1, terminators);
        HeaderFromSpec(text, e, k - 1, terminators);
      }
    }
  }

  /** Every valid header lies within what the greedy run takes first. */
  lemma ValidHeaderWithinRun(text: string, e: nat, k: nat)
    requires e <= |text| && ValidHeader(text, e, k)
    ensures k <= HeaderRun(text, e, HeaderMax)
  {
  }

  /**
   * One match attempt at a phrase ending at `e`: it succeeds exactly when a
   * terminator begins at or after `e`, and then the body starts where the
   * header rule says.
   */
  lemma MatchAtExact(text: string, p: nat)
    requires PhraseAt(text, p, Starts[0])
    ensures var e := p + |Starts[0]|;
      match MatchAt(text, p)
      case Some(sp) => HeaderChosen(text, e, sp.start)
      case None => NoneFrom(text, Terminators, e)
  {
    var e := p + |Starts[0]|;
    var m := HeaderRun(text, e, HeaderMax);
    HeaderFromSpec(text, e, m, Terminators);
    forall k | ValidHeader(text, e, k)
      ensures k <= m
    {
      ValidHeaderWithinRun(text, e, k);
    }
  }

  /** Positions before the first phrase fail at once. */
  lemma {:induction false} SearchSkips(text: string, p: nat, p0: nat)
    requires p <= p0 <= |text|
    requires forall j :: p <= j < p0 ==> !AnyAt(text, j, Starts)
    decreases p0 - p
    ensures Search(text, p) == Search(text, p0)
  {
    if p < p0 {
      assert !PhraseAt(text, p, Starts[0]) by {
        assert !AnyAt(text, p, Starts);
      }
      SearchSkips(text, p + 1, p0);
    }
  }

  /** No later phrase can match once no terminator begins from `e0` on. */
  lemma {:induction false} SearchNone(text: string, p: nat, e0: nat)
    requires NoneFrom(text, Terminators, e0)
    requires forall j :: p <= j && AnyAt(text, j, Starts) ==> e0 <= j + |Starts[0]|
    decreases |text| + 1 - p
    ensures Search(text, p) == None
  {
    if p <= |text| {
      if PhraseAt(text, p, Starts[0]) {
        assert AnyAt(text, p, Starts);
      }
      SearchNone(text, p + 1, e0);
    }
  }

  /** Leftmost-match semantics: the search finds exactly the match at the first occurrence of the phrase. */
  lemma Leftmost(text: string)
    ensures Search(text, 0) == Reference(text)
  {
    match EarliestFrom(text, 0, Starts)
    case None =>
      SearchNone(text, 0, |text| + 1);
    case Some(p0) =>
      SearchSkips(text, 0, p0);
      if MatchAt(text, p0).None? {
        MatchAtExact(text, p0);
        SearchNone(text, p0 + 1, p0 + |Starts[0]|);
      }
  }

  /** The cell is present exactly when the phrase occurs and a terminator begins at or after the end of its first occurrence. */
  lemma Presence(text: string)
    ensures Extract(text).Some? <==>
      exists p: nat :: EarliestAt(text, Starts, 0, p) && !NoneFrom(text, Terminators, p + |Starts[0]|)
  {
    Leftmost(text);
    var first := EarliestFrom(text, 0, Starts);
    if first.Some? {
      var p := first.value;
      assert EarliestAt(text, Starts, 0, p);
      assert PhraseAt(text, p, Starts[0]);
      MatchAtExact(text, p);
      forall p': nat | EarliestAt(text, Starts, 0, p')
        ensures p' == p
      {
      }
    }
  }

  /** A text without the phrase has no hospital-course cell. */
  lemma AbsentWithoutStart(text: string)
    requires forall j: nat :: !AnyAt(text, j, Starts)
    ensures Extract(text) == None
  {
    Leftmost(text);
  }

  /**
   * The header rule: after the first occurrence of the phrase, the body
   * starts after the longest valid header that leaves a terminator after it,
   * or directly after the phrase when no header does.
   */
  lemma HeaderLongestFirst(text: string, p: nat)
    requires EarliestAt(text, Starts, 0, p)
    ensures Search(text, 0).Some? ==> HeaderChosen(text, p + |Starts[0]|, Search(text, 0).value.start)
  {
    Leftmost(text);
    assert PhraseAt(text, p, Starts[0]);
    MatchAtExact(text, p);
  }

  /** At most one body start obeys the header rule and leaves a terminator after it. */
  lemma HeaderChosenUnique(text: string, e: nat, s1: nat, s2: nat)
    requires HeaderChosen(text, e, s1) && HeaderChosen(text, e, s2)
    requires !NoneFrom(text, Terminators, s1) && !NoneFrom(text, Terminators, s2)
    ensures s1 == s2
  {
  }

  /**
   * The hospital-course match without any backtracking: after the first
   * occurrence of the phrase, the match is the span `sp` exactly when its
   * start obeys the header rule and it is a lazy slice up to the earliest
   * terminator from that start.
   */
  lemma Declarative(text: string, p: nat, sp: Span)
    requires EarliestAt(text, Starts, 0, p)
    ensures Search(text, 0) == Some(sp) <==>
      HeaderChosen(text, p + |Starts[0]|, sp.start) && LazySlice(text, Terminators, sp)
  {
    var e := p + |Starts[0]|;
    HeaderLongestFirst(text, p);
    if HeaderChosen(text, e, sp.start) && LazySlice(text, Terminators, sp) {
      Leftmost(text);
      EarliestUnique(text, Starts, 0, p);
      assert PhraseAt(text, p, Starts[0]);
      MatchAtExact(text, p);
      assert !NoneFrom(text, Terminators, e) by {
        assert AnyAt(text, sp.end, Terminators);
      }
      var found := Search(text, 0).value;
      assert !NoneFrom(text, Terminators, sp.start) by {
        assert AnyAt(text, sp.end, Terminators);
      }
      assert !NoneFrom(text, Terminators, found.start) by {
        assert AnyAt(text, found.end, Terminators);
      }
      HeaderChosenUnique(text, e, sp.start, found.start);
      EarliestUnique(text, Terminators, sp.start, sp.end);
      EarliestUnique(text, Terminators, found.start, found.end);
    }
  }

  lemma {:induction false} HeaderRunUpToCase(a: string, b: string, e: nat, cap: nat)
    requires SameUpToCase(a, b) && e <= |a|
    decreases cap
    ensures HeaderRun(a, e, cap) == HeaderRun(b, e, cap)
  {
    if cap > 0 && e < |a| {
      SameNonLetter(a, b, e, '\n');
      if a[e] != '\n' {
        HeaderRunUpToCase(a, b, e + 1, cap - 1);
      }
    }
  }

  lemma ColonAfterUpToCase(a: string, b: string, e: nat, k: nat)
    requires SameUpToCase(a, b)
    ensures ColonAfter(a, e, k) == ColonAfter(b, e, k)
  {
    if e + k < |a| {
      SameNonLetter(a, b, e + k, ':');
    }
  }

  /** `HeaderFrom` depends on the text only through its colons and its lazy bodies. */
  lemma HeaderFromCongruent(a: string, b: string, e: nat, k: nat, terminators: seq<string>)
    requires |a| == |b| && e + k <= |a|
    requires ColonAfter(a, e, k) == ColonAfter(b, e, k)
    requires LazyBody(a, e + k + 1, terminators) == LazyBody(b, e + k + 1, terminators)
    requires LazyBody(a, e, terminators) == LazyBody(b, e, terminators)
    requires k > 0 ==> HeaderFrom(a, e, k - 1, terminators) == HeaderFrom(b, e, k - 1, terminators)
    ensures HeaderFrom(a, e, k, terminators) == HeaderFrom(b, e, k, terminators)
  {
  }

  lemma {:induction false} HeaderFromUpToCase(a: string, b: string, e: nat, k: nat, terminators: seq<string>)
    requires SameUpToCase(a, b) && e + k <= |a|
    decreases k
    ensures HeaderFrom(a, e, k, terminators) == HeaderFrom(b, e, k, terminators)
  {
    ColonAfterUpToCase(a, b, e, k);
    LazyBodyUpToCase(a, b, e + k + 1, terminators);
    LazyBodyUpToCase(a, b, e, terminators);
    if k > 0 {
      HeaderFromUpToCase(a, b, e, k - 1, terminators);
    }
    HeaderFromCongruent(a, b, e, k, terminators);
  }

  /** `re.IGNORECASE`: changing the case of letters changes neither whether the pattern matches nor where the body lies. */
  lemma CaseInsensitive(a: string, b: string)
    requires SameUpToCase(a, b)
    ensures Search(a, 0) == Search(b, 0)
    ensures Extract(a).Some? <==> Extract(b).Some?
  {
    Leftmost(a);
    Leftmost(b);
    EarliestFromUpToCase(a, b, 0, Starts);
    match EarliestFrom(a, 0, Starts)
    case None =>
    case Some(p) =>
      PhraseAtUpToCase(a, b, p, Starts[0]);
      if PhraseAt(a, p, Starts[0]) {
        var e := p + |Starts[0]|;
        HeaderRunUpToCase(a, b, e, HeaderMax);
        HeaderFromUpToCase(a, b, e, HeaderRun(a, e, HeaderMax), Terminators);
      }
  }
}
