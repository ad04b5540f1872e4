/**
 * The history-of-present-illness pattern of `DCSummaryParser.parse_docs`:
 *   ((history of present illness|history of the present illness):?([\s\S]*?)(terminators))
 * searched case-insensitively, the result being the third group (the body).
 * `MatchAt` and `Search` follow the regular-expression engine's backtracking
 * order; `Reference` states the same result through the first occurrence of
 * a start phrase, and `Leftmost` proves the two agree.
 */
module HpiPattern {
  import opened Wrappers
  import opened PhraseSearch

  /** The alternatives of the start group, in the order the engine tries them. */
  const Starts: seq<string> := ["history of present illness", "history of the present illness"]

  /** The alternatives of the terminator group. */
  const Terminators: seq<string> :=
    ["past medical history:", "physical exam:", "physical examination:", "exam:", "hospital course:", "social history:"]

  lemma TerminatorsLetterInitial()
    ensures LetterInitial(Terminators)
  {
  }

  /** The two start phrases never begin at the same position (they part at their twelfth letter). */
  lemma StartsExclusive(text: string, p: nat)
    ensures !(PhraseAt(text, p, Starts[0]) && PhraseAt(text, p, Starts[1]))
  {
    if PhraseAt(text, p, Starts[0]) {
      assert Lower(text[p + 11]) == Starts[0][11] == 'p';
      assert Starts[1][11] == 't';
    }
  }

  /** A start phrase cannot begin one to three characters into another: those characters are `ist`, not `h`. */
  lemma NoStartInsideStart(text: string, p0: nat, p1: nat)
    requires AnyAt(text, p0, Starts) && p0 < p1 < p0 + 4
    ensures !AnyAt(text, p1, Starts)
  {
    var d := p1 - p0;
    assert Starts[0][d] == Starts[1][d] != 'h' by {
      assert Starts[0][..4] == Starts[1][..4] == "hist";
    }
    if PhraseAt(text, p0, Starts[0]) {
      assert Lower(text[p0 + d]) == Starts[0][d];
    } else {
      assert Lower(text[p0 + d]) == Starts[1][d];
    }
    assert Starts[0][0] == Starts[1][0] == 'h';
  }

  /** What follows the start phrase ending at `c`: `:?` takes a colon first and gives it back only if the rest fails. */
  function AfterStart(text: string, c: nat): Option<Span>
  {
    var withColon := if c < |text| && text[c] == ':' then LazyBody(text, c + 1, Terminators) else None;
    if withColon.Some? then withColon else LazyBody(text, c, Terminators)
  }

  /** The match attempt at position `p`: each start alternative in turn, then the rest of the pattern. */
  function MatchAt(text: string, p: nat): (r: Option<Span>)
    ensures r.Some? ==> AnyAt(text, p, Starts) && LazySlice(text, Terminators, r.value)
  {
    var first := if PhraseAt(text, p, Starts[0]) then AfterStart(text, p + |Starts[0]|) else None;
    if first.Some? then first
    else if PhraseAt(text, p, Starts[1]) then AfterStart(text, p + |Starts[1]|)
    else None
  }

  /** `re.search`: attempt a match at `p`, `p + 1`, ... up to the end of the text; the first success wins. */
  function Search(text: string, p: nat): (r: Option<Span>)
    decreases |text| + 1 - p
    ensures r.Some? ==> LazySlice(text, Terminators, r.value)
  {
    if p > |text| then None
    else
      var m := MatchAt(text, p);
      if m.Some? then m else Search(text, p + 1)
  }

  /** The HPI cell: group 3 of the first match in `text`, or absent. */
  function Extract(text: string): Option<string>
  {
    Capture(text, Search(text, 0))
  }

  /** Where the start phrase beginning at `p` ends. */
  function StartEnd(text: string, p: nat): nat
  {
    if PhraseAt(text, p, Starts[0]) then p + |Starts[0]| else p + |Starts[1]|
  }

  /** Where the body begins: after the start phrase and one colon directly after it, if there is one. */
  function BodyStart(text: string, p: nat): nat
  {
    var c := StartEnd(text, p);
    if c < |text| && text[c] == ':' then c + 1 else c
  }

  /**
   * The HPI section without backtracking: the body starts after the first
   * start phrase (and its colon) and ends at the earliest terminator
   * beginning at or after the end of that phrase.
   */
  ghost function Reference(text: string): Option<Span>
  {
    match EarliestFrom(text, 0, Starts)
    case None => None
    case Some(p) =>
      match EarliestFrom(text, StartEnd(text, p), Terminators)
      case None => None
      case Some(q) => Some(Span(BodyStart(text, p), q))
  }

  /** Giving the colon back never helps: no terminator begins with a colon. */
  lemma AfterStartExact(text: string, c: nat)
    ensures AfterStart(text, c) ==
      match EarliestFrom(text, c, Terminators)
      case None => None
      case Some(q) => Some(Span(if c < |text| && text[c] == ':' then c + 1 else c, q))
  {
    if c < |text| && text[c] == ':' {
      TerminatorsLetterInitial();
      NoPhraseAtNonLetter(text, c, Terminators);
      EarliestFromSkip(text, c, Terminators);
    }
  }

  /** One match attempt, without backtracking: it succeeds exactly at a start phrase with a terminator after it. */
  lemma MatchAtExact(text: string, p: nat)
    ensures MatchAt(text, p) ==
      if !AnyAt(text, p, Starts) then None
      else match EarliestFrom(text, StartEnd(text, p), Terminators)
        case None => None
        case Some(q) => Some(Span(BodyStart(text, p), q))
  {
    StartsExclusive(text, p);
    AfterStartExact(text, StartEnd(text, p));
  }

  /** A later start phrase never ends before an earlier one. */
  lemma StartEndMonotone(text: string, p0: nat, p1: nat)
    requires p0 < p1 && AnyAt(text, p0, Starts) && AnyAt(text, p1, Starts)
    ensures StartEnd(text, p0) <= StartEnd(text, p1)
  {
    if p1 < p0 + 4 {
      NoStartInsideStart(text, p0, p1);
      assert false;
    }
  }

  /** Positions before the first start phrase fail at once. */
  lemma {:induction false} SearchSkips(text: string, p: nat, p0: nat)
    requires p <= p0 <= |text|
    requires forall j :: p <= j < p0 ==> !AnyAt(text, j, Starts)
    decreases p0 - p
    ensures Search(text, p) == Search(text, p0)
  {
    if p < p0 {
      MatchAtExact(text, p);
      SearchSkips(text, p + 1, p0);
    }
  }

  /** When every start phrase from `p` on ends at or after `c0` and no terminator begins from `c0` on, the search fails. */
  lemma {:induction false} SearchNone(text: string, p: nat, c0: nat)
    requires NoneFrom(text, Terminators, c0)
    requires forall j :: p <= j && AnyAt(text, j, Starts) ==> c0 <= StartEnd(text, j)
    decreases |text| + 1 - p
    ensures Search(text, p) == None
  {
    if p <= |text| {
      MatchAtExact(text, p);
      SearchNone(text, p + 1, c0);
    }
  }

  /** Leftmost-match semantics: the backtracking search finds exactly what the first start phrase determines. */
  lemma Leftmost(text: string)
    ensures Search(text, 0) == Reference(text)
  {
    match EarliestFrom(text, 0, Starts)
    case None =>
      SearchNone(text, 0, |text| + 1);
    case Some(p0) =>
      SearchSkips(text, 0, p0);
      MatchAtExact(text, p0);
      if EarliestFrom(text, StartEnd(text, p0), Terminators).None? {
        forall j | p0 + 1 <= j && AnyAt(text, j, Starts)
          ensures StartEnd(text, p0) <= StartEnd(text, j)
        {
          StartEndMonotone(text, p0, j);
        }
        SearchNone(text, p0 + 1, StartEnd(text, p0));
      }
  }

  /**
   * Presence and value: when the first start phrase begins at `p` and the
   * earliest terminator at or after its end begins at `q`, the HPI cell is
   * exactly the text between the phrase (and its colon) and `q`.
   */
  lemma Exact(text: string, p: nat, q: nat)
    requires EarliestAt(text, Starts, 0, p)
    requires EarliestAt(text, Terminators, StartEnd(text, p), q)
    ensures BodyStart(text, p) <= q <= |text|
    ensures Extract(text) == Some(text[BodyStart(text, p)..q])
  {
    Leftmost(text);
    EarliestUnique(text, Starts, 0, p);
    EarliestUnique(text, Terminators, StartEnd(text, p), q);
    assert Search(text, 0) == Some(Span(BodyStart(text, p), q));
  }

  /** A text without a start phrase has no HPI cell. */
  lemma AbsentWithoutStart(text: string)
    requires forall j: nat :: !AnyAt(text, j, Starts)
    ensures Extract(text) == None
  {
    Leftmost(text);
  }

  /** No HPI cell either when no terminator begins after the first start phrase. */
  lemma AbsentWithoutTerminator(text: string, p: nat)
    requires EarliestAt(text, Starts, 0, p)
    requires NoneFrom(text, Terminators, StartEnd(text, p))
    ensures Extract(text) == None
  {
    Leftmost(text);
    EarliestUnique(text, Starts, 0, p);
  }

  /** The HPI cell is present exactly when a start phrase occurs and a terminator begins after the end of the first one. */
  lemma Presence(text: string)
    ensures Extract(text).Some? <==>
      exists p: nat :: EarliestAt(text, Starts, 0, p) && !NoneFrom(text, Terminators, StartEnd(text, p))
  {
    Leftmost(text);
    var first := EarliestFrom(text, 0, Starts);
    if first.Some? {
      var p := first.value;
      assert EarliestAt(text, Starts, 0, p);
      forall p': nat | EarliestAt(text, Starts, 0, p')
        ensures p' == p
      {
      }
    }
  }

  /** `re.IGNORECASE`: changing the case of letters changes neither whether the pattern matches nor where the body lies. */
  lemma CaseInsensitive(a: string, b: string)
    requires SameUpToCase(a, b)
    ensures Search(a, 0) == Search(b, 0)
    ensures Extract(a).Some? <==> Extract(b).Some?
  {
    Leftmost(a);
    Leftmost(b);
    ReferenceUpToCase(a, b);
  }

  lemma BodyStartUpToCase(a: string, b: string, p: nat)
    requires SameUpToCase(a, b)
    ensures StartEnd(a, p) == StartEnd(b, p) && BodyStart(a, p) == BodyStart(b, p)
  {
    PhraseAtUpToCase(a, b, p, Starts[0]);
    var c := StartEnd(a, p);
    if c < |a| {
      SameNonLetter(a, b, c, ':');
    }
  }

  lemma ReferenceUpToCase(a: string, b: string)
    requires SameUpToCase(a, b)
    ensures Reference(a) == Reference(b)
  {
    EarliestFromUpToCase(a, b, 0, Starts);
    match EarliestFrom(a, 0, Starts)
    case None =>
    case Some(p) =>
      BodyStartUpToCase(a, b, p);
      EarliestFromUpToCase(a, b, StartEnd(a, p), Terminators);
  }

  /** A text too short to hold a start phrase has no HPI cell. */
  lemma ExampleWithoutSections()
    ensures Extract("no relevant sections here") == None
  {
    AbsentWithoutStart("no relevant sections here");
  }
}
