/**
 * Case-insensitive search for fixed phrases in a text: the building blocks of
 * the two section patterns, which match their literals under `re.IGNORECASE`.
 * Phrases are written in lower case; letters of the text are lowered before
 * comparing, so the text itself is never changed.
 */
module PhraseSearch {
  import opened Wrappers

  predicate IsUpper(c: char) { 'A' <= c <= 'Z' }

  predicate IsLower(c: char) { 'a' <= c <= 'z' }

  /** ASCII lower-casing: letters go to lower case, every other character is left alone. */
  function Lower(c: char): (r: char)
    ensures !IsUpper(c) ==> r == c
    ensures IsUpper(c) ==> IsLower(r) && r as int - c as int == 32
  {
    if IsUpper(c) then (c as int + 32) as char else c
  }

  /** `phrase` begins at position `i` of `text`, letters compared without regard to case. */
  predicate PhraseAt(text: string, i: nat, phrase: string)
  {
    i + |phrase| <= |text| && forall j :: 0 <= j < |phrase| ==> Lower(text[i + j]) == phrase[j]
  }

  /** Some alternative of `phrases` begins at position `i` of `text`. */
  predicate AnyAt(text: string, i: nat, phrases: seq<string>)
  {
    exists k :: 0 <= k < |phrases| && PhraseAt(text, i, phrases[k])
  }

  /** `q` is the earliest position at or after `s` where an alternative of `phrases` begins. */
  predicate EarliestAt(text: string, phrases: seq<string>, s: nat, q: nat)
  {
    s <= q && AnyAt(text, q, phrases) && forall j :: s <= j < q ==> !AnyAt(text, j, phrases)
  }

  /** No alternative of `phrases` begins at or after position `s`. */
  ghost predicate NoneFrom(text: string, phrases: seq<string>, s: nat)
  {
    forall j: nat :: s <= j ==> !AnyAt(text, j, phrases)
  }

  /**
   * The leftmost position at or after `i` where an alternative of `phrases`
   * begins: how a lazy `[\s\S]*?` followed by an alternation grows its body
   * one character at a time until the alternation matches.
   */
  function EarliestFrom(text: string, i: nat, phrases: seq<string>): (r: Option<nat>)
    decreases |text| + 1 - i
    ensures r.Some? ==> EarliestAt(text, phrases, i, r.value) && r.value <= |text|
    ensures r.None? ==> NoneFrom(text, phrases, i)
  {
    if i > |text| then None
    else if AnyAt(text, i, phrases) then Some(i)
    else EarliestFrom(text, i + 1, phrases)
  }

  /** The earliest position is unique, so `EarliestFrom` finds exactly it. */
  lemma EarliestUnique(text: string, phrases: seq<string>, s: nat, q: nat)
    requires EarliestAt(text, phrases, s, q)
    ensures EarliestFrom(text, s, phrases) == Some(q)
  {
  }

  /** Every alternative is non-empty and begins with a lower-case letter. */
  predicate LetterInitial(phrases: seq<string>)
  {
    forall k :: 0 <= k < |phrases| ==> |phrases[k]| > 0 && IsLower(phrases[k][0])
  }

  /** A character that is not a letter (such as `:` or a newline) cannot begin such an alternative. */
  lemma NoPhraseAtNonLetter(text: string, i: nat, phrases: seq<string>)
    requires LetterInitial(phrases)
    requires i < |text| && !IsUpper(text[i]) && !IsLower(text[i])
    ensures !AnyAt(text, i, phrases)
  {
  }

  /** After a position where no alternative begins, the earliest one is found from the next position. */
  lemma EarliestFromSkip(text: string, i: nat, phrases: seq<string>)
    requires !AnyAt(text, i, phrases)
    ensures EarliestFrom(text, i, phrases) == EarliestFrom(text, i + 1, phrases)
  {
    if i > |text| {
      assert EarliestFrom(text, i + 1, phrases).None?;
    }
  }

  /** A captured group, as the positions `text[start..end]` it spans. */
  datatype Span = Span(start: nat, end: nat)

  /**
   * The slice a lazy body followed by an alternation of `terminators`
   * captures: it lies inside the text, it ends where a terminator begins,
   * and no terminator begins at any position inside it.
   */
  predicate LazySlice(text: string, terminators: seq<string>, sp: Span)
  {
    sp.end <= |text| && EarliestAt(text, terminators, sp.start, sp.end)
  }

  /** `([\s\S]*?)(t1|t2|...)` tried from position `s`: the body, or None when no terminator follows. */
  function LazyBody(text: string, s: nat, terminators: seq<string>): (r: Option<Span>)
    ensures r.Some? ==> r.value.start == s && LazySlice(text, terminators, r.value)
    ensures r.None? ==> NoneFrom(text, terminators, s)
  {
    match EarliestFrom(text, s, terminators)
    case Some(q) => Some(Span(s, q))
    case None => None
  }

  /** The text of a captured group; a failed match gives an absent cell. */
  function Capture(text: string, m: Option<Span>): Option<string>
    requires m.Some? ==> m.value.start <= m.value.end <= |text|
  {
    match m
    case Some(sp) => Some(text[sp.start..sp.end])
    case None => None
  }

  /** Two texts that differ only in the case of ASCII letters. */
  predicate SameUpToCase(a: string, b: string)
  {
    |a| == |b| && forall i :: 0 <= i < |a| ==> Lower(a[i]) == Lower(b[i])
  }

  /** Lowering maps nothing else onto a non-letter, so such a character is seen in both texts or in neither. */
  lemma SameNonLetter(a: string, b: string, i: nat, c: char)
    requires SameUpToCase(a, b) && i < |a|
    requires !IsUpper(c) && !IsLower(c)
    ensures a[i] == c <==> b[i] == c
  {
  }

  lemma PhraseAtUpToCase(a: string, b: string, i: nat, phrase: string)
    requires SameUpToCase(a, b)
    ensures PhraseAt(a, i, phrase) <==> PhraseAt(b, i, phrase)
  {
  }

  lemma AnyAtUpToCase(a: string, b: string, i: nat, phrases: seq<string>)
    requires SameUpToCase(a, b)
    ensures AnyAt(a, i, phrases) <==> AnyAt(b, i, phrases)
  {
  }

  /** The earliest phrase position does not depend on the case of the text's letters. */
  lemma {:induction false} EarliestFromUpToCase(a: string, b: string, i: nat, phrases: seq<string>)
    requires SameUpToCase(a, b)
    decreases |a| + 1 - i
    ensures EarliestFrom(a, i, phrases) == EarliestFrom(b, i, phrases)
  {
    if i <= |a| {
      AnyAtUpToCase(a, b, i, phrases);
      if !AnyAt(a, i, phrases) {
        EarliestFromUpToCase(a, b, i + 1, phrases);
      }
    }
  }

  lemma LazyBodyUpToCase(a: string, b: string, s: nat, terminators: seq<string>)
    requires SameUpToCase(a, b)
    ensures LazyBody(a, s, terminators) == LazyBody(b, s, terminators)
  {
    EarliestFromUpToCase(a, b, s, terminators);
  }
}
