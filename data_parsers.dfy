/**
 * `DCSummaryParser` of data_parsers.py: `parse_docs` extracts the requested
 * section from each discharge summary, and `to_csv` attaches the result as a
 * new column and keeps the rows where it is present.
 */
module DataParsers {
  import opened Wrappers
  import HpiPattern
  import HospCoursePattern

  /** The `section` argument of `parse_docs` and `to_csv`: 'hpi', 'hosp_course' or 'both'. */
  datatype Section = Hpi | HospCourse | Both

  /** The section both methods extract when none is named. */
  const DefaultSection: Section := HospCourse

  /** The line placed between the HPI and the hospital course in 'both' mode. */
  const Separator: string := "\n======================\n"

  /**
   * `hpi + separator + hosp` on two cells: a missing operand (NaN) makes the
   * sum missing. A present result splits back into its two parts.
   */
  function Join(hpi: Option<string>, hosp: Option<string>): (r: Option<string>)
    ensures r.Some? <==> hpi.Some? && hosp.Some?
    ensures r.Some? ==>
      var h, c := hpi.value, hosp.value;
      |r.value| == |h| + |Separator| + |c| &&
      r.value[..|h|] == h &&
      r.value[|h|..|h| + |Separator|] == Separator &&
      r.value[|h| + |Separator|..] == c
  {
    if hpi.Some? && hosp.Some? then Some(hpi.value + Separator + hosp.value) else None
  }

  /** `parse_docs` for one document: the cell of the requested section. */
  function ParseDoc(text: string, section: Section): Option<string>
  {
    match section
    case Hpi => HpiPattern.Extract(text)
    case HospCourse => HospCoursePattern.Extract(text)
    case Both => Join(HpiPattern.Extract(text), HospCoursePattern.Extract(text))
  }

  /** 'both' mode: absent when either section is absent, otherwise HPI, separator, hospital course. */
  lemma BothMode(text: string)
    ensures var hpi, hosp := HpiPattern.Extract(text), HospCoursePattern.Extract(text);
      ParseDoc(text, Both) ==
        if hpi.None? || hosp.None? then None else Some(hpi.value + Separator + hosp.value)
  {
  }

  /** `parse_docs` over a column: one cell per document, in the same order. */
  function ParseDocs(docs: seq<string>, section: Section := DefaultSection): (r: seq<Option<string>>)
    ensures |r| == |docs|
    ensures forall i :: 0 <= i < |docs| ==> r[i] == ParseDoc(docs[i], section)
  {
    seq(|docs|, i requires 0 <= i < |docs| => ParseDoc(docs[i], section))
  }

  /** The number of absent cells: the "not matched" figure `parse_docs` reports. */
  function Unmatched(cells: seq<Option<string>>): (n: nat)
    ensures n <= |cells|
    ensures n == 0 <==> forall i :: 0 <= i < |cells| ==> cells[i].Some?
  {
    if cells == [] then 0
    else Unmatched(cells[..|cells| - 1]) + (if cells[|cells| - 1].None? then 1 else 0)
  }

  /** One row that survives the filter: the document, its code, and its parsed section. */
  datatype Row = Row(dcSummary: string, code: string, parsedHospCourse: string)

  /**
   * `df[df.parsed_hosp_course.isnull() == False]` over the frame's columns:
   * the rows whose parsed cell is present, in frame order. Exactly the
   * unmatched rows are dropped.
   */
  function Kept(summaries: seq<string>, codes: seq<string>, cells: seq<Option<string>>): (r: seq<Row>)
    requires |summaries| == |codes| == |cells|
    decreases |cells|
    ensures |r| + Unmatched(cells) == |cells|
  {
    if cells == [] then []
    else
      var n := |cells| - 1;
      var init := Kept(summaries[..n], codes[..n], cells[..n]);
      if cells[n].Some? then init + [Row(summaries[n], codes[n], cells[n].value)] else init
  }

  /** The positions of the present cells, in increasing order. */
  function KeptIndices(cells: seq<Option<string>>): (idx: seq<nat>)
    decreases |cells|
    ensures forall k :: 0 <= k < |idx| ==> idx[k] < |cells| && cells[idx[k]].Some?
    ensures forall k, l :: 0 <= k < l < |idx| ==> idx[k] < idx[l]
    ensures forall i :: 0 <= i < |cells| && cells[i].Some? ==> i in idx
  {
    if cells == [] then []
    else
      var n := |cells| - 1;
      var init := KeptIndices(cells[..n]);
      if cells[n].Some? then init + [n] else init
  }

  /** The `k`-th kept row is the row at the `k`-th present position, with its cell's value. */
  lemma {:induction false} KeptAtIndices(summaries: seq<string>, codes: seq<string>, cells: seq<Option<string>>)
    requires |summaries| == |codes| == |cells|
    decreases |cells|
    ensures |Kept(summaries, codes, cells)| == |KeptIndices(cells)|
    ensures var r, idx := Kept(summaries, codes, cells), KeptIndices(cells);
      forall k :: 0 <= k < |idx| ==> r[k] == Row(summaries[idx[k]], codes[idx[k]], cells[idx[k]].value)
  {
    if cells != [] {
      var n := |cells| - 1;
      var summaries', codes', cells' := summaries[..n], codes[..n], cells[..n];
      KeptAtIndices(summaries', codes', cells');
      var r, idx := Kept(summaries, codes, cells), KeptIndices(cells);
      var r', idx' := Kept(summaries', codes', cells'), KeptIndices(cells');
      assert r == if cells[n].Some? then r' + [Row(summaries[n], codes[n], cells[n].value)] else r';
      assert idx == if cells[n].Some? then idx' + [n] else idx';
      forall k | 0 <= k < |idx|
        ensures r[k] == Row(summaries[idx[k]], codes[idx[k]], cells[idx[k]].value)
      {
        if k < |idx'| {
          assert idx[k] == idx'[k] && r[k] == r'[k];
          assert summaries'[idx'[k]] == summaries[idx[k]];
          assert codes'[idx'[k]] == codes[idx[k]];
          assert cells'[idx'[k]] == cells[idx[k]];
        }
      }
    }
  }

  /**
   * What `to_csv` keeps: the rows whose section extraction is present, in
   * their original relative order, each carrying its own extracted value.
   */
  lemma RetainedRows(summaries: seq<string>, codes: seq<string>, section: Section)
    requires |summaries| == |codes|
    ensures var cells := ParseDocs(summaries, section);
      var r, idx := Kept(summaries, codes, cells), KeptIndices(cells);
      |r| == |idx| == |summaries| - Unmatched(cells) &&
      (forall k :: 0 <= k < |idx| ==>
        idx[k] < |summaries| &&
        ParseDoc(summaries[idx[k]], section).Some? &&
        r[k] == Row(summaries[idx[k]], codes[idx[k]], ParseDoc(summaries[idx[k]], section).value)) &&
      (forall k, l :: 0 <= k < l < |idx| ==> idx[k] < idx[l]) &&
      (forall i :: 0 <= i < |summaries| ==> (ParseDoc(summaries[i], section).Some? <==> i in idx))
  {
    var cells := ParseDocs(summaries, section);
    KeptAtIndices(summaries, codes, cells);
  }

  /** The filter of line 40 as a loop that builds the kept rows one frame row at a time. */
  method FilterParsed(summaries: seq<string>, codes: seq<string>, cells: seq<Option<string>>) returns (kept: seq<Row>)
    requires |summaries| == |codes| == |cells|
    ensures kept == Kept(summaries, codes, cells)
  {
    kept := [];
    var i := 0;
    while i < |cells|
      invariant 0 <= i <= |cells|
      invariant kept == Kept(summaries[..i], codes[..i], cells[..i])
    {
      assert summaries[..i + 1][..i] == summaries[..i];
      assert codes[..i + 1][..i] == codes[..i];
      assert cells[..i + 1][..i] == cells[..i];
      if cells[i].Some? {
        kept := kept + [Row(summaries[i], codes[i], cells[i].value)];
      }
      i := i + 1;
    }
    assert summaries[..i] == summaries && codes[..i] == codes && cells[..i] == cells;
  }

  /**
   * The dataframe `to_csv` works on: its `dc_summary` and `code` columns and
   * the `parsed_hosp_course` column it adds (None while the column is absent).
   */
  class Frame {
    var dcSummary: seq<string>
    var code: seq<string>
    var parsedHospCourse: Option<seq<Option<string>>>

    ghost predicate Valid()
      reads this
    {
      |code| == |dcSummary| &&
      (parsedHospCourse.Some? ==> |parsedHospCourse.value| == |dcSummary|)
    }

    constructor (dcSummary: seq<string>, code: seq<string>)
      requires |dcSummary| == |code|
      ensures Valid()
      ensures this.dcSummary == dcSummary && this.code == code && parsedHospCourse == None
    {
      this.dcSummary := dcSummary;
      this.code := code;
      parsedHospCourse := None;
    }

    /** `df['parsed_hosp_course'] = parse_docs(df.dc_summary, section)`: the frame gains the column in place. */
    method AssignParsed(section: Section)
      requires Valid()
      modifies this
      ensures Valid()
      ensures dcSummary == old(dcSummary) && code == old(code)
      ensures parsedHospCourse == Some(ParseDocs(dcSummary, section))
    {
      parsedHospCourse := Some(ParseDocs(dcSummary, section));
    }
  }

  /**
   * Lines 39-40 of `to_csv`: the caller's frame gains the parsed column, and
   * the rows whose cell is present are kept for writing.
   */
  method ToCsv(df: Frame, section: Section := DefaultSection) returns (kept: seq<Row>)
    requires df.Valid()
    modifies df
    ensures df.Valid()
    ensures df.dcSummary == old(df.dcSummary) && df.code == old(df.code)
    ensures df.parsedHospCourse == Some(ParseDocs(df.dcSummary, section))
    ensures kept == Kept(df.dcSummary, df.code, ParseDocs(df.dcSummary, section))
  {
    df.AssignParsed(section);
    kept := FilterParsed(df.dcSummary, df.code, df.parsedHospCourse.value);
  }
}
