/** Document annotation in the board portal (`main.py`): highlights and
    comments are kept per file as lists of entries keyed by section number,
    toggled and saved one paragraph at a time, and merged into the
    annotation summary table. */
module Annotation {

  import opened Common
  import Text
  import Meeting

  /** A section number: paragraph index plus one, so never below 1. */
  type Section = n: int | n >= 1 witness 1

  datatype Highlight = Highlight(section: Section, text: string)

  datatype Comment = Comment(section: Section, comment: string)

  /** The entries stored for a file, [] when the file has none (Python's
      `.get(file_name, [])`). */
  function EntriesOf<T>(m: map<string, seq<T>>, file: string): seq<T> {
    if file in m then m[file] else []
  }

  function HighlightAt(s: Section): Highlight -> bool {
    (h: Highlight) => h.section == s
  }

  function HighlightNotAt(s: Section): Highlight -> bool {
    (h: Highlight) => h.section != s
  }

  function CommentAt(s: Section): Comment -> bool {
    (c: Comment) => c.section == s
  }

  function CommentNotAt(s: Section): Comment -> bool {
    (c: Comment) => c.section != s
  }

  /** Some highlight of the list is on section `s`. */
  predicate HasSection(hs: seq<Highlight>, s: Section) {
    exists i :: 0 <= i < |hs| && hs[i].section == s
  }

  /** The paragraph is shown highlighted. */
  predicate IsHighlighted(anns: map<string, seq<Highlight>>, file: string, s: Section) {
    HasSection(EntriesOf(anns, file), s)
  }

  /** Dropping a section's highlights leaves none on it and every other
      section's highlights as they were. */
  lemma DropSection(hs: seq<Highlight>, s: Section)
    ensures !HasSection(Filter(hs, HighlightNotAt(s)), s)
    ensures Filter(Filter(hs, HighlightNotAt(s)), HighlightAt(s)) == []
    ensures forall t :: t != s ==>
              Filter(Filter(hs, HighlightNotAt(s)), HighlightAt(t)) == Filter(hs, HighlightAt(t))
  {
    var kept := Filter(hs, HighlightNotAt(s));
    FilterKeepsNone(kept, HighlightAt(s));
    forall t | t != s ensures Filter(kept, HighlightAt(t)) == Filter(hs, HighlightAt(t)) {
      FilterOfFilter(hs, HighlightNotAt(s), HighlightAt(t));
    }
  }

  /** Appending a highlight on a section not yet highlighted makes it the
      section's only highlight and leaves the other sections alone. */
  lemma AddSection(hs: seq<Highlight>, h: Highlight)
    requires !HasSection(hs, h.section)
    ensures HasSection(hs + [h], h.section)
    ensures Filter(hs + [h], HighlightAt(h.section)) == [h]
    ensures forall t :: t != h.section ==> Filter(hs + [h], HighlightAt(t)) == Filter(hs, HighlightAt(t))
  {
    assert (hs + [h])[|hs|] == h;
    FilterKeepsNone(hs, HighlightAt(h.section));
    FilterAppend(hs, [h], HighlightAt(h.section));
    assert Filter([h], HighlightAt(h.section)) == [h];
    forall t | t != h.section ensures Filter(hs + [h], HighlightAt(t)) == Filter(hs, HighlightAt(t)) {
      FilterAppend(hs, [h], HighlightAt(t));
      assert Filter([h], HighlightAt(t)) == [];
      assert Filter(hs, HighlightAt(t)) + [] == Filter(hs, HighlightAt(t));
    }
  }

  /** Removing the section of a highlight just appended to a list without
      that section gives the list back. */
  lemma DropAfterAdd(hs: seq<Highlight>, h: Highlight)
    requires !HasSection(hs, h.section)
    ensures Filter(hs + [h], HighlightNotAt(h.section)) == hs
  {
    FilterAppend(hs, [h], HighlightNotAt(h.section));
    FilterKeepsAll(hs, HighlightNotAt(h.section));
    assert Filter([h], HighlightNotAt(h.section)) == [];
    assert hs + [] == hs;
  }

  /** The highlight button: on a highlighted section it removes all of that
      section's highlights, otherwise it appends exactly one. Other files
      and other sections keep their entries, in order. */
  function ToggleHighlight(anns: map<string, seq<Highlight>>, file: string, s: Section, para: string)
    : (anns': map<string, seq<Highlight>>)
    ensures anns'.Keys == anns.Keys + {file}
    ensures forall f :: f in anns && f != file ==> anns'[f] == anns[f]
    ensures IsHighlighted(anns', file, s) <==> !IsHighlighted(anns, file, s)
    ensures IsHighlighted(anns, file, s) ==> Filter(anns'[file], HighlightAt(s)) == []
    ensures !IsHighlighted(anns, file, s) ==>
              Filter(anns'[file], HighlightAt(s)) == [Highlight(s, para)]
              && anns'[file] == EntriesOf(anns, file) + [Highlight(s, para)]
    ensures forall t :: t != s ==>
              Filter(anns'[file], HighlightAt(t)) == Filter(EntriesOf(anns, file), HighlightAt(t))
    ensures Filter(anns'[file], HighlightNotAt(s)) == Filter(EntriesOf(anns, file), HighlightNotAt(s))
  {
    var hs := EntriesOf(anns, file);
    if HasSection(hs, s) then
      DropSection(hs, s);
      FilterOfFilter(hs, HighlightNotAt(s), HighlightNotAt(s));
      anns[file := Filter(hs, HighlightNotAt(s))]
    else
      AddSection(hs, Highlight(s, para));
      DropAfterAdd(hs, Highlight(s, para));
      FilterKeepsAll(hs, HighlightNotAt(s));
      anns[file := hs + [Highlight(s, para)]]
  }

  /** Toggling a highlight that was just appended drops it again. */
  lemma ToggleOffAdded(anns: map<string, seq<Highlight>>, file: string, hs: seq<Highlight>, s: Section, para: string)
    requires !HasSection(hs, s)
    ensures ToggleHighlight(anns[file := hs + [Highlight(s, para)]], file, s, para) == anns[file := hs]
  {
    AddSection(hs, Highlight(s, para));
    DropAfterAdd(hs, Highlight(s, para));
  }

  /** Highlighting an unhighlighted paragraph and toggling it again restores
      the file's entries. */
  lemma ToggleTwiceRestores(anns: map<string, seq<Highlight>>, file: string, s: Section, para: string)
    requires file in anns && !IsHighlighted(anns, file, s)
    ensures ToggleHighlight(ToggleHighlight(anns, file, s, para), file, s, para) == anns
  {
    var hs := anns[file];
    assert ToggleHighlight(anns, file, s, para) == anns[file := hs + [Highlight(s, para)]];
    ToggleOffAdded(anns, file, hs, s, para);
    assert anns[file := hs] == anns;
  }

  /** The comments of a list after replacing section `s`'s comments by
      `c`, or by nothing when `c` is empty. */
  function ReplaceSection(cs: seq<Comment>, s: Section, c: string): seq<Comment> {
    var kept := Filter(cs, CommentNotAt(s));
    if c != "" then kept + [Comment(s, c)] else kept
  }

  /** The replacement keeps the comments of other sections in their order
      and puts the new comment last. */
  lemma ReplaceSectionOrder(cs: seq<Comment>, s: Section, c: string)
    ensures Filter(ReplaceSection(cs, s, c), CommentNotAt(s)) == Filter(cs, CommentNotAt(s))
    ensures c != "" ==> var r := ReplaceSection(cs, s, c); |r| > 0 && r[|r| - 1] == Comment(s, c)
  {
    var kept := Filter(cs, CommentNotAt(s));
    FilterOfFilter(cs, CommentNotAt(s), CommentNotAt(s));
    FilterAppend(kept, [Comment(s, c)], CommentNotAt(s));
    assert Filter([Comment(s, c)], CommentNotAt(s)) == [];
    assert kept + [] == kept;
  }

  /** After the replacement the section holds exactly the new comment, and
      every other section keeps its comments in order. */
  lemma ReplaceSectionEffect(cs: seq<Comment>, s: Section, c: string)
    ensures Filter(ReplaceSection(cs, s, c), CommentAt(s)) == if c == "" then [] else [Comment(s, c)]
    ensures forall t :: t != s ==> Filter(ReplaceSection(cs, s, c), CommentAt(t)) == Filter(cs, CommentAt(t))
  {
    var kept := Filter(cs, CommentNotAt(s));
    FilterKeepsNone(kept, CommentAt(s));
    FilterAppend(kept, [Comment(s, c)], CommentAt(s));
    assert Filter([Comment(s, c)], CommentAt(s)) == [Comment(s, c)];
    forall t | t != s ensures Filter(ReplaceSection(cs, s, c), CommentAt(t)) == Filter(cs, CommentAt(t)) {
      FilterOfFilter(cs, CommentNotAt(s), CommentAt(t));
      FilterAppend(kept, [Comment(s, c)], CommentAt(t));
      assert Filter([Comment(s, c)], CommentAt(t)) == [];
      assert Filter(kept, CommentAt(t)) + [] == Filter(kept, CommentAt(t));
    }
  }

  /** The Save Comment button: the section's comments are dropped, then the
      stripped text is added if it is not blank. Other files are untouched. */
  function SaveComment(comments: map<string, seq<Comment>>, file: string, s: Section, text: string)
    : (comments': map<string, seq<Comment>>)
    ensures comments'.Keys == comments.Keys + {file}
    ensures forall f :: f in comments && f != file ==> comments'[f] == comments[f]
    ensures Filter(comments'[file], CommentNotAt(s)) == Filter(EntriesOf(comments, file), CommentNotAt(s))
    ensures Text.Strip(text) != "" ==>
              |comments'[file]| > 0 && comments'[file][|comments'[file]| - 1] == Comment(s, Text.Strip(text))
  {
    ReplaceSectionOrder(EntriesOf(comments, file), s, Text.Strip(text));
    comments[file := ReplaceSection(EntriesOf(comments, file), s, Text.Strip(text))]
  }

  /** After saving, the section holds exactly the stripped comment (none
      when it is blank), so never more than one, and every other section of
      the file keeps its comments. */
  lemma SaveCommentEffect(comments: map<string, seq<Comment>>, file: string, s: Section, text: string)
    ensures var saved := SaveComment(comments, file, s, text)[file];
            && Filter(saved, CommentAt(s))
               == (if Text.Strip(text) == "" then [] else [Comment(s, Text.Strip(text))])
            && |Filter(saved, CommentAt(s))| <= 1
            && (forall t :: t != s ==>
                  Filter(saved, CommentAt(t)) == Filter(EntriesOf(comments, file), CommentAt(t)))
            && Filter(saved, CommentNotAt(s)) == Filter(EntriesOf(comments, file), CommentNotAt(s))
            && (Text.Strip(text) != "" ==> |saved| > 0 && saved[|saved| - 1] == Comment(s, Text.Strip(text)))
  {
    ReplaceSectionEffect(EntriesOf(comments, file), s, Text.Strip(text));
    ReplaceSectionOrder(EntriesOf(comments, file), s, Text.Strip(text));
  }

  // -------------------------------------------------------- summary table

  datatype RowKind = HighlightRow | CommentRow

  /** A row of the summary table: type, section, text, comment. */
  datatype SummaryRow = SummaryRow(kind: RowKind, section: Section, text: string, comment: string)

  /** The paragraph a comment row quotes: paragraph `s` of the document, or
      "N/A" past its end. */
  function SectionText(content: string, s: Section): string {
    var paragraphs := Text.Split(content, '\n');
    if s - 1 < |paragraphs| then paragraphs[s - 1] else "N/A"
  }

  function HighlightRowAt(s: Section): SummaryRow -> bool {
    (r: SummaryRow) => r.kind == HighlightRow && r.section == s
  }

  /** Gives the first highlight row of the comment's section that comment. */
  function FillFirst(rows: seq<SummaryRow>, c: Comment): seq<SummaryRow> {
    var k := First(rows, HighlightRowAt(c.section));
    if k < |rows| then rows[k := rows[k].(comment := c.comment)] else rows
  }

  /** One pass of the comments loop: a comment on a highlighted section
      fills a highlight row, any other adds a row quoting its paragraph. */
  function MergeComment(rows: seq<SummaryRow>, hs: seq<Highlight>, c: Comment, content: string)
    : seq<SummaryRow>
  {
    if HasSection(hs, c.section) then FillFirst(rows, c)
    else rows + [SummaryRow(CommentRow, c.section, SectionText(content, c.section), c.comment)]
  }

  /** The comments loop of `display_annotation_summary`, one comment at a time. */
  function MergeComments(rows: seq<SummaryRow>, hs: seq<Highlight>, cs: seq<Comment>, content: string)
    : seq<SummaryRow>
  {
    Fold((r: seq<SummaryRow>, c: Comment) => MergeComment(r, hs, c, content), rows, cs)
  }

  /** The stored text of a document in `document_context`, or "" when the
      file was never uploaded. */
  function DocumentText(documents: seq<Meeting.Doc>, file: string): string {
    match Meeting.Lookup(documents, file)
    case Some(text) => text
    case None => ""
  }

  /** `display_annotation_summary`: None when the file has neither
      highlights nor comments (the "no annotations yet for this document"
      notice); otherwise the rows of the table, possibly none. */
  function AnnotationSummary(anns: map<string, seq<Highlight>>, comments: map<string, seq<Comment>>,
                             documents: seq<Meeting.Doc>, file: string): (r: Option<seq<SummaryRow>>)
    ensures r.None? <==> file !in anns && file !in comments
  {
    if file !in anns && file !in comments then None
    else
      var hs := EntriesOf(anns, file);
      var content := DocumentText(documents, file);
      var rows := seq(|hs|, i requires 0 <= i < |hs| => SummaryRow(HighlightRow, hs[i].section, hs[i].text, ""));
      Some(MergeComments(rows, hs, EntriesOf(comments, file), content))
  }

  // ---- an independent description of the table

  /** The comment of the last comment on section `s`, or "" if there is none. */
  function LastCommentOn(cs: seq<Comment>, s: Section): string
    decreases |cs|
  {
    if |cs| == 0 then ""
    else if cs[|cs| - 1].section == s then cs[|cs| - 1].comment
    else LastCommentOn(cs[..|cs| - 1], s)
  }

  /** No earlier highlight is on the same section as `hs[i]`. */
  predicate FirstOfItsSection(hs: seq<Highlight>, i: int)
    requires 0 <= i < |hs|
  {
    forall j :: 0 <= j < i ==> hs[j].section != hs[i].section
  }

  function OnUnhighlighted(hs: seq<Highlight>): Comment -> bool {
    (c: Comment) => !HasSection(hs, c.section)
  }

  function CommentRowOf(c: Comment, content: string): SummaryRow {
    SummaryRow(CommentRow, c.section, SectionText(content, c.section), c.comment)
  }

  /** The highlight rows: one per highlight, in order; the first highlight
      of each section carries the last comment made on that section. */
  function HighlightRows(hs: seq<Highlight>, cs: seq<Comment>): seq<SummaryRow> {
    seq(|hs|, i requires 0 <= i < |hs| =>
          SummaryRow(HighlightRow, hs[i].section, hs[i].text,
                     if FirstOfItsSection(hs, i) then LastCommentOn(cs, hs[i].section) else ""))
  }

  /** One row per comment, quoting the commented paragraph. */
  function CommentRows(cs: seq<Comment>, content: string): seq<SummaryRow> {
    seq(|cs|, i requires 0 <= i < |cs| => CommentRowOf(cs[i], content))
  }

  /** The table described row by row: the highlight rows, then one row per
      comment on an unhighlighted section, in comment order. */
  function ExpectedSummary(hs: seq<Highlight>, cs: seq<Comment>, content: string): seq<SummaryRow> {
    HighlightRows(hs, cs) + CommentRows(Filter(cs, OnUnhighlighted(hs)), content)
  }

  lemma LastCommentOnAppend(cs: seq<Comment>, c: Comment, s: Section)
    ensures LastCommentOn(cs + [c], s) == if c.section == s then c.comment else LastCommentOn(cs, s)
  {
    assert (cs + [c])[..|cs|] == cs;
  }

  /** A comment on an unhighlighted section leaves the highlight rows alone. */
  lemma HighlightRowsSkip(hs: seq<Highlight>, done: seq<Comment>, c: Comment)
    requires !HasSection(hs, c.section)
    ensures HighlightRows(hs, done + [c]) == HighlightRows(hs, done)
  {
    forall i | 0 <= i < |hs| ensures HighlightRows(hs, done + [c])[i] == HighlightRows(hs, done)[i] {
      LastCommentOnAppend(done, c, hs[i].section);
    }
  }

  /** A comment on a highlighted section is what the first highlight row of
      that section now carries. */
  lemma HighlightRowsFill(hs: seq<Highlight>, done: seq<Comment>, c: Comment)
    requires HasSection(hs, c.section)
    ensures First(HighlightRows(hs, done), HighlightRowAt(c.section)) < |hs|
    ensures FillFirst(HighlightRows(hs, done), c) == HighlightRows(hs, done + [c])
  {
    var rows := HighlightRows(hs, done);
    var k0 := First(hs, HighlightAt(c.section));
    assert FirstAt(rows, HighlightRowAt(c.section), k0);
    FirstIsUnique(rows, HighlightRowAt(c.section), k0);
    assert FirstOfItsSection(hs, k0);
    var after := HighlightRows(hs, done + [c]);
    forall i | 0 <= i < |hs| ensures FillFirst(rows, c)[i] == after[i] {
      LastCommentOnAppend(done, c, hs[i].section);
      if i != k0 && FirstOfItsSection(hs, i) {
        assert hs[i].section != c.section;
      }
    }
  }

  /** Filling a row found in the front part leaves the back part alone. */
  lemma FillFirstFront(front: seq<SummaryRow>, back: seq<SummaryRow>, c: Comment)
    requires First(front, HighlightRowAt(c.section)) < |front|
    ensures FillFirst(front + back, c) == FillFirst(front, c) + back
  {
    var k := First(front, HighlightRowAt(c.section));
    FirstOfExtension(front, back, HighlightRowAt(c.section));
    assert (front + back)[k] == front[k];
    UpdateInFront(front, back, k, front[k].(comment := c.comment));
  }

  /** One comment step takes the described table of the comments so far to
      the described table of one more comment. */
  lemma MergeStep(hs: seq<Highlight>, done: seq<Comment>, c: Comment, content: string)
    ensures MergeComment(ExpectedSummary(hs, done, content), hs, c, content)
            == ExpectedSummary(hs, done + [c], content)
  {
    var loose := Filter(done, OnUnhighlighted(hs));
    FilterAppend(done, [c], OnUnhighlighted(hs));
    if HasSection(hs, c.section) {
      assert Filter([c], OnUnhighlighted(hs)) == [];
      assert Filter(done + [c], OnUnhighlighted(hs)) == loose;
      HighlightRowsFill(hs, done, c);
      FillFirstFront(HighlightRows(hs, done), CommentRows(loose, content), c);
    } else {
      assert Filter([c], OnUnhighlighted(hs)) == [c];
      HighlightRowsSkip(hs, done, c);
      assert CommentRows(loose + [c], content) == CommentRows(loose, content) + [CommentRowOf(c, content)];
    }
  }

  /** The comments loop produces the described table. */
  lemma MergeMatchesDescription(hs: seq<Highlight>, cs: seq<Comment>, content: string)
    ensures MergeComments(ExpectedSummary(hs, [], content), hs, cs, content) == ExpectedSummary(hs, cs, content)
  {
    var step := (r: seq<SummaryRow>, c: Comment) => MergeComment(r, hs, c, content);
    var describe := (d: seq<Comment>) => ExpectedSummary(hs, d, content);
    forall d: seq<Comment>, c: Comment ensures step(describe(d), c) == describe(d + [c]) {
      MergeStep(hs, d, c, content);
    }
    FoldTracks(step, describe, [], cs);
    assert [] + cs == cs;
  }

  /** The summary table is the described one: highlight rows first, a
      comment on a highlighted section fills the first highlight row of that
      section and adds no row, every other comment adds a row quoting its
      paragraph (or "N/A"). */
  lemma SummaryIsDescribed(anns: map<string, seq<Highlight>>, comments: map<string, seq<Comment>>,
                           documents: seq<Meeting.Doc>, file: string)
    ensures AnnotationSummary(anns, comments, documents, file).None? <==> file !in anns && file !in comments
    ensures AnnotationSummary(anns, comments, documents, file).Some? ==>
              AnnotationSummary(anns, comments, documents, file).value
              == ExpectedSummary(EntriesOf(anns, file), EntriesOf(comments, file),
                                 DocumentText(documents, file))
  {
    if file in anns || file in comments {
      var hs := EntriesOf(anns, file);
      var content := DocumentText(documents, file);
      FilterKeepsNone([], OnUnhighlighted(hs));
      assert CommentRows([], content) == [];
      assert ExpectedSummary(hs, [], content)
             == seq(|hs|, i requires 0 <= i < |hs| => SummaryRow(HighlightRow, hs[i].section, hs[i].text, ""));
      MergeMatchesDescription(hs, EntriesOf(comments, file), content);
    }
  }
}
