/** Paginated annotation in `demo_ui.py`: a page of at most ten paragraphs
    is shown at a time, every highlight click and every non-empty comment box
    on the page appends an entry for the file, and the page loop walks the
    document until every paragraph has been shown. The widget states are an
    input indexed by absolute paragraph number. */
module Paging {

  import Text
  import opened Annotation

  function Min(a: int, b: int): int {
    if a <= b then a else b
  }

  /** Python's `xs[lo:hi]` for non-negative bounds: clamped to the
      sequence, empty when `lo` is not below both `hi` and `|xs|`. */
  function Slice<T>(xs: seq<T>, lo: nat, hi: nat): (ys: seq<T>)
    ensures lo < hi && lo < |xs| ==> |ys| == Min(hi, |xs|) - lo && ys == xs[lo..Min(hi, |xs|)]
    ensures !(lo < hi && lo < |xs|) ==> ys == []
  {
    if lo < hi && lo < |xs| then xs[lo..Min(hi, |xs|)] else []
  }

  /** What the user did on the widgets of one paragraph during this run. */
  datatype SectionInput = SectionInput(highlightClicked: bool, commentText: string)

  datatype PageState = PageState(annotations: map<string, seq<Highlight>>, comments: map<string, seq<Comment>>)

  /** The highlights a page appends, in paragraph order: one for each
      clicked paragraph, numbered from `start + 1`. */
  function NewHighlights(page: seq<string>, start: nat, input: nat -> SectionInput): (r: seq<Highlight>)
    ensures |r| <= |page|
    decreases |page|
  {
    if |page| == 0 then []
    else
      var n := |page| - 1;
      var earlier := NewHighlights(page[..n], start, input);
      if input(start + n).highlightClicked then earlier + [Highlight(start + n + 1, page[n])]
      else earlier
  }

  /** The widgets of the `i`-th paragraph of a page starting at `start`. */
  function InputAt(input: nat -> SectionInput, start: nat, i: nat): SectionInput {
    input(start + i)
  }

  /** A highlight is appended exactly for each clicked paragraph, numbered
      after its position on the page, and the sections strictly increase. */
  lemma {:induction false} NewHighlightsMeaning(page: seq<string>, start: nat, input: nat -> SectionInput)
    ensures forall h :: h in NewHighlights(page, start, input) <==>
              exists i :: 0 <= i < |page| && InputAt(input, start, i).highlightClicked
                          && h == Highlight(start + i + 1, page[i])
    ensures forall k :: 0 <= k < |NewHighlights(page, start, input)| ==>
              start < NewHighlights(page, start, input)[k].section <= start + |page|
    ensures forall k, l :: 0 <= k < l < |NewHighlights(page, start, input)| ==>
              NewHighlights(page, start, input)[k].section < NewHighlights(page, start, input)[l].section
    decreases |page|
  {
    if |page| > 0 {
      var n := |page| - 1;
      var front := page[..n];
      var earlier := NewHighlights(front, start, input);
      var last := Highlight(start + n + 1, page[n]);
      var r := NewHighlights(page, start, input);
      assert r == if input(start + n).highlightClicked then earlier + [last] else earlier;
      NewHighlightsMeaning(front, start, input);
      assert InputAt(input, start, n) == input(start + n);
      forall h | h in r
        ensures exists i :: 0 <= i < |page| && InputAt(input, start, i).highlightClicked
                            && h == Highlight(start + i + 1, page[i])
      {
        if h in earlier {
          var i :| 0 <= i < |front| && InputAt(input, start, i).highlightClicked
                   && h == Highlight(start + i + 1, front[i]);
          assert front[i] == page[i];
        } else {
          assert h == last;
        }
      }
      forall i | 0 <= i < |page| && InputAt(input, start, i).highlightClicked
        ensures Highlight(start + i + 1, page[i]) in r
      {
        if i < n {
          assert front[i] == page[i];
          assert Highlight(start + i + 1, front[i]) in earlier;
        }
      }
    }
  }

  /** The comments a page appends, in paragraph order: the raw text of each
      non-empty comment box, numbered from `start + 1`. */
  function NewComments(page: seq<string>, start: nat, input: nat -> SectionInput): (r: seq<Comment>)
    ensures |r| <= |page|
    decreases |page|
  {
    if |page| == 0 then []
    else
      var n := |page| - 1;
      var earlier := NewComments(page[..n], start, input);
      if input(start + n).commentText != "" then earlier + [Comment(start + n + 1, input(start + n).commentText)]
      else earlier
  }

  /** A comment is appended exactly for each non-empty comment box, with its
      text and numbered after its position, and the sections strictly
      increase. */
  lemma {:induction false} NewCommentsMeaning(page: seq<string>, start: nat, input: nat -> SectionInput)
    ensures forall c :: c in NewComments(page, start, input) <==>
              exists i :: 0 <= i < |page| && InputAt(input, start, i).commentText != ""
                          && c == Comment(start + i + 1, InputAt(input, start, i).commentText)
    ensures forall k :: 0 <= k < |NewComments(page, start, input)| ==>
              start < NewComments(page, start, input)[k].section <= start + |page|
    ensures forall k, l :: 0 <= k < l < |NewComments(page, start, input)| ==>
              NewComments(page, start, input)[k].section < NewComments(page, start, input)[l].section
    decreases |page|
  {
    if |page| > 0 {
      var n := |page| - 1;
      var front := page[..n];
      var earlier := NewComments(front, start, input);
      var last := Comment(start + n + 1, input(start + n).commentText);
      var r := NewComments(page, start, input);
      assert r == if input(start + n).commentText != "" then earlier + [last] else earlier;
      NewCommentsMeaning(front, start, input);
      assert InputAt(input, start, n) == input(start + n);
      forall c | c in r
        ensures exists i :: 0 <= i < |page| && InputAt(input, start, i).commentText != ""
                            && c == Comment(start + i + 1, InputAt(input, start, i).commentText)
      {
        if c in earlier {
          var i :| 0 <= i < |front| && InputAt(input, start, i).commentText != ""
                   && c == Comment(start + i + 1, InputAt(input, start, i).commentText);
        } else {
          assert c == last;
        }
      }
      forall i | 0 <= i < |page| && InputAt(input, start, i).commentText != ""
        ensures Comment(start + i + 1, InputAt(input, start, i).commentText) in r
      {
        if i < n {
          assert Comment(start + i + 1, InputAt(input, start, i).commentText) in earlier;
        }
      }
    }
  }

  /** The file's entries followed by `added`; the key is only created when
      something is added. */
  function Extend<T>(m: map<string, seq<T>>, file: string, added: seq<T>): (m': map<string, seq<T>>)
    ensures EntriesOf(m', file) == EntriesOf(m, file) + added
    ensures file in m' <==> file in m || added != []
    ensures forall f :: f != file ==> (f in m' <==> f in m) && (f in m ==> m'[f] == m[f])
  {
    if file in m || added != [] then m[file := EntriesOf(m, file) + added] else m
  }

  lemma ExtendNothing<T>(m: map<string, seq<T>>, file: string)
    ensures Extend(m, file, []) == m
  {
    if file in m {
      assert m[file] + [] == m[file];
    }
  }

  lemma ExtendTwice<T>(m: map<string, seq<T>>, file: string, a: seq<T>, b: seq<T>)
    ensures Extend(Extend(m, file, a), file, b) == Extend(m, file, a + b)
  {
    assert EntriesOf(m, file) + a + b == EntriesOf(m, file) + (a + b);
  }

  /** The last paragraph of a page appends at most its own highlight. */
  lemma NewHighlightsLast(page: seq<string>, start: nat, input: nat -> SectionInput)
    requires |page| > 0
    ensures var n := |page| - 1;
            NewHighlights(page, start, input)
            == NewHighlights(page[..n], start, input)
               + if input(start + n).highlightClicked then [Highlight(start + n + 1, page[n])] else []
  {
  }

  /** The last paragraph of a page appends at most its own comment. */
  lemma NewCommentsLast(page: seq<string>, start: nat, input: nat -> SectionInput)
    requires |page| > 0
    ensures var n := |page| - 1;
            NewComments(page, start, input)
            == NewComments(page[..n], start, input)
               + if input(start + n).commentText != "" then [Comment(start + n + 1, input(start + n).commentText)] else []
  {
  }

  /** Annotating two pieces one after the other appends what annotating
      them together appends. */
  lemma {:induction false} NewHighlightsAppend(a: seq<string>, b: seq<string>, start: nat, input: nat -> SectionInput)
    ensures NewHighlights(a + b, start, input)
            == NewHighlights(a, start, input) + NewHighlights(b, start + |a|, input)
    decreases |b|
  {
    if |b| == 0 {
      assert a + b == a;
    } else {
      var n := |b| - 1;
      assert (a + b)[..|a| + n] == a + b[..n];
      assert (a + b)[|a| + n] == b[n];
      NewHighlightsLast(a + b, start, input);
      NewHighlightsLast(b, start + |a|, input);
      NewHighlightsAppend(a, b[..n], start, input);
    }
  }


  lemma {:induction false} NewCommentsAppend(a: seq<string>, b: seq<string>, start: nat, input: nat -> SectionInput)
    ensures NewComments(a + b, start, input)
            == NewComments(a, start, input) + NewComments(b, start + |a|, input)
    decreases |b|
  {
    if |b| == 0 {
      assert a + b == a;
    } else {
      var n := |b| - 1;
      assert (a + b)[..|a| + n] == a + b[..n];
      assert (a + b)[|a| + n] == b[n];
      NewCommentsLast(a + b, start, input);
      NewCommentsLast(b, start + |a|, input);
      NewCommentsAppend(a, b[..n], start, input);
    }
  }


  /** One more paragraph appends at most its own highlight. */
  lemma NewHighlightsStep(page: seq<string>, idx: nat, start: nat, input: nat -> SectionInput)
    requires idx < |page|
    ensures NewHighlights(page[..idx + 1], start, input)
            == NewHighlights(page[..idx], start, input)
               + if input(start + idx).highlightClicked then [Highlight(start + idx + 1, page[idx])] else []
  {
    assert page[..idx + 1][..idx] == page[..idx];
  }

  /** One more paragraph appends at most its own comment. */
  lemma NewCommentsStep(page: seq<string>, idx: nat, start: nat, input: nat -> SectionInput)
    requires idx < |page|
    ensures NewComments(page[..idx + 1], start, input)
            == NewComments(page[..idx], start, input)
               + if input(start + idx).commentText != "" then [Comment(start + idx + 1, input(start + idx).commentText)] else []
  {
    assert page[..idx + 1][..idx] == page[..idx];
  }

  /** `annotate_document`: paragraphs `start` to `end` (clamped) are shown;
      each clicked highlight and each non-empty comment is appended, in
      paragraph order, with no de-duplication; the result is the index after
      the last shown paragraph. */
  method AnnotateDocument(st: PageState, file: string, content: string, start: nat, end: nat,
                          input: nat -> SectionInput)
    returns (st': PageState, next: nat)
    ensures var n := |Text.Split(content, '\n')|;
            next == if start < end && start < n then Min(end, n) else start
    ensures var page := Slice(Text.Split(content, '\n'), start, end);
            && st'.annotations == Extend(st.annotations, file, NewHighlights(page, start, input))
            && st'.comments == Extend(st.comments, file, NewComments(page, start, input))
  {
    var page := Slice(Text.Split(content, '\n'), start, end);
    st' := st;
    var idx := 0;
    ExtendNothing(st.annotations, file);
    ExtendNothing(st.comments, file);
    assert page[..0] == [];
    while idx < |page|
      invariant 0 <= idx <= |page|
      invariant st'.annotations == Extend(st.annotations, file, NewHighlights(page[..idx], start, input))
      invariant st'.comments == Extend(st.comments, file, NewComments(page[..idx], start, input))
    {
      var para := page[idx];
      var now := input(start + idx);
      var hs := NewHighlights(page[..idx], start, input);
      var cs := NewComments(page[..idx], start, input);
      NewHighlightsStep(page, idx, start, input);
      NewCommentsStep(page, idx, start, input);
      // the `.get(file_name, [])` / `if file_name not in ...` steps followed
      // by `append` are an extension by one entry
      if now.highlightClicked {
        ExtendTwice(st.annotations, file, hs, [Highlight(start + idx + 1, para)]);
        st' := st'.(annotations := Extend(st'.annotations, file, [Highlight(start + idx + 1, para)]));
      } else {
        assert hs + [] == hs;
      }
      if now.commentText != "" {
        ExtendTwice(st.comments, file, cs, [Comment(start + idx + 1, now.commentText)]);
        st' := st'.(comments := Extend(st'.comments, file, [Comment(start + idx + 1, now.commentText)]));
      } else {
        assert cs + [] == cs;
      }
      idx := idx + 1;
    }
    assert page[..idx] == page;
    next := start + |page|;
  }

  /** One page more of the document appends what that page appends. */
  lemma NextPage(paragraphs: seq<string>, start: nat, end: nat, input: nat -> SectionInput)
    requires start < |paragraphs| && start < end
    ensures var page := Slice(paragraphs, start, end);
            var next := Min(end, |paragraphs|);
            && NewHighlights(paragraphs[..next], 0, input)
               == NewHighlights(paragraphs[..start], 0, input) + NewHighlights(page, start, input)
            && NewComments(paragraphs[..next], 0, input)
               == NewComments(paragraphs[..start], 0, input) + NewComments(page, start, input)
  {
    var page := Slice(paragraphs, start, end);
    assert paragraphs[..Min(end, |paragraphs|)] == paragraphs[..start] + page;
    NewHighlightsAppend(paragraphs[..start], page, 0, input);
    NewCommentsAppend(paragraphs[..start], page, 0, input);
  }

  /** Appending one more page to what the pages so far appended gives what
      the pages up to its end append. */
  lemma PageStep(st: PageState, file: string, paragraphs: seq<string>, start: nat, end: nat,
                 input: nat -> SectionInput)
    requires start < |paragraphs| && start < end
    ensures var page := Slice(paragraphs, start, end);
            var next := Min(end, |paragraphs|);
            && Extend(Extend(st.annotations, file, NewHighlights(paragraphs[..start], 0, input)),
                      file, NewHighlights(page, start, input))
               == Extend(st.annotations, file, NewHighlights(paragraphs[..next], 0, input))
            && Extend(Extend(st.comments, file, NewComments(paragraphs[..start], 0, input)),
                      file, NewComments(page, start, input))
               == Extend(st.comments, file, NewComments(paragraphs[..next], 0, input))
  {
    NextPage(paragraphs, start, end, input);
    var page := Slice(paragraphs, start, end);
    ExtendTwice(st.annotations, file, NewHighlights(paragraphs[..start], 0, input), NewHighlights(page, start, input));
    ExtendTwice(st.comments, file, NewComments(paragraphs[..start], 0, input), NewComments(page, start, input));
  }

  /** The page start after one more pass. */
  lemma PassStep(n: nat, passes: nat, start: nat)
    requires start == Min(10 * passes, n) && start < n
    ensures Min(start + 10, n) == Min(10 * (passes + 1), n)
    ensures 10 * (passes + 1 - 1) < n
  {
  }

  /** The pass count at loop exit is the ceiling of n / 10. */
  lemma PassCount(n: nat, passes: nat)
    requires n >= 1 && n == Min(10 * passes, n)
    requires passes > 0 ==> 10 * (passes - 1) < n
    ensures passes == (n + 9) / 10 && passes >= 1
  {
  }

  /** The page loop of `main`: start at 0 with an end of 10, annotate the
      page, move the end ten past the returned index, until every paragraph
      has been shown. It makes ceil(n / 10) passes for n paragraphs and
      appends exactly what one pass over the whole document would. */
  method AnnotateAllPages(st: PageState, file: string, content: string, input: nat -> SectionInput)
    returns (st': PageState, passes: nat)
    ensures var n := |Text.Split(content, '\n')|; passes == (n + 9) / 10 && passes >= 1
    ensures var paragraphs := Text.Split(content, '\n');
            && st'.annotations == Extend(st.annotations, file, NewHighlights(paragraphs, 0, input))
            && st'.comments == Extend(st.comments, file, NewComments(paragraphs, 0, input))
  {
    var paragraphs := Text.Split(content, '\n');
    var n := |paragraphs|;
    var start: nat := 0;
    var end: nat := 10;
    passes := 0;
    st' := st;
    ExtendNothing(st.annotations, file);
    ExtendNothing(st.comments, file);
    assert paragraphs[..0] == [];
    while start < n
      invariant start <= n
      invariant end == start + 10
      invariant start == Min(10 * passes, n)
      invariant passes > 0 ==> 10 * (passes - 1) < n
      invariant st'.annotations == Extend(st.annotations, file, NewHighlights(paragraphs[..start], 0, input))
      invariant st'.comments == Extend(st.comments, file, NewComments(paragraphs[..start], 0, input))
      decreases n - start
    {
      PageStep(st, file, paragraphs, start, end, input);
      PassStep(n, passes, start);
      st', start := AnnotateDocument(st', file, content, start, end, input);
      end := start + 10;
      passes := passes + 1;
    }
    PassCount(n, passes);
    assert paragraphs[..start] == paragraphs;
  }
}
