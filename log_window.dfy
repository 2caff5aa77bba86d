/**
 * The log window's incremental search (`LogWindowController` in
 * ugitlibs/utilcontroller.py).  One integer, the search offset, moves
 * through the text of the output pane: "next" searches forward from it,
 * "prev" backward up to it, and a miss offers to wrap around.
 *
 * The user's replies to the "Search from the beginning/end?" questions are
 * an input sequence; each question takes the next reply, and a question
 * asked after the replies run out is answered "no".
 */
module LogWindow {
  import opened Strings

  /** A text cursor on the output pane: where the selection was anchored and where it ends. */
  datatype Selection = Selection(anchor: nat, position: nat)

  /** `QTextCursor.selectionStart()`: the smaller end of the selection. */
  function SelectionStart(sel: Selection): (s: nat)
    ensures s <= sel.anchor && s <= sel.position
    ensures s == sel.anchor || s == sel.position
  {
    if sel.anchor <= sel.position then sel.anchor else sel.position
  }

  /**
   * What one press of "next" or "prev" does: the new search offset, the
   * selection it places on the pane (`None`: the pane's cursor is left
   * alone) and how many yes/no questions it asked.
   */
  datatype Outcome = Outcome(offset: nat, selected: Option<Selection>, asked: nat)

  function AskedOnce(o: Outcome): Outcome
  {
    o.(asked := o.asked + 1)
  }

  /** The reply to the next question: "no" once the replies run out. */
  function Answer(replies: seq<bool>): bool
  {
    replies != [] && replies[0]
  }

  /** The replies left after one question. */
  function Rest(replies: seq<bool>): (r: seq<bool>)
    ensures Answer(replies) ==> |r| < |replies|
  {
    if replies == [] then [] else replies[1..]
  }

  /**
   * The pattern searched for: the search text lower-cased, then stripped.
   * It is empty exactly when the search text is empty or all whitespace.
   */
  function Pattern(searchText: string): (p: string)
    ensures p == [] <==> AllSpace(searchText)
    ensures ! AllSpace(searchText) ==> !IsSpace(p[0]) && !IsSpace(p[|p| - 1])
  {
    var lowered := Lower(searchText);
    StripEmptyIff(lowered);
    assert forall i :: 0 <= i < |searchText| ==> (IsSpace(lowered[i]) <==> IsSpace(searchText[i]));
    Strip(lowered)
  }

  /** `sel` selects an occurrence of `pat` in the lower-cased `output`. */
  predicate SelectsMatch(pat: string, output: string, sel: Selection)
  {
    sel.position == sel.anchor + |pat| && OccursAt(Lower(output), pat, sel.anchor)
  }

  /**
   * Find-next with pattern `pat` from `offset`.  When the pattern would run
   * past the end it first asks whether to start over from the beginning.
   */
  function NextSearch(pat: string, output: string, offset: nat, replies: seq<bool>): (r: Outcome)
    ensures r.selected.Some? ==>
      SelectsMatch(pat, output, r.selected.value) && r.offset == r.selected.value.position <= |output|
    ensures r.selected.None? ==> r.offset == 0 || r.offset == offset
    ensures r.asked <= |replies| + 1
    decreases |replies|, 1
  {
    if pat == [] then Outcome(offset, None, 0)
    else if offset + |pat| > |output| then
      if Answer(replies) then AskedOnce(ForwardFrom(pat, output, 0, Rest(replies)))
      else Outcome(offset, None, 1)
    else ForwardFrom(pat, output, offset, replies)
  }

  /**
   * The search part of find-next, once the offset is known to lie within
   * the text: the first occurrence at or after `offset`, or on a miss the
   * offset goes back to 0 and a "yes" runs find-next again.
   */
  function ForwardFrom(pat: string, output: string, offset: nat, replies: seq<bool>): (r: Outcome)
    requires pat != [] && offset <= |output|
    ensures r.selected.Some? ==>
      SelectsMatch(pat, output, r.selected.value) && r.offset == r.selected.value.position <= |output|
    ensures r.selected.None? ==> r.offset == 0
    ensures r.asked <= |replies| + 1
    decreases |replies|, 0
  {
    match IndexOf(Lower(output[offset..]), pat)
    case Some(i) =>
      LowerSlices(output, offset);
      OccursInSuffix(Lower(output), pat, offset, i);
      Outcome(offset + i + |pat|, Some(Selection(offset + i, offset + i + |pat|)), 0)
    case None =>
      if Answer(replies) then AskedOnce(NextSearch(pat, output, 0, Rest(replies)))
      else Outcome(0, None, 1)
  }

  /** Where find-previous stops looking: an offset of 0 stands for the end of the text. */
  function SearchEnd(output: string, offset: nat): (e: nat)
    ensures e <= |output|
    ensures offset == 0 || offset >= |output| ==> e == |output|
    ensures 0 < offset <= |output| ==> e == offset
  {
    if offset == 0 || offset > |output| then |output| else offset
  }

  /**
   * Find-previous with pattern `pat` up to `offset`: the last occurrence that
   * ends within the text before the offset; on a miss the offset goes back
   * to 0 and a "yes" runs find-previous again, which then searches to the end.
   */
  function PrevSearch(pat: string, output: string, offset: nat, replies: seq<bool>): (r: Outcome)
    ensures r.selected.Some? ==>
      SelectsMatch(pat, output, r.selected.value) && r.offset == r.selected.value.anchor
      && r.selected.value.position <= |output|
    ensures r.selected.Some? && r.asked == 0 ==> r.selected.value.position <= SearchEnd(output, offset)
    ensures r.selected.None? ==> r.offset == 0 || (pat == [] && r.offset == offset)
    ensures r.asked <= |replies| + 1
    decreases |replies|
  {
    if pat == [] then Outcome(offset, None, 0)
    else
      var end := SearchEnd(output, offset);
      match RIndexOf(Lower(output[..end]), pat)
      case Some(j) =>
        LowerSlices(output, end);
        OccursInPrefix(Lower(output), pat, end, j);
        Outcome(j, Some(Selection(j, j + |pat|)), 0)
      case None =>
        if Answer(replies) then AskedOnce(PrevSearch(pat, output, 0, Rest(replies)))
        else Outcome(0, None, 1)
  }

  // -----------------------------------------------------------------------
  // Properties of the search functions
  // -----------------------------------------------------------------------

  /** A blank search text makes find-next and find-previous do nothing. */
  lemma BlankPatternIsNoOp(searchText: string, output: string, offset: nat, replies: seq<bool>)
    requires AllSpace(searchText)
    ensures NextSearch(Pattern(searchText), output, offset, replies) == Outcome(offset, None, 0)
    ensures PrevSearch(Pattern(searchText), output, offset, replies) == Outcome(offset, None, 0)
  {
  }

  /**
   * When the pattern fits after the offset and occurs there, find-next asks
   * nothing and selects the lowest occurrence at or after the offset; the new
   * offset is that occurrence's end.
   */
  lemma NextFindsFirst(pat: string, output: string, offset: nat, replies: seq<bool>, m: nat)
    requires pat != [] && offset + |pat| <= |output|
    requires offset <= m && OccursAt(Lower(output), pat, m)
    ensures var r := NextSearch(pat, output, offset, replies);
      r.asked == 0 && r.selected.Some? &&
      var first := r.selected.value.anchor;
      offset <= first <= m && OccursAt(Lower(output), pat, first) &&
      (forall j :: offset <= j < first ==> !OccursAt(Lower(output), pat, j)) &&
      r.selected.value.position == r.offset == first + |pat| <= |output|
  {
    var hay := Lower(output[offset..]);
    LowerSlices(output, offset);
    OccursInSuffix(Lower(output), pat, offset, m - offset);
    assert OccursAt(hay, pat, m - offset);
    var i := IndexOf(hay, pat).value;
    forall j | offset <= j < offset + i ensures !OccursAt(Lower(output), pat, j) {
      OccursInSuffix(Lower(output), pat, offset, j - offset);
    }
  }

  /**
   * When no occurrence starts at or after the offset, find-next resets the
   * offset to 0 and asks; a "yes" searches again from the beginning.
   */
  lemma NextMissWrapsToStart(pat: string, output: string, offset: nat, replies: seq<bool>)
    requires pat != [] && offset + |pat| <= |output|
    requires forall j :: offset <= j ==> !OccursAt(Lower(output), pat, j)
    ensures NextSearch(pat, output, offset, replies) ==
      if Answer(replies) then AskedOnce(NextSearch(pat, output, 0, Rest(replies)))
      else Outcome(0, None, 1)
  {
    var hay := Lower(output[offset..]);
    LowerSlices(output, offset);
    forall i: nat ensures !OccursAt(hay, pat, i) {
      OccursInSuffix(Lower(output), pat, offset, i);
    }
    assert IndexOf(hay, pat).None?;
  }

  /**
   * When the pattern would run past the end of the text, find-next asks
   * first: "no" leaves the offset where it was, "yes" searches from the
   * beginning.
   */
  lemma NextPastEndAsksFirst(pat: string, output: string, offset: nat, replies: seq<bool>)
    requires pat != [] && offset + |pat| > |output|
    ensures NextSearch(pat, output, offset, replies) ==
      if Answer(replies) then AskedOnce(NextSearch(pat, output, 0, Rest(replies)))
      else Outcome(offset, None, 1)
  {
    if |pat| > |output| && Answer(replies) {
      NextFromZeroIsForward(pat, output, Rest(replies));
    }
  }

  /** The number of "yes" replies before the first "no" (or the end of the replies). */
  function LeadingYes(replies: seq<bool>): (n: nat)
    ensures n <= |replies|
  {
    if Answer(replies) then 1 + LeadingYes(replies[1..]) else 0
  }

  /**
   * A pattern longer than the whole text (any search in an empty pane) can
   * never fit: find-next asks again after every "yes", selects nothing, and
   * the offset stays put only when the first answer is "no".
   */
  lemma {:induction false} NextLongPatternOnlyAsks(pat: string, output: string, offset: nat, replies: seq<bool>)
    requires pat != [] && |pat| > |output|
    ensures NextSearch(pat, output, offset, replies) ==
      Outcome(if Answer(replies) then 0 else offset, None, LeadingYes(replies) + 1)
  {
    if Answer(replies) {
      var rest := Rest(replies);
      assert rest == replies[1..];
      NextFromZeroIsForward(pat, output, rest);
      NextLongPatternOnlyAsks(pat, output, 0, rest);
    }
  }

  /**
   * With a pattern longer than the text, asking before the search and
   * asking after its miss are the same question: from offset 0 find-next
   * and its search step agree.
   */
  lemma {:induction false} NextFromZeroIsForward(pat: string, output: string, replies: seq<bool>)
    requires pat != [] && |pat| > |output|
    ensures NextSearch(pat, output, 0, replies) == ForwardFrom(pat, output, 0, replies)
    decreases |replies|
  {
    assert |Lower(output[0..])| < |pat|;
    if Answer(replies) {
      NextFromZeroIsForward(pat, output, Rest(replies));
    }
  }

  /**
   * Wrapping is complete: if the pattern occurs anywhere in the text, a
   * find-next whose first question (if any) is answered "yes" selects an
   * occurrence.
   */
  lemma NextWithYesFindsAnyOccurrence(pat: string, output: string, offset: nat, replies: seq<bool>, m: nat)
    requires pat != [] && OccursAt(Lower(output), pat, m) && Answer(replies)
    ensures NextSearch(pat, output, offset, replies).selected.Some?
  {
    if offset + |pat| > |output| {
      NextFindsFirst(pat, output, 0, Rest(replies), m);
    } else if exists j :: offset <= j && OccursAt(Lower(output), pat, j) {
      var j :| offset <= j && OccursAt(Lower(output), pat, j);
      NextFindsFirst(pat, output, offset, replies, j);
    } else {
      NextMissWrapsToStart(pat, output, offset, replies);
      NextFindsFirst(pat, output, 0, Rest(Rest(replies)), m);
      NextFindsFirst(pat, output, 0, Rest(replies), m);
    }
  }

  /** Find-previous treats an offset of 0 as the end of the text. */
  lemma PrevFromZeroIsFromEnd(pat: string, output: string, replies: seq<bool>)
    ensures pat != [] ==> PrevSearch(pat, output, 0, replies) == PrevSearch(pat, output, |output|, replies)
  {
  }

  /**
   * When an occurrence ends within the searched part, find-previous asks
   * nothing, selects the last such occurrence and moves the offset to its start.
   */
  lemma PrevFindsLast(pat: string, output: string, offset: nat, replies: seq<bool>, m: nat)
    requires pat != []
    requires OccursAt(Lower(output), pat, m) && m + |pat| <= SearchEnd(output, offset)
    ensures var r := PrevSearch(pat, output, offset, replies);
      r.asked == 0 && r.selected.Some? &&
      var last := r.selected.value.anchor;
      m <= last && r.offset == last && OccursAt(Lower(output), pat, last) &&
      last + |pat| <= SearchEnd(output, offset) &&
      forall j :: last < j && j + |pat| <= SearchEnd(output, offset) ==> !OccursAt(Lower(output), pat, j)
  {
    var end := SearchEnd(output, offset);
    var hay := Lower(output[..end]);
    LowerSlices(output, end);
    OccursInPrefix(Lower(output), pat, end, m);
    assert OccursAt(hay, pat, m);
    var i := RIndexOf(hay, pat).value;
    forall j | i < j && j + |pat| <= end ensures !OccursAt(Lower(output), pat, j) {
      OccursInPrefix(Lower(output), pat, end, j);
    }
  }

  /**
   * When nothing ends within the searched part, find-previous resets the
   * offset to 0 and asks; a "yes" searches again from the end of the text.
   */
  lemma PrevMissWrapsToEnd(pat: string, output: string, offset: nat, replies: seq<bool>)
    requires pat != []
    requires forall j: nat :: j + |pat| <= SearchEnd(output, offset) ==> !OccursAt(Lower(output), pat, j)
    ensures PrevSearch(pat, output, offset, replies) ==
      if Answer(replies) then AskedOnce(PrevSearch(pat, output, |output|, Rest(replies)))
      else Outcome(0, None, 1)
  {
    var end := SearchEnd(output, offset);
    var hay := Lower(output[..end]);
    LowerSlices(output, end);
    forall i: nat ensures !OccursAt(hay, pat, i) {
      OccursInPrefix(Lower(output), pat, end, i);
    }
    assert RIndexOf(hay, pat).None?;
    PrevFromZeroIsFromEnd(pat, output, Rest(replies));
  }

  // -----------------------------------------------------------------------
  // The controller
  // -----------------------------------------------------------------------

  class LogWindowController {
    /** The plain text of the output pane. */
    var output: string
    /** The model's search text, mirrored from the search line. */
    var searchText: string
    var searchOffset: nat
    /** The output pane's text cursor. */
    var selection: Selection

    /** Opening the window: an empty search text and the offset reset. */
    constructor (output: string)
      ensures this.output == output && searchText == [] && searchOffset == 0
      ensures selection == Selection(0, 0)
    {
      this.output := output;
      searchText := [];
      searchOffset := 0;
      selection := Selection(0, 0);
    }

    method Reset()
      modifies this
      ensures searchOffset == 0
      ensures output == old(output) && searchText == old(searchText) && selection == old(selection)
    {
      searchOffset := 0;
    }

    /** The clear button empties the pane (its cursor goes to 0) and resets the offset. */
    method Clear()
      modifies this
      ensures output == [] && searchOffset == 0 && selection == Selection(0, 0)
      ensures searchText == old(searchText)
    {
      output := [];
      selection := Selection(0, 0);
      Reset();
    }

    /** The user moved the pane's cursor: the search continues from the selection's start. */
    method CursorPositionChanged(cursor: Selection)
      modifies this
      ensures selection == cursor && searchOffset == SelectionStart(cursor)
      ensures output == old(output) && searchText == old(searchText)
    {
      selection := cursor;
      searchOffset := SelectionStart(selection);
    }

    /** Find-next, as the next button runs it. */
    method Next(replies: seq<bool>) returns (asked: nat)
      modifies this
      ensures output == old(output) && searchText == old(searchText)
      ensures var r := NextSearch(Pattern(searchText), output, old(searchOffset), replies);
        searchOffset == r.offset && asked == r.asked &&
        selection == (if r.selected.Some? then r.selected.value else old(selection))
      decreases |replies|
    {
      var text := Pattern(searchText);
      if text == [] {
        return 0;
      }
      asked := 0;
      var pending := replies;
      if searchOffset + |text| > |output| {
        asked := 1;
        var yes := Answer(pending);
        pending := Rest(pending);
        if yes {
          searchOffset := 0;
        } else {
          return;
        }
      }
      var findIn := Lower(output[searchOffset..]);
      var index := IndexOf(findIn, text);
      if index.None? {
        searchOffset := 0;
        asked := asked + 1;
        if Answer(pending) {
          var more := Next(Rest(pending));
          asked := asked + more;
        }
        return;
      }
      var offset := searchOffset + index.value;
      var newOffset := offset + |text|;
      selection := Selection(offset, newOffset);
      searchOffset := newOffset;
    }

    /** Find-previous, as the previous button runs it. */
    method Prev(replies: seq<bool>) returns (asked: nat)
      modifies this
      ensures output == old(output) && searchText == old(searchText)
      ensures var r := PrevSearch(Pattern(searchText), output, old(searchOffset), replies);
        searchOffset == r.offset && asked == r.asked &&
        selection == (if r.selected.Some? then r.selected.value else old(selection))
      decreases |replies|
    {
      var text := Pattern(searchText);
      if text == [] {
        return 0;
      }
      if searchOffset == 0 {
        searchOffset := |output|;
      }
      var end := if searchOffset <= |output| then searchOffset else |output|;
      var findIn := Lower(output[..end]);
      var index := RIndexOf(findIn, text);
      if index.None? {
        searchOffset := 0;
        asked := 1;
        if Answer(replies) {
          var more := Prev(Rest(replies));
          asked := asked + more;
        }
        return;
      }
      var offset := index.value;
      selection := Selection(offset, offset + |text|);
      searchOffset := offset;
      asked := 0;
    }

    /**
     * The search text changed to `newText`: the offset goes back to 0, and a
     * pattern of more than two characters is searched for at once.
     */
    method InstaSearch(newText: string, replies: seq<bool>) returns (asked: nat)
      modifies this
      ensures output == old(output) && searchText == newText
      ensures |Pattern(searchText)| <= 2 ==>
        searchOffset == 0 && selection == old(selection) && asked == 0
      ensures |Pattern(searchText)| > 2 ==>
        var r := NextSearch(Pattern(searchText), output, 0, replies);
        searchOffset == r.offset && asked == r.asked &&
        selection == (if r.selected.Some? then r.selected.value else old(selection))
    {
      searchText := newText;
      searchOffset := 0;
      var txt := Lower(searchText);
      if |Strip(txt)| > 2 {
        asked := Next(replies);
      } else {
        asked := 0;
      }
    }
  }
}
