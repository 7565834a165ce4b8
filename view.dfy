/**
 * The two pure helpers of src/js/app.js that decide what the page shows
 * while dragging and searching: `getDragAfterElement`, which picks the card
 * a dragged card is placed before, and the search filter.
 */
module View {
  import opened Wrappers
  import opened JsString

  /** A card element of a column list as `getDragAfterElement` sees it: whether it is being dragged, and its vertical midpoint `top + height / 2`. */
  datatype CardBox = CardBox(dragging: bool, mid: int)

  /** The `reduce` accumulator once it holds an element: its offset and its position among the siblings. */
  datatype Pick = Pick(offset: int, index: nat)

  /** `y - box.top - box.height / 2`: negative exactly when the midpoint is below `y`. */
  function Offset(b: CardBox, y: int): (r: int)
    ensures r < 0 <==> b.mid > y
  {
    y - b.mid
  }

  /** A sibling `getDragAfterElement` may return: not the dragged card, and with its midpoint below `y`. */
  predicate Candidate(b: CardBox, y: int) {
    !b.dragging && Offset(b, y) < 0
  }

  /**
   * The `reduce` over the first `n` siblings; the dragged card is skipped,
   * as the `:not(.dragging)` selector leaves it out. `None` is the initial
   * `{ offset: -Infinity }`. A child replaces the accumulator when its offset
   * is negative and strictly greater than the one held.
   */
  function ReduceFrom(sibs: seq<CardBox>, y: int, n: nat): (r: Option<Pick>)
    requires n <= |sibs|
    ensures r.Some? ==>
              r.value.index < n && Candidate(sibs[r.value.index], y) && r.value.offset == Offset(sibs[r.value.index], y)
  {
    if n == 0 then None
    else
      var closest := ReduceFrom(sibs, y, n - 1);
      var child := sibs[n - 1];
      var offset := Offset(child, y);
      if !child.dragging && offset < 0 && (closest.None? || offset > closest.value.offset)
      then Some(Pick(offset, n - 1))
      else closest
  }

  /** `getDragAfterElement(container, y)`: the position of the card to insert before, or null for the end. */
  function DragAfter(sibs: seq<CardBox>, y: int): (r: Option<nat>)
    ensures r.Some? ==> r.value < |sibs| && !sibs[r.value].dragging && sibs[r.value].mid > y
  {
    match ReduceFrom(sibs, y, |sibs|)
    case None => None
    case Some(p) => Some(p.index)
  }

  /**
   * After the first `n` siblings the accumulator is empty exactly when none
   * of them is a candidate; otherwise it holds the candidate with the
   * largest offset, the first of those on ties, and that offset.
   */
  lemma {:induction false} ReduceFromSpec(sibs: seq<CardBox>, y: int, n: nat)
    requires n <= |sibs|
    ensures ReduceFrom(sibs, y, n).None? <==> forall j :: 0 <= j < n ==> !Candidate(sibs[j], y)
    ensures ReduceFrom(sibs, y, n).Some? ==>
              var p := ReduceFrom(sibs, y, n).value;
              && p.index < n
              && Candidate(sibs[p.index], y)
              && p.offset == Offset(sibs[p.index], y)
              && (forall j :: 0 <= j < n && Candidate(sibs[j], y) ==> Offset(sibs[j], y) <= p.offset)
              && (forall j :: 0 <= j < p.index && Candidate(sibs[j], y) ==> Offset(sibs[j], y) < p.offset)
  {
    if n > 0 {
      ReduceFromSpec(sibs, y, n - 1);
    }
  }

  /**
   * `getDragAfterElement` returns the sibling, other than the dragged card,
   * with the smallest midpoint strictly greater than `y` (the first such
   * sibling on ties), and null exactly when no such sibling exists.
   */
  lemma DragAfterSpec(sibs: seq<CardBox>, y: int)
    ensures DragAfter(sibs, y).None? <==> forall j :: 0 <= j < |sibs| ==> sibs[j].dragging || sibs[j].mid <= y
    ensures DragAfter(sibs, y).Some? ==>
              var i := DragAfter(sibs, y).value;
              && i < |sibs| && !sibs[i].dragging && sibs[i].mid > y
              && (forall j :: 0 <= j < |sibs| && !sibs[j].dragging && sibs[j].mid > y ==> sibs[i].mid <= sibs[j].mid)
              && (forall j :: 0 <= j < i && !sibs[j].dragging && sibs[j].mid > y ==> sibs[i].mid < sibs[j].mid)
  {
    ReduceFromSpec(sibs, y, |sibs|);
  }

  /**
   * The search filter: a card stays visible when its lower-cased text
   * includes the trimmed, lower-cased query, so a card shown by a query is at
   * least as long as the trimmed query.
   */
  predicate Visible(text: string, query: string)
    ensures Visible(text, query) ==> |Trim(query)| <= |text|
  {
    Contains(ToLower(text), ToLower(Trim(query)))
  }

  /** An empty or all-white-space query shows every card. */
  lemma BlankQueryShowsAll(text: string, query: string)
    requires AllSpace(query)
    ensures Visible(text, query)
  {
    TrimEmptyIff(query);
    ContainsEmpty(ToLower(text));
  }

  /**
   * A query that matches part of a card's text, such as its title, its
   * description, its assignee or the label of one of its buttons, shows the
   * card.
   */
  lemma MatchingPartShowsCard(text: string, part: string, query: string)
    requires Contains(text, part) && Visible(part, query)
    ensures Visible(text, query)
  {
    ContainsToLower(text, part);
    ContainsTrans(ToLower(text), ToLower(part), ToLower(Trim(query)));
  }

  /**
   * Every card carries an Edit button whose label is part of its text, so
   * the query "edit" shows every card, whatever its fields say.
   */
  lemma EditQueryShowsEveryCard(text: string)
    requires Contains(text, "Edit")
    ensures Visible(text, "edit")
  {
    assert Trim("edit") == "edit";
    assert ToLower("edit") == "edit" && ToLower("Edit") == "edit";
    assert OccursAt("edit", "edit", 0);
    MatchingPartShowsCard(text, "Edit", "edit");
  }
}
