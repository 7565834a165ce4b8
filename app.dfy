/**
 * The page state of src/js/app.js: the global `state.columns`, the `editing`
 * location of the card dialog and the one localStorage slot, with the
 * handlers that change them in place. DOM rendering is not modelled; the
 * values the handlers read from the DOM are parameters.
 */
module App {
  import opened Wrappers
  import opened JsString
  import opened Board

  /** The three inputs of the card dialog: title, description, assignee. */
  datatype Form = Form(title: string, desc: string, assignee: string)

  /** How a click on Save ends. */
  datatype SaveOutcome =
    | TitleRequired  // the trimmed title is empty: alert, nothing changes
    | StaleLocation  // `editing` points past the end of its column: reading `.id` of undefined throws
    | Saved

  /** The card Save stores under `id`: the dialog's fields, each trimmed and no longer than typed. */
  function CardOf(id: string, form: Form): (r: Card)
    ensures r.id == id
    ensures Trimmed(r.title) && Trimmed(r.desc) && Trimmed(r.assignee)
    ensures |r.title| <= |form.title| && |r.desc| <= |form.desc| && |r.assignee| <= |form.assignee|
  {
    Card(id, Trim(form.title), Trim(form.desc), Trim(form.assignee))
  }

  /**
   * What the Save handler does to the board, as an outcome and the columns
   * afterwards: the title is trimmed and must not be empty; in edit mode the
   * card at the remembered location is replaced by one with the same id and
   * the trimmed fields; in create mode a card with the fresh id `newId`
   * (standing for `uid()`) is pushed onto Backlog.
   */
  function SaveEffect(b: Columns, editing: Option<Location>, form: Form, newId: string): (r: (SaveOutcome, Columns))
    requires Complete(b)
    ensures Complete(r.1)
    ensures r.0 != Saved ==> r.1 == b
    ensures r.0 == StaleLocation ==> editing.Some?
  {
    if Trim(form.title) == [] then (TitleRequired, b)
    else match editing
      case Some(loc) =>
        if loc.idx >= |b[loc.col]| then (StaleLocation, b)
        else (Saved, b[loc.col := b[loc.col][loc.idx := CardOf(b[loc.col][loc.idx].id, form)]])
      case None =>
        (Saved, b[Backlog := b[Backlog] + [CardOf(newId, form)]])
  }

  /** A title that is empty or all white space is refused and the board is left as it was. */
  lemma SaveRejectsBlankTitle(b: Columns, editing: Option<Location>, form: Form, newId: string)
    requires Complete(b)
    ensures SaveEffect(b, editing, form, newId).0 == TitleRequired <==> AllSpace(form.title)
    ensures SaveEffect(b, editing, form, newId).0 != Saved ==> SaveEffect(b, editing, form, newId).1 == b
  {
    TrimEmptyIff(form.title);
  }

  /**
   * In edit mode a save replaces only the card at the remembered location: its
   * id is kept, its fields are the trimmed inputs, and every other position
   * and every other column is unchanged.
   */
  lemma SaveEditReplacesOneSlot(b: Columns, loc: Location, form: Form, newId: string)
    requires Complete(b) && !AllSpace(form.title) && loc.idx < |b[loc.col]|
    ensures var (outcome, r) := SaveEffect(b, Some(loc), form, newId);
            && outcome == Saved
            && Complete(r)
            && r[loc.col][loc.idx] == Card(b[loc.col][loc.idx].id, Trim(form.title), Trim(form.desc), Trim(form.assignee))
            && |r[loc.col]| == |b[loc.col]|
            && (forall k :: 0 <= k < |b[loc.col]| && k != loc.idx ==> r[loc.col][k] == b[loc.col][k])
            && (forall c: Column :: c != loc.col ==> r[c] == b[c])
  {
    TrimEmptyIff(form.title);
  }

  /**
   * In create mode a save appends one card, with the fresh id and the trimmed
   * inputs, at the end of Backlog and leaves every other column untouched.
   */
  lemma SaveCreateAppendsToBacklog(b: Columns, form: Form, newId: string)
    requires Complete(b) && !AllSpace(form.title)
    ensures var (outcome, r) := SaveEffect(b, None, form, newId);
            && outcome == Saved
            && Complete(r)
            && r[Backlog] == b[Backlog] + [Card(newId, Trim(form.title), Trim(form.desc), Trim(form.assignee))]
            && (forall c: Column :: c != Backlog ==> r[c] == b[c])
  {
    TrimEmptyIff(form.title);
  }

  /**
   * A save keeps every card id unique: an edit keeps the id it replaces and a
   * new card gets an id that is not on the board.
   */
  lemma SaveKeepsUniqueIds(b: Columns, editing: Option<Location>, form: Form, newId: string)
    requires Complete(b) && UniqueIds(b) && !OnBoard(b, newId)
    ensures Complete(SaveEffect(b, editing, form, newId).1)
    ensures UniqueIds(SaveEffect(b, editing, form, newId).1)
  {
    var r := SaveEffect(b, editing, form, newId).1;
    if SaveEffect(b, editing, form, newId).0 == Saved {
      match editing
      case Some(loc) =>
        var card := CardOf(b[loc.col][loc.idx].id, form);
        assert r == b[loc.col := b[loc.col][loc.idx := card]];
        ReplaceKeepsIds(b, loc, card);
      case None =>
        assert r == b[Backlog := b[Backlog] + [CardOf(newId, form)]];
        AppendFreshKeepsUnique(b, CardOf(newId, form));
    }
  }

  /** The card a fresh board starts with: it has the fresh id and a non-empty title without white space at its ends. */
  function WelcomeCard(id: string): (r: Card)
    ensures r.id == id && r.title != [] && Trimmed(r.title)
  {
    Card(id, "Welcome to FlowBoard", "Drag me to different columns", "Team")
  }

  class FlowBoard {
    /** `state.columns`. */
    var columns: Columns
    /** `editing`: where Save writes back, or `None` when the dialog creates a card. */
    var editing: Option<Location>
    /** The localStorage slot `flowboard:v1`: the last saved snapshot of `columns`. */
    var stored: Option<Columns>

    /** All four columns exist. (That no card id occurs twice is proved of each update in `Board` and below.) */
    ghost predicate Valid()
      reads this
    {
      Complete(columns)
    }

    /**
     * `load()`: take the stored snapshot if there is one; otherwise give every
     * column an empty list, push the welcome card (with the caller-supplied id
     * standing for `uid()`) onto Backlog, and save.
     */
    constructor Load(slot: Option<Columns>, seedId: string)
      requires slot.Some? ==> Complete(slot.value)
      ensures Valid() && editing == None
      ensures slot.Some? ==> columns == slot.value && stored == slot
      ensures slot.None? ==> && columns[Backlog] == [WelcomeCard(seedId)]
                             && (forall c: Column :: c != Backlog ==> columns[c] == [])
                             && UniqueIds(columns) && stored == Some(columns)
    {
      editing := None;
      if slot.Some? {
        columns := slot.value;
        stored := slot;
      } else {
        var cols: Columns := map[];
        for i := 0 to |COLUMNS|
          invariant forall j :: 0 <= j < i ==> COLUMNS[j] in cols
          invariant forall c :: c in cols ==> cols[c] == []
        {
          cols := cols[COLUMNS[i] := []];
        }
        assert forall c: Column :: c in cols by {
          forall c: Column ensures c in cols { assert COLUMNS[Rank(c)] == c; }
        }
        cols := cols[Backlog := cols[Backlog] + [WelcomeCard(seedId)]];
        assert IdList(cols[Backlog]) == [seedId];
        assert BoardIds(cols) == multiset{seedId};
        columns := cols;
        stored := Some(cols);
      }
    }

    /** `save()`: overwrite the slot with the whole board. */
    method Save()
      modifies this`stored
      ensures stored == Some(columns)
    {
      stored := Some(columns);
    }

    /** `findCardLocation(id)`: scan the columns in order and stop at the first that holds `id`. */
    method FindCardLocation(id: string) returns (loc: Option<Location>)
      requires Valid()
      ensures loc == Locate(columns, id)
    {
      for i := 0 to |COLUMNS|
        invariant LocateFrom(columns, id, i) == LocateFrom(columns, id, 0)
      {
        var idx := FindIndex(columns[COLUMNS[i]], id);
        if idx != -1 {
          return Some(Location(COLUMNS[i], idx));
        }
      }
      return None;
    }

    /**
     * `removeCardFromState(id)`: splice the first card with `id` out of the
     * first column that holds it and report whether there was one.
     */
    method RemoveCardFromState(id: string) returns (found: bool)
      requires Valid()
      modifies this`columns
      ensures Valid()
      ensures found == OnBoard(old(columns), id)
      ensures columns == RemoveFirst(old(columns), id)
    {
      LocateNoneIff(columns, id);
      for i := 0 to |COLUMNS|
        invariant columns == old(columns)
        invariant LocateFrom(columns, id, i) == LocateFrom(columns, id, 0)
      {
        var arr := columns[COLUMNS[i]];
        var idx := FindIndex(arr, id);
        if idx != -1 {
          columns := columns[COLUMNS[i] := arr[..idx] + arr[idx + 1..]];
          return true;
        }
      }
      return false;
    }

    /**
     * `getCardFromElement(el)`: the first card on the board with `el`'s id,
     * scanning columns in order; if there is none, a card rebuilt from the
     * element's heading and paragraph with an empty assignee.
     */
    method GetCardFromElement(el: CardElement) returns (card: Card)
      requires Valid()
      ensures card == CardFor(columns, el)
    {
      for i := 0 to |COLUMNS|
        invariant LocateFrom(columns, el.id, i) == LocateFrom(columns, el.id, 0)
      {
        var arr := columns[COLUMNS[i]];
        var idx := FindIndex(arr, el.id);
        if idx != -1 {
          return arr[idx];
        }
      }
      return Fallback(el);
    }

    /** `state.columns[col].splice(index, 0, card)`: insert `card` into one column, in place. */
    method SpliceInto(target: Column, index: int, card: Card)
      requires Valid()
      modifies this`columns
      ensures Valid()
      ensures columns == old(columns)[target := Insert(old(columns)[target], index, card)]
    {
      columns := columns[target := Insert(columns[target], index, card)];
    }

    /**
     * The column's `drop` listener: with no dragged element nothing happens;
     * otherwise remove its id from the board, then look the card up, then
     * splice it into the target column at the element's index, and save.
     */
    method Drop(dragging: Option<CardElement>, target: Column, index: int)
      requires Valid()
      modifies this
      ensures Valid() && editing == old(editing)
      ensures dragging.None? ==> columns == old(columns) && stored == old(stored)
      ensures dragging.Some? ==> columns == DropCommit(old(columns), dragging.value, target, index)
                                 && stored == Some(columns)
    {
      if dragging.None? {
        return;
      }
      var el := dragging.value;
      var _ := RemoveCardFromState(el.id);
      var card := GetCardFromElement(el);
      SpliceInto(target, index, card);
      Save();
    }

    /** `deleteCard(id)`: remove the first card with `id`, if any, and save either way. */
    method DeleteCard(id: string)
      requires Valid()
      modifies this
      ensures Valid() && editing == old(editing)
      ensures columns == RemoveFirst(old(columns), id) && stored == Some(columns)
      ensures !OnBoard(old(columns), id) ==> columns == old(columns)
    {
      RemoveFirstIds(columns, id);
      var _ := RemoveCardFromState(id);
      Save();
    }

    /** The Edit button: remember where the card is and prefill the dialog with its fields. */
    method OpenEdit(card: Card) returns (form: Form)
      requires Valid()
      modifies this`editing
      ensures editing == Locate(columns, card.id)
      ensures form == Form(card.title, card.desc, card.assignee)
    {
      editing := FindCardLocation(card.id);
      form := Form(card.title, card.desc, card.assignee);
    }

    /** The Add Card button: the dialog will create a card. */
    method OpenCreate()
      modifies this`editing
      ensures editing == None
    {
      editing := None;
    }

    /** `hideModal()` (Cancel, Escape, or after a save): forget the editing location. */
    method HideModal()
      modifies this`editing
      ensures editing == None
    {
      editing := None;
    }

    /**
     * The Save button: `SaveEffect` says what happens to the board; a
     * successful save also writes the slot and closes the dialog, while a
     * rejected one leaves everything as it was.
     */
    method SaveCard(form: Form, newId: string) returns (outcome: SaveOutcome)
      requires Valid()
      modifies this
      ensures Valid()
      ensures (outcome, columns) == SaveEffect(old(columns), old(editing), form, newId)
      ensures outcome == Saved ==> editing == None && stored == Some(columns)
      ensures outcome != Saved ==> editing == old(editing) && stored == old(stored)
    {
      var t := Trim(form.title);
      if t == [] {
        return TitleRequired;
      }
      if editing.Some? && editing.value.idx >= |columns[editing.value.col]| {
        return StaleLocation;
      }
      if editing.Some? {
        var loc := editing.value;
        var card := CardOf(columns[loc.col][loc.idx].id, form);
        columns := columns[loc.col := columns[loc.col][loc.idx := card]];
      } else {
        var card := CardOf(newId, form);
        columns := columns[Backlog := columns[Backlog] + [card]];
      }
      Save();
      HideModal();
      outcome := Saved;
    }
  }
}
