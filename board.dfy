/**
 * The Kanban board of src/js/app.js as values: the four fixed columns, the
 * cards they hold, and the pure meaning of every scan and update the page
 * performs on `state.columns`. The class in `App` runs these updates in place.
 */
module Board {
  import opened Wrappers
  import opened Html

  /** `COLUMNS = ['Backlog','To Do','In Progress','Done']`. */
  datatype Column = Backlog | ToDo | InProgress | Done

  /** The fixed order every scan over the board follows. */
  const COLUMNS: seq<Column> := [Backlog, ToDo, InProgress, Done]

  /** Position of a column in `COLUMNS`. */
  function Rank(c: Column): (r: nat)
    ensures r < |COLUMNS| && COLUMNS[r] == c
  {
    match c
    case Backlog => 0
    case ToDo => 1
    case InProgress => 2
    case Done => 3
  }

  datatype Card = Card(id: string, title: string, desc: string, assignee: string)

  /** `state.columns`: column name to the ordered cards of that column. */
  type Columns = map<Column, seq<Card>>

  /** Every one of the four columns has a list. */
  predicate Complete(b: Columns) {
    forall c: Column :: c in b
  }

  /** `{col, idx}` as `findCardLocation` returns it. */
  datatype Location = Location(col: Column, idx: nat)

  predicate HasId(s: seq<Card>, id: string) {
    exists k :: 0 <= k < |s| && s[k].id == id
  }

  predicate OnBoard(b: Columns, id: string)
    requires Complete(b)
  {
    exists c: Column :: HasId(b[c], id)
  }

  /** `arr.findIndex(c => c.id === id)`: the first position holding `id`, or -1. */
  function FindIndex(s: seq<Card>, id: string): (r: int)
    ensures -1 <= r < |s|
    ensures r >= 0 ==> s[r].id == id
  {
    if s == [] then -1
    else if s[0].id == id then 0
    else
      var r := FindIndex(s[1..], id);
      if r == -1 then -1 else r + 1
  }

  /** `findIndex` answers -1 exactly when no card has `id`, and otherwise the first position that does. */
  lemma {:induction false} FindIndexSpec(s: seq<Card>, id: string)
    ensures FindIndex(s, id) == -1 <==> !HasId(s, id)
    ensures FindIndex(s, id) >= 0 ==>
              s[FindIndex(s, id)].id == id && forall k :: 0 <= k < FindIndex(s, id) ==> s[k].id != id
  {
    if s != [] && s[0].id != id {
      FindIndexSpec(s[1..], id);
      if HasId(s, id) {
        var k :| 0 <= k < |s| && s[k].id == id;
        assert s[1..][k - 1].id == id;
      }
      if HasId(s[1..], id) {
        var k :| 0 <= k < |s[1..]| && s[1..][k].id == id;
        assert s[k + 1].id == id;
      }
      var r := FindIndex(s[1..], id);
      if r >= 0 {
        forall k | 0 <= k < r + 1 ensures s[k].id != id {
          if k > 0 { assert s[k] == s[1..][k - 1]; }
        }
      }
    }
  }

  /** The `for (const col of COLUMNS)` scan of `findCardLocation`, from the `i`-th column on. */
  function LocateFrom(b: Columns, id: string, i: nat): (r: Option<Location>)
    requires Complete(b) && i <= |COLUMNS|
    ensures r.Some? ==> i <= Rank(r.value.col) && r.value.idx < |b[r.value.col]| && b[r.value.col][r.value.idx].id == id
    decreases |COLUMNS| - i
  {
    if i == |COLUMNS| then None
    else
      var k := FindIndex(b[COLUMNS[i]], id);
      if k >= 0 then Some(Location(COLUMNS[i], k)) else LocateFrom(b, id, i + 1)
  }

  /** `findCardLocation(id)`: the scan over all four columns. */
  function Locate(b: Columns, id: string): (r: Option<Location>)
    requires Complete(b)
    ensures r.Some? ==> r.value.idx < |b[r.value.col]| && b[r.value.col][r.value.idx].id == id
  {
    LocateFrom(b, id, 0)
  }

  /** The scan from column `i` finds the first column from there on that holds `id`, at its first position. */
  lemma {:induction false} LocateFromSpec(b: Columns, id: string, i: nat)
    requires Complete(b) && i <= |COLUMNS|
    ensures var r := LocateFrom(b, id, i);
            && (r.None? <==> forall j :: i <= j < |COLUMNS| ==> !HasId(b[COLUMNS[j]], id))
            && (r.Some? ==>
                  && i <= Rank(r.value.col)
                  && r.value.idx == FindIndex(b[r.value.col], id)
                  && forall j :: i <= j < Rank(r.value.col) ==> !HasId(b[COLUMNS[j]], id))
    decreases |COLUMNS| - i
  {
    if i < |COLUMNS| {
      assert Rank(COLUMNS[i]) == i;
      FindIndexSpec(b[COLUMNS[i]], id);
      LocateFromSpec(b, id, i + 1);
    }
  }

  /** Scanning the four entries of `COLUMNS` visits every column of the board. */
  lemma ScanCoversBoard(b: Columns, id: string)
    requires Complete(b)
    ensures (forall j :: 0 <= j < |COLUMNS| ==> !HasId(b[COLUMNS[j]], id)) <==> !OnBoard(b, id)
  {
    if OnBoard(b, id) {
      var c: Column :| HasId(b[c], id);
      assert COLUMNS[Rank(c)] == c;
    }
  }

  /** `findCardLocation(id)` returns null exactly when no column holds `id`. */
  lemma LocateNoneIff(b: Columns, id: string)
    requires Complete(b)
    ensures Locate(b, id).None? <==> !OnBoard(b, id)
  {
    LocateFromSpec(b, id, 0);
    ScanCoversBoard(b, id);
  }

  /**
   * `findCardLocation(id)` returns the first position of `id` in the first
   * column, in `COLUMNS` order, that holds it, and null exactly when no
   * column does.
   */
  lemma LocateSpec(b: Columns, id: string)
    requires Complete(b)
    ensures Locate(b, id).None? <==> !OnBoard(b, id)
    ensures Locate(b, id).Some? ==>
              var Location(col, idx) := Locate(b, id).value;
              && b[col][idx].id == id
              && (forall k :: 0 <= k < idx ==> b[col][k].id != id)
              && (forall c: Column :: Rank(c) < Rank(col) ==> !HasId(b[c], id))
  {
    LocateFromSpec(b, id, 0);
    ScanCoversBoard(b, id);
    if Locate(b, id).Some? {
      var col := Locate(b, id).value.col;
      FindIndexSpec(b[col], id);
      forall c: Column | Rank(c) < Rank(col) ensures !HasId(b[c], id) {
        assert COLUMNS[Rank(c)] == c;
      }
    }
  }

  /**
   * `arr.splice(k, 1)`, as the new array: one item shorter, the items before
   * `k` in place and those after it moved down by one.
   */
  function RemoveAt(s: seq<Card>, k: nat): (r: seq<Card>)
    requires k < |s|
    ensures |r| == |s| - 1
    ensures forall i :: 0 <= i < k ==> r[i] == s[i]
    ensures forall i :: k <= i < |r| ==> r[i] == s[i + 1]
  {
    s[..k] + s[k + 1..]
  }

  /**
   * `removeCardFromState(id)`: the first card with `id`, found by the scan of
   * `Locate`, is cut out of its column; a board without `id` is unchanged.
   */
  function RemoveFirst(b: Columns, id: string): (r: Columns)
    requires Complete(b)
    ensures Complete(r)
    ensures !OnBoard(b, id) ==> r == b
  {
    LocateNoneIff(b, id);
    match Locate(b, id)
    case None => b
    case Some(loc) => b[loc.col := RemoveAt(b[loc.col], loc.idx)]
  }

  /** Where `splice(start, 0, x)` inserts into an array of `len` items: a negative start counts back from the end. */
  function SpliceStart(len: nat, start: int): (k: nat)
    ensures k <= len
    ensures 0 <= start <= len ==> k == start
  {
    if start < 0 then (if len + start < 0 then 0 else len + start)
    else if start < len then start
    else len
  }

  /**
   * `arr.splice(start, 0, x)`, as the new array: one item longer, with `x` at
   * the insert position (`InsertThenRemoveAt` shows that the other items keep
   * their order).
   */
  function Insert(s: seq<Card>, start: int, x: Card): (r: seq<Card>)
    ensures |r| == |s| + 1 && r[SpliceStart(|s|, start)] == x
  {
    var k := SpliceStart(|s|, start);
    s[..k] + [x] + s[k..]
  }

  /** What the drop handler reads off a card element: `data-id` and the text of its `<h4>` and `<p>`, if any. */
  datatype CardElement = CardElement(id: string, heading: Option<string>, paragraph: Option<string>)

  /**
   * The element `createCardElement` builds: title and description go in as
   * escaped markup and are read back as text, which gives back the title and
   * the description themselves.
   */
  function Rendered(c: Card): (r: CardElement)
    ensures r.id == c.id && r.heading == Some(c.title) && r.paragraph == Some(c.desc)
  {
    UnescapeEscapeHtml(c.title);
    UnescapeEscapeHtml(c.desc);
    CardElement(c.id, Some(Unescape(EscapeHtml(c.title))), Some(Unescape(EscapeHtml(c.desc))))
  }

  /** The card `getCardFromElement` makes up when `el`'s id is on no column. */
  function Fallback(el: CardElement): (r: Card)
    ensures r.id == el.id && r.assignee == ""
  {
    Card(el.id, el.heading.GetOr(""), el.paragraph.GetOr(""), "")
  }

  /** `getCardFromElement(el)`: the board's first card with `el`'s id, else the fallback. */
  function CardFor(b: Columns, el: CardElement): (r: Card)
    requires Complete(b)
    ensures r.id == el.id
  {
    match Locate(b, el.id)
    case Some(loc) => b[loc.col][loc.idx]
    case None => Fallback(el)
  }

  /**
   * The card `getCardFromElement` returns always has the element's id; it is
   * a card of the board when the id is on the board, and the fallback
   * otherwise.
   */
  lemma CardForSpec(b: Columns, el: CardElement)
    requires Complete(b)
    ensures CardFor(b, el).id == el.id
    ensures OnBoard(b, el.id) ==> exists c: Column :: CardFor(b, el) in b[c]
    ensures !OnBoard(b, el.id) ==> CardFor(b, el) == Fallback(el)
  {
    LocateSpec(b, el.id);
    if OnBoard(b, el.id) {
      var loc := Locate(b, el.id).value;
      assert CardFor(b, el) in b[loc.col];
    }
  }

  /**
   * The drop commit (src/js/app.js:59-65): remove the dragged id, THEN look the
   * card up, THEN insert it into the target column at the element's index.
   */
  function DropCommit(b: Columns, el: CardElement, target: Column, index: int): (r: Columns)
    requires Complete(b)
    ensures Complete(r)
    ensures var before := RemoveFirst(b, el.id)[target];
            |r[target]| == |before| + 1 && r[target][SpliceStart(|before|, index)].id == el.id
  {
    var removed := RemoveFirst(b, el.id);
    removed[target := Insert(removed[target], index, CardFor(removed, el))]
  }

  // ----- the ids on the board ------------------------------------------------

  /** The ids of a column, in order. */
  function IdList(s: seq<Card>): (r: seq<string>)
    ensures |r| == |s| && forall k :: 0 <= k < |s| ==> r[k] == s[k].id
  {
    seq(|s|, k requires 0 <= k < |s| => s[k].id)
  }

  function Ids(s: seq<Card>): multiset<string> {
    multiset(IdList(s))
  }

  function BoardIds(b: Columns): multiset<string>
    requires Complete(b)
  {
    Ids(b[Backlog]) + Ids(b[ToDo]) + Ids(b[InProgress]) + Ids(b[Done])
  }

  /** Every card identifier appears once, in one column, on the whole board. */
  ghost predicate UniqueIds(b: Columns)
    requires Complete(b)
  {
    forall id :: BoardIds(b)[id] <= 1
  }

  lemma IdsAppend(s: seq<Card>, t: seq<Card>)
    ensures Ids(s + t) == Ids(s) + Ids(t)
  {
    assert IdList(s + t) == IdList(s) + IdList(t);
  }

  lemma IdsHasId(s: seq<Card>, id: string)
    ensures id in Ids(s) <==> HasId(s, id)
  {
    if HasId(s, id) {
      var k :| 0 <= k < |s| && s[k].id == id;
      assert IdList(s)[k] == id;
    }
  }

  lemma IdsSplit(s: seq<Card>, k: nat)
    requires k < |s|
    ensures Ids(s) == Ids(s[..k]) + multiset{s[k].id} + Ids(s[k + 1..])
  {
    var l := IdList(s);
    assert l == IdList(s[..k]) + [s[k].id] + IdList(s[k + 1..]);
    calc {
      Ids(s);
      multiset(IdList(s[..k]) + [s[k].id] + IdList(s[k + 1..]));
      multiset(IdList(s[..k])) + multiset([s[k].id]) + multiset(IdList(s[k + 1..]));
    }
  }

  lemma IdsRemoveAt(s: seq<Card>, k: nat)
    requires k < |s|
    ensures Ids(RemoveAt(s, k)) + multiset{s[k].id} == Ids(s)
  {
    IdsSplit(s, k);
    IdsAppend(s[..k], s[k + 1..]);
  }

  lemma IdsInsert(s: seq<Card>, start: int, x: Card)
    ensures Ids(Insert(s, start, x)) == Ids(s) + multiset{x.id}
  {
    var k := SpliceStart(|s|, start);
    assert Insert(s, start, x) == s[..k] + [x] + s[k..];
    assert IdList(Insert(s, start, x)) == IdList(s[..k]) + [x.id] + IdList(s[k..]);
    assert IdList(s) == IdList(s[..k]) + IdList(s[k..]);
  }

  lemma IdsReplace(s: seq<Card>, k: nat, x: Card)
    requires k < |s| && x.id == s[k].id
    ensures Ids(s[k := x]) == Ids(s)
  {
    IdsSplit(s, k);
    IdsSplit(s[k := x], k);
    assert s[k := x][..k] == s[..k] && s[k := x][k + 1..] == s[k + 1..];
  }

  /** Replacing one column changes the board's ids by exactly that column's difference. */
  lemma BoardIdsUpdate(b: Columns, c: Column, s: seq<Card>)
    requires Complete(b)
    ensures BoardIds(b[c := s]) + Ids(b[c]) == BoardIds(b) + Ids(s)
  {
    var r := b[c := s];
    assert Complete(r);
    var x0, x1, x2, x3 := Ids(b[Backlog]), Ids(b[ToDo]), Ids(b[InProgress]), Ids(b[Done]);
    match c
    case Backlog =>
      assert BoardIds(r) == Ids(s) + x1 + x2 + x3;
    case ToDo =>
      assert BoardIds(r) == x0 + Ids(s) + x2 + x3;
    case InProgress =>
      assert BoardIds(r) == x0 + x1 + Ids(s) + x3;
    case Done =>
      assert BoardIds(r) == x0 + x1 + x2 + Ids(s);
  }

  lemma OnBoardIds(b: Columns, id: string)
    requires Complete(b)
    ensures OnBoard(b, id) <==> id in BoardIds(b)
  {
    IdsHasId(b[Backlog], id);
    IdsHasId(b[ToDo], id);
    IdsHasId(b[InProgress], id);
    IdsHasId(b[Done], id);
    if OnBoard(b, id) {
      var c: Column :| HasId(b[c], id);
      match c
      case Backlog =>
      case ToDo =>
      case InProgress =>
      case Done =>
    }
  }

  /** With unique ids, the card at `loc` is the one every scan for its id finds. */
  lemma UniqueLocate(b: Columns, loc: Location)
    requires Complete(b) && UniqueIds(b) && loc.idx < |b[loc.col]|
    ensures Locate(b, b[loc.col][loc.idx].id) == Some(loc)
  {
    var id := b[loc.col][loc.idx].id;
    assert HasId(b[loc.col], id);
    LocateSpec(b, id);
    var found := Locate(b, id).value;
    if found != loc {
      if found.col == loc.col {
        var s := b[loc.col];
        var i, j := if found.idx < loc.idx then found.idx else loc.idx, if found.idx < loc.idx then loc.idx else found.idx;
        IdsSplit(s, j);
        IdsSplit(s[..j], i);
        ColumnIdsAtMostBoard(b, loc.col, id);
      } else {
        assert HasId(b[found.col], id);
        IdsHasId(b[found.col], id);
        IdsHasId(b[loc.col], id);
        TwoColumnsIdsAtMostBoard(b, found.col, loc.col, id);
      }
      assert false;
    }
  }

  lemma ColumnIdsAtMostBoard(b: Columns, c: Column, id: string)
    requires Complete(b)
    ensures Ids(b[c])[id] <= BoardIds(b)[id]
  {
    match c
    case Backlog =>
    case ToDo =>
    case InProgress =>
    case Done =>
  }

  lemma TwoColumnsIdsAtMostBoard(b: Columns, c: Column, d: Column, id: string)
    requires Complete(b) && c != d
    ensures Ids(b[c])[id] + Ids(b[d])[id] <= BoardIds(b)[id]
  {
    match c
    case Backlog =>
    case ToDo =>
    case InProgress =>
    case Done =>
  }

  /** Adding one id that was not on the board keeps the ids unique. */
  lemma AddFreshUnique(b: Columns, r: Columns, id: string)
    requires Complete(b) && Complete(r) && UniqueIds(b)
    requires id !in BoardIds(b) && BoardIds(r) == BoardIds(b) + multiset{id}
    ensures UniqueIds(r)
  {
    forall x ensures BoardIds(r)[x] <= 1 {
      if x != id {
        assert BoardIds(r)[x] == BoardIds(b)[x];
      }
    }
  }

  /** Inserting one card into one column adds exactly its id to the board. */
  lemma InsertIds(b: Columns, c: Column, index: int, card: Card)
    requires Complete(b)
    ensures BoardIds(b[c := Insert(b[c], index, card)]) == BoardIds(b) + multiset{card.id}
  {
    IdsInsert(b[c], index, card);
    BoardIdsUpdate(b, c, Insert(b[c], index, card));
  }

  // ----- what each update does to the ids ------------------------------------

  /** Removing takes exactly one copy of `id` off the board, if there is one. */
  lemma RemoveFirstIds(b: Columns, id: string)
    requires Complete(b)
    ensures OnBoard(b, id) ==> BoardIds(RemoveFirst(b, id)) + multiset{id} == BoardIds(b)
    ensures !OnBoard(b, id) ==> RemoveFirst(b, id) == b
  {
    LocateSpec(b, id);
    match Locate(b, id)
    case None =>
    case Some(loc) =>
      IdsRemoveAt(b[loc.col], loc.idx);
      BoardIdsUpdate(b, loc.col, RemoveAt(b[loc.col], loc.idx));
  }

  /**
   * Removal cuts out exactly one card when `id` is on the board: the first
   * card with `id` in the first column, in `COLUMNS` order, that holds it.
   * That column loses only that position and every other column is as
   * before.
   */
  lemma RemoveFirstShape(b: Columns, id: string, col: Column, idx: nat)
    requires Complete(b) && idx < |b[col]| && b[col][idx].id == id
    requires forall k :: 0 <= k < idx ==> b[col][k].id != id
    requires forall c: Column :: Rank(c) < Rank(col) ==> !HasId(b[c], id)
    ensures RemoveFirst(b, id)[col] == b[col][..idx] + b[col][idx + 1..]
    ensures forall c: Column :: c != col ==> RemoveFirst(b, id)[c] == b[c]
  {
    LocateSpec(b, id);
    assert OnBoard(b, id) by { assert HasId(b[col], id); }
    var loc := Locate(b, id).value;
    if loc.col != col {
      assert false;
    }
    if loc.idx != idx {
      assert false;
    }
  }

  /** With unique ids, removal leaves no card with `id` and keeps the rest unique. */
  lemma RemoveFirstUnique(b: Columns, id: string)
    requires Complete(b) && UniqueIds(b)
    ensures UniqueIds(RemoveFirst(b, id))
    ensures !OnBoard(RemoveFirst(b, id), id)
  {
    var r := RemoveFirst(b, id);
    RemoveFirstIds(b, id);
    OnBoardIds(b, id);
    OnBoardIds(r, id);
    if OnBoard(b, id) {
      assert BoardIds(r)[id] + 1 == BoardIds(b)[id];
      forall x ensures BoardIds(r)[x] <= 1 {
        assert BoardIds(r)[x] <= BoardIds(b)[x];
      }
    }
  }

  /**
   * With unique ids the lookup after the removal never finds the dragged id,
   * so the drop commit inserts the fallback rebuilt from the element at the
   * spliced index of the target column, and no other column holds the id.
   */
  lemma DropCommitPlaces(b: Columns, el: CardElement, target: Column, index: int)
    requires Complete(b) && UniqueIds(b)
    ensures var k := SpliceStart(|RemoveFirst(b, el.id)[target]|, index);
            k < |DropCommit(b, el, target, index)[target]|
            && DropCommit(b, el, target, index)[target][k] == Fallback(el)
    ensures forall c: Column :: c != target ==> !HasId(DropCommit(b, el, target, index)[c], el.id)
  {
    var removed := RemoveFirst(b, el.id);
    var r := DropCommit(b, el, target, index);
    RemoveFirstUnique(b, el.id);
    CardForSpec(removed, el);
    forall c: Column | c != target ensures !HasId(r[c], el.id) {
      assert r[c] == removed[c];
    }
  }

  /**
   * The drop commit keeps ids unique. When the id was on the board the
   * multiset of ids is unchanged (moved, neither lost nor duplicated);
   * otherwise the board gains that one id.
   */
  lemma DropCommitIds(b: Columns, el: CardElement, target: Column, index: int)
    requires Complete(b) && UniqueIds(b)
    ensures UniqueIds(DropCommit(b, el, target, index))
    ensures OnBoard(b, el.id) ==> BoardIds(DropCommit(b, el, target, index)) == BoardIds(b)
    ensures !OnBoard(b, el.id) ==> BoardIds(DropCommit(b, el, target, index)) == BoardIds(b) + multiset{el.id}
  {
    var removed := RemoveFirst(b, el.id);
    var r := DropCommit(b, el, target, index);
    RemoveFirstUnique(b, el.id);
    RemoveFirstIds(b, el.id);
    CardForSpec(removed, el);
    InsertIds(removed, target, index, CardFor(removed, el));
    OnBoardIds(removed, el.id);
    AddFreshUnique(removed, r, el.id);
  }

  /**
   * Dropping a card that is rendered from the board: it lands at the spliced
   * index of the target column with its id, title and description but with an
   * empty assignee, because the lookup runs after the removal and falls back.
   * It is in no other column, and the ids on the board are the same multiset.
   */
  lemma DropRenderedCard(b: Columns, loc: Location, target: Column, index: int)
    requires Complete(b) && UniqueIds(b) && loc.idx < |b[loc.col]|
    ensures var card := b[loc.col][loc.idx];
            var r := DropCommit(b, Rendered(card), target, index);
            var k := SpliceStart(|RemoveFirst(b, card.id)[target]|, index);
            && k < |r[target]|
            && r[target][k] == card.(assignee := "")
            && (forall c: Column :: c != target ==> !HasId(r[c], card.id))
            && BoardIds(r) == BoardIds(b) && UniqueIds(r)
  {
    var card := b[loc.col][loc.idx];
    var el := Rendered(card);
    assert Fallback(el) == card.(assignee := "");
    assert OnBoard(b, card.id) by { assert HasId(b[loc.col], card.id); }
    DropCommitPlaces(b, el, target, index);
    DropCommitIds(b, el, target, index);
  }

  /** Inserting into one column and cutting the new card out again gives the column back. */
  lemma InsertThenRemoveAt(s: seq<Card>, index: int, x: Card)
    ensures var k := SpliceStart(|s|, index);
            k < |Insert(s, index, x)| && Insert(s, index, x)[k] == x && RemoveAt(Insert(s, index, x), k) == s
  {
    var k := SpliceStart(|s|, index);
    assert RemoveAt(Insert(s, index, x), k) == s[..k] + s[k..];
  }

  /**
   * A drop changes two slots only: the first card with the dragged id (at
   * `loc`) is cut out of its column and one card is inserted into the target
   * column; every other column, and every other position, is as before.
   */
  lemma DropChangesOnlyTwoSlots(b: Columns, loc: Location, el: CardElement, target: Column, index: int)
    requires Complete(b) && Locate(b, el.id) == Some(loc)
    ensures var r := DropCommit(b, el, target, index);
            var k := SpliceStart(|RemoveFirst(b, el.id)[target]|, index);
            && k < |r[target]|
            && (forall c: Column :: c != target && c != loc.col ==> r[c] == b[c])
            && (loc.col != target ==> r[loc.col] == RemoveAt(b[loc.col], loc.idx))
            && (loc.col != target ==> RemoveAt(r[target], k) == b[target])
            && (loc.col == target ==> RemoveAt(r[target], k) == RemoveAt(b[target], loc.idx))
  {
    var removed := RemoveFirst(b, el.id);
    InsertThenRemoveAt(removed[target], index, CardFor(removed, el));
  }

  // ----- the save-card handler -----------------------------------------------

  /** Editing in place keeps the card's id, so the ids on the board are unchanged. */
  lemma ReplaceKeepsIds(b: Columns, loc: Location, card: Card)
    requires Complete(b) && loc.idx < |b[loc.col]| && card.id == b[loc.col][loc.idx].id
    ensures BoardIds(b[loc.col := b[loc.col][loc.idx := card]]) == BoardIds(b)
  {
    IdsReplace(b[loc.col], loc.idx, card);
    BoardIdsUpdate(b, loc.col, b[loc.col][loc.idx := card]);
  }

  /** Appending a card with a fresh id to Backlog adds that id once and keeps ids unique. */
  lemma AppendFreshKeepsUnique(b: Columns, card: Card)
    requires Complete(b) && UniqueIds(b) && !OnBoard(b, card.id)
    ensures BoardIds(b[Backlog := b[Backlog] + [card]]) == BoardIds(b) + multiset{card.id}
    ensures UniqueIds(b[Backlog := b[Backlog] + [card]])
  {
    var r := b[Backlog := b[Backlog] + [card]];
    IdsAppend(b[Backlog], [card]);
    assert Ids([card]) == multiset{card.id} by { assert [card][1..] == []; }
    BoardIdsUpdate(b, Backlog, b[Backlog] + [card]);
    OnBoardIds(b, card.id);
    forall x ensures BoardIds(r)[x] <= 1 {
      if x != card.id {
        assert BoardIds(r)[x] == BoardIds(b)[x];
      }
    }
  }
}
