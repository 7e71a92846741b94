/** The bookmark-list controller: the collection operations behind the add form,
    the remove and star buttons, the search box, and the load-or-seed start-up.
    The random id, the answer to the confirmation prompt and the storage read
    are parameters. */
module Controller {
  import opened Wrappers
  import opened Strings
  import opened Seqs
  import opened Bookmarks

  /** The add form's three text fields. */
  datatype Form = Form(title: string, url: string, tags: string)

  /** No two entries share an id. Nothing in the controller enforces this; it
      holds as long as every fresh id differs from the ids already present. */
  predicate UniqueIds(coll: seq<Bookmark>) {
    forall i, j :: 0 <= i < j < |coll| ==> coll[i].id != coll[j].id
  }

  predicate HasId(coll: seq<Bookmark>, id: string) {
    exists i :: 0 <= i < |coll| && coll[i].id == id
  }

  // ---------------------------------------------------------------- add

  /** Submitting the add form. An empty title or URL is rejected and the
      collection is left alone; otherwise the new bookmark goes in front. */
  function Add(coll: seq<Bookmark>, form: Form, freshId: string): (r: seq<Bookmark>)
    ensures form.title == "" || form.url == "" ==> r == coll
    ensures form.title != "" && form.url != "" ==>
              && |r| == |coll| + 1
              && r[1..] == coll
              && r[0].id == freshId
              && r[0].title == form.title
              && HasHttpPrefix(UrlOf(r[0]))
              && TagsOf(r[0]) == ParseTags(form.tags)
              && !IsFavorite(r[0])
    ensures form.title != "" && form.url != "" ==>
              r == [NewBookmark(freshId, form.title, form.url, form.tags)] + coll
  {
    if form.title == "" || form.url == "" then coll
    else [NewBookmark(freshId, form.title, form.url, form.tags)] + coll
  }

  /** A fresh id keeps the ids unique. */
  lemma AddKeepsUniqueIds(coll: seq<Bookmark>, form: Form, freshId: string)
    requires UniqueIds(coll)
    requires !HasId(coll, freshId)
    ensures UniqueIds(Add(coll, form, freshId))
  {
  }

  // ---------------------------------------------------------------- remove

  /** The filter predicate of a removal: the entries that stay. */
  function KeepOthers(id: string): Bookmark -> bool {
    (b: Bookmark) => b.id != id
  }

  /** The remove button: only a confirmed prompt removes, and then every entry
      carrying `id` goes. */
  function Remove(coll: seq<Bookmark>, id: string, confirmed: bool): (r: seq<Bookmark>)
    ensures !confirmed ==> r == coll
    ensures confirmed ==> IsSubsequence(r, coll)
    ensures confirmed ==> forall i :: 0 <= i < |r| ==> r[i].id != id
    ensures confirmed ==> forall i :: 0 <= i < |coll| && coll[i].id != id ==> coll[i] in r
    ensures confirmed ==> forall x :: multiset(r)[x] == if x.id != id then multiset(coll)[x] else 0
    ensures !HasId(coll, id) ==> r == coll
  {
    if !confirmed then coll
    else
      var r := Filter(coll, KeepOthers(id));
      FilterIsSubsequence(coll, KeepOthers(id));
      FilterCounts(coll, KeepOthers(id));
      assert forall i :: 0 <= i < |r| ==> r[i] in r;
      r
  }

  /** With unique ids, a confirmed removal of a present id deletes exactly that
      one entry and keeps the others in order. */
  lemma RemoveExactlyOne(coll: seq<Bookmark>, id: string, k: nat)
    requires UniqueIds(coll)
    requires k < |coll| && coll[k].id == id
    ensures Remove(coll, id, true) == coll[..k] + coll[k + 1..]
    ensures |Remove(coll, id, true)| == |coll| - 1
  {
    var p := KeepOthers(id);
    forall i | 0 <= i < |coll| && i != k ensures p(coll[i]) {
      assert coll[i].id != coll[k].id;
    }
    FilterDropsOne(coll, p, k);
  }

  /** Removing keeps the ids unique. */
  lemma {:induction false} FilterKeepsUniqueIds(coll: seq<Bookmark>, p: Bookmark -> bool)
    requires UniqueIds(coll)
    ensures UniqueIds(Filter(coll, p))
  {
    if |coll| > 0 {
      var tail := coll[1..];
      TailKeepsUniqueIds(coll);
      FilterKeepsUniqueIds(tail, p);
      var rest := Filter(tail, p);
      if p(coll[0]) {
        forall m | 0 <= m < |rest| ensures rest[m].id != coll[0].id {
          assert rest[m] in rest;
          HeadIdNotInTail(coll, rest[m]);
        }
        ConsKeepsUniqueIds(coll[0], rest);
      }
    }
  }

  /** Dropping the first entry keeps the ids unique. */
  lemma TailKeepsUniqueIds(coll: seq<Bookmark>)
    requires UniqueIds(coll) && |coll| > 0
    ensures UniqueIds(coll[1..])
  {
  }

  /** With unique ids, no later entry shares the first entry's id. */
  lemma HeadIdNotInTail(coll: seq<Bookmark>, x: Bookmark)
    requires UniqueIds(coll) && |coll| > 0 && x in coll[1..]
    ensures x.id != coll[0].id
  {
  }

  /** Putting an entry with an unused id in front keeps the ids unique. */
  lemma ConsKeepsUniqueIds(x: Bookmark, rest: seq<Bookmark>)
    requires UniqueIds(rest)
    requires forall m :: 0 <= m < |rest| ==> rest[m].id != x.id
    ensures UniqueIds([x] + rest)
  {
  }

  // ---------------------------------------------------------------- favorite

  /** `b` and `c` agree on every field except `favorite`. */
  predicate SameExceptFavorite(b: Bookmark, c: Bookmark) {
    b.(favorite := None) == c.(favorite := None)
  }

  /** The star button: every entry carrying `id` has its flag flipped (an
      absent flag reads as false, so it becomes true); nothing else changes. */
  function ToggleFavorite(coll: seq<Bookmark>, id: string): (r: seq<Bookmark>)
    ensures |r| == |coll|
    ensures forall i :: 0 <= i < |coll| ==> SameExceptFavorite(r[i], coll[i]) && r[i].favorite.Some? == (coll[i].favorite.Some? || coll[i].id == id)
    ensures forall i :: 0 <= i < |coll| && coll[i].id != id ==> r[i] == coll[i]
    ensures forall i :: 0 <= i < |coll| && coll[i].id == id ==> IsFavorite(r[i]) == !IsFavorite(coll[i])
  {
    seq(|coll|, i requires 0 <= i < |coll| =>
      if coll[i].id == id then coll[i].(favorite := Some(!IsFavorite(coll[i]))) else coll[i])
  }

  /** Toggling twice restores every entry's flag as the star shows it, and every
      other field; entries whose flag was stored come back identical. */
  lemma ToggleTwice(coll: seq<Bookmark>, id: string)
    ensures |ToggleFavorite(ToggleFavorite(coll, id), id)| == |coll|
    ensures forall i :: 0 <= i < |coll| ==>
              var b := ToggleFavorite(ToggleFavorite(coll, id), id)[i];
              SameExceptFavorite(b, coll[i]) && IsFavorite(b) == IsFavorite(coll[i])
              && (coll[i].favorite.Some? ==> b == coll[i])
  {
    var once := ToggleFavorite(coll, id);
    var twice := ToggleFavorite(once, id);
    forall i | 0 <= i < |coll|
      ensures SameExceptFavorite(twice[i], coll[i]) && IsFavorite(twice[i]) == IsFavorite(coll[i])
      ensures coll[i].favorite.Some? ==> twice[i] == coll[i]
    {
      assert once[i].id == coll[i].id;
      if coll[i].id == id && coll[i].favorite.Some? {
        assert once[i].favorite == Some(!IsFavorite(coll[i]));
        assert twice[i].favorite == Some(!IsFavorite(once[i]));
        assert IsFavorite(coll[i]) == coll[i].favorite.value;
        assert twice[i].favorite == coll[i].favorite;
        assert twice[i] == coll[i].(favorite := coll[i].favorite);
      }
    }
  }

  /** Toggling keeps the ids unique. */
  lemma ToggleKeepsUniqueIds(coll: seq<Bookmark>, id: string)
    requires UniqueIds(coll)
    ensures UniqueIds(ToggleFavorite(coll, id))
  {
  }

  // ---------------------------------------------------------------- search

  /** `b` matches the already-lowered query `q` in its title, one of its tags
      or its URL. Every entry matches the empty query, since the empty string
      occurs in every title. */
  predicate Matches(b: Bookmark, q: string)
    ensures q == "" ==> Matches(b, q)
  {
    EmptyIsSubstring(Lower(b.title));
    IsSubstring(q, Lower(b.title))
    || (exists t :: t in TagsOf(b) && IsSubstring(q, Lower(t)))
    || IsSubstring(q, Lower(UrlOf(b)))
  }

  /** The filter predicate of the search: `!q || <some field matches q>`. */
  function Matcher(q: string): Bookmark -> bool {
    (b: Bookmark) => q == "" || Matches(b, q)
  }

  /** The visible list for a search text: the entries that match it, in
      collection order; an empty search shows everything. */
  function Filtered(coll: seq<Bookmark>, query: string): (r: seq<Bookmark>)
    ensures IsSubsequence(r, coll)
    ensures forall i :: 0 <= i < |r| ==> r[i] in coll && Matches(r[i], Lower(query))
    ensures forall i :: 0 <= i < |coll| && Matches(coll[i], Lower(query)) ==> coll[i] in r
    ensures forall x :: multiset(r)[x] == if Matches(x, Lower(query)) then multiset(coll)[x] else 0
    ensures query == "" ==> r == coll
  {
    SearchSelects(coll, Lower(query));
    Filter(coll, Matcher(Lower(query)))
  }

  /** What filtering with the search predicate keeps. */
  lemma SearchSelects(coll: seq<Bookmark>, q: string)
    ensures IsSubsequence(Filter(coll, Matcher(q)), coll)
    ensures forall i :: 0 <= i < |Filter(coll, Matcher(q))| ==>
              Filter(coll, Matcher(q))[i] in coll && Matches(Filter(coll, Matcher(q))[i], q)
    ensures forall i :: 0 <= i < |coll| && Matches(coll[i], q) ==> coll[i] in Filter(coll, Matcher(q))
    ensures forall x :: multiset(Filter(coll, Matcher(q)))[x] == if Matches(x, q) then multiset(coll)[x] else 0
    ensures q == "" ==> Filter(coll, Matcher(q)) == coll
  {
    var p := Matcher(q);
    var r := Filter(coll, p);
    FilterIsSubsequence(coll, p);
    FilterCounts(coll, p);
    forall i | 0 <= i < |r| ensures r[i] in coll && Matches(r[i], q) {
      assert r[i] in r;
    }
    forall i | 0 <= i < |coll| && Matches(coll[i], q) ensures coll[i] in r {
      assert p(coll[i]);
    }
    if q == "" {
      forall i | 0 <= i < |coll| ensures p(coll[i]) {
      }
    }
  }

  /** After a successful add, the view is the new entry (when it matches the
      search) followed by the view before the add. */
  lemma FilteredAfterAdd(coll: seq<Bookmark>, form: Form, freshId: string, query: string)
    requires form.title != "" && form.url != ""
    ensures var b := NewBookmark(freshId, form.title, form.url, form.tags);
            Filtered(Add(coll, form, freshId), query)
              == (if Matches(b, Lower(query)) then [b] else []) + Filtered(coll, query)
  {
  }

  /** A query that no entry matches gives the empty view. */
  lemma FilteredNoMatch(coll: seq<Bookmark>, query: string)
    requires forall i :: 0 <= i < |coll| ==> !Matches(coll[i], Lower(query))
    ensures Filtered(coll, query) == []
  {
  }

  // ---------------------------------------------------------------- start-up

  /** What reading the storage slot produced. */
  datatype Slot =
    | Unreadable           // the read threw
    | Empty                // nothing stored under the key
    | Holds(raw: string)   // the stored text

  /** The initial collection: the parsed stored list when the slot holds
      non-empty text that parses, otherwise the seed list. `parse` stands for
      the JSON decoder, `None` meaning it threw. */
  function Initial(slot: Slot, parse: string -> Option<seq<Bookmark>>, id1: string, id2: string): (r: seq<Bookmark>)
    ensures slot.Holds? && slot.raw != "" && parse(slot.raw).Some? ==> r == parse(slot.raw).value
    ensures !(slot.Holds? && slot.raw != "" && parse(slot.raw).Some?) ==>
              && |r| == 2
              && r[0].title == "MDN Web Docs" && r[1].title == "Stack Overflow"
              && r[0].id == id1 && r[1].id == id2
              && forall i :: 0 <= i < 2 ==> HasHttpPrefix(UrlOf(r[i])) && !IsFavorite(r[i])
    ensures !(slot.Holds? && slot.raw != "" && parse(slot.raw).Some?) ==> r == Seed(id1, id2)
  {
    match slot
    case Holds(raw) =>
      if raw == "" then Seed(id1, id2)
      else (match parse(raw) case Some(bs) => bs case None => Seed(id1, id2))
    case _ => Seed(id1, id2)
  }

  /** Start-up yields unique ids when the two seed ids differ and a parsed
      stored list, if used, has unique ids itself. */
  lemma InitialUniqueIds(slot: Slot, parse: string -> Option<seq<Bookmark>>, id1: string, id2: string)
    requires id1 != id2
    requires slot.Holds? && slot.raw != "" && parse(slot.raw).Some? ==> UniqueIds(parse(slot.raw).value)
    ensures UniqueIds(Initial(slot, parse, id1, id2))
  {
  }

  // ---------------------------------------------------------------- session

  /** The controller's state: the collection, the search text, and the last
      snapshot written to storage. Every write is taken to succeed. */
  datatype Session = Session(bookmarks: seq<Bookmark>, query: string, saved: seq<Bookmark>)

  /** One user event, with the nondeterministic inputs it needs. */
  datatype Event =
    | Submit(form: Form, freshId: string)
    | RemoveClicked(id: string, confirmed: bool)
    | StarClicked(id: string)
    | QueryTyped(text: string)

  /** Start-up: load or seed, empty search, and the first write of the collection. */
  function Start(slot: Slot, parse: string -> Option<seq<Bookmark>>, id1: string, id2: string): (s: Session)
    ensures s.bookmarks == Initial(slot, parse, id1, id2)
    ensures s.saved == s.bookmarks
    ensures s.query == ""
  {
    var coll := Initial(slot, parse, id1, id2);
    Session(coll, "", coll)
  }

  /** Whether handling `e` replaces the collection (which triggers a write). */
  predicate Replaces(e: Event) {
    match e
    case Submit(form, _) => form.title != "" && form.url != ""
    case RemoveClicked(_, confirmed) => confirmed
    case StarClicked(_) => true
    case QueryTyped(_) => false
  }

  /** Handling one event. A replaced collection is written to storage at once;
      typing in the search box never touches the collection. */
  function Step(s: Session, e: Event): (t: Session)
    ensures Replaces(e) ==> t.saved == t.bookmarks
    ensures !Replaces(e) ==> t.bookmarks == s.bookmarks && t.saved == s.saved
    ensures e.QueryTyped? ==> t.query == e.text
    ensures !e.QueryTyped? ==> t.query == s.query
    ensures e.Submit? ==> t.bookmarks == Add(s.bookmarks, e.form, e.freshId)
    ensures e.RemoveClicked? ==> t.bookmarks == Remove(s.bookmarks, e.id, e.confirmed)
    ensures e.StarClicked? ==> t.bookmarks == ToggleFavorite(s.bookmarks, e.id)
  {
    var coll := match e
      case Submit(form, freshId) => Add(s.bookmarks, form, freshId)
      case RemoveClicked(id, confirmed) => Remove(s.bookmarks, id, confirmed)
      case StarClicked(id) => ToggleFavorite(s.bookmarks, id)
      case QueryTyped(_) => s.bookmarks;
    var query := if e.QueryTyped? then e.text else s.query;
    if Replaces(e) then Session(coll, query, coll) else Session(coll, query, s.saved)
  }

  /** The entries on screen. */
  function Visible(s: Session): seq<Bookmark> {
    Filtered(s.bookmarks, s.query)
  }

  /** With every write succeeding, storage always holds the current collection. */
  lemma StepKeepsSaved(s: Session, e: Event)
    requires s.saved == s.bookmarks
    ensures Step(s, e).saved == Step(s, e).bookmarks
  {
  }

  /** An event whose fresh id is unused keeps the ids unique. */
  lemma StepKeepsUniqueIds(s: Session, e: Event)
    requires UniqueIds(s.bookmarks)
    requires e.Submit? ==> !HasId(s.bookmarks, e.freshId)
    ensures UniqueIds(Step(s, e).bookmarks)
  {
    match e
    case Submit(form, freshId) => AddKeepsUniqueIds(s.bookmarks, form, freshId);
    case RemoveClicked(id, confirmed) =>
      if confirmed {
        FilterKeepsUniqueIds(s.bookmarks, KeepOthers(id));
      }
    case StarClicked(id) => ToggleKeepsUniqueIds(s.bookmarks, id);
    case QueryTyped(_) =>
  }

  /** The component only ever holds the blank form (it starts blank and is
      reset to blank), and submitting the blank form changes nothing. */
  lemma BlankFormSubmitChangesNothing(s: Session, freshId: string)
    ensures Step(s, Submit(Form("", "", ""), freshId)) == s
  {
  }

  /** With an empty search, a successful add shows the new bookmark first. */
  lemma AddShowsFirst(s: Session, form: Form, freshId: string)
    requires s.query == ""
    requires form.title != "" && form.url != ""
    ensures |Visible(Step(s, Submit(form, freshId)))| == |s.bookmarks| + 1
    ensures Visible(Step(s, Submit(form, freshId)))[0].id == freshId
    ensures Visible(Step(s, Submit(form, freshId)))[0].title == form.title
  {
  }
}
