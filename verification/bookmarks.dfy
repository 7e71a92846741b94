/** The bookmark record and the rules that build one from the add form:
    URL normalisation, tag parsing, and the two-entry seed list. */
module Bookmarks {
  import opened Wrappers
  import opened Strings

  /** One saved link. Records read back from storage may lack the optional
      fields, so those are `Option`s; a record built by the add form has all
      of them except `favorite`. */
  datatype Bookmark = Bookmark(
    id: string,
    title: string,
    url: Option<string>,
    tags: Option<seq<string>>,
    notes: Option<string>,
    favorite: Option<bool>)

  /** `b.favorite` read as a flag: an absent value counts as false. */
  predicate IsFavorite(b: Bookmark) {
    b.favorite == Some(true)
  }

  /** `b.tags || []`. */
  function TagsOf(b: Bookmark): seq<string> {
    b.tags.GetOr([])
  }

  /** `b.url || ""`. */
  function UrlOf(b: Bookmark): string {
    b.url.GetOr("")
  }

  /** The prefix test the add form applies: a bare, case-sensitive "http". */
  predicate HasHttpPrefix(url: string) {
    "http" <= url
  }

  /** Prepends "https://" unless the URL already starts with "http". */
  function NormalizeUrl(url: string): (r: string)
    ensures HasHttpPrefix(r)
    ensures r == url <==> HasHttpPrefix(url)
    ensures r != url ==> r == "https://" + url
    ensures |r| >= |url| && r[|r| - |url|..] == url
  {
    if HasHttpPrefix(url) then url else "https://" + url
  }

  /** Normalising is idempotent. */
  lemma NormalizeUrlIdempotent(url: string)
    ensures NormalizeUrl(NormalizeUrl(url)) == NormalizeUrl(url)
  {
  }

  /** The tags-field rule: empty text gives no tags; otherwise the text is split
      at every comma and each piece is trimmed. Empty pieces stay as empty tags. */
  function ParseTags(text: string): (tags: seq<string>)
    ensures text == "" ==> tags == []
    ensures text != "" ==> |tags| == CountChar(text, ',') + 1
    ensures forall i :: 0 <= i < |tags| ==> ',' !in tags[i] && Trimmed(tags[i])
  {
    if text == "" then []
    else
      TrimEach(Split(text, ','))
  }

  /** `pieces.map(t => t.trim())`. */
  function TrimEach(pieces: seq<string>): (r: seq<string>)
    ensures |r| == |pieces|
    ensures forall i :: 0 <= i < |r| ==> r[i] == Trim(pieces[i])
  {
    if |pieces| == 0 then [] else [Trim(pieces[0])] + TrimEach(pieces[1..])
  }

  /** Tags are the trimmed comma-separated pieces, in input order: for any
      comma-free pieces whose join is non-empty, parsing the joined text gives
      each piece trimmed, at the same position. */
  lemma {:induction false} ParseTagsOfPieces(pieces: seq<string>)
    requires |pieces| >= 1
    requires forall i :: 0 <= i < |pieces| ==> ',' !in pieces[i]
    requires Join(pieces, ',') != ""
    ensures |ParseTags(Join(pieces, ','))| == |pieces|
    ensures forall i :: 0 <= i < |pieces| ==> ParseTags(Join(pieces, ','))[i] == Trim(pieces[i])
  {
    SplitJoin(pieces, ',');
  }

  /** The seed list used when nothing usable is stored: two entries with
      web URLs, two tags and a note each, and no favorite flag. */
  function Seed(id1: string, id2: string): (r: seq<Bookmark>)
    ensures |r| == 2
    ensures r[0].id == id1 && r[1].id == id2
    ensures r[0].title == "MDN Web Docs" && r[1].title == "Stack Overflow"
    ensures forall i :: 0 <= i < |r| ==>
              && r[i].url.Some? && HasHttpPrefix(UrlOf(r[i]))
              && r[i].tags.Some? && |TagsOf(r[i])| == 2
              && r[i].notes.Some? && r[i].favorite.None?
  {
    [ Bookmark(id1, "MDN Web Docs", Some("https://developer.mozilla.org/"),
               Some(["dev", "docs"]), Some("Browser and JS docs"), None),
      Bookmark(id2, "Stack Overflow", Some("https://stackoverflow.com/"),
               Some(["community", "qa"]), Some("Q&A for programmers"), None) ]
  }

  /** A freshly built bookmark: URL normalised, tags parsed, empty notes, no
      favorite flag. */
  function NewBookmark(id: string, title: string, url: string, tagsText: string): (b: Bookmark)
    ensures b.id == id && b.title == title && b.notes == Some("")
    ensures !IsFavorite(b) && b.favorite.None?
    ensures b.url.Some? && HasHttpPrefix(UrlOf(b))
    ensures HasHttpPrefix(url) ==> UrlOf(b) == url
    ensures !HasHttpPrefix(url) ==> UrlOf(b) == "https://" + url
    ensures b.tags == Some(ParseTags(tagsText))
  {
    Bookmark(id, title, Some(NormalizeUrl(url)), Some(ParseTags(tagsText)), Some(""), None)
  }
}
