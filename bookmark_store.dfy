/**
 * The bookmark store: a state of bookmarks and folders, transformed by pure functions
 * that return the next state, plus the queries over it, the HTML-entity escaper and the
 * Netscape bookmark file exporter. Persisting the state is not modelled; ids and
 * timestamps are inputs.
 */
module BookmarkStore {
  import opened Wrappers
  import opened Text
  import Seqs

  datatype Bookmark = Bookmark(
    id: string, url: string, title: string, folderId: Option<string>, tags: seq<string>,
    favicon: Option<string>, createdAt: int, updatedAt: int)

  datatype BookmarkFolder = BookmarkFolder(
    id: string, name: string, parentId: Option<string>, createdAt: int, color: Option<string>)

  datatype BookmarkState = BookmarkState(bookmarks: seq<Bookmark>, folders: seq<BookmarkFolder>)

  /**
   * The keys an `updateBookmark` call carries (`None`: key absent). Optional fields may be
   * set to `undefined`, hence `Option<Option<…>>`. `updatedAt` is always overwritten.
   */
  datatype BookmarkUpdate = BookmarkUpdate(
    url: Option<string>, title: Option<string>, folderId: Option<Option<string>>,
    tags: Option<seq<string>>, favicon: Option<Option<string>>)

  /** The keys an `updateFolder` call carries. */
  datatype FolderUpdate = FolderUpdate(
    name: Option<string>, parentId: Option<Option<string>>, color: Option<Option<string>>)

  // ---------------------------------------------------------------------------
  // Transitions

  /** `addBookmark`, with the generated id and the clock reading as inputs. */
  function AddBookmark(state: BookmarkState, url: string, title: string, folderId: Option<string>,
                       tags: seq<string>, favicon: Option<string>, id: string, now: int): (r: BookmarkState)
    ensures r.folders == state.folders
    ensures |r.bookmarks| == |state.bookmarks| + 1 && r.bookmarks[..|state.bookmarks|] == state.bookmarks
    ensures var b := r.bookmarks[|state.bookmarks|];
            b.id == id && b.url == url && b.title == title && b.folderId == folderId && b.tags == tags
            && b.favicon == favicon && b.createdAt == now && b.updatedAt == now
  {
    state.(bookmarks := state.bookmarks + [Bookmark(id, url, title, folderId, tags, favicon, now, now)])
  }

  /** `{ ...b, ...updates, updatedAt: now }` */
  function ApplyBookmarkUpdate(b: Bookmark, u: BookmarkUpdate, now: int): (r: Bookmark)
    ensures r.id == b.id && r.createdAt == b.createdAt && r.updatedAt == now
    ensures r.url == u.url.GetOr(b.url) && r.title == u.title.GetOr(b.title) && r.tags == u.tags.GetOr(b.tags)
    ensures r.folderId == u.folderId.GetOr(b.folderId) && r.favicon == u.favicon.GetOr(b.favicon)
  {
    Bookmark(b.id, u.url.GetOr(b.url), u.title.GetOr(b.title), u.folderId.GetOr(b.folderId),
             u.tags.GetOr(b.tags), u.favicon.GetOr(b.favicon), b.createdAt, now)
  }

  /** `updateBookmark`: every bookmark with that id is updated, the others stay as they are. */
  function UpdateBookmark(state: BookmarkState, id: string, u: BookmarkUpdate, now: int): (r: BookmarkState)
    ensures r.folders == state.folders && |r.bookmarks| == |state.bookmarks|
    ensures forall i :: 0 <= i < |r.bookmarks| ==>
      r.bookmarks[i] == if state.bookmarks[i].id == id then ApplyBookmarkUpdate(state.bookmarks[i], u, now) else state.bookmarks[i]
  {
    state.(bookmarks := seq(|state.bookmarks|, i requires 0 <= i < |state.bookmarks| =>
      if state.bookmarks[i].id == id then ApplyBookmarkUpdate(state.bookmarks[i], u, now) else state.bookmarks[i]))
  }

  /** `deleteBookmark` */
  function DeleteBookmark(state: BookmarkState, id: string): (r: BookmarkState)
    ensures r.folders == state.folders
    ensures forall b :: multiset(r.bookmarks)[b] == if b.id != id then multiset(state.bookmarks)[b] else 0
  {
    var keep := (b: Bookmark) => b.id != id;
    forall b ensures multiset(Seqs.Filter(state.bookmarks, keep))[b] == if b.id != id then multiset(state.bookmarks)[b] else 0 {
      Seqs.FilterMultiset(state.bookmarks, keep, b);
    }
    state.(bookmarks := Seqs.Filter(state.bookmarks, keep))
  }

  /** Deleting keeps the survivors in their order: it distributes over concatenation. */
  lemma DeleteBookmarkKeepsOrder(a: seq<Bookmark>, b: seq<Bookmark>, folders: seq<BookmarkFolder>, id: string)
    ensures DeleteBookmark(BookmarkState(a + b, folders), id).bookmarks
         == DeleteBookmark(BookmarkState(a, folders), id).bookmarks + DeleteBookmark(BookmarkState(b, folders), id).bookmarks
  {
    Seqs.FilterConcat(a, b, (x: Bookmark) => x.id != id);
  }

  /** `addFolder` */
  function AddFolder(state: BookmarkState, name: string, parentId: Option<string>, color: Option<string>,
                     id: string, now: int): (r: BookmarkState)
    ensures r.bookmarks == state.bookmarks
    ensures r.folders == state.folders + [BookmarkFolder(id, name, parentId, now, color)]
  {
    state.(folders := state.folders + [BookmarkFolder(id, name, parentId, now, color)])
  }

  /** `{ ...f, ...updates }` */
  function ApplyFolderUpdate(f: BookmarkFolder, u: FolderUpdate): (r: BookmarkFolder)
    ensures r.id == f.id && r.createdAt == f.createdAt
    ensures r.name == u.name.GetOr(f.name) && r.parentId == u.parentId.GetOr(f.parentId) && r.color == u.color.GetOr(f.color)
  {
    BookmarkFolder(f.id, u.name.GetOr(f.name), u.parentId.GetOr(f.parentId), f.createdAt, u.color.GetOr(f.color))
  }

  /** `updateFolder` */
  function UpdateFolder(state: BookmarkState, id: string, u: FolderUpdate): (r: BookmarkState)
    ensures r.bookmarks == state.bookmarks && |r.folders| == |state.folders|
    ensures forall i :: 0 <= i < |r.folders| ==>
      r.folders[i] == if state.folders[i].id == id then ApplyFolderUpdate(state.folders[i], u) else state.folders[i]
  {
    state.(folders := seq(|state.folders|, i requires 0 <= i < |state.folders| =>
      if state.folders[i].id == id then ApplyFolderUpdate(state.folders[i], u) else state.folders[i]))
  }

  /** `deleteFolder`: the folder goes, its bookmarks move to the root; subfolders are not touched. */
  function DeleteFolder(state: BookmarkState, id: string): (r: BookmarkState)
    ensures forall f :: f in r.folders <==> f in state.folders && f.id != id
    ensures forall f :: multiset(r.folders)[f] == if f.id != id then multiset(state.folders)[f] else 0
    ensures |r.bookmarks| == |state.bookmarks|
    ensures forall i :: 0 <= i < |r.bookmarks| ==>
      r.bookmarks[i] == if state.bookmarks[i].folderId == Some(id) then state.bookmarks[i].(folderId := None) else state.bookmarks[i]
  {
    var keep := (f: BookmarkFolder) => f.id != id;
    forall f ensures multiset(Seqs.Filter(state.folders, keep))[f] == if f.id != id then multiset(state.folders)[f] else 0 {
      Seqs.FilterMultiset(state.folders, keep, f);
    }
    BookmarkState(
      seq(|state.bookmarks|, i requires 0 <= i < |state.bookmarks| =>
        if state.bookmarks[i].folderId == Some(id) then state.bookmarks[i].(folderId := None) else state.bookmarks[i]),
      Seqs.Filter(state.folders, keep))
  }

  /** The remaining folders keep their order: the folder list distributes over concatenation. */
  lemma DeleteFolderKeepsOrder(bookmarks: seq<Bookmark>, a: seq<BookmarkFolder>, b: seq<BookmarkFolder>, id: string)
    ensures DeleteFolder(BookmarkState(bookmarks, a + b), id).folders
         == DeleteFolder(BookmarkState(bookmarks, a), id).folders + DeleteFolder(BookmarkState(bookmarks, b), id).folders
  {
    Seqs.FilterConcat(a, b, (f: BookmarkFolder) => f.id != id);
  }

  /** Subfolders of a deleted folder stay, still naming it as their parent, which no folder is any more. */
  lemma DeleteFolderLeavesSubfoldersDangling(state: BookmarkState, id: string, f: BookmarkFolder)
    requires f in state.folders && f.parentId == Some(id) && f.id != id
    ensures f in DeleteFolder(state, id).folders && f.parentId == Some(id)
    ensures forall g :: g in DeleteFolder(state, id).folders ==> g.id != id
  {
  }

  // ---------------------------------------------------------------------------
  // Queries

  /** `getBookmarksInFolder`: `None` asks for the root level. */
  function GetBookmarksInFolder(state: BookmarkState, folderId: Option<string>): (r: seq<Bookmark>)
    ensures forall b :: b in r <==> b in state.bookmarks && b.folderId == folderId
    ensures forall b :: multiset(r)[b] == if b.folderId == folderId then multiset(state.bookmarks)[b] else 0
  {
    var inFolder := (b: Bookmark) => b.folderId == folderId;
    forall b ensures multiset(Seqs.Filter(state.bookmarks, inFolder))[b] == if b.folderId == folderId then multiset(state.bookmarks)[b] else 0 {
      Seqs.FilterMultiset(state.bookmarks, inFolder, b);
    }
    Seqs.Filter(state.bookmarks, inFolder)
  }

  /** A folder's bookmarks come in the order of the whole list: the query distributes over concatenation. */
  lemma InFolderKeepsOrder(a: seq<Bookmark>, b: seq<Bookmark>, folders: seq<BookmarkFolder>, folderId: Option<string>)
    ensures GetBookmarksInFolder(BookmarkState(a + b, folders), folderId)
         == GetBookmarksInFolder(BookmarkState(a, folders), folderId) + GetBookmarksInFolder(BookmarkState(b, folders), folderId)
  {
    Seqs.FilterConcat(a, b, (x: Bookmark) => x.folderId == folderId);
  }

  /** `getSubfolders` */
  function GetSubfolders(state: BookmarkState, parentId: Option<string>): (r: seq<BookmarkFolder>)
    ensures forall f :: f in r <==> f in state.folders && f.parentId == parentId
  {
    Seqs.Filter(state.folders, (f: BookmarkFolder) => f.parentId == parentId)
  }

  /** Each subfolder is listed as often as in the folder list. */
  lemma SubfoldersCounted(state: BookmarkState, parentId: Option<string>, f: BookmarkFolder)
    ensures multiset(GetSubfolders(state, parentId))[f] == if f.parentId == parentId then multiset(state.folders)[f] else 0
  {
    Seqs.FilterMultiset(state.folders, (g: BookmarkFolder) => g.parentId == parentId, f);
  }

  /** Subfolders come in the order of the folder list: the query distributes over concatenation. */
  lemma SubfoldersKeepOrder(bookmarks: seq<Bookmark>, a: seq<BookmarkFolder>, b: seq<BookmarkFolder>, parentId: Option<string>)
    ensures GetSubfolders(BookmarkState(bookmarks, a + b), parentId)
         == GetSubfolders(BookmarkState(bookmarks, a), parentId) + GetSubfolders(BookmarkState(bookmarks, b), parentId)
  {
    Seqs.FilterConcat(a, b, (f: BookmarkFolder) => f.parentId == parentId);
  }

  /** The test `searchBookmarks` applies, `q` already lower-cased. */
  predicate MatchesQuery(b: Bookmark, q: string) {
    Contains(Lower(b.title), q) || Contains(Lower(b.url), q)
    || exists k :: 0 <= k < |b.tags| && Contains(Lower(b.tags[k]), q)
  }

  /** `searchBookmarks`: case-insensitive substring search over title, url and tags. */
  function SearchBookmarks(state: BookmarkState, query: string): (r: seq<Bookmark>)
    ensures forall b :: multiset(r)[b] == if MatchesQuery(b, Lower(query)) then multiset(state.bookmarks)[b] else 0
  {
    var q := Lower(query);
    var matches := (b: Bookmark) => MatchesQuery(b, q);
    forall b ensures multiset(Seqs.Filter(state.bookmarks, matches))[b] == if MatchesQuery(b, q) then multiset(state.bookmarks)[b] else 0 {
      Seqs.FilterMultiset(state.bookmarks, matches, b);
    }
    Seqs.Filter(state.bookmarks, matches)
  }

  /** The empty query matches every bookmark, so the search returns the whole list. */
  lemma SearchEmptyQuery(state: BookmarkState)
    ensures SearchBookmarks(state, "") == state.bookmarks
  {
    forall i | 0 <= i < |state.bookmarks|
      ensures MatchesQuery(state.bookmarks[i], Lower(""))
    {
      assert IsPrefix("", Lower(state.bookmarks[i].title));
    }
    Seqs.FilterAll(state.bookmarks, (b: Bookmark) => MatchesQuery(b, Lower("")));
  }

  /** The search keeps the original order: it distributes over concatenation. */
  lemma SearchKeepsOrder(a: seq<Bookmark>, b: seq<Bookmark>, folders: seq<BookmarkFolder>, query: string)
    ensures SearchBookmarks(BookmarkState(a + b, folders), query)
         == SearchBookmarks(BookmarkState(a, folders), query) + SearchBookmarks(BookmarkState(b, folders), query)
  {
    Seqs.FilterConcat(a, b, (x: Bookmark) => MatchesQuery(x, Lower(query)));
  }

  /** `getBookmarksByTag` */
  function GetBookmarksByTag(state: BookmarkState, tag: string): (r: seq<Bookmark>)
    ensures forall b :: b in r <==> b in state.bookmarks && tag in b.tags
    ensures forall b :: multiset(r)[b] == if tag in b.tags then multiset(state.bookmarks)[b] else 0
  {
    var tagged := (b: Bookmark) => tag in b.tags;
    forall b ensures multiset(Seqs.Filter(state.bookmarks, tagged))[b] == if tag in b.tags then multiset(state.bookmarks)[b] else 0 {
      Seqs.FilterMultiset(state.bookmarks, tagged, b);
    }
    Seqs.Filter(state.bookmarks, tagged)
  }

  /** Tagged bookmarks come in the order of the whole list: the query distributes over concatenation. */
  lemma ByTagKeepsOrder(a: seq<Bookmark>, b: seq<Bookmark>, folders: seq<BookmarkFolder>, tag: string)
    ensures GetBookmarksByTag(BookmarkState(a + b, folders), tag)
         == GetBookmarksByTag(BookmarkState(a, folders), tag) + GetBookmarksByTag(BookmarkState(b, folders), tag)
  {
    Seqs.FilterConcat(a, b, (x: Bookmark) => tag in x.tags);
  }

  /** `isBookmarked` */
  predicate IsBookmarked(state: BookmarkState, url: string)
    ensures IsBookmarked(state, url) <==> Seqs.Filter(state.bookmarks, (b: Bookmark) => b.url == url) != []
  {
    var withUrl := Seqs.Filter(state.bookmarks, (b: Bookmark) => b.url == url);
    assert withUrl != [] ==> withUrl[0] in withUrl;
    assert (exists i :: 0 <= i < |state.bookmarks| && state.bookmarks[i].url == url) ==> withUrl != [] by {
      if exists i :: 0 <= i < |state.bookmarks| && state.bookmarks[i].url == url {
        var i :| 0 <= i < |state.bookmarks| && state.bookmarks[i].url == url;
        assert state.bookmarks[i] in withUrl;
      }
    }
    exists i :: 0 <= i < |state.bookmarks| && state.bookmarks[i].url == url
  }

  /** A url just added is bookmarked; whether any other url is bookmarked does not change. */
  lemma AddBookmarkMarksUrl(state: BookmarkState, url: string, title: string, folderId: Option<string>,
                            tags: seq<string>, favicon: Option<string>, id: string, now: int, other: string)
    ensures IsBookmarked(AddBookmark(state, url, title, folderId, tags, favicon, id, now), url)
    ensures other != url ==>
      (IsBookmarked(AddBookmark(state, url, title, folderId, tags, favicon, id, now), other) <==> IsBookmarked(state, other))
  {
    var r := AddBookmark(state, url, title, folderId, tags, favicon, id, now);
    assert r.bookmarks[|state.bookmarks|].url == url;
    if other != url && IsBookmarked(r, other) {
      var i :| 0 <= i < |r.bookmarks| && r.bookmarks[i].url == other;
      assert state.bookmarks[i] == r.bookmarks[i];
    }
    if IsBookmarked(state, other) {
      var i :| 0 <= i < |state.bookmarks| && state.bookmarks[i].url == other;
      assert r.bookmarks[i] == state.bookmarks[i];
    }
  }

  /** Past a head with another url, the url is bookmarked iff it is in the rest. */
  lemma BookmarkedPastHead(state: BookmarkState, url: string)
    requires state.bookmarks != [] && state.bookmarks[0].url != url
    ensures IsBookmarked(state, url) <==> IsBookmarked(BookmarkState(state.bookmarks[1..], state.folders), url)
  {
    var rest := BookmarkState(state.bookmarks[1..], state.folders);
    if IsBookmarked(state, url) {
      var i :| 0 <= i < |state.bookmarks| && state.bookmarks[i].url == url;
      assert rest.bookmarks[i - 1].url == url;
    }
    if IsBookmarked(rest, url) {
      var i :| 0 <= i < |rest.bookmarks| && rest.bookmarks[i].url == url;
      assert state.bookmarks[i + 1].url == url;
    }
  }

  /** The first bookmark with the url in the rest is the first in the whole list, past a head with another url. */
  lemma FirstWithUrlPastHead(state: BookmarkState, url: string, b: Bookmark)
    requires state.bookmarks != [] && state.bookmarks[0].url != url
    requires exists i :: 0 <= i < |state.bookmarks| - 1 && state.bookmarks[1..][i] == b && b.url == url
                         && forall j :: 0 <= j < i ==> state.bookmarks[1..][j].url != url
    ensures exists i :: 0 <= i < |state.bookmarks| && state.bookmarks[i] == b && b.url == url
                        && forall j :: 0 <= j < i ==> state.bookmarks[j].url != url
  {
    var rest := state.bookmarks[1..];
    var i :| 0 <= i < |rest| && rest[i] == b && b.url == url && forall j :: 0 <= j < i ==> rest[j].url != url;
    assert state.bookmarks[i + 1] == b;
    forall j | 0 <= j < i + 1 ensures state.bookmarks[j].url != url {
      if j > 0 { assert state.bookmarks[j] == rest[j - 1]; }
    }
  }

  /** `getBookmarkByUrl`: the first bookmark with that url. */
  function GetBookmarkByUrl(state: BookmarkState, url: string): (r: Option<Bookmark>)
    ensures r.Some? <==> IsBookmarked(state, url)
    ensures r.Some? ==> exists i :: 0 <= i < |state.bookmarks| && state.bookmarks[i] == r.value && r.value.url == url
                                    && forall j :: 0 <= j < i ==> state.bookmarks[j].url != url
    decreases |state.bookmarks|
  {
    if state.bookmarks == [] then None
    else if state.bookmarks[0].url == url then Some(state.bookmarks[0])
    else
      var rest := BookmarkState(state.bookmarks[1..], state.folders);
      var r := GetBookmarkByUrl(rest, url);
      BookmarkedPastHead(state, url);
      if r.Some? then FirstWithUrlPastHead(state, url, r.value); r else r
  }

  /** Whether some bookmark carries `tag`. */
  predicate TagUsed(state: BookmarkState, tag: string) {
    exists k :: 0 <= k < |state.bookmarks| && tag in state.bookmarks[k].tags
  }

  predicate StrictlySorted(s: seq<string>) {
    forall i, j :: 0 <= i < j < |s| ==> Less(s[i], s[j])
  }

  lemma {:induction false} LessThanFirst(x: string, s: seq<string>)
    requires s != [] && StrictlySorted(s) && Less(x, s[0])
    ensures StrictlySorted([x] + s)
  {
    forall j | 0 <= j < |s| ensures Less(x, s[j]) {
      if j > 0 { LessTransitive(x, s[0], s[j]); }
    }
  }

  /** Inserts `x` into a strictly ascending list unless it is there already. */
  function InsertSorted(s: seq<string>, x: string): (r: seq<string>)
    requires StrictlySorted(s)
    ensures StrictlySorted(r)
    ensures forall y :: y in r <==> y in s || y == x
  {
    if s == [] then [x]
    else if x == s[0] then s
    else if Less(x, s[0]) then
      LessThanFirst(x, s);
      [x] + s
    else
      LessTotal(x, s[0]);
      var rest := InsertSorted(s[1..], x);
      assert forall y :: y in rest ==> Less(s[0], y);
      [s[0]] + rest
  }

  /** `Array.prototype.sort` on strings without duplicates, as insertion into a sorted list. */
  function SortStrings(s: seq<string>): (r: seq<string>)
    ensures StrictlySorted(r)
    ensures forall y :: y in r <==> y in s
  {
    if s == [] then [] else InsertSorted(SortStrings(s[1..]), s[0])
  }

  /**
   * `getAllTags`: the tags collected into an insertion-ordered set, then sorted. Each tag in
   * use appears exactly once and the list ascends.
   */
  method GetAllTags(state: BookmarkState) returns (tags: seq<string>)
    ensures forall t :: t in tags <==> TagUsed(state, t)
    ensures StrictlySorted(tags)
    ensures forall i, j :: 0 <= i < j < |tags| ==> tags[i] != tags[j]
  {
    var tagSet: seq<string> := [];
    for i := 0 to |state.bookmarks|
      invariant forall t :: t in tagSet <==> exists k :: 0 <= k < i && t in state.bookmarks[k].tags
    {
      var bookmarkTags := state.bookmarks[i].tags;
      for j := 0 to |bookmarkTags|
        invariant forall t :: t in tagSet <==>
          (exists k :: 0 <= k < i && t in state.bookmarks[k].tags) || t in bookmarkTags[..j]
      {
        assert bookmarkTags[..j + 1] == bookmarkTags[..j] + [bookmarkTags[j]];
        if bookmarkTags[j] !in tagSet {
          tagSet := tagSet + [bookmarkTags[j]];
        }
      }
      assert bookmarkTags[..|bookmarkTags|] == bookmarkTags;
    }
    tags := SortStrings(tagSet);
    forall i, j | 0 <= i < j < |tags| ensures tags[i] != tags[j] {
      LessIrreflexive(tags[i]);
    }
  }

  // ---------------------------------------------------------------------------
  // HTML escaping

  /** `s.replace(/c/g, rep)` for a one-character pattern. */
  function ReplaceAll(s: string, c: char, rep: string): (r: string)
    ensures forall d :: d in r ==> d in rep || (d in s && d != c)
  {
    if s == [] then [] else (if s[0] == c then rep else [s[0]]) + ReplaceAll(s[1..], c, rep)
  }

  lemma {:induction false} ReplaceAllConcat(a: string, b: string, c: char, rep: string)
    ensures ReplaceAll(a + b, c, rep) == ReplaceAll(a, c, rep) + ReplaceAll(b, c, rep)
  {
    if a == [] {
      assert a + b == b;
    } else {
      assert (a + b)[1..] == a[1..] + b;
      ReplaceAllConcat(a[1..], b, c, rep);
    }
  }

  lemma {:induction false} ReplaceAllAbsent(s: string, c: char, rep: string)
    requires c !in s
    ensures ReplaceAll(s, c, rep) == s
  {
    if s != [] {
      ReplaceAllAbsent(s[1..], c, rep);
    }
  }

  /** `escapeHtml`: four global replacements, `&` first. */
  function EscapeHtml(text: string): (r: string)
    ensures '<' !in r && '>' !in r && '"' !in r
  {
    ReplaceAll(ReplaceAll(ReplaceAll(ReplaceAll(text, '&', "&amp;"), '<', "&lt;"), '>', "&gt;"), '"', "&quot;")
  }

  /** The entity each character becomes. */
  function EscapeChar(c: char): string {
    if c == '&' then "&amp;"
    else if c == '<' then "&lt;"
    else if c == '>' then "&gt;"
    else if c == '"' then "&quot;"
    else [c]
  }

  /** Character-by-character escaping, the reference for `EscapeHtml`. */
  function EscapeEach(s: string): string {
    if s == [] then [] else EscapeChar(s[0]) + EscapeEach(s[1..])
  }

  lemma EscapeHtmlConcat(a: string, b: string)
    ensures EscapeHtml(a + b) == EscapeHtml(a) + EscapeHtml(b)
  {
    ReplaceAllConcat(a, b, '&', "&amp;");
    var a1, b1 := ReplaceAll(a, '&', "&amp;"), ReplaceAll(b, '&', "&amp;");
    ReplaceAllConcat(a1, b1, '<', "&lt;");
    var a2, b2 := ReplaceAll(a1, '<', "&lt;"), ReplaceAll(b1, '<', "&lt;");
    ReplaceAllConcat(a2, b2, '>', "&gt;");
    var a3, b3 := ReplaceAll(a2, '>', "&gt;"), ReplaceAll(b2, '>', "&gt;");
    ReplaceAllConcat(a3, b3, '"', "&quot;");
  }

  lemma ReplaceAllSingle(c: char, d: char, rep: string)
    ensures ReplaceAll([c], d, rep) == if c == d then rep else [c]
  {
    assert [c][0] == c && [c][1..] == [];
    var head := if c == d then rep else [c];
    assert ReplaceAll([c], d, rep) == head + ReplaceAll([], d, rep);
    assert head + [] == head;
  }

  lemma EscapeHtmlChar(c: char)
    ensures EscapeHtml([c]) == EscapeChar(c)
  {
    ReplaceAllSingle(c, '&', "&amp;");
    if c == '&' {
      EscapeOfEntity("&amp;");
    } else {
      ReplaceAllSingle(c, '<', "&lt;");
      if c == '<' {
        EscapeOfEntityTail("&lt;");
      } else {
        ReplaceAllSingle(c, '>', "&gt;");
        if c == '>' {
          ReplaceAllAbsent("&gt;", '"', "&quot;");
        } else {
          ReplaceAllSingle(c, '"', "&quot;");
        }
      }
    }
  }

  /** The last three passes leave an entity produced by the first pass alone. */
  lemma EscapeOfEntity(e: string)
    requires '<' !in e && '>' !in e && '"' !in e
    ensures ReplaceAll(ReplaceAll(ReplaceAll(e, '<', "&lt;"), '>', "&gt;"), '"', "&quot;") == e
  {
    ReplaceAllAbsent(e, '<', "&lt;");
    EscapeOfEntityTail(e);
  }

  lemma EscapeOfEntityTail(e: string)
    requires '>' !in e && '"' !in e
    ensures ReplaceAll(ReplaceAll(e, '>', "&gt;"), '"', "&quot;") == e
  {
    ReplaceAllAbsent(e, '>', "&gt;");
    ReplaceAllAbsent(e, '"', "&quot;");
  }

  /**
   * Because `&` is rewritten first, the four passes escape each character exactly once:
   * `<` becomes `&lt;`, never `&amp;lt;`.
   */
  lemma {:induction false} EscapeHtmlPerChar(s: string)
    ensures EscapeHtml(s) == EscapeEach(s)
  {
    if s != [] {
      assert s == [s[0]] + s[1..];
      EscapeHtmlConcat([s[0]], s[1..]);
      EscapeHtmlChar(s[0]);
      EscapeHtmlPerChar(s[1..]);
    } else {
      assert EscapeHtml(s) == [];
    }
  }

  lemma EscapeLessThan(a: string, b: string)
    ensures EscapeHtml(a + "<" + b) == EscapeHtml(a) + "&lt;" + EscapeHtml(b)
  {
    EscapeHtmlConcat(a + "<", b);
    EscapeHtmlConcat(a, "<");
    EscapeHtmlChar('<');
  }

  // ---------------------------------------------------------------------------
  // Netscape bookmark file export

  const Header: string :=
    "<!DOCTYPE NETSCAPE-Bookmark-file-1>\n<META HTTP-EQUIV=\"Content-Type\" CONTENT=\"text/html; charset=UTF-8\">\n<TITLE>Bookmarks</TITLE>\n<H1>Bookmarks</H1>\n<DL><p>\n"
  const Footer: string := "</DL><p>\n"

  /** `'    '.repeat(indent)` */
  function Spaces(indent: nat): (r: string)
    ensures |r| == 4 * indent && forall i :: 0 <= i < |r| ==> r[i] == ' '
  {
    if indent == 0 then "" else "    " + Spaces(indent - 1)
  }

  /** Decimal digits of a natural number. */
  function NatToString(n: nat): (r: string)
    ensures |r| > 0 && forall i :: 0 <= i < |r| ==> IsDigit(r[i])
  {
    var d := [('0' as int + n % 10) as char];
    if n < 10 then d else NatToString(n / 10) + d
  }

  /** How a template literal prints an integer. */
  function IntToString(n: int): string {
    if n < 0 then "-" + NatToString(-n) else NatToString(n)
  }

  /** The two lines that open a folder. */
  function FolderOpen(spaces: string, f: BookmarkFolder): string {
    spaces + "<DT><H3>" + EscapeHtml(f.name) + "</H3>\n" + spaces + "<DL><p>\n"
  }

  function FolderClose(spaces: string): string {
    spaces + "</DL><p>\n"
  }

  /** One bookmark's line; `ADD_DATE` is `Math.floor(createdAt / 1000)`, floor division. */
  function BookmarkLine(spaces: string, b: Bookmark): string {
    spaces + "<DT><A HREF=\"" + EscapeHtml(b.url) + "\" ADD_DATE=\"" + IntToString(b.createdAt / 1000) + "\">"
    + EscapeHtml(b.title) + "</A>\n"
  }

  function BookmarkLines(spaces: string, bms: seq<Bookmark>): string {
    if bms == [] then "" else BookmarkLines(spaces, bms[..|bms| - 1]) + BookmarkLine(spaces, bms[|bms| - 1])
  }

  /** A cycle of folders: each names the previous one as parent, the first names the last. */
  ghost predicate IsFolderCycle(state: BookmarkState, c: seq<BookmarkFolder>) {
    && |c| > 0
    && (forall i :: 0 <= i < |c| ==> c[i] in state.folders)
    && (forall i :: 0 < i < |c| ==> c[i].parentId == Some(c[i - 1].id))
    && c[0].parentId == Some(c[|c| - 1].id)
  }

  /** Folder parentage is acyclic: the condition under which `renderFolder` terminates. */
  ghost predicate AcyclicFolders(state: BookmarkState) {
    forall c :: !IsFolderCycle(state, c)
  }

  /** A chain of folders descending from the root level, as `renderFolder` recurses along it. */
  predicate IsChain(state: BookmarkState, path: seq<BookmarkFolder>)
    decreases |path|
  {
    path == [] ||
    (IsChain(state, path[..|path| - 1]) && path[|path| - 1] in state.folders
     && path[|path| - 1].parentId == FolderOf(path[..|path| - 1]))
  }

  lemma {:induction false} ChainLink(state: BookmarkState, path: seq<BookmarkFolder>, k: nat)
    requires IsChain(state, path) && k < |path|
    ensures path[k] in state.folders
    ensures k > 0 ==> path[k].parentId == Some(path[k - 1].id)
    decreases |path|
  {
    var init := path[..|path| - 1];
    if k < |path| - 1 {
      ChainLink(state, init, k);
      assert init[k] == path[k];
      if k > 0 { assert init[k - 1] == path[k - 1]; }
    }
  }

  /** The folder a chain ends in, `None` for the root level. */
  function FolderOf(path: seq<BookmarkFolder>): Option<string> {
    if path == [] then None else Some(path[|path| - 1].id)
  }

  function FolderIds(state: BookmarkState): set<string> {
    set f | f in state.folders :: f.id
  }

  function PathIds(path: seq<BookmarkFolder>): set<string> {
    set f | f in path :: f.id
  }

  /** Extending the chain by a folder not on it shrinks the set of folders still unvisited. */
  lemma UnvisitedShrinks(state: BookmarkState, path: seq<BookmarkFolder>, f: BookmarkFolder)
    requires f.id in FolderIds(state) && f.id !in PathIds(path)
    ensures FolderIds(state) - PathIds(path + [f]) < FolderIds(state) - PathIds(path)
  {
    assert PathIds(path + [f]) == PathIds(path) + {f.id} by {
      assert forall g :: g in path + [f] <==> g in path || g == f;
    }
    assert f.id in FolderIds(state) - PathIds(path);
  }

  /** In acyclic parentage, a child of the chain's end is not on the chain. */
  lemma ChildNotOnPath(state: BookmarkState, path: seq<BookmarkFolder>, f: BookmarkFolder)
    requires AcyclicFolders(state) && IsChain(state, path)
    requires f in state.folders && f.parentId == FolderOf(path)
    ensures f.id !in PathIds(path) && f.id in FolderIds(state)
    ensures IsChain(state, path + [f]) && FolderOf(path + [f]) == Some(f.id)
    ensures FolderIds(state) - PathIds(path + [f]) < FolderIds(state) - PathIds(path)
  {
    if f.id in PathIds(path) {
      var k :| 0 <= k < |path| && path[k].id == f.id;
      var c := path[k + 1..] + [f];
      forall i | 0 <= i < |c|
        ensures c[i] in state.folders
        ensures i > 0 ==> c[i].parentId == Some(c[i - 1].id)
      {
        if i < |c| - 1 {
          ChainLink(state, path, k + 1 + i);
        }
      }
      if k + 1 < |path| {
        ChainLink(state, path, k + 1);
      }
      assert IsFolderCycle(state, c);
      assert false;
    }
    assert (path + [f])[..|path|] == path;
    UnvisitedShrinks(state, path, f);
  }

  /** What `renderFolder(folderOf(path), indent)` returns. */
  function FolderHtml(state: BookmarkState, indent: nat, path: seq<BookmarkFolder>): string
    requires AcyclicFolders(state) && IsChain(state, path)
    decreases FolderIds(state) - PathIds(path), 2, 0
  {
    SubfolderBlocks(state, indent, path, |GetSubfolders(state, FolderOf(path))|)
    + BookmarkLines(Spaces(indent), GetBookmarksInFolder(state, FolderOf(path)))
  }

  /** The blocks for the first `n` subfolders of the chain's end, in order. */
  function SubfolderBlocks(state: BookmarkState, indent: nat, path: seq<BookmarkFolder>, n: nat): string
    requires AcyclicFolders(state) && IsChain(state, path)
    requires n <= |GetSubfolders(state, FolderOf(path))|
    decreases FolderIds(state) - PathIds(path), 1, n + 1
  {
    if n == 0 then "" else SubfolderBlocks(state, indent, path, n - 1) + SubfolderBlock(state, indent, path, n - 1)
  }

  /** The block for the `k`-th subfolder of the chain's end. */
  function SubfolderBlock(state: BookmarkState, indent: nat, path: seq<BookmarkFolder>, k: nat): string
    requires AcyclicFolders(state) && IsChain(state, path)
    requires k < |GetSubfolders(state, FolderOf(path))|
    decreases FolderIds(state) - PathIds(path), 1, 0
  {
    var subs := GetSubfolders(state, FolderOf(path));
    assert subs[k] in subs;
    FolderBlock(state, subs[k], indent, path)
  }

  /** A subfolder's heading, its contents one level deeper, and its close. */
  function FolderBlock(state: BookmarkState, f: BookmarkFolder, indent: nat, path: seq<BookmarkFolder>): string
    requires AcyclicFolders(state) && IsChain(state, path)
    requires f in state.folders && f.parentId == FolderOf(path)
    decreases FolderIds(state) - PathIds(path), 0, 0
  {
    ChildNotOnPath(state, path, f);
    FolderOpen(Spaces(indent), f) + FolderHtml(state, indent + 1, path + [f]) + FolderClose(Spaces(indent))
  }

  /** `exportToHTML` */
  function ExportHtml(state: BookmarkState): string
    requires AcyclicFolders(state)
  {
    Header + FolderHtml(state, 1, []) + Footer
  }

  /** `renderFolder`: subfolders first, each rendered recursively, then the folder's bookmarks. */
  method RenderFolder(state: BookmarkState, folderId: Option<string>, indent: nat, ghost path: seq<BookmarkFolder>)
    returns (result: string)
    requires AcyclicFolders(state) && IsChain(state, path) && folderId == FolderOf(path)
    ensures result == FolderHtml(state, indent, path)
    decreases FolderIds(state) - PathIds(path), 2
  {
    var blocks := RenderSubfolders(state, folderId, indent, path);
    var bookmarks := GetBookmarksInFolder(state, folderId);
    var lines := RenderBookmarks(Spaces(indent), bookmarks);
    result := blocks + lines;
  }

  /** The second loop of `renderFolder`: one line per bookmark, in order. */
  method RenderBookmarks(spaces: string, bookmarks: seq<Bookmark>) returns (result: string)
    ensures result == BookmarkLines(spaces, bookmarks)
  {
    result := "";
    for i := 0 to |bookmarks|
      invariant result == BookmarkLines(spaces, bookmarks[..i])
    {
      assert bookmarks[..i + 1][..i] == bookmarks[..i];
      result := result + BookmarkLine(spaces, bookmarks[i]);
    }
    assert bookmarks[..|bookmarks|] == bookmarks;
  }

  /** The first loop of `renderFolder`: one block per subfolder, in folder order. */
  method RenderSubfolders(state: BookmarkState, folderId: Option<string>, indent: nat, ghost path: seq<BookmarkFolder>)
    returns (result: string)
    requires AcyclicFolders(state) && IsChain(state, path) && folderId == FolderOf(path)
    ensures result == SubfolderBlocks(state, indent, path, |GetSubfolders(state, FolderOf(path))|)
    decreases FolderIds(state) - PathIds(path), 1
  {
    result := "";
    var subfolders := GetSubfolders(state, folderId);
    for i := 0 to |subfolders|
      invariant result == SubfolderBlocks(state, indent, path, i)
    {
      var block := RenderSubfolder(state, subfolders, indent, path, i);
      result := result + block;
    }
  }

  /** One iteration of that loop: the heading, the folder rendered one level deeper, the close. */
  method RenderSubfolder(state: BookmarkState, subfolders: seq<BookmarkFolder>, indent: nat,
                         ghost path: seq<BookmarkFolder>, i: nat)
    returns (block: string)
    requires AcyclicFolders(state) && IsChain(state, path)
    requires subfolders == GetSubfolders(state, FolderOf(path)) && i < |subfolders|
    ensures block == SubfolderBlock(state, indent, path, i)
    decreases FolderIds(state) - PathIds(path), 0
  {
    var folder := subfolders[i];
    assert folder in subfolders;
    ChildNotOnPath(state, path, folder);
    var spaces := Spaces(indent);
    var inner := RenderFolder(state, Some(folder.id), indent + 1, path + [folder]);
    block := FolderOpen(spaces, folder) + inner + FolderClose(spaces);
  }

  /** `exportToHTML` */
  method ExportToHtml(state: BookmarkState) returns (html: string)
    requires AcyclicFolders(state)
    ensures html == ExportHtml(state)
  {
    html := Header;
    var body := RenderFolder(state, None, 1, []);
    html := html + body;
    html := html + Footer;
  }

  lemma {:induction false} BookmarkLinesContain(spaces: string, bms: seq<Bookmark>, b: Bookmark)
    requires b in bms
    ensures Contains(BookmarkLines(spaces, bms), BookmarkLine(spaces, b))
    decreases |bms|
  {
    var n := |bms| - 1;
    Seqs.InitOrLast(bms, b);
    var init := BookmarkLines(spaces, bms[..n]);
    var line := BookmarkLine(spaces, bms[n]);
    assert BookmarkLines(spaces, bms) == init + line;
    if bms[n] == b {
      ContainsSelf(line);
      ContainsLeft(init, line, line);
    } else {
      BookmarkLinesContain(spaces, bms[..n], b);
      ContainsRight(init, line, BookmarkLine(spaces, b));
    }
  }

  /** Rendering fewer subfolders yields a prefix of rendering more. */
  lemma {:induction false} SubfolderBlocksPrefix(state: BookmarkState, indent: nat, path: seq<BookmarkFolder>, n: nat, m: nat)
    requires AcyclicFolders(state) && IsChain(state, path)
    requires n <= m <= |GetSubfolders(state, FolderOf(path))|
    ensures IsPrefix(SubfolderBlocks(state, indent, path, n), SubfolderBlocks(state, indent, path, m))
    decreases m
  {
    var blocks := SubfolderBlocks(state, indent, path, n);
    if n == m {
      assert blocks[..|blocks|] == blocks;
    } else {
      SubfolderBlocksPrefix(state, indent, path, n, m - 1);
      PrefixAppend(blocks, SubfolderBlocks(state, indent, path, m - 1), SubfolderBlock(state, indent, path, m - 1));
    }
  }

  lemma SubfolderBlocksContain(state: BookmarkState, indent: nat, path: seq<BookmarkFolder>, n: nat, k: nat)
    requires AcyclicFolders(state) && IsChain(state, path)
    requires k < n <= |GetSubfolders(state, FolderOf(path))|
    ensures IsChain(state, path + [GetSubfolders(state, FolderOf(path))[k]])
    ensures Contains(SubfolderBlocks(state, indent, path, n),
                     FolderHtml(state, indent + 1, path + [GetSubfolders(state, FolderOf(path))[k]]))
  {
    var subs := GetSubfolders(state, FolderOf(path));
    SubfolderBlockContains(state, indent, path, k);
    var target := FolderHtml(state, indent + 1, path + [subs[k]]);
    ContainsLeft(SubfolderBlocks(state, indent, path, k), SubfolderBlock(state, indent, path, k), target);
    SubfolderBlocksPrefix(state, indent, path, k + 1, n);
    ContainsPrefixTrans(SubfolderBlocks(state, indent, path, n), SubfolderBlocks(state, indent, path, k + 1), target);
  }

  lemma SubfolderBlockContains(state: BookmarkState, indent: nat, path: seq<BookmarkFolder>, k: nat)
    requires AcyclicFolders(state) && IsChain(state, path)
    requires k < |GetSubfolders(state, FolderOf(path))|
    ensures IsChain(state, path + [GetSubfolders(state, FolderOf(path))[k]])
    ensures Contains(SubfolderBlock(state, indent, path, k),
                     FolderHtml(state, indent + 1, path + [GetSubfolders(state, FolderOf(path))[k]]))
  {
    var subs := GetSubfolders(state, FolderOf(path));
    var f := subs[k];
    assert f in subs;
    ChildNotOnPath(state, path, f);
    ContainsMiddle(FolderOpen(Spaces(indent), f), FolderHtml(state, indent + 1, path + [f]), FolderClose(Spaces(indent)));
  }

  /** The rendering of every folder reachable from the root level is part of the export. */
  lemma {:induction false} ExportContainsFolder(state: BookmarkState, path: seq<BookmarkFolder>)
    requires AcyclicFolders(state) && IsChain(state, path)
    ensures Contains(ExportHtml(state), FolderHtml(state, |path| + 1, path))
  {
    if path == [] {
      ContainsMiddle(Header, FolderHtml(state, 1, []), Footer);
    } else {
      var parent := path[..|path| - 1];
      var f := path[|path| - 1];
      assert IsChain(state, parent);
      assert parent + [f] == path;
      ExportContainsFolder(state, parent);
      var subs := GetSubfolders(state, FolderOf(parent));
      assert f in subs;
      var k :| 0 <= k < |subs| && subs[k] == f;
      SubfolderBlocksContain(state, |parent| + 1, parent, |subs|, k);
      var outer := FolderHtml(state, |parent| + 1, parent);
      ContainsRight(SubfolderBlocks(state, |parent| + 1, parent, |subs|),
                    BookmarkLines(Spaces(|parent| + 1), GetBookmarksInFolder(state, FolderOf(parent))),
                    FolderHtml(state, |path| + 1, path));
      ContainsTrans(ExportHtml(state), outer, FolderHtml(state, |path| + 1, path));
    }
  }

  /**
   * Every bookmark whose folder is reachable from the root level is exported, one line,
   * indented four spaces per level.
   */
  lemma ExportContainsBookmark(state: BookmarkState, path: seq<BookmarkFolder>, b: Bookmark)
    requires AcyclicFolders(state) && IsChain(state, path)
    requires b in state.bookmarks && b.folderId == FolderOf(path)
    ensures Contains(ExportHtml(state), BookmarkLine(Spaces(|path| + 1), b))
  {
    ExportContainsFolder(state, path);
    var spaces := Spaces(|path| + 1);
    var bms := GetBookmarksInFolder(state, FolderOf(path));
    BookmarkLinesContain(spaces, bms, b);
    var subs := GetSubfolders(state, FolderOf(path));
    ContainsLeft(SubfolderBlocks(state, |path| + 1, path, |subs|), BookmarkLines(spaces, bms), BookmarkLine(spaces, b));
    ContainsTrans(ExportHtml(state), FolderHtml(state, |path| + 1, path), BookmarkLine(spaces, b));
  }

  /** Deleting folders cannot create a cycle. */
  lemma DeleteFolderKeepsAcyclic(state: BookmarkState, id: string)
    requires AcyclicFolders(state)
    ensures AcyclicFolders(DeleteFolder(state, id))
  {
    forall c ensures !IsFolderCycle(DeleteFolder(state, id), c) {
      if IsFolderCycle(DeleteFolder(state, id), c) {
        assert IsFolderCycle(state, c);
      }
    }
  }

  /** After `deleteFolder`, the bookmarks that were in it are exported at the root level. */
  lemma DeleteFolderExportsAtRoot(state: BookmarkState, id: string, b: Bookmark)
    requires AcyclicFolders(state)
    requires b in state.bookmarks && b.folderId == Some(id)
    ensures AcyclicFolders(DeleteFolder(state, id))
    ensures Contains(ExportHtml(DeleteFolder(state, id)), BookmarkLine(Spaces(1), b.(folderId := None)))
  {
    DeleteFolderKeepsAcyclic(state, id);
    var r := DeleteFolder(state, id);
    var i :| 0 <= i < |state.bookmarks| && state.bookmarks[i] == b;
    assert r.bookmarks[i] == b.(folderId := None);
    ExportContainsBookmark(r, [], b.(folderId := None));
  }
}
