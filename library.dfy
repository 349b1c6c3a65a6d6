/**
 * The wiki's data model (books holding chapters) and the edits the sidebar
 * and the editor make to it, each stated as a function from the library
 * before to the library after.
 */
module Library {
  import opened Keyed

  /** A page of a book; `content` is the editor's rich-text markup. */
  datatype Chapter = Chapter(id: string, title: string, content: string)

  /** A book; `isOpen` only says whether the sidebar shows its chapters. */
  datatype Book = Book(id: string, title: string, isOpen: bool, chapters: seq<Chapter>)

  /** The two text fields of a chapter the editor writes to. */
  datatype Field = Title | Content

  function BookId(b: Book): string { b.id }

  function ChapterId(c: Chapter): string { c.id }

  /** Title given to the first page of a new book. */
  const FirstPageTitle := "首页"


  /** JavaScript truthiness of a string: only the empty string is false. */
  predicate Truthy(s: string) { s != "" }

  /** What `prompt` hands back: null when cancelled, else the text typed. */
  predicate Answered(answer: Option<string>) { answer.Some? && Truthy(answer.value) }

  /** Book ids are unique in the library, chapter ids unique within each book. */
  predicate WellFormed(lib: seq<Book>) {
    && UniqueKeys(lib, BookId)
    && forall b :: b in lib ==> UniqueKeys(b.chapters, ChapterId)
  }

  predicate HasBook(lib: seq<Book>, bid: string) { HasKey(lib, BookId, bid) }

  /** Position of the book `library.find(x => x.id === bid)` returns. */
  function BookIndex(lib: seq<Book>, bid: string): (k: nat)
    requires HasBook(lib, bid)
    ensures k < |lib| && lib[k].id == bid
    ensures forall j :: 0 <= j < k ==> lib[j].id != bid
  {
    FirstIndex(lib, BookId, bid).value
  }

  /** Position of the chapter `b.chapters.find(c => c.id === cid)` returns. */
  function ChapterIndex(b: Book, cid: string): (k: nat)
    requires HasKey(b.chapters, ChapterId, cid)
    ensures k < |b.chapters| && b.chapters[k].id == cid
    ensures forall j :: 0 <= j < k ==> b.chapters[j].id != cid
  {
    FirstIndex(b.chapters, ChapterId, cid).value
  }

  /** `find` on the library, then `find` on that book's chapters, succeeds. */
  predicate HasChapter(lib: seq<Book>, bid: string, cid: string) {
    HasBook(lib, bid) && HasKey(lib[BookIndex(lib, bid)].chapters, ChapterId, cid)
  }

  /** The chapter `loadDoc(bid, cid)` shows in the editor: one of that
      book's chapters, carrying the id asked for. */
  function OpenChapter(lib: seq<Book>, bid: string, cid: string): (c: Chapter)
    requires HasChapter(lib, bid, cid)
    ensures c.id == cid && c in lib[BookIndex(lib, bid)].chapters
  {
    var b := lib[BookIndex(lib, bid)];
    b.chapters[ChapterIndex(b, cid)]
  }

  /** The library `initDefaultData` installs when there is neither a saved
      library nor a remote connection: one open book with one chapter, well
      formed, whose chapter `loadDoc` can show. */
  function DefaultLibrary(): (lib: seq<Book>)
    ensures WellFormed(lib) && |lib| == 1 && lib[0].isOpen
    ensures HasChapter(lib, "b_local", "c_local")
  {
    var lib := [Book("b_local", "本地笔记本", true, [Chapter("c_local", "开始", "<p>这是离线模式。</p>")])];
    assert lib[0].chapters[0].id == "c_local";
    lib
  }

  // ---------------------------------------------------------------- addBook

  /** The book `addBook` creates. The book id and the chapter id each take
      their own clock reading (`'b' + Date.now()`, `'c' + Date.now()`), so
      the two stamps may differ. The new book is open, its chapter ids are
      unique, and its one chapter is found under the chapter id. */
  function NewBook(title: string, bnow: string, cnow: string): (b: Book)
    ensures b.id == "b" + bnow && b.title == title && b.isOpen
    ensures UniqueKeys(b.chapters, ChapterId) && HasKey(b.chapters, ChapterId, "c" + cnow)
  {
    var b := Book("b" + bnow, title, true, [Chapter("c" + cnow, FirstPageTitle, "")]);
    assert b.chapters[0].id == "c" + cnow;
    b
  }

  /** A new book whose id is not taken keeps the library well formed, and
      `loadDoc` then finds it at the end and shows its empty first page. */
  lemma AddBookSpec(lib: seq<Book>, title: string, bnow: string, cnow: string)
    requires WellFormed(lib) && !HasBook(lib, "b" + bnow)
    ensures WellFormed(lib + [NewBook(title, bnow, cnow)])
    ensures HasChapter(lib + [NewBook(title, bnow, cnow)], "b" + bnow, "c" + cnow)
    ensures BookIndex(lib + [NewBook(title, bnow, cnow)], "b" + bnow) == |lib|
    ensures OpenChapter(lib + [NewBook(title, bnow, cnow)], "b" + bnow, "c" + cnow) == Chapter("c" + cnow, FirstPageTitle, "")
  {
    var b := NewBook(title, bnow, cnow);
    var r := lib + [b];
    AppendKeepsWellFormed(lib, b);
    assert r[|lib|] == b;
    assert HasBook(r, "b" + bnow);
    forall j | 0 <= j < |lib| ensures r[j].id != "b" + bnow {
      assert r[j] == lib[j];
    }
  }

  /** Appending a book under an unused id, whose chapter ids are unique,
      keeps the library well formed. */
  lemma AppendKeepsWellFormed(lib: seq<Book>, b: Book)
    requires WellFormed(lib) && !HasBook(lib, b.id) && UniqueKeys(b.chapters, ChapterId)
    ensures WellFormed(lib + [b])
  {
    AppendFreshKeepsUnique(lib, BookId, b);
    forall x | x in lib + [b] ensures UniqueKeys(x.chapters, ChapterId) {
      if x != b { assert x in lib; }
    }
  }

  // ------------------------------------------------------------- addChapter

  /** `addChapter`: the first book with id `bid` gets a new last chapter and
      is opened; the book keeps its place, so `find` still stops there. */
  function WithChapter(lib: seq<Book>, bid: string, title: string, now: string): (r: seq<Book>)
    requires HasBook(lib, bid)
    ensures |r| == |lib| && HasBook(r, bid) && BookIndex(r, bid) == BookIndex(lib, bid)
  {
    var k := BookIndex(lib, bid);
    var r := lib[k := lib[k].(chapters := lib[k].chapters + [Chapter("c" + now, title, "")], isOpen := true)];
    FirstIndexSameKeys(r, lib, BookId, BookId, bid);
    r
  }

  /** `addChapter` touches one book only: every other book is as it was, the
      chosen book keeps its chapters and gains the new one at the end; with a
      chapter id that book does not use, the library stays well formed and
      `loadDoc` shows the new, empty chapter. */
  lemma AddChapterSpec(lib: seq<Book>, bid: string, title: string, now: string)
    requires HasBook(lib, bid)
    ensures var k := BookIndex(lib, bid);
            var r := WithChapter(lib, bid, title, now);
            && (forall j :: 0 <= j < |lib| && j != k ==> r[j] == lib[j])
            && r[k].id == bid && r[k].title == lib[k].title && r[k].isOpen
            && r[k].chapters == lib[k].chapters + [Chapter("c" + now, title, "")]
    ensures WellFormed(lib) && !HasKey(lib[BookIndex(lib, bid)].chapters, ChapterId, "c" + now) ==>
              && WellFormed(WithChapter(lib, bid, title, now))
              && HasChapter(WithChapter(lib, bid, title, now), bid, "c" + now)
              && OpenChapter(WithChapter(lib, bid, title, now), bid, "c" + now) == Chapter("c" + now, title, "")
  {
    var k := BookIndex(lib, bid);
    var r := WithChapter(lib, bid, title, now);
    var c := Chapter("c" + now, title, "");
    if WellFormed(lib) && !HasKey(lib[k].chapters, ChapterId, "c" + now) {
      SameKeyUpdateKeepsUnique(lib, BookId, k, r[k]);
      AppendFreshKeepsUnique(lib[k].chapters, ChapterId, c);
      forall b | b in r ensures UniqueKeys(b.chapters, ChapterId) {
        var j :| 0 <= j < |r| && r[j] == b;
        if j != k { assert b == lib[j] && lib[j] in lib; }
      }
      var chs := r[k].chapters;
      assert chs[|lib[k].chapters|] == c;
      assert HasKey(chs, ChapterId, "c" + now);
      forall j | 0 <= j < |lib[k].chapters| ensures chs[j].id != "c" + now {
        assert chs[j] == lib[k].chapters[j];
      }
    }
  }

  // ------------------------------------------------------------- toggleBook

  /** `toggleBook`: flip `isOpen` of the first book with id `bid`. */
  function Toggled(lib: seq<Book>, bid: string): (r: seq<Book>)
    requires HasBook(lib, bid)
    ensures |r| == |lib| && HasBook(r, bid) && BookIndex(r, bid) == BookIndex(lib, bid)
  {
    var k := BookIndex(lib, bid);
    var r := lib[k := lib[k].(isOpen := !lib[k].isOpen)];
    FirstIndexSameKeys(r, lib, BookId, BookId, bid);
    r
  }

  /** Toggling changes nothing but that one book's `isOpen`, so it keeps the
      library well formed, and toggling twice restores the library. */
  lemma ToggleSpec(lib: seq<Book>, bid: string)
    requires HasBook(lib, bid)
    ensures var k := BookIndex(lib, bid);
            var r := Toggled(lib, bid);
            && (forall j :: 0 <= j < |lib| && j != k ==> r[j] == lib[j])
            && r[k].isOpen == !lib[k].isOpen
            && r[k] == lib[k].(isOpen := r[k].isOpen)
    ensures WellFormed(lib) ==> WellFormed(Toggled(lib, bid))
    ensures Toggled(Toggled(lib, bid), bid) == lib
  {
    var k := BookIndex(lib, bid);
    var r := Toggled(lib, bid);
    if WellFormed(lib) {
      SameKeyUpdateKeepsUnique(lib, BookId, k, r[k]);
      forall b | b in r ensures UniqueKeys(b.chapters, ChapterId) {
        var j :| 0 <= j < |r| && r[j] == b;
        if j != k { assert b == lib[j] && lib[j] in lib; } else { assert lib[k] in lib; }
      }
    }
  }

  // ---------------------------------------------------------------- delBook

  /** `delBook`: `library.filter(b => b.id !== bid)`. */
  function WithoutBook(lib: seq<Book>, bid: string): (r: seq<Book>)
    ensures !HasBook(r, bid)
    ensures forall b :: b in r <==> b in lib && b.id != bid
    ensures WellFormed(lib) ==> WellFormed(r)
  {
    var r := RemoveKey(lib, BookId, bid);
    if WellFormed(lib) then RemoveKeyKeepsUnique(lib, BookId, bid); r else r
  }

  /** In a well-formed library, deleting a book removes exactly that entry and
      keeps the others in their order; deleting an id that no book carries
      leaves the library as it was. */
  lemma {:induction false} DelBookSpec(lib: seq<Book>, bid: string)
    ensures WellFormed(lib) && HasBook(lib, bid) ==>
              var k := BookIndex(lib, bid);
              WithoutBook(lib, bid) == lib[..k] + lib[k + 1..]
    ensures !HasBook(lib, bid) ==> WithoutBook(lib, bid) == lib
  {
    if WellFormed(lib) && HasBook(lib, bid) {
      RemoveKeyUniqueAt(lib, BookId, BookIndex(lib, bid));
    }
    if !HasBook(lib, bid) {
      RemoveKeyAbsent(lib, BookId, bid);
    }
  }

  // ---------------------------------------------------------------- delChap

  /** `delChap`: the first book with id `bid` keeps only its chapters whose
      id is not `cid`. */
  function WithoutChapter(lib: seq<Book>, bid: string, cid: string): (r: seq<Book>)
    requires HasBook(lib, bid)
    ensures |r| == |lib| && HasBook(r, bid) && BookIndex(r, bid) == BookIndex(lib, bid)
    ensures !HasChapter(r, bid, cid)
  {
    var k := BookIndex(lib, bid);
    var r := lib[k := lib[k].(chapters := RemoveKey(lib[k].chapters, ChapterId, cid))];
    FirstIndexSameKeys(r, lib, BookId, BookId, bid);
    r
  }

  /** Deleting a chapter leaves every other book, and every other chapter of
      its own book, as it was, and keeps the library well formed. */
  lemma DelChapSpec(lib: seq<Book>, bid: string, cid: string)
    requires HasBook(lib, bid)
    ensures var k := BookIndex(lib, bid);
            var r := WithoutChapter(lib, bid, cid);
            && (forall j :: 0 <= j < |lib| && j != k ==> r[j] == lib[j])
            && r[k].id == lib[k].id && r[k].title == lib[k].title && r[k].isOpen == lib[k].isOpen
            && (forall c :: c in r[k].chapters <==> c in lib[k].chapters && c.id != cid)
    ensures WellFormed(lib) ==> WellFormed(WithoutChapter(lib, bid, cid))
    ensures WellFormed(lib) && HasChapter(lib, bid, cid) ==>
              var k := BookIndex(lib, bid);
              var ck := ChapterIndex(lib[k], cid);
              WithoutChapter(lib, bid, cid)[k].chapters == lib[k].chapters[..ck] + lib[k].chapters[ck + 1..]
  {
    var k := BookIndex(lib, bid);
    var r := WithoutChapter(lib, bid, cid);
    if WellFormed(lib) {
      assert lib[k] in lib;
      SameKeyUpdateKeepsUnique(lib, BookId, k, r[k]);
      RemoveKeyKeepsUnique(lib[k].chapters, ChapterId, cid);
      forall b | b in r ensures UniqueKeys(b.chapters, ChapterId) {
        var j :| 0 <= j < |r| && r[j] == b;
        if j != k { assert b == lib[j] && lib[j] in lib; }
      }
      if HasChapter(lib, bid, cid) {
        RemoveKeyUniqueAt(lib[k].chapters, ChapterId, ChapterIndex(lib[k], cid));
      }
    }
  }

  // ----------------------------------------------------- doc-title / doc-content

  /** The `input` handlers of the title field and the content area: write
      `value` into one field of the chapter the editor has open. */
  function Edited(lib: seq<Book>, bid: string, cid: string, field: Field, value: string): (r: seq<Book>)
    requires HasChapter(lib, bid, cid)
    ensures |r| == |lib| && HasChapter(r, bid, cid) && BookIndex(r, bid) == BookIndex(lib, bid)
    ensures ChapterIndex(r[BookIndex(lib, bid)], cid) == ChapterIndex(lib[BookIndex(lib, bid)], cid)
  {
    var k := BookIndex(lib, bid);
    var b := lib[k];
    var ck := ChapterIndex(b, cid);
    var c := b.chapters[ck];
    var c' := match field
      case Title => c.(title := value)
      case Content => c.(content := value);
    var r := lib[k := b.(chapters := b.chapters[ck := c'])];
    FirstIndexSameKeys(r, lib, BookId, BookId, bid);
    FirstIndexSameKeys(r[k].chapters, b.chapters, ChapterId, ChapterId, cid);
    r
  }

  /** What the editor wrote is what `loadDoc` shows next, the other field of
      that chapter and everything else in the library stay as they were, and
      the library stays well formed. */
  lemma EditSpec(lib: seq<Book>, bid: string, cid: string, field: Field, value: string)
    requires HasChapter(lib, bid, cid)
    ensures var c := OpenChapter(lib, bid, cid);
            OpenChapter(Edited(lib, bid, cid, field, value), bid, cid) ==
              match field
              case Title => Chapter(c.id, value, c.content)
              case Content => Chapter(c.id, c.title, value)
    ensures var k := BookIndex(lib, bid);
            var r := Edited(lib, bid, cid, field, value);
            var ck := ChapterIndex(lib[k], cid);
            && (forall j :: 0 <= j < |lib| && j != k ==> r[j] == lib[j])
            && r[k] == lib[k].(chapters := r[k].chapters)
            && |r[k].chapters| == |lib[k].chapters|
            && (forall j :: 0 <= j < |lib[k].chapters| && j != ck ==> r[k].chapters[j] == lib[k].chapters[j])
    ensures WellFormed(lib) ==> WellFormed(Edited(lib, bid, cid, field, value))
  {
    var k := BookIndex(lib, bid);
    var r := Edited(lib, bid, cid, field, value);
    var ck := ChapterIndex(lib[k], cid);
    if WellFormed(lib) {
      assert lib[k] in lib;
      SameKeyUpdateKeepsUnique(lib, BookId, k, r[k]);
      SameKeyUpdateKeepsUnique(lib[k].chapters, ChapterId, ck, r[k].chapters[ck]);
      forall b | b in r ensures UniqueKeys(b.chapters, ChapterId) {
        var j :| 0 <= j < |r| && r[j] == b;
        if j != k { assert b == lib[j] && lib[j] in lib; }
      }
    }
  }

  /** Each keystroke overwrites the field: of two edits to the same field the
      later one wins, so repeating an edit changes nothing more. */
  lemma {:induction false} EditLastWins(lib: seq<Book>, bid: string, cid: string, field: Field, v1: string, v2: string)
    requires HasChapter(lib, bid, cid)
    ensures Edited(Edited(lib, bid, cid, field, v1), bid, cid, field, v2) == Edited(lib, bid, cid, field, v2)
  {
    var k := BookIndex(lib, bid);
    var ck := ChapterIndex(lib[k], cid);
    var r1 := Edited(lib, bid, cid, field, v1);
    var r2 := Edited(r1, bid, cid, field, v2);
    var r := Edited(lib, bid, cid, field, v2);
    assert BookIndex(r1, bid) == k && ChapterIndex(r1[k], cid) == ck;
    assert r2[k] == r[k];
    assert r2 == r;
  }
}
