/**
 * The editing session: the page's global state (`library`, the open book and
 * chapter, the remote file's `fileSha`, the connection settings and the copy
 * kept in local storage) and the handlers that change it. Dialogs (`prompt`,
 * `confirm`), the clock and the HTTP replies are parameters; what the page
 * draws is not modelled, except whether the editor pane is shown.
 */
module Session {
  import opened Keyed
  import opened Library
  import opened Merge

  /** Connection settings kept in local storage. */
  datatype Config = Config(owner: string, repo: string, token: string)

  /** Reply to the GET of the remote data file. */
  datatype FetchReply =
    | FetchResponse(status: int, body: Option<FetchBody>)  // body: None when the reply is not JSON
    | FetchNetworkFailure

  /** The JSON of a GET reply: the file's `sha`, and the library its `content`
      decodes to, or None when that is missing or does not decode or parse. */
  datatype FetchBody = FetchBody(sha: Option<string>, library: Option<seq<Book>>)

  /** Reply to the PUT of the data file. */
  datatype PutReply =
    | PutResponse(status: int, body: Option<PutBody>)  // body: None when the reply is not JSON
    | PutNetworkFailure

  /** The JSON of a PUT reply: the new `content.sha`, or None when the reply
      carries no `content` object. */
  datatype PutBody = PutBody(contentSha: Option<string>)

  /** What the PUT carries: the library and the version token it replaces. */
  datatype PutRequest = PutRequest(library: seq<Book>, sha: Option<string>)

  /** How a save ends, as the save button and the alerts report it. */
  datatype SaveOutcome =
    | SavedLocally      // no connection: saved to local storage only
    | Synced            // upload accepted, new version token kept
    | ConflictReported  // 409: the remote file changed since the last fetch
    | UploadFailed      // another error status
    | NetworkReported   // the request or reading its reply threw

  /** `res.ok` of the Fetch API. */
  predicate Ok(status: int) { 200 <= status <= 299 }

  /** The GET reached the point where `fileSha` is taken from the reply. */
  predicate ShaReceived(reply: FetchReply) {
    reply.FetchResponse? && reply.status != 404 && Ok(reply.status) && reply.body.Some?
  }

  /** The GET delivered a remote library to merge. */
  predicate RemoteReceived(reply: FetchReply) {
    ShaReceived(reply) && reply.body.value.library.Some?
  }

  /** How `saveToGithub` classifies a reply: once the request is sent, the
      save never ends as a local-only save. */
  function UploadOutcome(reply: PutReply): (r: SaveOutcome)
    ensures r != SavedLocally
  {
    match reply
    case PutNetworkFailure => NetworkReported
    case PutResponse(status, body) =>
      if body.None? then NetworkReported
      else if Ok(status) then (if body.value.contentSha.Some? then Synced else NetworkReported)
      else if status == 409 then ConflictReported
      else UploadFailed
  }

  /** Only an accepted upload yields a new version token; a 409, any other
      error status and a failed request all leave it where it was. */
  lemma UploadOutcomeSpec(reply: PutReply)
    ensures UploadOutcome(reply) == Synced <==>
              reply.PutResponse? && Ok(reply.status) && reply.body.Some? && reply.body.value.contentSha.Some?
    ensures reply.PutResponse? && reply.status == 409 && reply.body.Some? ==> UploadOutcome(reply) == ConflictReported
    ensures UploadOutcome(reply) == ConflictReported ==> reply.PutResponse? && reply.status == 409
  {
  }

  class Wiki {
    var library: seq<Book>
    var currentBookId: Option<string>
    var currentChapId: Option<string>
    /** Whether the editor pane is shown (`loadDoc` shows it, `hideEditor` hides it). */
    var editorVisible: bool
    /** Version token of the remote file, from the last fetch or upload. */
    var fileSha: Option<string>
    var config: Config
    /** The library as last written to local storage. */
    var stored: Option<seq<Book>>

    /** `window.onload` up to the sync it starts: read the saved library and
        settings; with no settings and an empty library, install the default
        library and save it. A connected session goes on with SyncFromCloud. */
    constructor Load(saved: Option<seq<Book>>, savedConfig: Option<Config>)
      ensures savedConfig.Some? ==> config == savedConfig.value
      ensures savedConfig.None? ==> config == Config("", "", "")
      ensures var loaded := if saved.Some? then saved.value else [];
              if savedConfig.None? && loaded == [] then library == DefaultLibrary() && stored == Some(DefaultLibrary())
              else library == loaded && stored == saved
      ensures fileSha.None? && currentBookId.None? && currentChapId.None? && !editorVisible
    {
      var loaded := if saved.Some? then saved.value else [];
      library := loaded;
      stored := saved;
      currentBookId, currentChapId := None, None;
      editorVisible := false;
      fileSha := None;
      config := Config("", "", "");
      if savedConfig.Some? {
        config := savedConfig.value;
      } else if |loaded| == 0 {
        library := DefaultLibrary();
        stored := Some(library);
      }
    }

    /** The editor's truthiness test `if (currentBookId)`. */
    predicate Editing()
      reads this
    {
      currentBookId.Some? && Truthy(currentBookId.value)
    }

    /** `loadDoc(bid, cid)`: point the editor at the chapter and show it. The
        pointers are set before the lookups; the pane is shown only once the
        book lookup has succeeded. */
    method LoadDoc(bid: string, cid: string)
      modifies this`currentBookId, this`currentChapId, this`editorVisible
      ensures currentBookId == Some(bid) && currentChapId == Some(cid)
      ensures editorVisible == (old(editorVisible) || HasBook(library, bid))
    {
      currentBookId := Some(bid);
      currentChapId := Some(cid);
      if HasBook(library, bid) {
        editorVisible := true;
      }
    }

    /** `addBook`: a non-empty answer to the prompt appends a new book with a
        first page and opens that page. The book id and the chapter id take
        one clock reading each, `bnow` and `cnow`. */
    method AddBook(answer: Option<string>, bnow: string, cnow: string)
      modifies this
      ensures Answered(answer) ==>
                && library == old(library) + [NewBook(answer.value, bnow, cnow)]
                && currentBookId == Some("b" + bnow) && currentChapId == Some("c" + cnow) && editorVisible
                && fileSha == old(fileSha) && config == old(config) && stored == old(stored)
      ensures !Answered(answer) ==> unchanged(this)
      ensures old(WellFormed(library)) && !old(HasBook(library, "b" + bnow)) ==> WellFormed(library)
    {
      if Answered(answer) {
        if WellFormed(library) && !HasBook(library, "b" + bnow) {
          AddBookSpec(library, answer.value, bnow, cnow);
        }
        library := library + [NewBook(answer.value, bnow, cnow)];
        assert library[|library| - 1].id == "b" + bnow;
        LoadDoc("b" + bnow, "c" + cnow);
      }
    }

    /** `addChapter(bid)`: a non-empty answer appends a chapter to the book,
        opens the book in the sidebar and the chapter in the editor. When no
        book has the id, the source throws a TypeError on the `undefined` it
        found before changing anything, so nothing changes. */
    method AddChapter(bid: string, answer: Option<string>, now: string)
      modifies this
      ensures Answered(answer) && old(HasBook(library, bid)) ==>
                && library == WithChapter(old(library), bid, answer.value, now)
                && currentBookId == Some(bid) && currentChapId == Some("c" + now) && editorVisible
                && fileSha == old(fileSha) && config == old(config) && stored == old(stored)
      ensures !(Answered(answer) && old(HasBook(library, bid))) ==> unchanged(this)
      ensures old(WellFormed(library) && (HasBook(library, bid) ==> !HasKey(library[BookIndex(library, bid)].chapters, ChapterId, "c" + now))) ==>
                WellFormed(library)
    {
      if Answered(answer) && HasBook(library, bid) {
        AddChapterSpec(library, bid, answer.value, now);
        library := WithChapter(library, bid, answer.value, now);
        LoadDoc(bid, "c" + now);
      }
    }

    /** `toggleBook(bid)`: open or close the book in the sidebar; an unknown
        id throws before anything changes. */
    method ToggleBook(bid: string)
      modifies this`library
      ensures old(HasBook(library, bid)) ==> library == Toggled(old(library), bid)
      ensures !old(HasBook(library, bid)) ==> library == old(library)
      ensures old(WellFormed(library)) ==> WellFormed(library)
    {
      if HasBook(library, bid) {
        ToggleSpec(library, bid);
        library := Toggled(library, bid);
      }
    }

    /** `delBook(bid)`: once confirmed, drop every book with that id, and hide
        the editor if it shows that book. The pointers are left as they are. */
    method DelBook(bid: string, confirmed: bool)
      modifies this`library, this`editorVisible
      ensures library == if confirmed then WithoutBook(old(library), bid) else old(library)
      ensures editorVisible == (old(editorVisible) && !(confirmed && currentBookId == Some(bid)))
      ensures confirmed ==> !HasBook(library, bid)
      ensures old(WellFormed(library)) ==> WellFormed(library)
    {
      if confirmed {
        library := WithoutBook(library, bid);
        if currentBookId == Some(bid) {
          editorVisible := false;
        }
      }
    }

    /** `delChap(bid, cid)`: once confirmed, drop the chapters with that id
        from the book, and hide the editor if the open chapter has that id
        (in whichever book). An unknown book id throws before anything
        changes, so the editor stays as it was too. */
    method DelChap(bid: string, cid: string, confirmed: bool)
      modifies this`library, this`editorVisible
      ensures confirmed && old(HasBook(library, bid)) ==>
                && library == WithoutChapter(old(library), bid, cid)
                && editorVisible == (old(editorVisible) && currentChapId != Some(cid))
      ensures !(confirmed && old(HasBook(library, bid))) ==>
                library == old(library) && editorVisible == old(editorVisible)
      ensures old(WellFormed(library)) ==> WellFormed(library)
    {
      if confirmed && HasBook(library, bid) {
        DelChapSpec(library, bid, cid);
        library := WithoutChapter(library, bid, cid);
        if currentChapId == Some(cid) {
          editorVisible := false;
        }
      }
    }

    /** The chapter the editor's handlers write to can be found: the two
        `find`s on `currentBookId` and `currentChapId` both succeed. */
    predicate EditTarget()
      reads this
    {
      Editing() && currentChapId.Some? && HasChapter(library, currentBookId.value, currentChapId.value)
    }

    /** The `input` handlers of `doc-title` and `doc-content`: while a chapter
        is open, write the field's new value into it. When the pointers name
        a book or chapter that is gone (after deleting the open book, say),
        the lookup yields `undefined` and the assignment throws, so the
        library does not change. */
    method OnInput(field: Field, value: string)
      modifies this`library
      ensures old(EditTarget()) ==> library == Edited(old(library), currentBookId.value, currentChapId.value, field, value)
      ensures !old(EditTarget()) ==> library == old(library)
      ensures old(EditTarget()) == EditTarget()
      ensures old(WellFormed(library)) ==> WellFormed(library)
    {
      if EditTarget() {
        EditSpec(library, currentBookId.value, currentChapId.value, field, value);
        library := Edited(library, currentBookId.value, currentChapId.value, field, value);
      }
    }

    /** `syncFromCloud`: a 404 or a failure changes nothing; an accepted reply
        first takes the remote `sha`, then, if its content decodes, merges the
        remote library in and keeps and saves the result when it added
        anything. Local books are never lost: the old library stays a prefix. */
    method SyncFromCloud(reply: FetchReply, clock: nat -> string) returns (report: Option<MergeResult>)
      modifies this`library, this`fileSha, this`stored
      ensures fileSha == if ShaReceived(reply) then reply.body.value.sha else old(fileSha)
      ensures RemoteReceived(reply) ==> report == Some(Merged(old(library), reply.body.value.library.value, clock))
      ensures !RemoteReceived(reply) ==> report.None?
      ensures report.Some? && report.value.addedCount > 0 ==>
                library == report.value.mergedList && stored == Some(library)
      ensures report.None? || report.value.addedCount == 0 ==>
                library == old(library) && stored == old(stored)
      ensures |old(library)| <= |library| && library[..|old(library)|] == old(library)
      ensures RemoteReceived(reply) && old(WellFormed(library))
              && (forall b :: b in reply.body.value.library.value ==> UniqueKeys(b.chapters, ChapterId))
              && FreshStamps(old(library), reply.body.value.library.value, clock)
              ==> WellFormed(library)
    {
      report := None;
      if reply.FetchResponse? && reply.status != 404 && Ok(reply.status) && reply.body.Some? {
        fileSha := reply.body.value.sha;
        if reply.body.value.library.Some? {
          var remote := reply.body.value.library.value;
          var result := MergeLibraries(library, remote, clock);
          if WellFormed(library) && (forall b :: b in remote ==> UniqueKeys(b.chapters, ChapterId))
             && FreshStamps(library, remote, clock) {
            MergedWellFormed(library, remote, clock);
          }
          if result.addedCount > 0 {
            library := result.mergedList;
            stored := Some(library);
          }
          report := Some(result);
        }
      }
    }

    /** Whether a save also uploads: `config.token && config.owner`. */
    predicate Connected()
      reads this
    {
      Truthy(config.token) && Truthy(config.owner)
    }

    /** `saveToGithub`: PUT the library with the current version token; keep
        the new token only when the upload is accepted. */
    method SaveToGithub(reply: PutReply) returns (request: PutRequest, outcome: SaveOutcome)
      modifies this`fileSha
      ensures request == PutRequest(library, old(fileSha))
      ensures outcome == UploadOutcome(reply)
      ensures outcome == Synced ==> fileSha == reply.body.value.contentSha
      ensures outcome != Synced ==> fileSha == old(fileSha)
    {
      request := PutRequest(library, fileSha);
      outcome := UploadOutcome(reply);
      if outcome == Synced {
        fileSha := reply.body.value.contentSha;
      }
    }

    /** `handleSaveClick`: always save to local storage first; then upload when
        connected. The library itself is never changed by saving. */
    method HandleSaveClick(reply: PutReply) returns (request: Option<PutRequest>, outcome: SaveOutcome)
      modifies this`fileSha, this`stored
      ensures stored == Some(library)
      ensures Connected() ==> request == Some(PutRequest(library, old(fileSha))) && outcome == UploadOutcome(reply)
      ensures !Connected() ==> request.None? && outcome == SavedLocally
      ensures outcome == Synced ==> fileSha == reply.body.value.contentSha
      ensures outcome != Synced ==> fileSha == old(fileSha)
    {
      stored := Some(library);
      if Connected() {
        var sent;
        sent, outcome := SaveToGithub(reply);
        request := Some(sent);
      } else {
        request := None;
        outcome := SavedLocally;
      }
    }
  }
}
