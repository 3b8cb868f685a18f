/** The records of internal/model/entity.go. Each record has a value form (the Go struct)
    and a class (what a pointer to it points at). Times are integers; an optional pointer
    field is an Option, so its target is copied with the record. */
module Entities {
  import opened Common
  import opened Text

  datatype BoardData = BoardData(id: string, name: string, slug: string, description: string,
                                 displayOrder: int, isLocked: bool, active: bool,
                                 createdAt: int, updatedAt: int)

  datatype ThreadData = ThreadData(id: string, boardID: string, authorID: string, title: string,
                                   body: string, isPinned: bool, isLocked: bool, viewCount: int,
                                   replyCount: int, lastReplyAt: Option<int>,
                                   createdAt: int, updatedAt: int)

  datatype CommentData = CommentData(id: string, threadID: string, parentID: Option<string>,
                                     authorID: string, body: string, upvotes: int, downvotes: int,
                                     isDeleted: bool, createdAt: int, updatedAt: int)

  datatype VoteData = VoteData(id: string, targetType: string, targetID: string, userID: string,
                               value: int, createdAt: int)

  class Board {
    var id: string
    var name: string
    var slug: string
    var description: string
    var displayOrder: int
    var isLocked: bool
    var active: bool
    var createdAt: int
    var updatedAt: int

    function Value(): BoardData
      reads this
    {
      BoardData(id, name, slug, description, displayOrder, isLocked, active, createdAt, updatedAt)
    }

    constructor (v: BoardData)
      ensures Value() == v
    {
      id, name, slug, description := v.id, v.name, v.slug, v.description;
      displayOrder, isLocked, active := v.displayOrder, v.isLocked, v.active;
      createdAt, updatedAt := v.createdAt, v.updatedAt;
    }

    method Clone() returns (cp: Board)
      ensures fresh(cp) && cp.Value() == Value()
    {
      cp := new Board(Value());
    }
  }

  class Thread {
    var id: string
    var boardID: string
    var authorID: string
    var title: string
    var body: string
    var isPinned: bool
    var isLocked: bool
    var viewCount: int
    var replyCount: int
    var lastReplyAt: Option<int>
    var createdAt: int
    var updatedAt: int

    function Value(): ThreadData
      reads this
    {
      ThreadData(id, boardID, authorID, title, body, isPinned, isLocked, viewCount, replyCount,
                 lastReplyAt, createdAt, updatedAt)
    }

    constructor (v: ThreadData)
      ensures Value() == v
    {
      id, boardID, authorID, title, body := v.id, v.boardID, v.authorID, v.title, v.body;
      isPinned, isLocked, viewCount, replyCount := v.isPinned, v.isLocked, v.viewCount, v.replyCount;
      lastReplyAt, createdAt, updatedAt := v.lastReplyAt, v.createdAt, v.updatedAt;
    }

    method Clone() returns (cp: Thread)
      ensures fresh(cp) && cp.Value() == Value()
    {
      cp := new Thread(Value());
    }

    method Normalize()
      modifies this
      ensures Value() == NormalThread(old(Value()))
      ensures title == TrimSpace(old(title)) && body == TrimSpace(old(body))
      ensures Value() == old(Value()).(title := title, body := body)
    {
      title := TrimSpace(title);
      body := TrimSpace(body);
    }

    method IncrementReply(at: int)
      modifies this
      ensures Value() == Replied(old(Value()), at)
      ensures replyCount == old(replyCount) + 1 && lastReplyAt == Some(at)
      ensures Value() == old(Value()).(replyCount := replyCount, lastReplyAt := lastReplyAt)
    {
      replyCount := replyCount + 1;
      lastReplyAt := Some(at);
    }
  }

  function NormalThread(t: ThreadData): ThreadData {
    t.(title := TrimSpace(t.title), body := TrimSpace(t.body))
  }

  function Replied(t: ThreadData, at: int): ThreadData {
    t.(replyCount := t.replyCount + 1, lastReplyAt := Some(at))
  }

  class Comment {
    var id: string
    var threadID: string
    var parentID: Option<string>
    var authorID: string
    var body: string
    var upvotes: int
    var downvotes: int
    var isDeleted: bool
    var createdAt: int
    var updatedAt: int

    function Value(): CommentData
      reads this
    {
      CommentData(id, threadID, parentID, authorID, body, upvotes, downvotes, isDeleted, createdAt, updatedAt)
    }

    constructor (v: CommentData)
      ensures Value() == v
    {
      id, threadID, parentID, authorID, body := v.id, v.threadID, v.parentID, v.authorID, v.body;
      upvotes, downvotes, isDeleted := v.upvotes, v.downvotes, v.isDeleted;
      createdAt, updatedAt := v.createdAt, v.updatedAt;
    }

    method Clone() returns (cp: Comment)
      ensures fresh(cp) && cp.Value() == Value()
    {
      cp := new Comment(Value());
    }

    method Normalize()
      modifies this
      ensures Value() == NormalComment(old(Value()))
      ensures body == TrimSpace(old(body)) && Value() == old(Value()).(body := body)
    {
      body := TrimSpace(body);
    }
  }

  function NormalComment(c: CommentData): CommentData {
    c.(body := TrimSpace(c.body))
  }

  function Score(c: CommentData): int {
    c.upvotes - c.downvotes
  }

  class Vote {
    var id: string
    var targetType: string
    var targetID: string
    var userID: string
    var value: int
    var createdAt: int

    function Value(): VoteData
      reads this
    {
      VoteData(id, targetType, targetID, userID, value, createdAt)
    }

    constructor (v: VoteData)
      ensures Value() == v
    {
      id, targetType, targetID, userID := v.id, v.targetType, v.targetID, v.userID;
      value, createdAt := v.value, v.createdAt;
    }

    method Clone() returns (cp: Vote)
      ensures fresh(cp) && cp.Value() == Value()
    {
      cp := new Vote(Value());
    }
  }

  // ---- Filters ----

  datatype BoardFilter = BoardFilter(query: string)

  datatype ThreadFilter = ThreadFilter(boardID: string, authorID: string, query: string,
                                       isPinned: Option<bool>, isLocked: Option<bool>)

  datatype CommentFilter = CommentFilter(threadID: string, parentID: Option<bool>, authorID: string, sortBy: string)

  predicate BoardMatches(f: BoardFilter, b: BoardData) {
    f.query == ""
    || ContainsFold(b.name, f.query) || ContainsFold(b.slug, f.query) || ContainsFold(b.description, f.query)
  }

  predicate ThreadMatches(f: ThreadFilter, t: ThreadData) {
    if f.boardID != "" && t.boardID != f.boardID then false
    else if f.authorID != "" && t.authorID != f.authorID then false
    else if f.isPinned.Some? && t.isPinned != f.isPinned.value then false
    else if f.isLocked.Some? && t.isLocked != f.isLocked.value then false
    else if f.query != "" then ContainsFold(t.title, f.query) || ContainsFold(t.body, f.query)
    else true
  }

  // The filter inside MemoryCommentStore.List: parentID Some(true) keeps the replies to a
  // comment and skips the top-level ones. The thread is selected through the index.
  predicate CommentKept(f: CommentFilter, c: CommentData) {
    && (f.parentID == Some(true) ==> c.parentID.Some?)
    && (f.parentID == Some(false) ==> c.parentID.None?)
    && (f.authorID != "" ==> c.authorID == f.authorID)
  }

  // ---- What the filters keep, field by field ----

  // The query occurs in the field at some offset, in small letters.
  ghost predicate Occurs(query: string, field: string) {
    exists i :: 0 <= i <= |field| && ToLower(query) <= ToLower(field)[i..]
  }

  lemma OccursIs(query: string, field: string)
    ensures ContainsFold(field, query) <==> Occurs(query, field)
  {
    ContainsIff(ToLower(field), ToLower(query));
  }

  /** A board is kept if the query is empty or occurs in its name, slug or description. */
  lemma BoardFilterIff(f: BoardFilter, b: BoardData)
    ensures BoardMatches(f, b)
       <==> f.query == "" || Occurs(f.query, b.name) || Occurs(f.query, b.slug) || Occurs(f.query, b.description)
  {
    OccursIs(f.query, b.name);
    OccursIs(f.query, b.slug);
    OccursIs(f.query, b.description);
  }

  /** A thread is kept if it passes every part of the filter that is given. */
  lemma ThreadFilterIff(f: ThreadFilter, t: ThreadData)
    ensures ThreadMatches(f, t) <==>
              && (f.boardID == "" || t.boardID == f.boardID)
              && (f.authorID == "" || t.authorID == f.authorID)
              && (f.isPinned == None || f.isPinned == Some(t.isPinned))
              && (f.isLocked == None || f.isLocked == Some(t.isLocked))
              && (f.query == "" || Occurs(f.query, t.title) || Occurs(f.query, t.body))
  {
    OccursIs(f.query, t.title);
    OccursIs(f.query, t.body);
    hide Occurs, ContainsFold;
  }

  /** A comment is kept if it passes the author, and if it is a reply to a comment exactly as
      the parent filter says. */
  lemma CommentFilterIff(f: CommentFilter, c: CommentData)
    ensures CommentKept(f, c) <==>
              && (f.authorID == "" || c.authorID == f.authorID)
              && (f.parentID == None || f.parentID.value == (c.parentID != None))
  {
    if f.parentID.Some? {
      var only := f.parentID.value;
      assert f.parentID == Some(only);
      if only { assert f.parentID == Some(true); } else { assert f.parentID == Some(false); }
    }
  }
}
