/** MemoryBoardStore of internal/store/memory_board.go: boards by identifier, and an index
    from slug to identifier that should be the inverse of each board's slug. */
module BoardStore {
  import opened Common
  import opened Entities
  import opened Sorting
  import opened Text
  import T = IndexedTable

  function IdOf(b: BoardData): string { b.id }

  function SlugOf(b: BoardData): string { b.slug }

  function BySchema(): T.Schema<BoardData> {
    T.Schema(IdOf, SlugOf)
  }

  datatype Boards = Boards(items: map<string, BoardData>, slugIdx: map<string, string>)

  // ---- What each call does ----

  function CreateBoard(s: Boards, b: BoardData): (Boards, Status) {
    if b.id == "" then (s, Failed(InvalidInput))
    else if b.id in s.items then (s, Failed(AlreadyExists))
    else if b.slug != "" && b.slug in s.slugIdx then (s, Failed(Conflict))
    else (Boards(s.items[b.id := b], if b.slug != "" then s.slugIdx[b.slug := b.id] else s.slugIdx), Done)
  }

  function UpdateBoard(s: Boards, b: BoardData): (Boards, Status) {
    if b.id == "" then (s, Failed(InvalidInput))
    else if b.id !in s.items then (s, Failed(NotFound))
    else
      var orig := s.items[b.id];
      var idx := if orig.slug != b.slug && b.slug != "" then (s.slugIdx - {orig.slug})[b.slug := b.id] else s.slugIdx;
      (Boards(s.items[b.id := b], idx), Done)
  }

  function DeleteBoard(s: Boards, id: string): (Boards, Status) {
    if id !in s.items then (s, Failed(NotFound))
    else (Boards(s.items - {id}, s.slugIdx - {s.items[id].slug}), Done)
  }

  function BySlug(s: Boards, slug: string): Result<BoardData> {
    if slug !in s.slugIdx then Err(NotFound)
    else if s.slugIdx[slug] !in s.items then Err(NotFound)
    else Ok(s.items[s.slugIdx[slug]])
  }

  function LoadOne(s: Boards, b: BoardData): Boards {
    Boards(s.items[b.id := b], if b.slug != "" then s.slugIdx[b.slug := b.id] else s.slugIdx)
  }

  function Load(s: Boards, file: seq<Option<BoardData>>): Boards {
    if file == [] then s
    else
      var before, last := Load(s, file[..|file| - 1]), file[|file| - 1];
      if last.Some? && last.value.id != "" then LoadOne(before, last.value) else before
  }

  // ---- What each call answers and changes ----

  /** Create answers that the identifier is missing, that it is in use, that the slug is in
      use, or success; and then the board is filed and a non-empty slug leads to it. */
  lemma CreateAnswers(s: Boards, b: BoardData)
    ensures var (s', st) := CreateBoard(s, b);
            && (st == Failed(InvalidInput) <==> b.id == "")
            && (st == Failed(AlreadyExists) <==> b.id != "" && b.id in s.items)
            && (st == Failed(Conflict) <==> b.id != "" && b.id !in s.items && b.slug != "" && b.slug in s.slugIdx)
            && (st == Done <==> b.id != "" && b.id !in s.items && (b.slug == "" || b.slug !in s.slugIdx))
            && (st != Done ==> s' == s)
            && (st == Done ==>
                  && s'.items == s.items[b.id := b]
                  && (b.slug != "" ==> BySlug(s', b.slug) == Ok(b))
                  && (forall slug :: slug != b.slug ==> (slug in s'.slugIdx <==> slug in s.slugIdx)))
  {
  }

  /** Update answers that the identifier is missing, that there is no such board, or success;
      and then the board is replaced, and a new non-empty slug leads to it, whoever held it. */
  lemma UpdateAnswers(s: Boards, b: BoardData)
    ensures var (s', st) := UpdateBoard(s, b);
            && (st == Failed(InvalidInput) <==> b.id == "")
            && (st == Failed(NotFound) <==> b.id != "" && b.id !in s.items)
            && (st == Done <==> b.id != "" && b.id in s.items)
            && (st != Done ==> s' == s)
            && (st == Done ==>
                  && s'.items == s.items[b.id := b]
                  && (b.slug == "" || b.slug == s.items[b.id].slug ==> s'.slugIdx == s.slugIdx)
                  && (b.slug != "" && b.slug != s.items[b.id].slug ==>
                        BySlug(s', b.slug) == Ok(b) && BySlug(s', s.items[b.id].slug) == Err(NotFound)))
  {
  }

  /** Delete answers that there is no such board, or success; and then it is gone and its
      slug leads nowhere. */
  lemma DeleteAnswers(s: Boards, id: string)
    ensures var (s', st) := DeleteBoard(s, id);
            && (st == Failed(NotFound) <==> id !in s.items) && (st == Done <==> id in s.items)
            && (st != Done ==> s' == s)
            && (st == Done ==> s'.items == s.items - {id} && BySlug(s', s.items[id].slug) == Err(NotFound))
  {
  }

  // ---- The slug index ----

  ghost predicate Keyed(items: map<string, BoardData>) {
    forall id :: id in items ==> id != "" && items[id].id == id
  }

  /** The index is exactly the inverse of identifier -> slug on non-empty slugs. */
  ghost predicate SlugExact(s: Boards) {
    && (forall id :: id in s.items && s.items[id].slug != "" ==> MapsTo(s.slugIdx, s.items[id].slug, id))
    && (forall slug :: slug in s.slugIdx ==> HoldsSlug(s.items, s.slugIdx[slug], slug))
  }

  ghost predicate MapsTo(idx: map<string, string>, slug: string, id: string) {
    slug in idx && idx[slug] == id
  }

  ghost predicate HoldsSlug(items: map<string, BoardData>, id: string, slug: string) {
    slug != "" && id in items && items[id].slug == slug
  }

  datatype Op = OpCreate(b: BoardData) | OpUpdate(b: BoardData) | OpDelete(id: string)

  function Apply(s: Boards, op: Op): Boards {
    match op
    case OpCreate(b) => CreateBoard(s, b).0
    case OpUpdate(b) => UpdateBoard(s, b).0
    case OpDelete(id) => DeleteBoard(s, id).0
  }

  function Run(ops: seq<Op>): Boards {
    if ops == [] then Boards(map[], map[]) else Apply(Run(ops[..|ops| - 1]), ops[|ops| - 1])
  }

  // What Update does not check: the slug stays, or becomes a non-empty one that is free.
  predicate SlugIsFree(s: Boards, b: BoardData) {
    b.id in s.items ==> b.slug == s.items[b.id].slug || (b.slug != "" && b.slug !in s.slugIdx)
  }

  /** Update keeps the slug index exact if and only if the slug stays or moves to a
      non-empty slug that no board holds. */
  lemma UpdateKeepsSlugsIff(s: Boards, b: BoardData)
    requires Keyed(s.items) && SlugExact(s) && b.id in s.items
    ensures SlugExact(UpdateBoard(s, b).0) <==> SlugIsFree(s, b)
  {
    var s', orig := UpdateBoard(s, b).0, s.items[b.id];
    if b.slug == orig.slug {
      forall id | id in s'.items && s'.items[id].slug != "" ensures MapsTo(s'.slugIdx, s'.items[id].slug, id) {
        assert MapsTo(s.slugIdx, s.items[id].slug, id);
      }
      forall slug | slug in s'.slugIdx ensures HoldsSlug(s'.items, s'.slugIdx[slug], slug) {
        assert HoldsSlug(s.items, s.slugIdx[slug], slug);
      }
    } else if b.slug == "" {
      assert MapsTo(s.slugIdx, orig.slug, b.id);
      assert !HoldsSlug(s'.items, s'.slugIdx[orig.slug], orig.slug);
    } else if b.slug in s.slugIdx {
      var other := s.slugIdx[b.slug];
      assert HoldsSlug(s.items, other, b.slug) && other != b.id;
      assert !MapsTo(s'.slugIdx, s'.items[other].slug, other);
    } else {
      MoveToFreeSlug(s, b);
    }
  }

  lemma MoveToFreeSlug(s: Boards, b: BoardData)
    requires SlugExact(s) && b.id in s.items && b.id != ""
    requires b.slug != s.items[b.id].slug && b.slug != "" && b.slug !in s.slugIdx
    ensures SlugExact(UpdateBoard(s, b).0)
  {
    var s', orig := UpdateBoard(s, b).0, s.items[b.id];
    forall id | id in s'.items && s'.items[id].slug != "" ensures MapsTo(s'.slugIdx, s'.items[id].slug, id) {
      if id != b.id {
        assert MapsTo(s.slugIdx, s.items[id].slug, id);
        assert orig.slug != "" ==> MapsTo(s.slugIdx, orig.slug, b.id);
      }
    }
    forall slug | slug in s'.slugIdx ensures HoldsSlug(s'.items, s'.slugIdx[slug], slug) {
      if slug != b.slug { assert HoldsSlug(s.items, s.slugIdx[slug], slug); }
    }
  }

  lemma CreateKeepsSlugs(s: Boards, b: BoardData)
    requires SlugExact(s)
    ensures SlugExact(CreateBoard(s, b).0)
  {
    var s' := CreateBoard(s, b).0;
    forall id | id in s'.items && s'.items[id].slug != "" ensures MapsTo(s'.slugIdx, s'.items[id].slug, id) {
      if id in s.items { assert MapsTo(s.slugIdx, s.items[id].slug, id); }
    }
    forall slug | slug in s'.slugIdx ensures HoldsSlug(s'.items, s'.slugIdx[slug], slug) {
      if slug in s.slugIdx { assert HoldsSlug(s.items, s.slugIdx[slug], slug); }
    }
  }

  lemma DeleteKeepsSlugs(s: Boards, id: string)
    requires SlugExact(s)
    ensures SlugExact(DeleteBoard(s, id).0)
  {
    var s' := DeleteBoard(s, id).0;
    forall a | a in s'.items && s'.items[a].slug != "" ensures MapsTo(s'.slugIdx, s'.items[a].slug, a) {
      assert MapsTo(s.slugIdx, s.items[a].slug, a);
      assert id in s.items && s.items[id].slug != "" ==> MapsTo(s.slugIdx, s.items[id].slug, id);
    }
    forall slug | slug in s'.slugIdx ensures HoldsSlug(s'.items, s'.slugIdx[slug], slug) {
      assert HoldsSlug(s.items, s.slugIdx[slug], slug);
    }
  }

  /** Over every run whose updates move only to free slugs, the index is exact. */
  lemma {:induction false} SlugIndexExact(ops: seq<Op>)
    requires forall i :: 0 <= i < |ops| && ops[i].OpUpdate? ==> SlugIsFree(Run(ops[..i]), ops[i].b)
    ensures Keyed(Run(ops).items) && SlugExact(Run(ops))
  {
    if ops != [] {
      var init, op := ops[..|ops| - 1], ops[|ops| - 1];
      forall i | 0 <= i < |init| && init[i].OpUpdate? ensures SlugIsFree(Run(init[..i]), init[i].b) {
        assert init[..i] == ops[..i] && ops[i].OpUpdate?;
      }
      SlugIndexExact(init);
      match op
      case OpCreate(b) => CreateKeepsSlugs(Run(init), b);
      case OpUpdate(b) => if b.id in Run(init).items { UpdateKeepsSlugsIff(Run(init), b); }
      case OpDelete(id) => DeleteKeepsSlugs(Run(init), id);
    }
  }

  /** With an exact index GetBySlug is a linear search: it finds a board exactly when some
      board holds that non-empty slug, and no other board holds it. */
  lemma BySlugIsSearch(s: Boards, slug: string)
    requires SlugExact(s)
    ensures BySlug(s, slug).Ok? <==> exists id :: HoldsSlug(s.items, id, slug)
    ensures forall id :: HoldsSlug(s.items, id, slug) ==> BySlug(s, slug) == Ok(s.items[id])
    ensures forall a, b :: HoldsSlug(s.items, a, slug) && HoldsSlug(s.items, b, slug) ==> a == b
  {
    if slug in s.slugIdx {
      assert HoldsSlug(s.items, s.slugIdx[slug], slug);
    }
    assert forall id :: HoldsSlug(s.items, id, slug) ==> MapsTo(s.slugIdx, s.items[id].slug, id);
  }

  function Sample(id: string, slug: string): BoardData {
    BoardData(id, "n", slug, "", 0, false, false, 0, 0)
  }

  /** Without that care the index goes wrong: a second board takes over the first one's
      slug, and deleting it leaves the first board unreachable by its own slug. */
  lemma SlugTakeover()
    ensures var s := Run([OpCreate(Sample("1", "x")), OpCreate(Sample("2", "y")),
                          OpUpdate(Sample("2", "x")), OpDelete("2")]);
            "1" in s.items && s.items["1"].slug == "x" && BySlug(s, "x") == Err(NotFound)
  {
    var a, b, c, d := OpCreate(Sample("1", "x")), OpCreate(Sample("2", "y")), OpUpdate(Sample("2", "x")), OpDelete("2");
    assert [a, b, c, d][..3] == [a, b, c] && [a, b, c][..2] == [a, b] && [a, b][..1] == [a];
    assert Run([a]) == Boards(map["1" := Sample("1", "x")], map["x" := "1"]);
    assert Run([a, b]) == Boards(map["1" := Sample("1", "x"), "2" := Sample("2", "y")], map["x" := "1", "y" := "2"]);
    assert Run([a, b, c]) == Boards(map["1" := Sample("1", "x"), "2" := Sample("2", "x")], map["x" := "2"]);
  }

  // ---- Saving and loading ----

  // What every load leaves: each indexed slug is held by its target, and each held slug is
  // indexed (by one of its holders).
  ghost predicate SlugsFound(items: map<string, BoardData>, idx: map<string, string>) {
    && (forall slug :: slug in idx ==> HoldsSlug(items, idx[slug], slug))
    && (forall id :: id in items && items[id].slug != "" ==> items[id].slug in idx)
  }

  function Reload(records: seq<BoardData>): Boards {
    Load(Boards(map[], map[]), T.Encode(records))
  }

  lemma {:induction false} ReloadBuilds(records: seq<BoardData>)
    requires forall i :: 0 <= i < |records| ==> records[i].id != ""
    requires forall i, j :: 0 <= i < j < |records| ==> records[i].id != records[j].id
    ensures var s := Reload(records);
            T.Lists(BySchema(), records, s.items) && Keyed(s.items) && SlugsFound(s.items, s.slugIdx)
  {
    if records != [] {
      var init, b := records[..|records| - 1], records[|records| - 1];
      ReloadBuilds(init);
      ReloadSnoc(init, b);
      assert records == init + [b];
      var s := Reload(init);
      assert forall id :: id in s.items ==> s.items[id] in init;
      LoadStep(s, init, b);
    }
  }

  lemma ReloadSnoc(init: seq<BoardData>, b: BoardData)
    requires b.id != ""
    ensures Reload(init + [b]) == LoadOne(Reload(init), b)
  {
    assert T.Encode(init + [b])[..|init|] == T.Encode(init);
  }

  lemma LoadStep(s: Boards, init: seq<BoardData>, b: BoardData)
    requires T.Lists(BySchema(), init, s.items) && Keyed(s.items) && b.id !in s.items && b.id != ""
    requires SlugsFound(s.items, s.slugIdx)
    ensures var s' := LoadOne(s, b);
            T.Lists(BySchema(), init + [b], s'.items) && Keyed(s'.items) && SlugsFound(s'.items, s'.slugIdx)
  {
  }

  lemma ReloadListing(items: map<string, BoardData>, records: seq<BoardData>)
    requires Keyed(items) && T.Lists(BySchema(), records, items)
    ensures Reload(records).items == items && SlugsFound(items, Reload(records).slugIdx)
  {
    assert forall i :: 0 <= i < |records| ==> records[i] in records;
    assert forall i, j :: 0 <= i < j < |records| ==> IdOf(records[i]) != IdOf(records[j]);
    ReloadBuilds(records);
    SameListing(Reload(records).items, items, records);
  }

  lemma SameListing(a: map<string, BoardData>, b: map<string, BoardData>, records: seq<BoardData>)
    requires Keyed(a) && T.Lists(BySchema(), records, a)
    requires Keyed(b) && T.Lists(BySchema(), records, b)
    ensures a == b
  {
    forall id | id in a ensures id in b && b[id] == a[id] {
      assert a[id] in records;
    }
    forall id | id in b ensures id in a {
      assert b[id] in records;
    }
  }

  /** Round trip: if the slug index was exact, loading what a flush wrote, in whatever order,
      restores boards and slug index exactly. */
  lemma SaveLoadRoundTrip(s: Boards, records: seq<BoardData>)
    requires Keyed(s.items) && SlugExact(s) && T.Lists(BySchema(), records, s.items)
    ensures Reload(records) == s
  {
    ReloadListing(s.items, records);
    var idx := Reload(records).slugIdx;
    forall slug | slug in idx ensures slug in s.slugIdx && s.slugIdx[slug] == idx[slug] {
      assert HoldsSlug(s.items, idx[slug], slug);
      assert MapsTo(s.slugIdx, s.items[idx[slug]].slug, idx[slug]);
    }
    forall slug | slug in s.slugIdx ensures slug in idx {
      assert HoldsSlug(s.items, s.slugIdx[slug], slug);
    }
  }

  // The reloaded slug index is the one in memory, whatever the order of the file.
  ghost predicate ReloadKeepsSlugs(s: Boards) {
    forall records :: T.Lists(BySchema(), records, s.items) ==> Reload(records).slugIdx == s.slugIdx
  }

  /** And only then: a reload keeps the slug index for every order of the file if and only
      if the index was exact. */
  lemma ReloadKeepsSlugsIff(s: Boards)
    requires Keyed(s.items)
    ensures ReloadKeepsSlugs(s) <==> SlugExact(s)
  {
    if SlugExact(s) {
      forall records | T.Lists(BySchema(), records, s.items) ensures Reload(records).slugIdx == s.slugIdx {
        SaveLoadRoundTrip(s, records);
      }
    }
    if ReloadKeepsSlugs(s) {
      KeyedTable(s.items);
      var some := T.SomeListing(BySchema(), s.items);
      ReloadListing(s.items, some);
      forall id | id in s.items && s.items[id].slug != "" ensures MapsTo(s.slugIdx, s.items[id].slug, id) {
        LastHolderWins(s, id);
      }
    }
  }

  // A file may end with any board, and then that board's slug leads to it.
  lemma LastHolderWins(s: Boards, id: string)
    requires Keyed(s.items) && ReloadKeepsSlugs(s) && id in s.items && s.items[id].slug != ""
    ensures MapsTo(s.slugIdx, s.items[id].slug, id)
  {
    KeyedTable(s.items);
    KeyedTable(s.items - {id});
    var init := T.SomeListing(BySchema(), s.items - {id});
    T.ExtendListing(BySchema(), init, s.items, id);
    ReloadSnoc(init, s.items[id]);
  }

  // ---- Listing ----

  // The comparator of List and of flush.
  predicate ListedBefore(a: BoardData, b: BoardData) {
    if a.displayOrder != b.displayOrder then a.displayOrder < b.displayOrder else Before(a.id, b.id)
  }

  lemma OrderIsStrict()
    ensures StrictWeakOrder(ListedBefore)
    ensures forall a: BoardData, b: BoardData :: a.id != b.id ==> ListedBefore(a, b) || ListedBefore(b, a)
  {
    forall a: BoardData, b: BoardData ensures ListedBefore(a, b) ==> !ListedBefore(b, a) {
      BeforeTotal(a.id, b.id);
    }
    forall a: BoardData, b: BoardData | a.id != b.id ensures ListedBefore(a, b) || ListedBefore(b, a) {
      BeforeTotal(a.id, b.id);
    }
    forall a: BoardData, b: BoardData, c: BoardData | !ListedBefore(a, b) && !ListedBefore(b, c)
      ensures !ListedBefore(a, c)
    {
      BeforeTotal(a.id, b.id);
      BeforeTotal(b.id, c.id);
      BeforeTotal(a.id, c.id);
      if Before(c.id, b.id) && Before(b.id, a.id) {
        BeforeTransitive(c.id, b.id, a.id);
      }
    }
  }

  /** A listing, and a file, is sorted exactly when display orders never decrease and, among
      boards of one display order, no identifier comes before an earlier one: at their first
      difference the bytes increase, and a prefix comes before what it begins. */
  lemma ListingShape(s: seq<BoardData>)
    ensures SortedBy(ListedBefore, s)
       <==> forall i, j :: 0 <= i < j < |s| ==>
              && s[i].displayOrder <= s[j].displayOrder
              && (s[i].displayOrder == s[j].displayOrder ==> s[i].id == s[j].id || IdPrecedes(s[i].id, s[j].id))
  {
    forall a: BoardData, b: BoardData
      ensures !ListedBefore(b, a)
         <==> a.displayOrder <= b.displayOrder
              && (a.displayOrder == b.displayOrder ==> a.id == b.id || IdPrecedes(a.id, b.id))
    {
      BeforeIff(a.id, b.id);
      BeforeTotal(a.id, b.id);
    }
    hide ListedBefore, IdPrecedes;
  }

  ghost predicate IdPrecedes(a: string, b: string) {
    exists i :: 0 <= i <= |a| && i < |b| && a[..i] == b[..i] && (i < |a| ==> a[i] < b[i])
  }

  ghost function Matching(items: map<string, BoardData>, f: BoardFilter): set<BoardData> {
    set r | r in items.Values && BoardMatches(f, r)
  }

  /** Listing is canonical: among boards with distinct identifiers any two sorted
      arrangements are the same sequence, so neither List nor the flushed file depends on
      the order in which Go visits the map. */
  lemma ListingCanonical(items: map<string, BoardData>, a: seq<BoardData>, b: seq<BoardData>)
    requires Keyed(items) && multiset(a) == multiset(b)
    requires forall r :: r in a ==> r in items.Values
    requires SortedBy(ListedBefore, a) && SortedBy(ListedBefore, b)
    ensures a == b
  {
    OrderIsStrict();
    assert forall r :: r in a ==> r.id in items && items[r.id] == r;
    SortedUnique(ListedBefore, a, b);
  }

  /** In particular the flushed file is a function of the boards alone. */
  lemma FlushCanonical(items: map<string, BoardData>, a: seq<BoardData>, b: seq<BoardData>)
    requires Keyed(items) && T.Lists(BySchema(), a, items) && T.Lists(BySchema(), b, items)
    requires SortedBy(ListedBefore, a) && SortedBy(ListedBefore, b)
    ensures a == b
  {
    ListingNoDup(items, a);
    ListingNoDup(items, b);
    NoDupMultiset(a);
    NoDupMultiset(b);
    assert (set r | r in a) == (set r | r in b);
    ListingCanonical(items, a, b);
  }

  lemma ListingNoDup(items: map<string, BoardData>, a: seq<BoardData>)
    requires T.Lists(BySchema(), a, items)
    ensures NoDup(a) && forall r :: r in a ==> r in items.Values
  {
    forall i, j | 0 <= i < j < |a| ensures a[i] != a[j] {
      assert BySchema().key(a[i]) != BySchema().key(a[j]);
    }
  }

  function Keep(f: BoardFilter): BoardData -> bool {
    (b: BoardData) => BoardMatches(f, b)
  }

  function All(): BoardData -> bool {
    (b: BoardData) => true
  }

  lemma KeyedTable(items: map<string, BoardData>)
    requires Keyed(items)
    ensures T.Keyed(BySchema(), T.Table(items, map[]))
  {
  }

  lemma {:induction false} ListingFromIds(items: map<string, BoardData>, f: BoardFilter, ids: seq<string>)
    requires Keyed(items) && NoDup(ids) && forall id :: id in ids <==> id in items
    ensures var rows := Sort(ListedBefore, T.Select(items, Keep(f), ids));
            && multiset(rows) == multiset(Matching(items, f))
            && SortedBy(ListedBefore, rows)
  {
    KeyedTable(items);
    KeepIsMatch(items, f);
    OrderIsStrict();
    hide *;
    T.SelectIsScan(BySchema(), items, Keep(f), ids);
    SortSorted(ListedBefore, T.Select(items, Keep(f), ids));
  }

  lemma KeepIsMatch(items: map<string, BoardData>, f: BoardFilter)
    ensures (set r | r in items.Values && Keep(f)(r)) == Matching(items, f)
  {
    hide BoardMatches;
  }

  lemma SnapshotLists(items: map<string, BoardData>, ids: seq<string>)
    requires Keyed(items) && NoDup(ids) && forall id :: id in ids <==> id in items
    ensures var records := Sort(ListedBefore, T.Select(items, All(), ids));
            T.Lists(BySchema(), records, items) && SortedBy(ListedBefore, records)
  {
    var found := T.Select(items, All(), ids);
    KeyedTable(items);
    OrderIsStrict();
    T.SelectMembers(BySchema(), items, All(), ids);
    SortSorted(ListedBefore, found);
    T.PermutationLists(BySchema(), found, Sort(ListedBefore, found), items);
  }

  // ---- The store ----

  ghost function Values(items: map<string, Board>): map<string, BoardData>
    reads items.Values
  {
    map id | id in items :: items[id].Value()
  }

  ghost function ValueSeq(bs: seq<Board>): (r: seq<BoardData>)
    reads bs
    ensures |r| == |bs|
  {
    if bs == [] then [] else ValueSeq(bs[..|bs| - 1]) + [bs[|bs| - 1].Value()]
  }

  ghost predicate Filed(items: map<string, Board>)
    reads items.Values
  {
    forall id :: id in items ==> id != "" && items[id].id == id
  }

  lemma FileRecord(items: map<string, Board>, id: string, x: Board)
    requires Distinct(items) && Filed(items) && x !in items.Values && x.id == id != ""
    ensures Distinct(items[id := x]) && Filed(items[id := x])
    ensures Values(items[id := x]) == Values(items)[id := x.Value()]
  {
    DistinctPut(items, id, x);
  }

  lemma DropRecord(items: map<string, Board>, id: string)
    requires Distinct(items) && Filed(items)
    ensures Distinct(items - {id}) && Filed(items - {id})
    ensures Values(items - {id}) == Values(items) - {id}
  {
  }

  class MemoryBoardStore {
    var items: map<string, Board>
    var slugIdx: map<string, string>
    var dirty: bool

    ghost function State(): Boards
      reads this, items.Values
    {
      Boards(Values(items), slugIdx)
    }

    ghost predicate Valid()
      reads this, items.Values
    {
      Distinct(items) && Filed(items)
    }

    // The file is what could be read from the path: none without a path, without a file or
    // if it cannot be decoded, which is only logged. The save loop is part of the protocol.
    constructor (file: Option<seq<Option<BoardData>>>)
      ensures Valid() && fresh(items.Values) && !dirty
      ensures State() == if file.Some? then Load(Boards(map[], map[]), file.value) else Boards(map[], map[])
    {
      items, slugIdx, dirty := map[], map[], false;
      new;
      assert State() == Boards(map[], map[]);
      if file.Some? {
        LoadFile(file.value);
      }
    }

    method Create(b: Board?) returns (st: Status)
      requires Valid()
      modifies this
      ensures Valid() && fresh(items.Values - old(items.Values))
      ensures (State(), st) == if b == null then (old(State()), Failed(InvalidInput))
                               else CreateBoard(old(State()), b.Value())
      ensures dirty == (old(dirty) || st.Done?)
    {
      if b == null || b.id == "" {
        return Failed(InvalidInput);
      }
      if b.id in items {
        return Failed(AlreadyExists);
      }
      if b.slug != "" {
        if b.slug in slugIdx {
          return Failed(Conflict);
        }
        slugIdx := slugIdx[b.slug := b.id];
      }
      Put(b);
      return Done;
    }

    // Files a clone of b in place of any record under its identifier.
    method Put(b: Board)
      requires Valid() && b.id != ""
      modifies this`items, this`dirty
      ensures Valid() && fresh(items.Values - old(items.Values)) && dirty
      ensures Values(items) == old(Values(items))[b.id := b.Value()]
    {
      hide Distinct, Filed, Values;
      var cp := b.Clone();
      FileRecord(items, b.id, cp);
      items := items[b.id := cp];
      dirty := true;
    }

    method GetByID(id: string) returns (r: Result<Board>)
      requires Valid()
      ensures r.Ok? ==> fresh(r.value)
      ensures (if r.Ok? then Ok(r.value.Value()) else Err(r.error))
           == if id in State().items then Ok(State().items[id]) else Err(NotFound)
    {
      if id !in items {
        return Err(NotFound);
      }
      var cp := items[id].Clone();
      return Ok(cp);
    }

    method GetBySlug(slug: string) returns (r: Result<Board>)
      requires Valid()
      ensures r.Ok? ==> fresh(r.value)
      ensures (if r.Ok? then Ok(r.value.Value()) else Err(r.error)) == BySlug(State(), slug)
    {
      if slug !in slugIdx {
        return Err(NotFound);
      }
      var id := slugIdx[slug];
      if id !in items {
        return Err(NotFound);
      }
      var cp := items[id].Clone();
      return Ok(cp);
    }

    // Rewrites the record and, when a non-empty slug changes, the index; it does not look
    // whether the new slug is taken.
    method Update(b: Board?) returns (st: Status)
      requires Valid()
      modifies this
      ensures Valid() && fresh(items.Values - old(items.Values))
      ensures (State(), st) == if b == null then (old(State()), Failed(InvalidInput))
                               else UpdateBoard(old(State()), b.Value())
      ensures dirty == (old(dirty) || st.Done?)
    {
      if b == null || b.id == "" {
        return Failed(InvalidInput);
      }
      if b.id !in items {
        return Failed(NotFound);
      }
      var orig := items[b.id];
      if orig.slug != b.slug && b.slug != "" {
        slugIdx := slugIdx - {orig.slug};
        slugIdx := slugIdx[b.slug := b.id];
      }
      Put(b);
      return Done;
    }

    method Delete(id: string) returns (st: Status)
      requires Valid()
      modifies this
      ensures Valid() && items.Values <= old(items.Values)
      ensures (State(), st) == DeleteBoard(old(State()), id)
      ensures dirty == (old(dirty) || st.Done?)
    {
      if id !in items {
        return Failed(NotFound);
      }
      var b := items[id];
      DropRecord(items, id);
      hide Distinct, Filed, Values;
      slugIdx := slugIdx - {b.slug};
      items := items - {id};
      dirty := true;
      return Done;
    }

    // Clones of the matching boards, sorted.
    method List(f: BoardFilter) returns (out: seq<Board>)
      requires Valid()
      ensures NoDup(out) && forall b :: b in out ==> fresh(b)
      ensures multiset(ValueSeq(out)) == multiset(Matching(State().items, f))
      ensures SortedBy(ListedBefore, ValueSeq(out))
    {
      var ids := KeysInSomeOrder(items);
      var found := Collect(Keep(f), ids);
      assert Keyed(State().items);
      ListingFromIds(State().items, f, ids);
      hide *;
      out := CloneAll(Sort(ListedBefore, found));
    }

    method Collect(keep: BoardData -> bool, ids: seq<string>) returns (found: seq<BoardData>)
      requires forall id :: id in ids ==> id in items
      ensures found == T.Select(State().items, keep, ids)
    {
      ghost var rows := State().items;
      found := [];
      for k := 0 to |ids|
        invariant forall id :: id in ids[..k] ==> id in rows
        invariant found == T.Select(rows, keep, ids[..k])
      {
        assert ids[..k + 1][..k] == ids[..k] && ids[k] in ids;
        var b := items[ids[k]];
        if keep(b.Value()) {
          found := found + [b.Value()];
        }
      }
      assert ids[..|ids|] == ids;
    }

    // The locked part of flush, with the sort that follows it.
    method TakeSnapshot() returns (records: seq<BoardData>)
      requires Valid()
      modifies this`dirty
      ensures !dirty && Valid() && State() == old(State())
      ensures T.Lists(BySchema(), records, State().items) && SortedBy(ListedBefore, records)
    {
      dirty := false;
      var ids := KeysInSomeOrder(items);
      assert Valid() && State() == old(State());
      var found := Collect(All(), ids);
      assert Keyed(State().items);
      hide *;
      SnapshotLists(State().items, ids);
      records := Sort(ListedBefore, found);
    }

    // The locked part of load.
    method LoadFile(file: seq<Option<BoardData>>)
      requires Valid()
      modifies this
      ensures Valid() && fresh(items.Values - old(items.Values)) && dirty == old(dirty)
      ensures State() == Load(old(State()), file)
    {
      ghost var before := State();
      for k := 0 to |file|
        invariant Valid() && fresh(items.Values - old(items.Values)) && dirty == old(dirty)
        invariant State() == Load(before, file[..k])
      {
        assert file[..k + 1][..k] == file[..k];
        if file[k].Some? && file[k].value.id != "" {
          Adopt(file[k].value);
        }
      }
      assert file[..|file|] == file;
    }

    // One record of the file.
    method Adopt(v: BoardData)
      requires Valid() && v.id != ""
      modifies this
      ensures Valid() && fresh(items.Values - old(items.Values)) && dirty == old(dirty)
      ensures State() == LoadOne(old(State()), v)
    {
      hide Distinct, Filed, Values;
      var b := new Board(v);
      FileRecord(items, v.id, b);
      items := items[v.id := b];
      if v.slug != "" {
        slugIdx := slugIdx[v.slug := v.id];
      }
    }
  }

  method CloneAll(rows: seq<BoardData>) returns (out: seq<Board>)
    ensures NoDup(out) && forall b :: b in out ==> fresh(b)
    ensures ValueSeq(out) == rows
  {
    out := [];
    for k := 0 to |rows|
      invariant NoDup(out) && forall b :: b in out ==> fresh(b)
      invariant ValueSeq(out) == rows[..k]
    {
      var b := new Board(rows[k]);
      assert (out + [b])[..|out|] == out;
      out := out + [b];
    }
  }

  /** A store saved and loaded into a new one: the same boards, and a slug index that finds a
      holder for each held slug; the same index, if it was exact. */
  method Reopen(store: MemoryBoardStore) returns (again: MemoryBoardStore)
    requires store.Valid()
    modifies store`dirty
    ensures again.Valid() && fresh(again) && again.State().items == old(store.State().items)
    ensures SlugsFound(again.State().items, again.State().slugIdx)
    ensures SlugExact(old(store.State())) ==> again.State() == old(store.State())
  {
    var records := store.TakeSnapshot();
    assert Keyed(store.State().items);
    ReloadListing(store.State().items, records);
    if SlugExact(store.State()) {
      SaveLoadRoundTrip(store.State(), records);
    }
    hide Load, SlugExact, SlugsFound, Keyed, T.Lists;
    again := new MemoryBoardStore(Some(T.Encode(records)));
  }
}
