/** The files of the stores, as the persistence protocol sees them: what loading makes of any
    file, which files a flush may write, and when a file is left alone. The order of records
    that the comparator does not decide is the order in which Go visits the map: any. */
module Files {
  import opened Common
  import opened Entities
  import opened Sorting
  import P = Persistence
  import T = IndexedTable
  import TS = ThreadStore
  import CS = CommentStore
  import BS = BoardStore
  import VS = VoteStore

  type File<R> = seq<Option<R>>

  // Where a store files a record, which records it loads, and how it sorts them to be saved.
  datatype Format<!R> = Format(key: R -> string, named: R -> bool, less: (R, R) -> bool)

  function ByKey<R>(fm: Format<R>): T.Schema<R> {
    T.Schema(fm.key, fm.key)
  }

  // load: null entries and records without identifier are dropped, later ones win.
  function LoadItems<R>(fm: Format<R>, file: File<R>): map<string, R> {
    if file == [] then map[]
    else
      var before, last := LoadItems(fm, file[..|file| - 1]), file[|file| - 1];
      if last.Some? && fm.named(last.value) then before[fm.key(last.value) := last.value] else before
  }

  ghost predicate Fits<R>(fm: Format<R>, m: map<string, R>) {
    forall k :: k in m ==> fm.named(m[k]) && fm.key(m[k]) == k
  }

  // flush: each record once, sorted.
  ghost predicate SavedAs<R(!new)>(fm: Format<R>, m: map<string, R>, records: seq<R>) {
    Fits(fm, m) && T.Lists(ByKey(fm), records, m) && SortedBy(fm.less, records)
  }

  ghost predicate IsWritten<R(!new)>(fm: Format<R>, m: map<string, R>, file: File<R>) {
    exists records :: file == T.Encode(records) && SavedAs(fm, m, records)
  }

  ghost function Codec<R(!new)>(fm: Format<R>): P.Codec<File<R>, map<string, R>> {
    P.Codec(map[], file => LoadItems(fm, file), (m, file) => IsWritten(fm, m, file))
  }

  // ---- Loading restores what a flush writes ----

  lemma {:induction false} LoadLists<R(!new)>(fm: Format<R>, records: seq<R>)
    requires forall i :: 0 <= i < |records| ==> fm.named(records[i])
    requires T.DistinctKeys(ByKey(fm), records)
    ensures T.Lists(ByKey(fm), records, LoadItems(fm, T.Encode(records)))
    ensures Fits(fm, LoadItems(fm, T.Encode(records)))
  {
    if records != [] {
      var init, r := records[..|records| - 1], records[|records| - 1];
      assert records == init + [r];
      assert T.Encode(records)[..|init|] == T.Encode(init);
      LoadLists(fm, init);
      var m := LoadItems(fm, T.Encode(init));
      assert LoadItems(fm, T.Encode(records)) == m[fm.key(r) := r];
      hide LoadItems;
      ListsOneMore(fm, init, m, r);
    }
  }

  lemma ListsOneMore<R(!new)>(fm: Format<R>, init: seq<R>, m: map<string, R>, r: R)
    requires Fits(fm, m) && T.Lists(ByKey(fm), init, m)
    requires fm.named(r) && forall i :: 0 <= i < |init| ==> fm.key(init[i]) != fm.key(r)
    ensures T.Lists(ByKey(fm), init + [r], m[fm.key(r) := r]) && Fits(fm, m[fm.key(r) := r])
  {
    assert forall k :: k in m ==> m[k] in init;
    forall x ensures x in init + [r] <==> x in init || x == r {
    }
  }

  lemma SameListing<R(!new)>(fm: Format<R>, a: map<string, R>, b: map<string, R>, records: seq<R>)
    requires Fits(fm, a) && T.Lists(ByKey(fm), records, a)
    requires Fits(fm, b) && T.Lists(ByKey(fm), records, b)
    ensures a == b
  {
    forall k | k in a ensures k in b && b[k] == a[k] {
      assert a[k] in records;
    }
    forall k | k in b ensures k in a {
      assert b[k] in records;
    }
  }

  lemma SavedLoads<R(!new)>(fm: Format<R>, m: map<string, R>, records: seq<R>)
    requires SavedAs(fm, m, records)
    ensures LoadItems(fm, T.Encode(records)) == m
  {
    forall i | 0 <= i < |records| ensures fm.named(records[i]) {
      assert records[i] in records;
    }
    LoadLists(fm, records);
    SameListing(fm, LoadItems(fm, T.Encode(records)), m, records);
  }

  /** Loading restores what a flush writes, whatever the order of the map: the law the
      protocol's theorems on completeness and restarts ask for. */
  lemma FilesRoundTrip<R(!new)>(fm: Format<R>)
    ensures P.RoundTrips(Codec(fm))
  {
    forall m, file | IsWritten(fm, m, file) ensures LoadItems(fm, file) == m {
      var records :| file == T.Encode(records) && SavedAs(fm, m, records);
      SavedLoads(fm, m, records);
    }
  }

  // ---- When a file is left alone ----

  lemma {:induction false} SaveExists<R(!new)>(fm: Format<R>, m: map<string, R>) returns (records: seq<R>)
    requires StrictWeakOrder(fm.less) && Fits(fm, m)
    ensures SavedAs(fm, m, records)
  {
    var some := ListAll(fm, m);
    records := Sort(fm.less, some);
    SortSorted(fm.less, some);
    ReorderLists(fm, m, some, records);
  }

  lemma {:induction false} ListAll<R(!new)>(fm: Format<R>, m: map<string, R>) returns (records: seq<R>)
    requires Fits(fm, m)
    ensures T.Lists(ByKey(fm), records, m)
    decreases |m|
  {
    if m == map[] {
      records := [];
    } else {
      var k :| k in m;
      assert (m - {k}).Keys == m.Keys - {k};
      var init := ListAll(fm, m - {k});
      records := init + [m[k]];
      forall r ensures r in records <==> fm.key(r) in m && m[fm.key(r)] == r {
        assert r in records <==> r in init || r == m[k];
      }
      forall i | 0 <= i < |init| ensures fm.key(init[i]) != k {
        assert init[i] in init;
      }
    }
  }

  lemma ListsNoDup<R(!new)>(fm: Format<R>, m: map<string, R>, records: seq<R>)
    requires T.Lists(ByKey(fm), records, m)
    ensures NoDup(records)
  {
    forall i, j | 0 <= i < j < |records| ensures records[i] != records[j] {
      assert ByKey(fm).key(records[i]) != ByKey(fm).key(records[j]);
    }
  }

  lemma ReorderLists<R(!new)>(fm: Format<R>, m: map<string, R>, a: seq<R>, b: seq<R>)
    requires Fits(fm, m) && T.Lists(ByKey(fm), a, m) && multiset(a) == multiset(b)
    ensures T.Lists(ByKey(fm), b, m)
  {
    ListsNoDup(fm, m, a);
    assert forall i :: 0 <= i < |a| ==> a[i] in a;
    T.PermutationLists(ByKey(fm), a, b, m);
  }

  // Every entry is a record with an identifier, none comes twice, and the comparator puts
  // each record strictly before every later one.
  ghost predicate Settled<R(!new)>(fm: Format<R>, file: File<R>) {
    && (forall i :: 0 <= i < |file| ==> file[i].Some? && fm.named(file[i].value))
    && (forall i, j :: 0 <= i < j < |file| ==>
          file[i].Some? && file[j].Some?
          && fm.key(file[i].value) != fm.key(file[j].value) && fm.less(file[i].value, file[j].value))
  }

  ghost predicate StrictlySorted<R>(less: (R, R) -> bool, records: seq<R>) {
    forall i, j :: 0 <= i < j < |records| ==> less(records[i], records[j])
  }

  // Two records that the comparator does not decide can change places.
  function Swapped<R>(records: seq<R>, i: nat, j: nat): seq<R>
    requires i < j < |records|
  {
    records[i := records[j]][j := records[i]]
  }

  lemma SwapMultiset<R>(records: seq<R>, i: nat, j: nat)
    requires i < j < |records|
    ensures multiset(Swapped(records, i, j)) == multiset(records)
  {
    var a, b, rest := records[..i], records[i + 1..j], records[j + 1..];
    assert records == a + [records[i]] + b + [records[j]] + rest;
    assert Swapped(records, i, j) == a + [records[j]] + b + [records[i]] + rest;
  }

  lemma SwapSorted<R(!new)>(less: (R, R) -> bool, records: seq<R>, i: nat, j: nat)
    requires StrictWeakOrder(less) && SortedBy(less, records)
    requires i < j < |records| && !less(records[i], records[j])
    ensures SortedBy(less, Swapped(records, i, j))
  {
    var s := Swapped(records, i, j);
    forall k | i < k < j ensures !less(records[i], records[k]) && !less(records[k], records[j]) {
      assert !less(records[j], records[k]) && !less(records[k], records[i]);
    }
    forall a, b | 0 <= a < b < |s| ensures !less(s[b], s[a]) {
      assert !less(records[b], records[a]);
    }
  }

  lemma StrictIsUnique<R(!new)>(fm: Format<R>, m: map<string, R>, a: seq<R>, b: seq<R>)
    requires StrictWeakOrder(fm.less) && SavedAs(fm, m, a) && SavedAs(fm, m, b) && StrictlySorted(fm.less, a)
    ensures a == b
  {
    ListsNoDup(fm, m, a);
    ListsNoDup(fm, m, b);
    NoDupMultiset(a);
    NoDupMultiset(b);
    assert (set r | r in a) == (set r | r in b);
    SortedUnique(fm.less, a, b);
  }

  lemma OneFileIff<R(!new)>(fm: Format<R>, m: map<string, R>, records: seq<R>)
    requires StrictWeakOrder(fm.less) && SavedAs(fm, m, records)
    ensures P.OnlyWrites(Codec(fm), m, T.Encode(records)) <==> StrictlySorted(fm.less, records)
  {
    if StrictlySorted(fm.less, records) {
      forall file | IsWritten(fm, m, file) ensures file == T.Encode(records) {
        var other :| file == T.Encode(other) && SavedAs(fm, m, other);
        StrictIsUnique(fm, m, records, other);
      }
    } else {
      var i, j :| 0 <= i < j < |records| && !fm.less(records[i], records[j]);
      hide SavedAs, StrictWeakOrder;
      TieOtherFile(fm, m, records, i, j);
      var other := T.Encode(Swapped(records, i, j));
      assert Codec(fm).writes(m, other) && other != T.Encode(records);
    }
  }

  // A tie can be written the other way round.
  lemma TieOtherFile<R(!new)>(fm: Format<R>, m: map<string, R>, records: seq<R>, i: nat, j: nat)
    requires StrictWeakOrder(fm.less) && SavedAs(fm, m, records)
    requires i < j < |records| && !fm.less(records[i], records[j])
    ensures IsWritten(fm, m, T.Encode(Swapped(records, i, j)))
    ensures T.Encode(Swapped(records, i, j)) != T.Encode(records)
  {
    var other := Swapped(records, i, j);
    SwapMultiset(records, i, j);
    SwapSorted(fm.less, records, i, j);
    ListsNoDup(fm, m, records);
    assert T.Encode(other)[i].value == records[j] != records[i] == T.Encode(records)[i].value;
    hide StrictWeakOrder, SortedBy, T.Lists, Fits, Swapped, T.Encode;
    ReorderLists(fm, m, records, other);
    assert SavedAs(fm, m, other);
  }

  lemma {:induction false} LoadFits<R>(fm: Format<R>, file: File<R>)
    ensures Fits(fm, LoadItems(fm, file))
  {
    if file != [] {
      LoadFits(fm, file[..|file| - 1]);
    }
  }

  /** A flush after a load can write no other file if and only if the file is settled. */
  lemma ReadKeepsIff<R(!new)>(fm: Format<R>, file: File<R>)
    requires StrictWeakOrder(fm.less)
    ensures P.OnlyWrites(Codec(fm), LoadItems(fm, file), file) <==> Settled(fm, file)
  {
    var m := LoadItems(fm, file);
    LoadFits(fm, file);
    if Settled(fm, file) {
      var records := seq(|file|, i requires 0 <= i < |file| => file[i].value);
      assert file == T.Encode(records);
      assert SortedBy(fm.less, records) && StrictlySorted(fm.less, records);
      LoadLists(fm, records);
      OneFileIff(fm, m, records);
    }
    if P.OnlyWrites(Codec(fm), m, file) {
      var records := SaveExists(fm, m);
      assert Codec(fm).writes(m, T.Encode(records));
      OneFileIff(fm, m, records);
      SettledIs(fm, m, records);
    }
  }

  lemma SettledIs<R(!new)>(fm: Format<R>, m: map<string, R>, records: seq<R>)
    requires SavedAs(fm, m, records) && StrictlySorted(fm.less, records)
    ensures Settled(fm, T.Encode(records))
  {
    assert forall i :: 0 <= i < |records| ==> records[i] in records;
    assert forall i, j :: 0 <= i < j < |records| ==> ByKey(fm).key(records[i]) != ByKey(fm).key(records[j]);
  }

  /** A store that changes nothing leaves its file alone, whatever else happens, if and only if
      the file is settled where a start can read it, and empty where one cannot. */
  lemma FileLeftAloneIff<R(!new)>(fm: Format<R>, disk: File<R>, loads: seq<bool>)
    requires StrictWeakOrder(fm.less)
    ensures P.FileKept(Codec(fm), disk, loads)
       <==> forall i :: 0 <= i < |loads| ==> if loads[i] then Settled(fm, disk) else disk == []
  {
    P.FileKeptIff(Codec(fm), disk, loads);
    ReadKeepsIff(fm, disk);
    EmptyKeepsIff(fm, disk);
  }

  lemma EmptyKeepsIff<R(!new)>(fm: Format<R>, disk: File<R>)
    ensures P.OnlyWrites(Codec(fm), map[], disk) <==> disk == []
  {
    assert SavedAs(fm, map[], []) && T.Encode<R>([]) == [];
    assert Codec(fm).writes(map[], []);
    forall file | IsWritten(fm, map[], file) ensures file == [] {
      var records :| file == T.Encode(records) && SavedAs(fm, map[], records);
      ListsNoDup(fm, map[], records);
      NoDupMultiset(records);
      assert (set r | r in records) == {};
      assert |records| == |multiset(records)| == 0;
    }
  }

  // ---- The four stores ----

  function ThreadFormat(): Format<ThreadData> {
    Format(TS.IdOf, (t: ThreadData) => t.id != "", TS.SavedBefore)
  }

  function CommentFormat(): Format<CommentData> {
    Format(CS.IdOf, (c: CommentData) => c.id != "", CS.Older)
  }

  function BoardFormat(): Format<BoardData> {
    Format(BS.IdOf, (b: BoardData) => b.id != "", BS.ListedBefore)
  }

  // Votes are saved in the order of the map.
  function VoteFormat(): Format<VoteData> {
    Format(VS.KeyOf, (v: VoteData) => v.id != "", (v: VoteData, w: VoteData) => false)
  }

  /** Each store loads its file as the protocol's codec says. */
  lemma {:induction false} ThreadsLoad(file: File<ThreadData>)
    ensures T.Load(TS.BySchema(), T.Empty(), file).items == LoadItems(ThreadFormat(), file)
  {
    if file != [] {
      ThreadsLoad(file[..|file| - 1]);
    }
  }

  lemma {:induction false} CommentsLoad(file: File<CommentData>)
    ensures T.Load(CS.BySchema(), T.Empty(), file).items == LoadItems(CommentFormat(), file)
  {
    if file != [] {
      CommentsLoad(file[..|file| - 1]);
    }
  }

  lemma {:induction false} BoardsLoad(file: File<BoardData>)
    ensures BS.Load(BS.Boards(map[], map[]), file).items == LoadItems(BoardFormat(), file)
  {
    if file != [] {
      BoardsLoad(file[..|file| - 1]);
    }
  }

  lemma {:induction false} VotesLoad(file: File<VoteData>)
    ensures VS.Load(map[], file) == LoadItems(VoteFormat(), file)
  {
    if file != [] {
      VotesLoad(file[..|file| - 1]);
    }
  }

  /** And the records each store flushes are a file that the codec writes for its memory. */
  method FlushThreads(store: TS.MemoryThreadStore) returns (records: seq<ThreadData>)
    requires store.Valid()
    modifies store`dirty
    ensures store.Valid() && store.State() == old(store.State()) && !store.dirty
    ensures IsWritten(ThreadFormat(), store.State().items, T.Encode(records))
  {
    records := store.TakeSnapshot();
    assert SavedAs(ThreadFormat(), store.State().items, records);
  }

  method FlushComments(store: CS.MemoryCommentStore) returns (records: seq<CommentData>)
    requires store.Valid()
    modifies store`dirty
    ensures store.Valid() && store.State() == old(store.State()) && !store.dirty
    ensures IsWritten(CommentFormat(), store.State().items, T.Encode(records))
  {
    records := store.TakeSnapshot();
    assert SavedAs(CommentFormat(), store.State().items, records);
  }

  method FlushBoards(store: BS.MemoryBoardStore) returns (records: seq<BoardData>)
    requires store.Valid()
    modifies store`dirty
    ensures store.Valid() && store.State() == old(store.State()) && !store.dirty
    ensures IsWritten(BoardFormat(), store.State().items, T.Encode(records))
  {
    records := store.TakeSnapshot();
    assert SavedAs(BoardFormat(), store.State().items, records);
  }

  method FlushVotes(store: VS.MemoryVoteStore) returns (records: seq<VoteData>)
    requires store.Valid()
    modifies store`dirty
    ensures store.Valid() && store.State() == old(store.State()) && !store.dirty
    ensures IsWritten(VoteFormat(), store.State(), T.Encode(records))
  {
    records := store.TakeSnapshot();
    VotesListed(store.State(), records);
  }

  lemma VotesListed(items: map<string, VoteData>, records: seq<VoteData>)
    requires VS.Filed(items) && VS.FileOf(items, records)
    ensures SavedAs(VoteFormat(), items, records)
  {
    hide VS.KeyOf;
    assert forall i :: 0 <= i < |records| ==> records[i] in records;
  }

  // Every entry is a record with an identifier, and none comes twice.
  ghost predicate AllNamed<R>(fm: Format<R>, file: File<R>) {
    && (forall i :: 0 <= i < |file| ==> file[i].Some? && fm.named(file[i].value))
    && (forall i, j :: 0 <= i < j < |file| ==>
          file[i].Some? && file[j].Some? && fm.key(file[i].value) != fm.key(file[j].value))
  }

  predicate PairInOrder<R>(less: (R, R) -> bool, file: File<R>, i: nat, j: nat)
    requires i < j < |file|
  {
    file[i].Some? && file[j].Some? && less(file[i].value, file[j].value)
  }

  ghost predicate InOrder<R>(less: (R, R) -> bool, file: File<R>) {
    forall i: nat, j: nat :: i < j < |file| ==> PairInOrder(less, file, i, j)
  }

  lemma SettledParts<R(!new)>(fm: Format<R>, file: File<R>)
    ensures Settled(fm, file) <==> AllNamed(fm, file) && InOrder(fm.less, file)
  {
    if AllNamed(fm, file) && InOrder(fm.less, file) {
      forall i, j | 0 <= i < j < |file| ensures fm.less(file[i].value, file[j].value) {
        assert PairInOrder(fm.less, file, i, j);
      }
    }
  }

  /** A board store that changes nothing leaves a file alone that it can read if and only if
      the boards have identifiers, none twice, and none should come before an earlier one. */
  lemma BoardFileKeptIff(disk: File<BoardData>, loads: seq<bool>)
    ensures P.FileKept(Codec(BoardFormat()), disk, loads)
       <==> forall i :: 0 <= i < |loads| ==>
              if loads[i] then AllNamed(BoardFormat(), disk) && BoardsSorted(disk) else disk == []
  {
    BS.OrderIsStrict();
    BoardsInOrder(disk);
    SettledParts(BoardFormat(), disk);
    hide Settled, AllNamed, InOrder, BoardsSorted, P.FileKept;
    FileLeftAloneIff(BoardFormat(), disk, loads);
  }

  ghost predicate BoardsSorted(disk: File<BoardData>) {
    forall i, j :: 0 <= i < j < |disk| ==>
      disk[i].Some? && disk[j].Some? && !BS.ListedBefore(disk[j].value, disk[i].value)
  }

  // The display order decides any two boards.
  lemma BoardsInOrder(disk: File<BoardData>)
    ensures AllNamed(BoardFormat(), disk)
            ==> (InOrder(BoardFormat().less, disk) <==> BoardsSorted(disk))
  {
    BS.OrderIsStrict();
    hide BS.ListedBefore;
    var fm := BoardFormat();
    if AllNamed(fm, disk) {
      forall i, j | 0 <= i < j < |disk|
        ensures BS.ListedBefore(disk[i].value, disk[j].value) <==> !BS.ListedBefore(disk[j].value, disk[i].value)
      {
        assert fm.key(disk[i].value) != fm.key(disk[j].value);
      }
      if InOrder(fm.less, disk) {
        forall i, j | 0 <= i < j < |disk| ensures !BS.ListedBefore(disk[j].value, disk[i].value) {
          assert PairInOrder(fm.less, disk, i, j);
        }
      }
    }
  }

  /** A vote store leaves such a file alone only if it holds at most one vote: votes are saved
      in whatever order the map is visited. */
  lemma VoteFileKeptIff(disk: File<VoteData>, loads: seq<bool>)
    ensures P.FileKept(Codec(VoteFormat()), disk, loads)
       <==> forall i :: 0 <= i < |loads| ==>
              if loads[i] then AllNamed(VoteFormat(), disk) && |disk| <= 1 else disk == []
  {
    assert StrictWeakOrder(VoteFormat().less);
    NoVoteOrder(disk);
    SettledParts(VoteFormat(), disk);
    hide Settled, AllNamed, InOrder, P.FileKept;
    FileLeftAloneIff(VoteFormat(), disk, loads);
  }

  lemma NoVoteOrder(disk: File<VoteData>)
    ensures InOrder(VoteFormat().less, disk) <==> |disk| <= 1
  {
    if |disk| > 1 {
      assert !PairInOrder(VoteFormat().less, disk, 0, 1);
    }
  }

  /** A thread or comment store leaves it alone only if, besides, no two threads of one block
      and no two comments were created at the same time. */
  lemma ThreadFileKeptIff(disk: File<ThreadData>, loads: seq<bool>)
    ensures P.FileKept(Codec(ThreadFormat()), disk, loads)
       <==> forall i :: 0 <= i < |loads| ==>
              if loads[i] then AllNamed(ThreadFormat(), disk) && InOrder(TS.SavedBefore, disk) else disk == []
  {
    TS.OrdersAreWeak();
    SettledParts(ThreadFormat(), disk);
    hide Settled, AllNamed, InOrder, P.FileKept, StrictWeakOrder;
    FileLeftAloneIff(ThreadFormat(), disk, loads);
  }

  lemma CommentFileKeptIff(disk: File<CommentData>, loads: seq<bool>)
    ensures P.FileKept(Codec(CommentFormat()), disk, loads)
       <==> forall i :: 0 <= i < |loads| ==>
              if loads[i] then AllNamed(CommentFormat(), disk) && InOrder(CS.Older, disk) else disk == []
  {
    CS.ComparatorsAreWeak(CommentFilter("", None, "", "oldest"));
    SettledParts(CommentFormat(), disk);
    hide Settled, AllNamed, InOrder, P.FileKept, StrictWeakOrder;
    FileLeftAloneIff(CommentFormat(), disk, loads);
  }
}
