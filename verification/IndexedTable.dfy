/** The state shared by the thread and the comment store: a primary map from identifier to
    record and a secondary index from a grouping key (board or thread) to identifiers.
    Each operation is what one store call does to that state under its lock. */
module IndexedTable {
  import opened Common

  datatype Table<R> = Table(items: map<string, R>, index: map<string, seq<string>>)

  // Where a record keeps its identifier and its grouping key.
  datatype Schema<!R> = Schema(key: R -> string, group: R -> string)

  function Empty<R>(): Table<R> {
    Table(map[], map[])
  }

  // Reading a missing entry of a Go map of slices gives the empty slice.
  function Bucket<R>(t: Table<R>, group: string): seq<string> {
    if group in t.index then t.index[group] else []
  }

  function Insert<R>(s: Schema<R>, t: Table<R>, r: R): Table<R> {
    var g := s.group(r);
    Table(t.items[s.key(r) := r], t.index[g := Bucket(t, g) + [s.key(r)]])
  }

  function Create<R>(s: Schema<R>, t: Table<R>, r: R): (Table<R>, Status) {
    if s.key(r) == "" then (t, Failed(InvalidInput))
    else if s.key(r) in t.items then (t, Failed(AlreadyExists))
    else (Insert(s, t, r), Done)
  }

  function Update<R>(s: Schema<R>, t: Table<R>, r: R): (Table<R>, Status) {
    if s.key(r) == "" then (t, Failed(InvalidInput))
    else if s.key(r) !in t.items then (t, Failed(NotFound))
    else (t.(items := t.items[s.key(r) := r]), Done)
  }

  function Delete<R>(s: Schema<R>, t: Table<R>, id: string): (Table<R>, Status) {
    if id !in t.items then (t, Failed(NotFound))
    else
      var g := s.group(t.items[id]);
      var ids := Bucket(t, g);
      (Table(t.items - {id}, if id in ids then t.index[g := RemoveFirst(ids, id)] else t.index), Done)
  }

  function Lookup<R>(t: Table<R>, id: string): Result<R> {
    if id in t.items then Ok(t.items[id]) else Err(NotFound)
  }

  // ---- What each call answers and changes ----

  /** Create answers that the identifier is missing, that it is in use, or success; and then
      the record is filed under it and listed last in its group, and nothing else changes. */
  lemma CreateAnswers<R>(s: Schema<R>, t: Table<R>, r: R)
    ensures var (t', st), id := Create(s, t, r), s.key(r);
            && (st == Failed(InvalidInput) <==> id == "")
            && (st == Failed(AlreadyExists) <==> id != "" && id in t.items)
            && (st == Done <==> id != "" && id !in t.items)
            && (st != Done ==> t' == t)
            && (st == Done ==>
                  && t'.items == t.items[id := r]
                  && (forall g :: Bucket(t', g) == Bucket(t, g) + if g == s.group(r) then [id] else []))
  {
  }

  /** Update answers that the identifier is missing, that there is no such record, or success;
      and then the record is replaced, and nothing else changes. */
  lemma UpdateAnswers<R>(s: Schema<R>, t: Table<R>, r: R)
    ensures var (t', st), id := Update(s, t, r), s.key(r);
            && (st == Failed(InvalidInput) <==> id == "")
            && (st == Failed(NotFound) <==> id != "" && id !in t.items)
            && (st == Done <==> id != "" && id in t.items)
            && (st != Done ==> t' == t)
            && (st == Done ==> t'.items == t.items[id := r] && t'.index == t.index)
  {
  }

  /** Delete answers that there is no such record, or success; and then the record is gone,
      and of the index only the entry of its group changes. */
  lemma DeleteAnswers<R>(s: Schema<R>, t: Table<R>, id: string)
    ensures var (t', st) := Delete(s, t, id);
            && (st == Failed(NotFound) <==> id !in t.items)
            && (st == Done <==> id in t.items)
            && (st != Done ==> t' == t)
            && (st == Done ==>
                  && t'.items == t.items - {id}
                  && (forall g :: g != s.group(t.items[id]) ==> Bucket(t', g) == Bucket(t, g)))
  {
  }

  lemma LookupAnswers<R>(t: Table<R>, id: string)
    ensures Lookup(t, id) == Err(NotFound) <==> id !in t.items
    ensures id in t.items ==> Lookup(t, id) == Ok(t.items[id])
  {
  }

  // ---- The index as a cache over a scan ----

  ghost predicate Keyed<R>(s: Schema<R>, t: Table<R>) {
    forall id :: id in t.items ==> id != "" && s.key(t.items[id]) == id
  }

  ghost predicate InGroup<R>(s: Schema<R>, t: Table<R>, id: string, group: string) {
    id in t.items && s.group(t.items[id]) == group
  }

  /** The index is exact: each entry lists, once each, the records of its group. */
  ghost predicate Exact<R>(s: Schema<R>, t: Table<R>) {
    && (forall g :: NoDup(Bucket(t, g)))
    && (forall g, id :: id in Bucket(t, g) <==> InGroup(s, t, id, g))
  }

  datatype Op<R> =
    | OpCreate(r: R)
    | OpUpdate(r: R)
    | OpDelete(id: string)

  function Apply<R>(s: Schema<R>, t: Table<R>, op: Op<R>): Table<R> {
    match op
    case OpCreate(r) => Create(s, t, r).0
    case OpUpdate(r) => Update(s, t, r).0
    case OpDelete(id) => Delete(s, t, id).0
  }

  function Run<R>(s: Schema<R>, ops: seq<Op<R>>): Table<R> {
    if ops == [] then Empty() else Apply(s, Run(s, ops[..|ops| - 1]), ops[|ops| - 1])
  }

  // An update moves no record to another group.
  ghost predicate KeepsGroup<R>(s: Schema<R>, t: Table<R>, op: Op<R>) {
    op.OpUpdate? && s.key(op.r) in t.items ==> s.group(op.r) == s.group(t.items[s.key(op.r)])
  }

  ghost predicate RunKeepsGroups<R>(s: Schema<R>, ops: seq<Op<R>>) {
    forall i :: 0 <= i < |ops| ==> KeepsGroup(s, Run(s, ops[..i]), ops[i])
  }

  // The record last written under an identifier: created while there was none, updated
  // while there was one, gone once deleted.
  function LastWrite<R>(s: Schema<R>, ops: seq<Op<R>>, id: string): Option<R> {
    if ops == [] then None
    else
      var before := LastWrite(s, ops[..|ops| - 1], id);
      match ops[|ops| - 1]
      case OpCreate(r) => if s.key(r) == id != "" && before.None? then Some(r) else before
      case OpUpdate(r) => if s.key(r) == id && before.Some? then Some(r) else before
      case OpDelete(d) => if d == id then None else before
  }

  /** Over every run the table holds under each identifier the record last written there. */
  lemma {:induction false} ItemsAreLastWrites<R>(s: Schema<R>, ops: seq<Op<R>>, id: string)
    ensures var t := Run(s, ops);
            (if id in t.items then Some(t.items[id]) else None) == LastWrite(s, ops, id)
    ensures "" !in Run(s, ops).items
  {
    if ops != [] {
      ItemsAreLastWrites(s, ops[..|ops| - 1], id);
    }
  }

  // The reference: the identifiers of the living records in order of creation.
  function Order<R>(s: Schema<R>, ops: seq<Op<R>>): seq<string> {
    if ops == [] then []
    else
      var init, op := ops[..|ops| - 1], ops[|ops| - 1];
      match op
      case OpCreate(r) =>
        if Create(s, Run(s, init), r).1.Done? then Order(s, init) + [s.key(r)] else Order(s, init)
      case OpUpdate(_) => Order(s, init)
      case OpDelete(id) => RemoveFirst(Order(s, init), id)
  }

  // A scan: the identifiers of `order` whose record is in the group.
  ghost function Scan<R>(s: Schema<R>, t: Table<R>, order: seq<string>, group: string): seq<string> {
    if order == [] then []
    else
      var id := order[|order| - 1];
      Scan(s, t, order[..|order| - 1], group) + (if InGroup(s, t, id, group) then [id] else [])
  }

  // The scan sees a table only through the groups of the scanned identifiers.
  lemma {:induction false} ScanFrame<R>(s: Schema<R>, t: Table<R>, t': Table<R>, order: seq<string>, group: string)
    requires forall id :: id in order ==> InGroup(s, t, id, group) == InGroup(s, t', id, group)
    ensures Scan(s, t, order, group) == Scan(s, t', order, group)
  {
    if order != [] {
      var init := order[..|order| - 1];
      assert order[|order| - 1] in order && forall id :: id in init ==> id in order;
      ScanFrame(s, t, t', init, group);
    }
  }

  lemma {:induction false} ScanAppend<R>(s: Schema<R>, t: Table<R>, a: seq<string>, b: seq<string>, group: string)
    ensures Scan(s, t, a + b, group) == Scan(s, t, a, group) + Scan(s, t, b, group)
  {
    if b == [] {
      assert a + b == a;
    } else {
      var init := b[..|b| - 1];
      assert (a + b)[..|a + b| - 1] == a + init;
      ScanAppend(s, t, a, init, group);
    }
  }

  lemma {:induction false} ScanMembers<R>(s: Schema<R>, t: Table<R>, order: seq<string>, group: string)
    ensures forall id :: id in Scan(s, t, order, group) <==> id in order && InGroup(s, t, id, group)
    ensures NoDup(order) ==> NoDup(Scan(s, t, order, group))
  {
    if order != [] {
      var init, last := order[..|order| - 1], order[|order| - 1];
      assert order == init + [last];
      ScanMembers(s, t, init, group);
    }
  }

  lemma {:induction false} RemoveFirstSplit(a: seq<string>, b: seq<string>, x: string)
    requires x !in a
    ensures RemoveFirst(a + [x] + b, x) == a + b
  {
    var all := a + [x] + b;
    assert all[..|a|] == a && all[|a| + 1..] == b;
    RemoveFirstAt(all, x, |a|);
  }

  lemma ScanAround<R>(s: Schema<R>, t: Table<R>, a: seq<string>, id: string, b: seq<string>, group: string)
    ensures Scan(s, t, a + [id] + b, group)
         == Scan(s, t, a, group) + (if InGroup(s, t, id, group) then [id] else []) + Scan(s, t, b, group)
  {
    ScanAppend(s, t, a + [id], b, group);
    ScanAppend(s, t, a, [id], group);
    assert [id][..0] == [] && Scan(s, t, [id], group) == if InGroup(s, t, id, group) then [id] else [];
  }

  lemma DeleteFrame<R>(s: Schema<R>, t: Table<R>, id: string, order: seq<string>, group: string)
    requires id in t.items && id !in order
    ensures Scan(s, Delete(s, t, id).0, order, group) == Scan(s, t, order, group)
  {
    ScanFrame(s, t, Delete(s, t, id).0, order, group);
  }

  lemma SplitAround(order: seq<string>, id: string) returns (a: seq<string>, b: seq<string>)
    requires NoDup(order) && id in order
    ensures order == a + [id] + b && id !in a && id !in b
  {
    var i :| 0 <= i < |order| && order[i] == id;
    a, b := order[..i], order[i + 1..];
  }

  // Removing an identifier commutes with scanning.
  lemma ScanRemove<R>(s: Schema<R>, t: Table<R>, order: seq<string>, id: string, group: string)
    requires NoDup(order) && id in order && id in t.items
    ensures Scan(s, Delete(s, t, id).0, RemoveFirst(order, id), group)
         == if InGroup(s, t, id, group) then RemoveFirst(Scan(s, t, order, group), id)
            else Scan(s, t, order, group)
  {
    var a, b := SplitAround(order, id);
    hide *;
    RemoveFirstSplit(a, b, id);
    ScanAround(s, t, a, id, b, group);
    ScanAppend(s, Delete(s, t, id).0, a, b, group);
    DeleteFrame(s, t, id, a, group);
    DeleteFrame(s, t, id, b, group);
    ScanMembers(s, t, a, group);
    var sa, sb := Scan(s, t, a, group), Scan(s, t, b, group);
    if InGroup(s, t, id, group) {
      RemoveFirstSplit(sa, sb, id);
    } else {
      assert sa + [] + sb == sa + sb;
    }
  }

  /** Over every run whose updates keep each record in its group, the index lists exactly
      the records of each group, once each and in order of creation. */
  lemma {:induction false} IndexIsScan<R>(s: Schema<R>, ops: seq<Op<R>>, group: string)
    requires RunKeepsGroups(s, ops)
    ensures var t, order := Run(s, ops), Order(s, ops);
            && Keyed(s, t) && NoDup(order)
            && (forall id :: id in order <==> id in t.items)
            && Bucket(t, group) == Scan(s, t, order, group)
  {
    if ops != [] {
      var init, op := ops[..|ops| - 1], ops[|ops| - 1];
      forall i | 0 <= i < |init| ensures KeepsGroup(s, Run(s, init[..i]), init[i]) {
        assert init[..i] == ops[..i];
      }
      IndexIsScan(s, init, group);
      assert KeepsGroup(s, Run(s, init), op);
      var t, order := Run(s, init), Order(s, init);
      match op
      case OpCreate(r) =>
        if Create(s, t, r).1.Done? { CreateKeepsScan(s, t, order, r, group); }
      case OpUpdate(r) =>
        ScanFrame(s, t, Update(s, t, r).0, order, group);
      case OpDelete(id) =>
        if id in t.items { DeleteKeepsScan(s, t, order, id, group); } else { RemoveFirstAbsent(order, id); }
    }
  }

  lemma DeleteKeepsScan<R>(s: Schema<R>, t: Table<R>, order: seq<string>, id: string, group: string)
    requires NoDup(order) && id in order && id in t.items
    requires Bucket(t, group) == Scan(s, t, order, group)
    ensures var t', order' := Delete(s, t, id).0, RemoveFirst(order, id);
            && NoDup(order') && (forall i :: i in order' <==> i in order && i != id)
            && Bucket(t', group) == Scan(s, t', order', group)
  {
    RemoveFirstNoDup(order, id);
    ScanRemove(s, t, order, id, group);
    ScanMembers(s, t, order, group);
  }

  lemma CreateKeepsScan<R>(s: Schema<R>, t: Table<R>, order: seq<string>, r: R, group: string)
    requires NoDup(order) && (forall id :: id in order <==> id in t.items)
    requires Create(s, t, r).1.Done?
    requires Bucket(t, group) == Scan(s, t, order, group)
    ensures var t' := Create(s, t, r).0;
            NoDup(order + [s.key(r)]) && Bucket(t', group) == Scan(s, t', order + [s.key(r)], group)
  {
    var t' := Create(s, t, r).0;
    ScanFrame(s, t, t', order, group);
    assert (order + [s.key(r)])[..|order|] == order;
  }

  /** In particular the index is exact in every such state. */
  lemma {:induction false} IndexExact<R>(s: Schema<R>, ops: seq<Op<R>>)
    requires RunKeepsGroups(s, ops)
    ensures Keyed(s, Run(s, ops)) && Exact(s, Run(s, ops))
  {
    var t, order := Run(s, ops), Order(s, ops);
    IndexIsScan(s, ops, "");
    forall g ensures NoDup(Bucket(t, g)) && forall id :: id in Bucket(t, g) <==> InGroup(s, t, id, g) {
      IndexIsScan(s, ops, g);
      ScanMembers(s, t, order, g);
    }
  }

  // ---- One step at a time ----

  lemma CreateKeepsExact<R>(s: Schema<R>, t: Table<R>, r: R)
    requires Exact(s, t)
    ensures Exact(s, Create(s, t, r).0)
  {
    var t' := Create(s, t, r).0;
    if Create(s, t, r).1.Done? {
      forall g ensures NoDup(Bucket(t', g)) && forall id :: id in Bucket(t', g) <==> InGroup(s, t', id, g) {
        assert s.key(r) !in Bucket(t, g) by { assert !InGroup(s, t, s.key(r), g); }
        assert forall id :: id in Bucket(t, g) <==> InGroup(s, t, id, g);
      }
    }
  }

  lemma DeleteKeepsExact<R>(s: Schema<R>, t: Table<R>, id: string)
    requires Exact(s, t)
    ensures Exact(s, Delete(s, t, id).0)
  {
    var t' := Delete(s, t, id).0;
    if id in t.items {
      forall g ensures NoDup(Bucket(t', g)) && forall i :: i in Bucket(t', g) <==> InGroup(s, t', i, g) {
        RemoveFirstNoDup(Bucket(t, g), id);
        assert forall i :: i in Bucket(t, g) <==> InGroup(s, t, i, g);
        assert InGroup(s, t, id, s.group(t.items[id]));
      }
    }
  }

  /** Update keeps the index exact if and only if the record stays in its group: the store
      rewrites the record but never touches the index. */
  lemma UpdateKeepsExactIff<R>(s: Schema<R>, t: Table<R>, r: R)
    requires Exact(s, t) && Update(s, t, r).1.Done?
    ensures Exact(s, Update(s, t, r).0) <==> s.group(r) == s.group(t.items[s.key(r)])
  {
    var t', id := Update(s, t, r).0, s.key(r);
    var g := s.group(t.items[id]);
    assert InGroup(s, t, id, g) && id in Bucket(t, g) && Bucket(t, g) == Bucket(t', g);
    if s.group(r) == g {
      assert forall g', i :: InGroup(s, t', i, g') == InGroup(s, t, i, g');
      assert forall g' :: Bucket(t', g') == Bucket(t, g');
    } else {
      assert !InGroup(s, t', id, g);
    }
  }

  // ---- Listing ----

  // The records of the listed identifiers that pass a filter, in order.
  function Select<R>(items: map<string, R>, keep: R -> bool, ids: seq<string>): seq<R>
    requires forall id :: id in ids ==> id in items
  {
    if ids == [] then []
    else
      var init, last := ids[..|ids| - 1], ids[|ids| - 1];
      assert last in ids && forall id :: id in init ==> id in ids;
      Select(items, keep, init) + (if keep(items[last]) then [items[last]] else [])
  }

  lemma {:induction false} SelectMembers<R>(s: Schema<R>, items: map<string, R>, keep: R -> bool, ids: seq<string>)
    requires Keyed(s, Table(items, map[])) && NoDup(ids)
    requires forall id :: id in ids ==> id in items
    ensures var rows := Select(items, keep, ids);
            && NoDup(rows)
            && (forall i :: 0 <= i < |rows| ==>
                  keep(rows[i]) && s.key(rows[i]) in ids && items[s.key(rows[i])] == rows[i])
            && (forall id :: id in ids && keep(items[id]) ==> items[id] in rows)
  {
    if ids != [] {
      var init, last := ids[..|ids| - 1], ids[|ids| - 1];
      assert ids == init + [last] && last !in init;
      SelectMembers(s, items, keep, init);
    }
  }

  /** Selecting through any duplicate-free list of identifiers that covers the kept records
      gives the same multiset as scanning every record. */
  lemma SelectIsScan<R>(s: Schema<R>, items: map<string, R>, keep: R -> bool, ids: seq<string>)
    requires Keyed(s, Table(items, map[])) && NoDup(ids)
    requires forall id :: id in ids ==> id in items
    requires forall id :: id in items && keep(items[id]) ==> id in ids
    ensures multiset(Select(items, keep, ids)) == multiset(set r | r in items.Values && keep(r))
  {
    var rows := Select(items, keep, ids);
    SelectMembers(s, items, keep, ids);
    NoDupMultiset(rows);
    assert (set r | r in rows) == (set r | r in items.Values && keep(r));
  }

  // ---- Saving and loading ----

  // A file's records in any order: each record of the table exactly once.
  ghost predicate Lists<R(!new)>(s: Schema<R>, records: seq<R>, items: map<string, R>) {
    && (forall i, j :: 0 <= i < j < |records| ==> s.key(records[i]) != s.key(records[j]))
    && (forall r :: r in records <==> s.key(r) in items && items[s.key(r)] == r)
  }

  // Some file lists the records of any keyed map.
  lemma {:induction false} SomeListing<R(!new)>(s: Schema<R>, items: map<string, R>) returns (records: seq<R>)
    requires Keyed(s, Table(items, map[]))
    ensures Lists(s, records, items)
    decreases |items|
  {
    if items.Keys == {} {
      records := [];
    } else {
      var id :| id in items;
      var rest := items - {id};
      assert |rest.Keys| < |items.Keys| by { assert rest.Keys == items.Keys - {id}; }
      var init := SomeListing(s, rest);
      records := init + [items[id]];
      ExtendListing(s, init, items, id);
    }
  }

  lemma ExtendListing<R(!new)>(s: Schema<R>, init: seq<R>, items: map<string, R>, id: string)
    requires Keyed(s, Table(items, map[])) && id in items && Lists(s, init, items - {id})
    ensures Lists(s, init + [items[id]], items)
  {
    var records := init + [items[id]];
    forall r ensures r in records <==> s.key(r) in items && items[s.key(r)] == r {
      assert r in records <==> r in init || r == items[id];
    }
    forall i | 0 <= i < |init| ensures s.key(init[i]) != id {
      assert init[i] in init;
    }
  }

  lemma PermutationLists<R(!new)>(s: Schema<R>, a: seq<R>, b: seq<R>, items: map<string, R>)
    requires NoDup(a) && multiset(a) == multiset(b)
    requires forall i :: 0 <= i < |a| ==> s.key(a[i]) in items && items[s.key(a[i])] == a[i]
    requires forall id :: id in items ==> items[id] in a && s.key(items[id]) == id
    ensures Lists(s, b, items)
  {
    forall r ensures r in b <==> r in a {
      assert r in b <==> r in multiset(b);
      assert r in a <==> r in multiset(a);
    }
    PermutationNoDup(a, b);
    forall i, j | 0 <= i < j < |b| ensures s.key(b[i]) != s.key(b[j]) {
      assert b[i] in a && b[j] in a && b[i] != b[j];
    }
  }

  lemma PermutationNoDup<R>(a: seq<R>, b: seq<R>)
    requires NoDup(a) && multiset(a) == multiset(b)
    ensures NoDup(b)
  {
    NoDupMultiset(a);
    forall i, j | 0 <= i < j < |b| ensures b[i] != b[j] {
      assert b == b[..i] + [b[i]] + b[i + 1..j] + [b[j]] + b[j + 1..];
      assert multiset(b)[b[i]] <= 1;
      assert multiset(b)
          == multiset(b[..i]) + multiset{b[i]} + multiset(b[i + 1..j]) + multiset{b[j]} + multiset(b[j + 1..]);
    }
  }

  // load: null entries and records without an identifier are skipped.
  function Load<R>(s: Schema<R>, t: Table<R>, file: seq<Option<R>>): Table<R> {
    if file == [] then t
    else
      var before, last := Load(s, t, file[..|file| - 1]), file[|file| - 1];
      if last.Some? && s.key(last.value) != "" then Insert(s, before, last.value) else before
  }

  function Encode<R>(records: seq<R>): seq<Option<R>> {
    seq(|records|, i requires 0 <= i < |records| => Some(records[i]))
  }

  lemma {:induction false} LoadBuilds<R(!new)>(s: Schema<R>, records: seq<R>)
    requires forall i :: 0 <= i < |records| ==> s.key(records[i]) != ""
    requires forall i, j :: 0 <= i < j < |records| ==> s.key(records[i]) != s.key(records[j])
    ensures var t := Load(s, Empty(), Encode(records));
            && Lists(s, records, t.items) && Keyed(s, t) && Exact(s, t)
  {
    if records != [] {
      var init, r := records[..|records| - 1], records[|records| - 1];
      assert records == init + [r];
      LoadBuilds(s, init);
      LoadSnoc(s, init, r);
      hide *;
      InsertBuilds(s, init, Load(s, Empty(), Encode(init)), r);
    }
  }

  // The records of a file that load keeps.
  function Identified<R>(s: Schema<R>, file: seq<Option<R>>): (r: seq<R>)
    ensures forall i :: 0 <= i < |r| ==> s.key(r[i]) != ""
  {
    if file == [] then []
    else
      var init, last := Identified(s, file[..|file| - 1]), file[|file| - 1];
      if last.Some? && s.key(last.value) != "" then init + [last.value] else init
  }

  lemma {:induction false} LoadSkips<R>(s: Schema<R>, file: seq<Option<R>>)
    ensures Load(s, Empty(), file) == Load(s, Empty(), Encode(Identified(s, file)))
  {
    if file != [] {
      var init, last := file[..|file| - 1], file[|file| - 1];
      LoadSkips(s, init);
      if last.Some? && s.key(last.value) != "" {
        LoadSnoc(s, Identified(s, init), last.value);
      }
    }
  }

  // The record last listed under an identifier.
  function LastListed<R>(s: Schema<R>, records: seq<R>, id: string): Option<R> {
    if records == [] then None
    else if s.key(records[|records| - 1]) == id then Some(records[|records| - 1])
    else LastListed(s, records[..|records| - 1], id)
  }

  ghost predicate Listed<R>(s: Schema<R>, records: seq<R>, id: string, group: string) {
    exists i :: 0 <= i < |records| && s.key(records[i]) == id && s.group(records[i]) == group
  }

  // After any load: the last record under each identifier, and an index that holds, for each
  // group, the identifiers ever listed in it.
  lemma {:induction false} LoadHolds<R>(s: Schema<R>, records: seq<R>, id: string, group: string)
    requires forall i :: 0 <= i < |records| ==> s.key(records[i]) != ""
    ensures var t := Load(s, Empty(), Encode(records));
            && (if id in t.items then Some(t.items[id]) else None) == LastListed(s, records, id)
            && (id in Bucket(t, group) <==> Listed(s, records, id, group))
    ensures Listed(s, records, id, group) ==> LastListed(s, records, id).Some?
  {
    if records != [] {
      var init, r := records[..|records| - 1], records[|records| - 1];
      assert records == init + [r];
      LoadHolds(s, init, id, group);
      LoadSnoc(s, init, r);
      hide Load;
      ListedSnoc(s, init, r, id, group);
    }
  }

  lemma ListedSnoc<R>(s: Schema<R>, init: seq<R>, r: R, id: string, group: string)
    ensures Listed(s, init + [r], id, group)
       <==> Listed(s, init, id, group) || (s.key(r) == id && s.group(r) == group)
  {
    var records := init + [r];
    assert records[|init|] == r;
    if Listed(s, init, id, group) {
      var i :| 0 <= i < |init| && s.key(init[i]) == id && s.group(init[i]) == group;
      assert records[i] == init[i];
    }
  }

  ghost predicate DistinctKeys<R>(s: Schema<R>, records: seq<R>) {
    forall i, j :: 0 <= i < j < |records| ==> s.key(records[i]) != s.key(records[j])
  }

  // An identifier already in the table spoils the index, in whatever group it comes again.
  lemma RepeatSpoils<R>(s: Schema<R>, t: Table<R>, r: R, group: string)
    requires s.key(r) in Bucket(t, group)
    ensures !Exact(s, Insert(s, t, r))
  {
    var t', id, was := Insert(s, t, r), s.key(r), Bucket(t, group);
    if group != s.group(r) {
      assert id in Bucket(t', group) && !InGroup(s, t', id, group);
    } else {
      var i :| 0 <= i < |was| && was[i] == id;
      assert Bucket(t', group)[i] == Bucket(t', group)[|was|];
      assert !NoDup(Bucket(t', group));
    }
  }

  // Taking back a new identifier leaves an exact index exact.
  lemma UndoInsert<R>(s: Schema<R>, t: Table<R>, r: R)
    requires Exact(s, Insert(s, t, r)) && s.key(r) !in t.items
    requires forall g, id :: id in Bucket(t, g) ==> id in t.items
    ensures Exact(s, t)
  {
    var t' := Insert(s, t, r);
    forall g ensures NoDup(Bucket(t, g)) && forall id :: id in Bucket(t, g) <==> InGroup(s, t, id, g) {
      assert NoDup(Bucket(t', g)) && forall id :: id in Bucket(t', g) <==> InGroup(s, t', id, g);
      assert forall id :: id != s.key(r) ==> (id in Bucket(t, g) <==> id in Bucket(t', g));
      assert forall id :: id != s.key(r) ==> InGroup(s, t, id, g) == InGroup(s, t', id, g);
      assert forall i :: 0 <= i < |Bucket(t, g)| ==> Bucket(t', g)[i] == Bucket(t, g)[i];
    }
  }

  lemma {:induction false} ExactMeansDistinct<R>(s: Schema<R>, records: seq<R>)
    requires forall i :: 0 <= i < |records| ==> s.key(records[i]) != ""
    requires Exact(s, Load(s, Empty(), Encode(records)))
    ensures DistinctKeys(s, records)
  {
    if records != [] {
      var init, r := records[..|records| - 1], records[|records| - 1];
      var t, id := Load(s, Empty(), Encode(init)), s.key(r);
      assert records == init + [r];
      LoadSnoc(s, init, r);
      hide Load, Exact;
      forall i | 0 <= i < |init| ensures s.key(init[i]) != id {
        LoadHolds(s, init, s.key(init[i]), s.group(init[i]));
        if s.key(init[i]) == id { RepeatSpoils(s, t, r, s.group(init[i])); }
      }
      forall g, x ensures x in Bucket(t, g) ==> x in t.items {
        LoadHolds(s, init, x, g);
      }
      NotListed(s, init, id);
      LoadHolds(s, init, id, "");
      UndoInsert(s, t, r);
      ExactMeansDistinct(s, init);
    }
  }

  lemma {:induction false} NotListed<R>(s: Schema<R>, records: seq<R>, id: string)
    requires forall i :: 0 <= i < |records| ==> s.key(records[i]) != id
    ensures LastListed(s, records, id) == None
  {
    if records != [] {
      NotListed(s, records[..|records| - 1], id);
    }
  }

  /** Loading any file, null entries, records without identifier and repeated identifiers
      included, leaves under each identifier the record last listed there. */
  lemma LoadKeepsLast<R>(s: Schema<R>, file: seq<Option<R>>, id: string)
    ensures var t := Load(s, Empty(), file);
            (if id in t.items then Some(t.items[id]) else None) == LastListed(s, Identified(s, file), id)
  {
    LoadSkips(s, file);
    LoadHolds(s, Identified(s, file), id, "");
  }

  /** The index a load builds is exact if and only if no identifier is repeated in the file. */
  lemma LoadExactIff<R(!new)>(s: Schema<R>, file: seq<Option<R>>)
    ensures Exact(s, Load(s, Empty(), file)) <==> DistinctKeys(s, Identified(s, file))
  {
    var records := Identified(s, file);
    LoadSkips(s, file);
    hide Load, Exact;
    if DistinctKeys(s, records) {
      LoadBuilds(s, records);
    }
    if Exact(s, Load(s, Empty(), file)) {
      ExactMeansDistinct(s, records);
    }
  }

  lemma LoadSnoc<R>(s: Schema<R>, init: seq<R>, r: R)
    requires s.key(r) != ""
    ensures Load(s, Empty(), Encode(init + [r])) == Insert(s, Load(s, Empty(), Encode(init)), r)
  {
    assert Encode(init + [r])[..|init|] == Encode(init);
  }

  lemma InsertBuilds<R(!new)>(s: Schema<R>, init: seq<R>, t: Table<R>, r: R)
    requires Lists(s, init, t.items) && Keyed(s, t) && Exact(s, t)
    requires s.key(r) != "" && forall i :: 0 <= i < |init| ==> s.key(init[i]) != s.key(r)
    ensures var t' := Insert(s, t, r);
            Lists(s, init + [r], t'.items) && Keyed(s, t') && Exact(s, t')
  {
    assert forall id :: id in t.items ==> t.items[id] in init;
    CreateKeepsExact(s, t, r);
  }

  /** Round trip: loading what a flush wrote, in whatever order it wrote the records,
      restores the records exactly and rebuilds an exact index, whatever the index looked
      like before. */
  lemma SaveLoadRoundTrip<R(!new)>(s: Schema<R>, t: Table<R>, records: seq<R>)
    requires Keyed(s, t) && Lists(s, records, t.items)
    ensures var t' := Load(s, Empty(), Encode(records));
            t'.items == t.items && Exact(s, t')
  {
    forall i | 0 <= i < |records| ensures s.key(records[i]) != "" {
      assert records[i] in records;
    }
    LoadBuilds(s, records);
    var t' := Load(s, Empty(), Encode(records));
    forall id | id in t.items ensures id in t'.items && t'.items[id] == t.items[id] {
      assert t.items[id] in records;
    }
    forall id | id in t'.items ensures id in t.items {
      assert t'.items[id] in records;
    }
  }

  /** Two exact indexes over the same records list the same identifiers, the same number
      of times: a reload changes at most their order. */
  lemma ExactIndexesAgree<R>(s: Schema<R>, t: Table<R>, t': Table<R>, group: string)
    requires t.items == t'.items && Exact(s, t) && Exact(s, t')
    ensures multiset(Bucket(t, group)) == multiset(Bucket(t', group))
  {
    NoDupMultiset(Bucket(t, group));
    NoDupMultiset(Bucket(t', group));
    assert forall id :: id in Bucket(t, group) <==> InGroup(s, t, id, group);
    assert forall id :: id in Bucket(t', group) <==> InGroup(s, t', id, group);
    assert (set id | id in Bucket(t, group)) == (set id | id in Bucket(t', group));
  }
}
