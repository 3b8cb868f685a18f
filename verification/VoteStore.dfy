/** MemoryVoteStore of internal/store/memory_vote_report.go: one vote per target and user,
    filed under a composite string key, and counted by a prefix test on that key. */
module VoteStore {
  import opened Common
  import opened Entities
  import T = IndexedTable

  function VoteKey(targetType: string, targetID: string, userID: string): string {
    targetType + ":" + targetID + ":" + userID
  }

  function KeyOf(v: VoteData): string {
    VoteKey(v.targetType, v.targetID, v.userID)
  }

  function TargetPrefix(targetType: string, targetID: string): string {
    targetType + ":" + targetID + ":"
  }

  // ---- The composite key ----

  predicate ColonFree(s: string) {
    ':' !in s
  }

  // The identifier of one target, closed by a colon, does not begin the other's.
  predicate Separated(a: string, b: string) {
    a == b || (!(a + ":" <= b + ":") && !(b + ":" <= a + ":"))
  }

  // Two strings that agree up to a colon-free head followed by a colon have equal heads.
  lemma {:induction false} ColonSplits(a: string, b: string, x: string, y: string)
    requires ColonFree(a) && ColonFree(b) && a + ":" + x == b + ":" + y
    ensures a == b && x == y
  {
    var s, t := a + ":" + x, b + ":" + y;
    if a == "" || b == "" {
      assert s[0] == t[0];
      assert a == "" ==> s[0] == ':';
      assert b == "" ==> t[0] == ':';
      assert a == b == "";
      assert s[1..] == x && t[1..] == y;
    } else {
      assert s[0] == a[0] && t[0] == b[0];
      assert s[1..] == a[1..] + ":" + x && t[1..] == b[1..] + ":" + y;
      ColonSplits(a[1..], b[1..], x, y);
      assert a == [a[0]] + a[1..] && b == [b[0]] + b[1..];
    }
  }

  lemma ColonFreeSeparated(a: string, b: string)
    requires ColonFree(a) && ColonFree(b)
    ensures Separated(a, b)
  {
    if a + ":" <= b + ":" {
      var rest := (b + ":")[|a + ":"|..];
      assert a + ":" + rest == b + ":" + "";
      ColonSplits(a, b, rest, "");
    }
    if b + ":" <= a + ":" {
      var rest := (a + ":")[|b + ":"|..];
      assert b + ":" + rest == a + ":" + "";
      ColonSplits(b, a, rest, "");
    }
  }

  // Two prefixes of the same string are prefixes of one another.
  lemma PrefixesNest(p: string, q: string, s: string)
    requires p <= s && q <= s
    ensures p <= q || q <= p
  {
    if |p| <= |q| { assert q == s[..|q|] && p == q[..|p|]; } else { assert p == s[..|p|] && q == p[..|q|]; }
  }

  /** The prefix test selects exactly one target: among separated targets a key starts with
      a target's prefix if and only if it belongs to that target. */
  lemma PrefixSelectsTarget(targetType: string, targetID: string, v: VoteData)
    requires ColonFree(targetType) && ColonFree(v.targetType)
    requires Separated(targetID, v.targetID)
    ensures TargetPrefix(targetType, targetID) <= KeyOf(v)
       <==> v.targetType == targetType && v.targetID == targetID
  {
    var p, key := TargetPrefix(targetType, targetID), KeyOf(v);
    if p <= key {
      var rest := key[|p|..];
      var x, y := targetID + ":" + rest, v.targetID + ":" + v.userID;
      assert targetType + ":" + x == p + rest == key == v.targetType + ":" + y;
      ColonSplits(targetType, v.targetType, x, y);
      PrefixesNest(targetID + ":", v.targetID + ":", x);
    }
  }

  /** Between separated targets the composite key is injective. */
  lemma KeyInjective(a: VoteData, b: VoteData)
    requires ColonFree(a.targetType) && ColonFree(b.targetType)
    requires Separated(a.targetID, b.targetID)
    requires KeyOf(a) == KeyOf(b)
    ensures a.targetType == b.targetType && a.targetID == b.targetID && a.userID == b.userID
  {
    var p := TargetPrefix(a.targetType, a.targetID);
    assert KeyOf(a) == p + a.userID;
    PrefixSelectsTarget(a.targetType, a.targetID, b);
    assert KeyOf(b) == p + b.userID;
    assert a.userID == KeyOf(a)[|p|..] && b.userID == KeyOf(b)[|p|..];
  }

  // No two users, whatever their non-empty names, share a key on the two targets.
  ghost predicate KeysDisjoint(targetType: string, a: string, b: string) {
    forall u, w :: u != "" && w != "" ==> VoteKey(targetType, a, u) != VoteKey(targetType, b, w)
  }

  /** Separation is also necessary: votes on two different targets never collide, whatever
      the users are called, if and only if neither identifier followed by a colon begins
      the other followed by a colon. */
  lemma KeysDisjointIff(targetType: string, a: string, b: string)
    requires ColonFree(targetType) && a != b
    ensures KeysDisjoint(targetType, a, b) <==> Separated(a, b)
  {
    if Separated(a, b) {
      forall u, w ensures VoteKey(targetType, a, u) != VoteKey(targetType, b, w) {
        if VoteKey(targetType, a, u) == VoteKey(targetType, b, w) {
          KeyInjective(VoteData("", targetType, a, u, 0, 0), VoteData("", targetType, b, w, 0, 0));
        }
      }
    } else if a + ":" <= b + ":" {
      Collision(targetType, a, b);
    } else {
      Collision(targetType, b, a);
    }
  }

  // Where one identifier nests in another, two users share a key.
  lemma Collision(targetType: string, a: string, b: string)
    requires a + ":" <= b + ":"
    ensures exists u :: u != "" && VoteKey(targetType, a, u) == VoteKey(targetType, b, "x")
  {
    var u := (b + ":")[|a + ":"|..] + "x";
    assert a + ":" + u == b + ":" + "x";
    assert VoteKey(targetType, a, u) == targetType + ":" + (a + ":" + u);
    assert VoteKey(targetType, b, "x") == targetType + ":" + (b + ":" + "x");
  }

  // No vote on target b, whatever its user is called, passes the prefix test of target a.
  ghost predicate NeverMixed(targetType: string, a: string, b: string) {
    forall u :: u != "" ==> !(TargetPrefix(targetType, a) <= VoteKey(targetType, b, u))
  }

  /** So it is for the counts: no vote on one target is ever counted for another, whatever
      the users are called, if and only if the two are separated. */
  lemma NeverMixedIff(targetType: string, a: string, b: string)
    requires ColonFree(targetType) && a != b
    ensures NeverMixed(targetType, a, b) <==> Separated(a, b)
  {
    if Separated(a, b) {
      forall u | u != "" ensures !(TargetPrefix(targetType, a) <= VoteKey(targetType, b, u)) {
        PrefixSelectsTarget(targetType, a, VoteData("", targetType, b, u, 0, 0));
      }
    } else if a + ":" <= b + ":" {
      PrefixExtends(targetType, a, b, "", "x");
    } else {
      var rest := (a + ":")[|b + ":"|..];
      assert a + ":" == (b + ":") + rest;
      PrefixExtends(targetType, a, b, rest, "");
    }
  }

  lemma PrefixExtends(targetType: string, a: string, b: string, u: string, more: string)
    requires a + ":" <= b + ":" + u
    ensures TargetPrefix(targetType, a) <= VoteKey(targetType, b, u + more)
  {
    assert VoteKey(targetType, b, u + more) == targetType + ":" + (b + ":" + u + more);
    assert TargetPrefix(targetType, a) == targetType + ":" + (a + ":");
  }

  // ---- Counting ----

  // The keys whose vote lies under the prefix and has the wanted sign.
  function KeysWith(items: map<string, VoteData>, prefix: string, positive: bool): set<string> {
    set k | k in items && prefix <= KeyOf(items[k]) && (items[k].value > 0) == positive
  }

  ghost function Values(items: map<string, Vote>): map<string, VoteData>
    reads items.Values
  {
    map k | k in items :: items[k].Value()
  }

  // Each vote is filed under its own key, and has an identifier.
  ghost predicate Filed(votes: map<string, VoteData>) {
    forall k :: k in votes ==> votes[k].id != "" && KeyOf(votes[k]) == k
  }

  lemma FileVote(items: map<string, Vote>, x: Vote)
    requires Distinct(items) && Filed(Values(items)) && x !in items.Values && x.id != ""
    ensures var filed := items[KeyOf(x.Value()) := x];
            && Distinct(filed) && Filed(Values(filed))
            && Values(filed) == Values(items)[KeyOf(x.Value()) := x.Value()]
  {
    hide KeyOf;
    var filed := items[KeyOf(x.Value()) := x];
    DistinctPut(items, KeyOf(x.Value()), x);
    assert Values(filed) == Values(items)[KeyOf(x.Value()) := x.Value()];
    assert x.Value().id != "";
  }

  lemma KeysWithIs(items: map<string, VoteData>, prefix: string)
    ensures KeysWith(items, prefix, true)
         == set k | k in items && prefix <= KeyOf(items[k]) && items[k].value > 0
    ensures KeysWith(items, prefix, false)
         == set k | k in items && prefix <= KeyOf(items[k]) && items[k].value <= 0
  {
  }

  lemma PrefixIs(targetType: string, targetID: string)
    ensures TargetPrefix(targetType, targetID) == targetType + ":" + targetID + ":"
  {
  }

  class MemoryVoteStore {
    var items: map<string, Vote>
    var dirty: bool

    ghost function State(): map<string, VoteData>
      reads this, items.Values
    {
      Values(items)
    }

    // Every vote is an object of its own, filed under its key.
    ghost predicate Valid()
      reads this, items.Values
    {
      Distinct(items) && Filed(Values(items))
    }

    // The file is what could be read from the path: none without a path, without a file or
    // if it cannot be decoded, which is only logged. The save loop is part of the protocol.
    constructor (file: Option<seq<Option<VoteData>>>)
      ensures Valid() && fresh(items.Values) && !dirty
      ensures State() == if file.Some? then Load(map[], file.value) else map[]
    {
      items, dirty := map[], false;
      new;
      assert State() == map[];
      if file.Some? {
        LoadFile(file.value);
      }
    }

    // Inserts or replaces the vote of a user on a target.
    method Upsert(v: Vote?) returns (st: Status)
      requires Valid()
      modifies this
      ensures Valid() && fresh(items.Values - old(items.Values))
      ensures st == if v == null || v.id == "" then Failed(InvalidInput) else Done
      ensures State() == if st.Done? then old(State())[KeyOf(v.Value()) := v.Value()] else old(State())
      ensures dirty == (old(dirty) || st.Done?)
    {
      if v == null || v.id == "" {
        return Failed(InvalidInput);
      }
      var key := VoteKey(v.targetType, v.targetID, v.userID);
      assert key == KeyOf(v.Value());
      hide VoteKey, KeyOf, Distinct, Filed, Values;
      var cp := v.Clone();
      FileVote(items, cp);
      items := items[key := cp];
      dirty := true;
      return Done;
    }

    method GetByTargetAndUser(targetType: string, targetID: string, userID: string) returns (r: Result<Vote>)
      requires Valid()
      ensures r.Ok? ==> fresh(r.value)
      ensures (if r.Ok? then Ok(r.value.Value()) else Err(r.error))
           == var k := VoteKey(targetType, targetID, userID); if k in State() then Ok(State()[k]) else Err(NotFound)
    {
      var k := VoteKey(targetType, targetID, userID);
      if k !in items {
        return Err(NotFound);
      }
      var cp := items[k].Clone();
      return Ok(cp);
    }

    // The prefix test of CountByTarget.
    static method IsUnder(v: Vote, prefix: string) returns (under: bool)
      ensures under <==> prefix <= KeyOf(v.Value())
    {
      var key := VoteKey(v.targetType, v.targetID, v.userID);
      under := |key| >= |prefix| && key[..|prefix|] == prefix;
    }

    // One pass over the map in some order.
    method CountByTarget(targetType: string, targetID: string) returns (up: nat, down: nat)
      ensures var p := TargetPrefix(targetType, targetID);
              up == |KeysWith(State(), p, true)| && down == |KeysWith(State(), p, false)|
      ensures var p, votes := targetType + ":" + targetID + ":", State();
              && up == |set k | k in votes && p <= KeyOf(votes[k]) && votes[k].value > 0|
              && down == |set k | k in votes && p <= KeyOf(votes[k]) && votes[k].value <= 0|
    {
      var prefix := targetType + ":" + targetID + ":";
      ghost var votes := State();
      var rest := items.Keys;
      ghost var seen: set<string> := {};
      up, down := 0, 0;
      hide *;
      SeenNone(votes, prefix);
      while rest != {}
        invariant rest <= items.Keys && seen == items.Keys - rest
        invariant up == SeenWith(votes, prefix, true, seen) && down == SeenWith(votes, prefix, false, seen)
        decreases rest
      {
        var k :| k in rest;
        var v := items[k];
        SeenOneMore(votes, prefix, true, seen, k);
        SeenOneMore(votes, prefix, false, seen, k);
        var under := IsUnder(v, prefix);
        if under {
          if v.value > 0 {
            up := up + 1;
          } else {
            down := down + 1;
          }
        }
        rest := rest - {k};
        seen := seen + {k};
      }
      assert seen == votes.Keys;
      SeenAll(votes, prefix);
      KeysWithIs(votes, prefix);
      assert prefix == TargetPrefix(targetType, targetID) by { PrefixIs(targetType, targetID); }
    }

    // The locked part of flush: a copy of every vote, in some order.
    method TakeSnapshot() returns (records: seq<VoteData>)
      requires Valid()
      modifies this`dirty
      ensures !dirty && Valid() && State() == old(State())
      ensures FileOf(State(), records)
    {
      dirty := false;
      ghost var votes := State();
      hide VoteKey, KeyOf, FileOf;
      var rest := items.Keys;
      records := [];
      NoFile();
      while rest != {}
        invariant rest <= items.Keys && State() == votes && Valid() && !dirty
        invariant FileOf(votes - rest, records)
        decreases rest
      {
        var k :| k in rest;
        ExtendFile(votes - rest, records, votes[k]);
        OneFewer(votes, rest, k);
        records := records + [items[k].Value()];
        rest := rest - {k};
      }
      assert rest == {} && votes - rest == votes;
    }

    // The locked part of load.
    method LoadFile(file: seq<Option<VoteData>>)
      requires Valid()
      modifies this
      ensures Valid() && fresh(items.Values - old(items.Values)) && dirty == old(dirty)
      ensures State() == Load(old(State()), file)
    {
      ghost var before := State();
      for i := 0 to |file|
        invariant Valid() && fresh(items.Values - old(items.Values)) && dirty == old(dirty)
        invariant State() == Load(before, file[..i])
      {
        assert file[..i + 1][..i] == file[..i];
        if file[i].Some? && file[i].value.id != "" {
          Adopt(file[i].value);
        }
      }
      assert file[..|file|] == file;
    }

    // One vote of the file.
    method Adopt(vote: VoteData)
      requires Valid() && vote.id != ""
      modifies this
      ensures Valid() && fresh(items.Values - old(items.Values)) && dirty == old(dirty)
      ensures State() == old(State())[KeyOf(vote) := vote]
    {
      hide Distinct, Filed, Values;
      var v := new Vote(vote);
      FileVote(items, v);
      items := items[VoteKey(v.targetType, v.targetID, v.userID) := v];
    }
  }

  // How many of the votes seen so far lie under the prefix and have the wanted sign.
  ghost function SeenWith(items: map<string, VoteData>, prefix: string, positive: bool, seen: set<string>): nat {
    |set k | k in seen && k in KeysWith(items, prefix, positive)|
  }

  lemma SeenNone(items: map<string, VoteData>, prefix: string)
    ensures SeenWith(items, prefix, true, {}) == SeenWith(items, prefix, false, {}) == 0
  {
  }

  lemma SeenAll(items: map<string, VoteData>, prefix: string)
    ensures SeenWith(items, prefix, true, items.Keys) == |KeysWith(items, prefix, true)|
    ensures SeenWith(items, prefix, false, items.Keys) == |KeysWith(items, prefix, false)|
  {
    forall positive: bool
      ensures (set k | k in items.Keys && k in KeysWith(items, prefix, positive)) == KeysWith(items, prefix, positive) {
    }
  }

  lemma SeenOneMore(items: map<string, VoteData>, prefix: string, positive: bool, seen: set<string>, k: string)
    requires k in items && k !in seen
    ensures SeenWith(items, prefix, positive, seen + {k})
         == SeenWith(items, prefix, positive, seen)
            + (if prefix <= KeyOf(items[k]) && (items[k].value > 0) == positive then 1 else 0)
  {
    hide KeyOf;
    CountStep(seen, KeysWith(items, prefix, positive), k);
  }

  lemma CountStep(seen: set<string>, counted: set<string>, k: string)
    requires k !in seen
    ensures |set x | x in seen + {k} && x in counted|
         == |set x | x in seen && x in counted| + (if k in counted then 1 else 0)
  {
    var was := set x | x in seen && x in counted;
    assert (set x | x in seen + {k} && x in counted) == was + (if k in counted then {k} else {});
  }

  function Load(items: map<string, VoteData>, file: seq<Option<VoteData>>): map<string, VoteData> {
    if file == [] then items
    else
      var before, last := Load(items, file[..|file| - 1]), file[|file| - 1];
      if last.Some? && last.value.id != "" then before[KeyOf(last.value) := last.value] else before
  }

  // ---- The votes as a history ----

  // The state after storing the votes of a history in order.
  function Stored(history: seq<VoteData>): map<string, VoteData> {
    if history == [] then map[]
    else
      var v := history[|history| - 1];
      Stored(history[..|history| - 1])[KeyOf(v) := v]
  }

  // The latest vote of a user on a target.
  function Latest(history: seq<VoteData>, targetType: string, targetID: string, userID: string): Option<VoteData> {
    if history == [] then None
    else
      var v := history[|history| - 1];
      if v.targetType == targetType && v.targetID == targetID && v.userID == userID then Some(v)
      else Latest(history[..|history| - 1], targetType, targetID, userID)
  }

  ghost function Users(history: seq<VoteData>): set<string> {
    set v | v in history :: v.userID
  }

  // The users whose latest vote on the target has the wanted sign.
  ghost function Voters(history: seq<VoteData>, targetType: string, targetID: string, positive: bool): set<string> {
    set u | u in Users(history) && Latest(history, targetType, targetID, u).Some?
            && (Latest(history, targetType, targetID, u).value.value > 0) == positive
  }

  // A known target type, and no target that nests with the one asked for; others may.
  ghost predicate WellFormed(history: seq<VoteData>, targetID: string) {
    forall v :: v in history ==> ColonFree(v.targetType) && Separated(targetID, v.targetID)
  }

  /** GetByTargetAndUser returns the latest vote of the user on the target. */
  lemma {:induction false} StoredIsLatest(history: seq<VoteData>, targetType: string, targetID: string, userID: string)
    requires WellFormed(history, targetID) && ColonFree(targetType)
    ensures var k := VoteKey(targetType, targetID, userID);
            (if k in Stored(history) then Some(Stored(history)[k]) else None)
            == Latest(history, targetType, targetID, userID)
  {
    if history != [] {
      var init, v := history[..|history| - 1], history[|history| - 1];
      assert v in history && forall w :: w in init ==> w in history;
      StoredIsLatest(init, targetType, targetID, userID);
      if KeyOf(v) == VoteKey(targetType, targetID, userID) {
        KeyInjective(VoteData("", targetType, targetID, userID, 0, 0), v);
      }
    }
  }

  lemma {:induction false} StoredKeys(history: seq<VoteData>)
    ensures forall k :: k in Stored(history) ==> KeyOf(Stored(history)[k]) == k && Stored(history)[k] in history
  {
    if history != [] {
      var init := history[..|history| - 1];
      StoredKeys(init);
      assert forall v :: v in init ==> v in history;
      assert history[|history| - 1] in history;
    }
  }

  lemma {:induction false} LatestIsVote(history: seq<VoteData>, targetType: string, targetID: string, userID: string)
    ensures Latest(history, targetType, targetID, userID).Some?
            ==> var v := Latest(history, targetType, targetID, userID).value;
                v in history && v.targetType == targetType && v.targetID == targetID && v.userID == userID
  {
    if history != [] {
      var init := history[..|history| - 1];
      LatestIsVote(init, targetType, targetID, userID);
      assert forall v :: v in init ==> v in history;
      assert history[|history| - 1] in history;
    }
  }

  // A duplicate-free renaming keeps the size of a set.
  lemma {:induction false} SameSize(keys: set<string>, users: set<string>, prefix: string)
    requires forall k :: k in keys ==> prefix <= k && k[|prefix|..] in users
    requires forall u :: u in users ==> prefix + u in keys
    ensures |keys| == |users|
    decreases keys
  {
    if keys == {} {
      assert users == {};
    } else {
      var key :| key in keys;
      var u := key[|prefix|..];
      assert key == prefix + u;
      assert forall k :: k in keys && k != key ==> k[|prefix|..] != u by {
        assert forall k :: k in keys ==> k == prefix + k[|prefix|..];
      }
      assert forall w :: w in users && w != u ==> (prefix + w)[|prefix|..] != u;
      SameSize(keys - {key}, users - {u}, prefix);
    }
  }

  /** CountByTarget refines the vote history: after any run of votes on targets that do not
      nest, it returns the number of users whose latest vote on the target is up, and the
      number whose latest is down. */
  lemma CountsRefineHistory(history: seq<VoteData>, targetType: string, targetID: string, positive: bool)
    requires WellFormed(history, targetID) && ColonFree(targetType)
    ensures |KeysWith(Stored(history), TargetPrefix(targetType, targetID), positive)|
         == |Voters(history, targetType, targetID, positive)|
  {
    var p, items := TargetPrefix(targetType, targetID), Stored(history);
    var keys, users := KeysWith(items, p, positive), Voters(history, targetType, targetID, positive);
    StoredKeys(history);
    forall k | k in keys ensures p <= k && k[|p|..] in users {
      var v := items[k];
      PrefixSelectsTarget(targetType, targetID, v);
      assert k == p + v.userID;
      StoredIsLatest(history, targetType, targetID, v.userID);
      assert v.userID in Users(history);
    }
    forall u | u in users ensures p + u in keys {
      StoredIsLatest(history, targetType, targetID, u);
      LatestIsVote(history, targetType, targetID, u);
      assert p + u == VoteKey(targetType, targetID, u);
    }
    SameSize(keys, users, p);
  }

  /** In particular, for target types and votes as the service lets them through: up is the
      number of users whose latest vote on the target is +1, down of those whose latest is -1. */
  lemma UpAndDown(history: seq<VoteData>, targetType: string, targetID: string)
    requires WellFormed(history, targetID) && ColonFree(targetType)
    requires forall v :: v in history ==> v.value == 1 || v.value == -1
    ensures |KeysWith(Stored(history), TargetPrefix(targetType, targetID), true)|
         == |set u | u in Users(history) && LatestIs(history, targetType, targetID, u, 1)|
    ensures |KeysWith(Stored(history), TargetPrefix(targetType, targetID), false)|
         == |set u | u in Users(history) && LatestIs(history, targetType, targetID, u, -1)|
  {
    CountsRefineHistory(history, targetType, targetID, true);
    CountsRefineHistory(history, targetType, targetID, false);
    forall u ensures Latest(history, targetType, targetID, u).Some?
                     ==> Latest(history, targetType, targetID, u).value in history {
      LatestIsVote(history, targetType, targetID, u);
    }
    hide Latest, KeysWith, Stored, Users;
    assert Voters(history, targetType, targetID, true)
        == set u | u in Users(history) && LatestIs(history, targetType, targetID, u, 1);
    assert Voters(history, targetType, targetID, false)
        == set u | u in Users(history) && LatestIs(history, targetType, targetID, u, -1);
  }

  predicate LatestIs(history: seq<VoteData>, targetType: string, targetID: string, user: string, value: int) {
    var vote := Latest(history, targetType, targetID, user);
    vote.Some? && vote.value.value == value
  }

  ghost function AllVoters(history: seq<VoteData>, targetType: string, targetID: string): set<string> {
    set u | u in Users(history) && Latest(history, targetType, targetID, u).Some?
  }

  lemma VotersSplit(history: seq<VoteData>, targetType: string, targetID: string)
    ensures |AllVoters(history, targetType, targetID)|
         == |Voters(history, targetType, targetID, true)| + |Voters(history, targetType, targetID, false)|
  {
    hide Latest, Users;
    var up, down := Voters(history, targetType, targetID, true), Voters(history, targetType, targetID, false);
    assert AllVoters(history, targetType, targetID) == up + down;
    assert up !! down;
  }

  /** The two counts add up to the distinct voters on the target. */
  lemma CountsSumToVoters(history: seq<VoteData>, targetType: string, targetID: string)
    requires WellFormed(history, targetID) && ColonFree(targetType)
    ensures |KeysWith(Stored(history), TargetPrefix(targetType, targetID), true)|
          + |KeysWith(Stored(history), TargetPrefix(targetType, targetID), false)|
         == |AllVoters(history, targetType, targetID)|
  {
    CountsRefineHistory(history, targetType, targetID, true);
    CountsRefineHistory(history, targetType, targetID, false);
    hide *;
    VotersSplit(history, targetType, targetID);
  }

  /** Colon-free identifiers, such as the generated hexadecimal ones, never nest. */
  lemma ColonFreeWellFormed(history: seq<VoteData>, targetID: string)
    requires ColonFree(targetID)
    requires forall v :: v in history ==> ColonFree(v.targetType) && ColonFree(v.targetID)
    ensures WellFormed(history, targetID)
  {
    forall v | v in history ensures Separated(targetID, v.targetID) {
      ColonFreeSeparated(targetID, v.targetID);
    }
  }

  /** With a colon in an identifier the counts do go wrong: a vote on thread "a:b" is also
      counted for thread "a". */
  lemma NestedTargetMiscounted()
    ensures var v := VoteData("i", "thread", "a:b", "u", 1, 0);
            KeysWith(Stored([v]), TargetPrefix("thread", "a"), true) != {}
            && Voters([v], "thread", "a", true) == {}
  {
    var v := VoteData("i", "thread", "a:b", "u", 1, 0);
    assert KeyOf(v) == "thread:a:b:u";
    assert TargetPrefix("thread", "a") == "thread:a:";
    assert "thread:a:" <= "thread:a:b:u";
    assert Stored([v])[KeyOf(v)] == v;
    assert KeyOf(v) in KeysWith(Stored([v]), TargetPrefix("thread", "a"), true);
    assert Latest([v], "thread", "a", "u") == None;
  }

  // ---- Saving and loading ----

  // Each stored vote is in the file, once, under its own key.
  ghost predicate FileOf(items: map<string, VoteData>, records: seq<VoteData>) {
    && NoDup(records)
    && (forall k :: k in items ==> KeyOf(items[k]) == k && items[k] in records)
    && (forall v :: v in records ==> v.id != "" && KeyOf(v) in items && items[KeyOf(v)] == v)
  }

  lemma OneFewer(votes: map<string, VoteData>, rest: set<string>, k: string)
    requires k in rest && k in votes && Filed(votes)
    ensures votes - (rest - {k}) == (votes - rest)[KeyOf(votes[k]) := votes[k]]
  {
    hide KeyOf;
  }

  lemma NoFile()
    ensures FileOf(map[], [])
  {
  }

  lemma ExtendFile(items: map<string, VoteData>, records: seq<VoteData>, v: VoteData)
    requires FileOf(items, records) && v.id != "" && KeyOf(v) !in items
    ensures FileOf(items[KeyOf(v) := v], records + [v])
  {
    hide KeyOf;
    assert v !in records;
  }

  lemma FileInit(items: map<string, VoteData>, init: seq<VoteData>, v: VoteData)
    requires FileOf(items, init + [v])
    ensures FileOf(items - {KeyOf(v)}, init) && v.id != "" && KeyOf(v) in items && items[KeyOf(v)] == v
  {
    hide KeyOf;
    var records := init + [v];
    assert records[|init|] == v && forall i :: 0 <= i < |init| ==> records[i] == init[i];
    assert v in records;
    assert forall w :: w in init ==> w in records && w != v;
  }

  /** Round trip: loading any file that holds each stored vote once restores the votes. */
  lemma {:induction false} SaveLoadRoundTrip(items: map<string, VoteData>, records: seq<VoteData>)
    requires FileOf(items, records)
    ensures Load(map[], T.Encode(records)) == items
  {
    if records == [] {
      assert items == map[];
    } else {
      var init, v := records[..|records| - 1], records[|records| - 1];
      assert records == init + [v];
      FileInit(items, init, v);
      hide FileOf, KeyOf;
      SaveLoadRoundTrip(items - {KeyOf(v)}, init);
      assert T.Encode(records)[..|init|] == T.Encode(init);
    }
  }

  /** A store saved and loaded into a new one holds the same votes. */
  method Reopen(store: MemoryVoteStore) returns (again: MemoryVoteStore)
    requires store.Valid()
    modifies store`dirty
    ensures again.Valid() && fresh(again) && again.State() == old(store.State())
  {
    var records := store.TakeSnapshot();
    SaveLoadRoundTrip(store.State(), records);
    hide Load, FileOf;
    again := new MemoryVoteStore(Some(T.Encode(records)));
  }
}
