/** The merge performed by `loadPrompts`: static records go into an id-keyed map first,
    tagged as static, local records second, so that a local record replaces the static one
    with its id; the map's values are then sorted newest first by `createdAt`.

    A JavaScript `Map` keeps its keys in first-insertion order, and `set` on a present key
    replaces the value in place. It is modelled here by the sequence of its entries. */
module Merge {
  import opened Records

  // ----- the id-keyed map -----

  /** Position of the first record with this id, or |m| when there is none. */
  function IndexOf(m: seq<Record>, id: string): (i: nat)
    ensures i <= |m|
    ensures i < |m| ==> m[i].id == id
    ensures forall j :: 0 <= j < i ==> m[j].id != id
  {
    if m == [] then 0 else if m[0].id == id then 0 else 1 + IndexOf(m[1..], id)
  }

  /** `map.get(id)`. */
  function Find(m: seq<Record>, id: string): Option<Record> {
    var i := IndexOf(m, id);
    if i < |m| then Some(m[i]) else None
  }

  /** Two entry sequences with the same ids at the same positions agree on every IndexOf. */
  lemma SameIdsSameIndex(a: seq<Record>, b: seq<Record>, id: string)
    requires |a| == |b|
    requires forall k :: 0 <= k < |a| ==> a[k].id == b[k].id
    ensures IndexOf(a, id) == IndexOf(b, id)
  {
  }

  /** `map.set(r.id, r)`: replace the value in place when the key is present,
      append a new entry at the end otherwise. */
  function Put(m: seq<Record>, r: Record): seq<Record> {
    var i := IndexOf(m, r.id);
    if i < |m| then m[i := r] else m + [r]
  }

  /** After `map.set(r.id, r)` the map finds `r` for its id and what it found before for every other id. */
  lemma PutFind(m: seq<Record>, r: Record, id: string)
    ensures Find(Put(m, r), id) == if id == r.id then Some(r) else Find(m, id)
  {
    var i := IndexOf(m, r.id);
    var m' := Put(m, r);
    if i < |m| {
      SameIdsSameIndex(m', m, id);
    } else {
      assert m'[|m|] == r;
      assert forall j :: 0 <= j < |m| ==> m'[j] == m[j];
      var i', j := IndexOf(m', id), IndexOf(m, id);
      if id == r.id {
        assert i' == |m|;
      } else {
        assert i' == j || (j == |m| && i' == |m'|);
      }
    }
  }

  /** `map.set` adds its key to the key set and nothing else. */
  lemma PutIdSet(m: seq<Record>, r: Record)
    ensures IdSet(Put(m, r)) == IdSet(m) + {r.id}
  {
    var i := IndexOf(m, r.id);
    if i < |m| {
      var m' := m[i := r];
      forall x | x in IdSet(m) ensures x in IdSet(m') {
        var k :| 0 <= k < |m| && m[k].id == x;
        assert m'[k].id == x;
      }
    }
  }

  /** `map.set` never creates a duplicate key. */
  lemma PutDistinct(m: seq<Record>, r: Record)
    requires DistinctIds(m)
    ensures DistinctIds(Put(m, r))
  {
  }

  /** Every record of `rs` set into the map, in order (`rs.forEach(p => map.set(p.id, p))`). */
  function PutAll(m: seq<Record>, rs: seq<Record>): seq<Record>
    decreases |rs|
  {
    if rs == [] then m else Put(PutAll(m, rs[..|rs| - 1]), rs[|rs| - 1])
  }

  /** One more `set` call of the loop that sets the records of `rs` in order. */
  lemma PutAllStep(m: seq<Record>, rs: seq<Record>, i: nat)
    requires i < |rs|
    ensures PutAll(m, rs[..i + 1]) == Put(PutAll(m, rs[..i]), rs[i])
  {
    assert rs[..i + 1][..i] == rs[..i];
  }

  /** The last record of `rs` with this id: the one a sequence of `set` calls leaves behind. */
  function Latest(rs: seq<Record>, id: string): (r: Option<Record>)
    ensures r.Some? ==> r.value in rs && r.value.id == id
  {
    if rs == [] then None
    else if rs[|rs| - 1].id == id then Some(rs[|rs| - 1])
    else
      assert rs == rs[..|rs| - 1] + [rs[|rs| - 1]];
      Latest(rs[..|rs| - 1], id)
  }

  /** The last record with an id exists exactly when some record has that id. */
  lemma {:induction false} LatestFound(rs: seq<Record>, id: string)
    ensures Latest(rs, id).Some? <==> id in IdSet(rs)
    decreases |rs|
  {
    if rs != [] {
      var init := rs[..|rs| - 1];
      LatestFound(init, id);
      assert rs == init + [rs[|rs| - 1]];
      IdSetSnoc(init, rs[|rs| - 1]);
    }
  }

  /** After setting every record of `rs`, a key maps to the last record of `rs` with
      that id, and keys that `rs` does not mention keep their old value. */
  lemma {:induction false} PutAllFind(m: seq<Record>, rs: seq<Record>, id: string)
    ensures Find(PutAll(m, rs), id) == if Latest(rs, id).Some? then Latest(rs, id) else Find(m, id)
    decreases |rs|
  {
    if rs != [] {
      PutAllFind(m, rs[..|rs| - 1], id);
      PutFind(PutAll(m, rs[..|rs| - 1]), rs[|rs| - 1], id);
    }
  }

  /** Setting records never creates a duplicate key. */
  lemma {:induction false} PutAllDistinct(m: seq<Record>, rs: seq<Record>)
    requires DistinctIds(m)
    ensures DistinctIds(PutAll(m, rs))
    decreases |rs|
  {
    if rs != [] {
      PutAllDistinct(m, rs[..|rs| - 1]);
      PutDistinct(PutAll(m, rs[..|rs| - 1]), rs[|rs| - 1]);
    }
  }

  /** The keys after setting `rs` are the old keys and the ids of `rs`. */
  lemma {:induction false} PutAllIdSet(m: seq<Record>, rs: seq<Record>)
    ensures IdSet(PutAll(m, rs)) == IdSet(m) + IdSet(rs)
    decreases |rs|
  {
    if rs != [] {
      var init, last := rs[..|rs| - 1], rs[|rs| - 1];
      assert rs == init + [last];
      IdSetSnoc(init, last);
      PutAllIdSet(m, init);
      PutIdSet(PutAll(m, init), last);
      assert PutAll(m, rs) == Put(PutAll(m, init), last);
    }
  }

  /** Setting records whose ids are all different into an empty map yields exactly those records. */
  lemma {:induction false} PutAllFresh(rs: seq<Record>)
    requires DistinctIds(rs)
    ensures PutAll([], rs) == rs
    decreases |rs|
  {
    if rs != [] {
      var init, last := rs[..|rs| - 1], rs[|rs| - 1];
      PutAllFresh(init);
      assert last.id !in IdSet(init);
      assert IndexOf(init, last.id) == |init|;
      assert rs == init + [last];
    }
  }

  // ----- static tagging and the merge -----

  /** `{ ...p, isStatic: true }` for every static record. */
  function Tagged(statics: seq<Record>): (t: seq<Record>)
    ensures |t| == |statics|
    ensures forall i :: 0 <= i < |t| ==> t[i] == statics[i].(isStatic := true)
  {
    seq(|statics|, i requires 0 <= i < |statics| => statics[i].(isStatic := true))
  }

  /** A record tagged as static, if any. */
  function Tag(o: Option<Record>): Option<Record> {
    match o
    case None => None
    case Some(r) => Some(r.(isStatic := true))
  }

  /** Tagging does not change which static record is the last one for an id. */
  lemma {:induction false} LatestTagged(statics: seq<Record>, id: string)
    ensures Latest(Tagged(statics), id) == Tag(Latest(statics, id))
    decreases |statics|
  {
    if statics != [] {
      var n := |statics|;
      var t := Tagged(statics);
      TaggedPrefix(statics, n - 1);
      LatestTagged(statics[..n - 1], id);
      assert t[n - 1] == statics[n - 1].(isStatic := true);
    }
  }

  /** Tagging commutes with taking a prefix. */
  lemma TaggedPrefix(statics: seq<Record>, k: nat)
    requires k <= |statics|
    ensures Tagged(statics)[..k] == Tagged(statics[..k])
  {
  }

  /** The map's values after `loadPrompts` has set every static then every local record. */
  function MergeById(statics: seq<Record>, locals: seq<Record>): seq<Record> {
    PutAll(PutAll([], Tagged(statics)), locals)
  }

  /** The record the merge keeps for an id: the last local record with that id when there
      is one, exactly as it was stored; otherwise the last static record with that id,
      tagged as static; otherwise none. */
  function Winner(statics: seq<Record>, locals: seq<Record>, id: string): Option<Record> {
    if Latest(locals, id).Some? then Latest(locals, id) else Tag(Latest(statics, id))
  }

  /** A record of a map without duplicate keys is what the map finds for its id. */
  lemma FindMember(m: seq<Record>, r: Record)
    requires DistinctIds(m) && r in m
    ensures Find(m, r.id) == Some(r)
  {
    var k :| 0 <= k < |m| && m[k] == r;
    var i := IndexOf(m, r.id);
    assert i <= k;
  }

  /** Tagging keeps the ids. */
  lemma TaggedIdSet(statics: seq<Record>)
    ensures IdSet(Tagged(statics)) == IdSet(statics)
  {
    forall x | x in IdSet(statics) ensures x in IdSet(Tagged(statics)) {
      var k :| 0 <= k < |statics| && statics[k].id == x;
      assert Tagged(statics)[k].id == x;
    }
  }

  /** The merge keeps one record per id, for exactly the ids of both sources, and for each id
      the local record when there is one, else the static one tagged as static. */
  lemma MergeByIdSpec(statics: seq<Record>, locals: seq<Record>)
    ensures DistinctIds(MergeById(statics, locals))
    ensures IdSet(MergeById(statics, locals)) == IdSet(statics) + IdSet(locals)
    ensures forall id :: Find(MergeById(statics, locals), id) == Winner(statics, locals, id)
  {
    var base := PutAll([], Tagged(statics));
    PutAllDistinct([], Tagged(statics));
    PutAllDistinct(base, locals);
    PutAllIdSet([], Tagged(statics));
    PutAllIdSet(base, locals);
    TaggedIdSet(statics);
    forall id ensures Find(MergeById(statics, locals), id) == Winner(statics, locals, id) {
      PutAllFind(base, locals, id);
      PutAllFind([], Tagged(statics), id);
      LatestTagged(statics, id);
    }
  }

  // ----- newest-first stable sort -----

  /** Non-increasing by `createdAt`, a missing value counting as 0. */
  predicate NewestFirst(s: seq<Record>) {
    forall i, j :: 0 <= i < j < |s| ==> CreatedOrZero(s[i]) >= CreatedOrZero(s[j])
  }

  /** Insert `x` before the first record that is not newer than it. */
  function Insert(x: Record, t: seq<Record>): seq<Record> {
    if t == [] then [x]
    else if CreatedOrZero(x) >= CreatedOrZero(t[0]) then [x] + t
    else [t[0]] + Insert(x, t[1..])
  }

  /** Inserting adds exactly `x`. */
  lemma {:induction false} InsertPermutation(x: Record, t: seq<Record>)
    ensures multiset(Insert(x, t)) == multiset(t) + multiset{x}
    decreases |t|
  {
    if t != [] && CreatedOrZero(x) < CreatedOrZero(t[0]) {
      InsertPermutation(x, t[1..]);
      assert t == [t[0]] + t[1..];
    }
  }

  /** What `Insert` puts in front of a sequence that holds only `x` and members of `t`. */
  lemma InsertMembers(x: Record, t: seq<Record>)
    ensures forall y :: y in Insert(x, t) ==> y == x || y in t
  {
    InsertPermutation(x, t);
    assert forall y :: y in Insert(x, t) ==> y in multiset(Insert(x, t));
  }

  /** Inserting into a newest-first sequence keeps it newest first. */
  lemma {:induction false} InsertOrdered(x: Record, t: seq<Record>)
    requires NewestFirst(t)
    ensures NewestFirst(Insert(x, t))
    decreases |t|
  {
    if t == [] {
    } else if CreatedOrZero(x) >= CreatedOrZero(t[0]) {
      var r := [x] + t;
      forall i, j | 0 <= i < j < |r| ensures CreatedOrZero(r[i]) >= CreatedOrZero(r[j]) {
        if i == 0 {
          assert r[j] == t[j - 1];
          assert CreatedOrZero(t[0]) >= CreatedOrZero(t[j - 1]);
        } else {
          assert r[i] == t[i - 1] && r[j] == t[j - 1];
        }
      }
    } else {
      var r' := Insert(x, t[1..]);
      InsertOrdered(x, t[1..]);
      InsertMembers(x, t[1..]);
      var r := [t[0]] + r';
      forall i, j | 0 <= i < j < |r| ensures CreatedOrZero(r[i]) >= CreatedOrZero(r[j]) {
        if i == 0 {
          assert r[j] in r';
          if r[j] != x {
            var k :| 0 <= k < |t[1..]| && t[1..][k] == r[j];
            assert t[k + 1] == r[j];
          }
        } else {
          assert r[i] == r'[i - 1] && r[j] == r'[j - 1];
        }
      }
    }
  }

  /** The comparator sort `(b.createdAt || 0) - (a.createdAt || 0)`, stable on ties,
      as an insertion sort. */
  function SortNewestFirst(s: seq<Record>): seq<Record> {
    if s == [] then [] else Insert(s[0], SortNewestFirst(s[1..]))
  }

  /** The sorted sequence is newest first and holds the same records, as often. */
  lemma {:induction false} SortNewestFirstSpec(s: seq<Record>)
    ensures NewestFirst(SortNewestFirst(s))
    ensures multiset(SortNewestFirst(s)) == multiset(s)
  {
    if s != [] {
      SortNewestFirstSpec(s[1..]);
      InsertPermutation(s[0], SortNewestFirst(s[1..]));
      InsertOrdered(s[0], SortNewestFirst(s[1..]));
      assert s == [s[0]] + s[1..];
    }
  }

  /** The records with creation key `k`, in order. */
  function WithKey(k: int): Record -> bool {
    r => CreatedOrZero(r) == k
  }

  /** Inserting keeps `x` ahead of every record with the same key that was already there. */
  lemma {:induction false} InsertStable(x: Record, t: seq<Record>, k: int)
    ensures Filter(Insert(x, t), WithKey(k)) == Filter([x] + t, WithKey(k))
    decreases |t|
  {
    if t == [] {
      assert Insert(x, t) == [x] + t;
    } else if CreatedOrZero(x) < CreatedOrZero(t[0]) {
      var rest := t[1..];
      assert t == [t[0]] + rest;
      InsertStable(x, rest, k);
      assert !(WithKey(k)(x) && WithKey(k)(t[0]));
      SwapPast(x, t[0], rest, Insert(x, rest), WithKey(k));
    }
  }

  /** Moving `x` past a `y` that the filter cannot keep together with it does not change the filtered order. */
  lemma SwapPast(x: Record, y: Record, rest: seq<Record>, moved: seq<Record>, keep: Record -> bool)
    requires !(keep(x) && keep(y))
    requires Filter(moved, keep) == Filter([x] + rest, keep)
    ensures Filter([y] + moved, keep) == Filter([x] + ([y] + rest), keep)
  {
    if keep(x) {
      FilterDropsFirst(y, moved, keep);
      FilterDropsFirst(y, rest, keep);
      FilterKeepsFirst(x, rest, keep);
      FilterKeepsFirst(x, [y] + rest, keep);
    } else {
      FilterDropsFirst(x, rest, keep);
      FilterDropsFirst(x, [y] + rest, keep);
      FilterConcat([y], moved, keep);
      FilterConcat([y], rest, keep);
    }
  }

  /** A first element the filter keeps stays first. */
  lemma FilterKeepsFirst(y: Record, s: seq<Record>, keep: Record -> bool)
    requires keep(y)
    ensures Filter([y] + s, keep) == [y] + Filter(s, keep)
  {
    FilterConcat([y], s, keep);
    FilterSingle(y, keep);
  }

  /** A first element the filter rejects leaves no trace. */
  lemma FilterDropsFirst(y: Record, s: seq<Record>, keep: Record -> bool)
    requires !keep(y)
    ensures Filter([y] + s, keep) == Filter(s, keep)
  {
    FilterConcat([y], s, keep);
    FilterSingle(y, keep);
    assert [] + Filter(s, keep) == Filter(s, keep);
  }

  /** The sort is stable: the records sharing a creation key keep their relative order. */
  lemma {:induction false} SortStable(s: seq<Record>, k: int)
    ensures Filter(SortNewestFirst(s), WithKey(k)) == Filter(s, WithKey(k))
  {
    if s != [] {
      SortStable(s[1..], k);
      InsertStable(s[0], SortNewestFirst(s[1..]), k);
      FilterConcat([s[0]], SortNewestFirst(s[1..]), WithKey(k));
      FilterConcat([s[0]], s[1..], WithKey(k));
      assert s == [s[0]] + s[1..];
    }
  }

  /** Sorting a sequence without duplicate ids yields one without duplicate ids. */
  lemma {:induction false} SortDistinct(s: seq<Record>)
    requires DistinctIds(s)
    ensures DistinctIds(SortNewestFirst(s))
  {
    if s != [] {
      var t := SortNewestFirst(s[1..]);
      SortDistinct(s[1..]);
      SortNewestFirstSpec(s[1..]);
      assert forall y :: y in t ==> y in s[1..] by {
        assert forall y :: y in t ==> y in multiset(t);
      }
      InsertDistinct(s[0], t);
    }
  }

  lemma {:induction false} InsertDistinct(x: Record, t: seq<Record>)
    requires DistinctIds(t)
    requires forall y :: y in t ==> y.id != x.id
    ensures DistinctIds(Insert(x, t))
    decreases |t|
  {
    if t != [] && CreatedOrZero(x) < CreatedOrZero(t[0]) {
      var r' := Insert(x, t[1..]);
      InsertDistinct(x, t[1..]);
      InsertMembers(x, t[1..]);
      var r := [t[0]] + r';
      forall i, j | 0 <= i < j < |r| ensures r[i].id != r[j].id {
        if i == 0 {
          assert r[j] in r';
          if r[j] != x {
            var k :| 0 <= k < |t[1..]| && t[1..][k] == r[j];
            assert t[k + 1] == r[j];
          }
        } else {
          assert r[i] == r'[i - 1] && r[j] == r'[j - 1];
        }
      }
    }
  }

  // ----- the working set loadPrompts produces -----

  /** `prompts` after `loadPrompts`: the map's values sorted newest first. */
  function Merged(statics: seq<Record>, locals: seq<Record>): seq<Record> {
    SortNewestFirst(MergeById(statics, locals))
  }

  /** What `loadPrompts` promises: every id of either source appears exactly once; the record
      kept for it is the winning local or tagged static record; the result is newest first,
      a permutation of the map's values, and stable on equal creation keys. */
  lemma MergedSpec(statics: seq<Record>, locals: seq<Record>)
    ensures DistinctIds(Merged(statics, locals))
    ensures IdSet(Merged(statics, locals)) == IdSet(statics) + IdSet(locals)
    ensures forall r :: r in Merged(statics, locals) ==> Winner(statics, locals, r.id) == Some(r)
    ensures forall id :: id in IdSet(statics) + IdSet(locals) ==>
              Winner(statics, locals, id).Some? && Winner(statics, locals, id).value in Merged(statics, locals)
    ensures NewestFirst(Merged(statics, locals))
    ensures multiset(Merged(statics, locals)) == multiset(MergeById(statics, locals))
    ensures forall k :: Filter(Merged(statics, locals), WithKey(k)) == Filter(MergeById(statics, locals), WithKey(k))
  {
    var m := MergeById(statics, locals);
    var p := Merged(statics, locals);
    MergeByIdSpec(statics, locals);
    SortNewestFirstSpec(m);
    SortDistinct(m);
    assert forall r :: r in p <==> r in m by {
      assert forall r :: r in p <==> r in multiset(p);
    }
    forall r | r in p ensures Winner(statics, locals, r.id) == Some(r) {
      FindMember(m, r);
    }
    forall id | id in IdSet(statics) + IdSet(locals)
      ensures Winner(statics, locals, id).Some? && Winner(statics, locals, id).value in p
    {
      var k :| 0 <= k < |m| && m[k].id == id;
      FindMember(m, m[k]);
    }
    forall k ensures Filter(p, WithKey(k)) == Filter(m, WithKey(k)) {
      SortStable(m, k);
    }
  }
}
