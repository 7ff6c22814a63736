/** The prompt record and the sequence helpers every other module shares. */
module Records {

  datatype Option<+T> = None | Some(value: T) {
    predicate IsFailure() {
      None?
    }

    function PropagateFailure<U>(): Option<U>
      requires None?
    {
      None
    }

    function Extract(): T
      requires Some?
    {
      value
    }
  }

  /** One prompt record `{id, text, image, createdAt?, updatedAt?, isStatic?}`.
      An absent timestamp is `None`; an absent `isStatic` is `false`. */
  datatype Record = Record(
    id: string,
    text: string,
    image: string,
    createdAt: Option<int>,
    updatedAt: Option<int>,
    isStatic: bool)

  /** The sort key `(createdAt || 0)`: a missing creation time counts as 0. */
  function CreatedOrZero(r: Record): int {
    match r.createdAt
    case Some(t) => t
    case None => 0
  }

  /** `Array.prototype.filter`: the elements that pass `keep`, in their order. */
  function Filter(s: seq<Record>, keep: Record -> bool): (r: seq<Record>)
    ensures |r| <= |s|
    ensures forall x :: x in r <==> x in s && keep(x)
  {
    if s == [] then [] else (if keep(s[0]) then [s[0]] else []) + Filter(s[1..], keep)
  }

  /** Filtering a concatenation filters each part: the kept elements stay in order. */
  lemma {:induction false} FilterConcat(a: seq<Record>, b: seq<Record>, keep: Record -> bool)
    ensures Filter(a + b, keep) == Filter(a, keep) + Filter(b, keep)
  {
    if a == [] {
      assert a + b == b;
    } else {
      assert (a + b)[1..] == a[1..] + b;
      FilterConcat(a[1..], b, keep);
    }
  }

  /** A one-element sequence is kept or dropped whole. */
  lemma FilterSingle(y: Record, keep: Record -> bool)
    ensures Filter([y], keep) == if keep(y) then [y] else []
  {
    assert [y][1..] == [];
  }

  /** Filtering one more element of `s`: it is appended when kept. */
  lemma FilterStep(s: seq<Record>, i: nat, keep: Record -> bool)
    requires i < |s|
    ensures Filter(s[..i + 1], keep) == Filter(s[..i], keep) + if keep(s[i]) then [s[i]] else []
  {
    assert s[..i + 1] == s[..i] + [s[i]];
    FilterConcat(s[..i], [s[i]], keep);
    FilterSingle(s[i], keep);
  }

  /** A filter that rejects nothing leaves the sequence as it is. */
  lemma {:induction false} FilterKeepsAll(s: seq<Record>, keep: Record -> bool)
    requires forall x :: x in s ==> keep(x)
    ensures Filter(s, keep) == s
  {
    if s != [] {
      FilterKeepsAll(s[1..], keep);
    }
  }

  /** A filter that keeps nothing leaves nothing. */
  lemma {:induction false} FilterKeepsNone(s: seq<Record>, keep: Record -> bool)
    requires forall x :: x in s ==> !keep(x)
    ensures Filter(s, keep) == []
  {
    if s != [] {
      FilterKeepsNone(s[1..], keep);
    }
  }

  /** The ids of a sequence of records, position by position (`prompts.map(p => p.id)`). */
  function Ids(s: seq<Record>): seq<string> {
    seq(|s|, i requires 0 <= i < |s| => s[i].id)
  }

  /** The set of ids occurring in a sequence of records. */
  function IdSet(s: seq<Record>): set<string> {
    set r | r in s :: r.id
  }

  /** Appending a record adds its id to the id set. */
  lemma IdSetSnoc(s: seq<Record>, x: Record)
    ensures IdSet(s + [x]) == IdSet(s) + {x.id}
  {
    assert forall r :: r in s + [x] <==> r in s || r == x;
  }

  /** No two positions hold records with the same id. */
  predicate DistinctIds(s: seq<Record>) {
    forall i, j :: 0 <= i < j < |s| ==> s[i].id != s[j].id
  }
}
