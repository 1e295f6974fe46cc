/** One JPA repository's table, abstracted: rows keyed by a store-assigned
    identity, the order findAll reports them in, and the next identity value.
    save of a new entity inserts under a fresh id, save of a stored entity
    overwrites its row, deleteById of an absent id changes nothing, and
    existsById is key membership. */
module Tables {
  import opened Wrappers

  /** A primary key (a Java Long; IDENTITY generation starts at 1). */
  type Id = int

  datatype Table<T> = Table(rows: map<Id, T>, order: seq<Id>, next: Id)

  ghost predicate Distinct(s: seq<Id>) {
    forall i, j :: 0 <= i < j < |s| ==> s[i] != s[j]
  }

  /** The order lists every stored key exactly once, and every stored key
      lies below the next identity value. */
  ghost predicate Valid<T>(t: Table<T>) {
    && 1 <= t.next
    && Distinct(t.order)
    && (forall i :: 0 <= i < |t.order| ==> t.order[i] in t.rows)
    && (forall k :: k in t.rows ==> k in t.order && 1 <= k < t.next)
  }

  function Empty<T>(): (t: Table<T>)
    ensures Valid(t) && t.rows == map[]
  {
    Table(map[], [], 1)
  }

  /** existsById: true exactly for the ids findAll would list. */
  function Exists<T>(t: Table<T>, id: Id): (b: bool)
    ensures Valid(t) ==> (b <==> id in t.order)
    ensures Valid(t) && b ==> 1 <= id < t.next
  {
    id in t.rows
  }

  /** The ids of s that belong to keep, in their order in s. */
  function Keep(s: seq<Id>, keep: set<Id>): (r: seq<Id>)
    ensures forall x :: x in r <==> x in s && x in keep
    ensures forall i :: 0 <= i < |r| ==> r[i] in s && r[i] in keep
    ensures |r| <= |s|
    ensures keep == {} ==> r == []
    ensures Distinct(s) ==> Distinct(r)
    ensures (forall i :: 0 <= i < |s| ==> s[i] in keep) ==> r == s
  {
    if s == [] then []
    else if s[0] in keep then
      var rest := Keep(s[1..], keep);
      assert Distinct(s) ==> s[0] !in s[1..];
      [s[0]] + rest
    else
      Keep(s[1..], keep)
  }

  /** save of a new entity: the value is stored under a fresh id, which is
      appended to the findAll order. */
  function Insert<T>(t: Table<T>, v: T): (r: (Table<T>, Id))
    requires Valid(t)
    ensures r.1 !in t.rows && 1 <= r.1
    ensures r.0.rows == t.rows[r.1 := v]
    ensures r.0.order == t.order + [r.1]
    ensures Valid(r.0)
  {
    (Table(t.rows[t.next := v], t.order + [t.next], t.next + 1), t.next)
  }

  /** save of a stored entity: its row is overwritten in place. */
  function Update<T>(t: Table<T>, id: Id, v: T): (r: Table<T>)
    requires id in t.rows
    ensures r.rows == t.rows[id := v] && r.order == t.order
    ensures r.rows.Keys == t.rows.Keys
    ensures Valid(t) ==> Valid(r)
  {
    t.(rows := t.rows[id := v])
  }

  /** Keeps exactly the rows whose ids belong to keep. */
  function Restrict<T>(t: Table<T>, keep: set<Id>): (r: Table<T>)
    ensures r.rows.Keys == t.rows.Keys * keep
    ensures forall k :: k in r.rows ==> r.rows[k] == t.rows[k]
    ensures Valid(t) ==> Valid(r)
  {
    Table(map k | k in t.rows && k in keep :: t.rows[k], Keep(t.order, keep), t.next)
  }

  /** deleteById: removes the row if present, and is a no-op otherwise. */
  function Delete<T>(t: Table<T>, id: Id): (r: Table<T>)
    ensures r.rows == t.rows - {id}
    ensures Valid(t) ==> Valid(r)
    ensures Valid(t) && id !in t.rows ==> r == t
  {
    var r := Restrict(t, t.rows.Keys - {id});
    assert r.rows == t.rows - {id};
    r
  }

  /** findAll: the stored values in table order. */
  function FindAll<T>(t: Table<T>): (r: seq<T>)
    requires Valid(t)
    ensures |r| == |t.order|
    ensures forall i :: 0 <= i < |r| ==> r[i] == t.rows[t.order[i]]
  {
    seq(|t.order|, i requires 0 <= i < |t.order| => t.rows[t.order[i]])
  }

  /** A distinct sequence has as many elements as the set of its elements. */
  lemma {:induction false} DistinctCard(s: seq<Id>)
    requires Distinct(s)
    ensures |set x | x in s| == |s|
  {
    if s != [] {
      var rest := s[1..];
      assert Distinct(rest);
      DistinctCard(rest);
      assert (set x | x in s) == (set x | x in rest) + {s[0]};
      assert s[0] !in rest;
    }
  }

  /** In a valid table the findAll order has one entry per stored row. */
  lemma OrderCountsRows<T>(t: Table<T>)
    requires Valid(t)
    ensures |t.order| == |t.rows|
  {
    DistinctCard(t.order);
    var listed := set x | x in t.order;
    forall x | x in listed
      ensures x in t.rows
    {
      var i :| 0 <= i < |t.order| && t.order[i] == x;
    }
    assert forall k :: k in t.rows ==> k in listed;
    assert listed == t.rows.Keys;
  }
}
