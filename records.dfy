/**
 * The decoded input of the tree view: a flat list of `{_id, name, parentId}`
 * records, and what the JavaScript object used as a hash map makes of it.
 *
 * A hash keyed by `_id` keeps one entry per distinct id; a later record with
 * the same id overwrites the entry (last write wins) while the key keeps the
 * position of its first insertion, which is the order `Object.keys` reports
 * for string keys.
 */
module Records {

  /** Ids are strings, so `Object.keys` lists them in insertion order. */
  type Id = string

  datatype Option<T> = None | Some(value: T)

  /** One input record; a falsy `parentId` (null, absent) is `None`. */
  datatype Record = Record(id: Id, name: string, parentId: Option<Id>)

  /** Dereferencing `tree[parentId]` for an id that names no record throws. */
  datatype AssemblyError = DanglingParent(child: Id, parentId: Id)

  datatype Result<T> = Ok(value: T) | Err(error: AssemblyError)

  predicate Distinct(s: seq<Id>) {
    forall i, j :: 0 <= i < j < |s| ==> s[i] != s[j]
  }

  /** Two maps over the same keys that agree at every key are equal. */
  lemma EqualAt<K, V>(m: map<K, V>, n: map<K, V>)
    requires m.Keys == n.Keys && forall x :: x in m ==> m[x] == n[x]
    ensures m == n
  {
  }

  /** The set of ids the records carry. */
  function Ids(rs: seq<Record>): set<Id> {
    if rs == [] then {} else Ids(rs[..|rs| - 1]) + {rs[|rs| - 1].id}
  }

  /** Every record's id is among the ids. */
  lemma {:induction false} InIds(rs: seq<Record>)
    ensures forall i :: 0 <= i < |rs| ==> rs[i].id in Ids(rs)
  {
    if rs != [] {
      InIds(rs[..|rs| - 1]);
    }
  }

  /** The keys of the hash once every record has been stored, in `Object.keys` order. */
  function Keys(rs: seq<Record>): (ks: seq<Id>)
    ensures Distinct(ks)
    ensures forall x :: x in ks <==> x in Ids(rs)
  {
    if rs == [] then []
    else
      var ks := Keys(rs[..|rs| - 1]);
      var x := rs[|rs| - 1].id;
      if x in ks then ks else ks + [x]
  }

  /** The record each key ends up holding: the last one written under it. */
  function LastWins(rs: seq<Record>): (m: map<Id, Record>)
    ensures m.Keys == Ids(rs)
    ensures forall x :: x in m ==> m[x].id == x
  {
    if rs == [] then map[] else LastWins(rs[..|rs| - 1])[rs[|rs| - 1].id := rs[|rs| - 1]]
  }

  /** The parent reference each stored node holds. */
  function ParentOf(rs: seq<Record>): (parent: map<Id, Option<Id>>)
    ensures parent.Keys == Ids(rs)
  {
    var last := LastWins(rs);
    map x | x in last :: last[x].parentId
  }

  /** The position of the first record carrying `x`. */
  function FirstIndex(rs: seq<Record>, x: Id): (i: nat)
    requires x in Ids(rs)
    ensures i < |rs| && rs[i].id == x
    ensures forall j :: 0 <= j < i ==> rs[j].id != x
  {
    var n := |rs| - 1;
    InIds(rs[..n]);
    if x in Ids(rs[..n]) then FirstIndex(rs[..n], x) else n
  }

  /** The position of the last record carrying `x`. */
  function LastIndex(rs: seq<Record>, x: Id): (i: nat)
    requires x in Ids(rs)
    ensures i < |rs| && rs[i].id == x
    ensures forall j :: i < j < |rs| ==> rs[j].id != x
  {
    var n := |rs| - 1;
    if rs[n].id == x then n else LastIndex(rs[..n], x)
  }

  /** A key holds the last record written under it. */
  lemma {:induction false} LastWinsIsLastRecord(rs: seq<Record>, x: Id)
    requires x in Ids(rs)
    ensures LastWins(rs)[x] == rs[LastIndex(rs, x)]
  {
    var n := |rs| - 1;
    if rs[n].id != x {
      LastWinsIsLastRecord(rs[..n], x);
    }
  }

  /** Keys are listed in the order in which their ids first occur in the input. */
  lemma {:induction false} KeysInFirstOccurrenceOrder(rs: seq<Record>, a: nat, b: nat)
    requires a < b < |Keys(rs)|
    ensures FirstIndex(rs, Keys(rs)[a]) < FirstIndex(rs, Keys(rs)[b])
  {
    var n := |rs| - 1;
    var ks := Keys(rs[..n]);
    var x := rs[n].id;
    if b < |ks| {
      KeysInFirstOccurrenceOrder(rs[..n], a, b);
      assert Keys(rs)[a] == ks[a] && Keys(rs)[b] == ks[b];
      assert ks[a] in Ids(rs[..n]) && ks[b] in Ids(rs[..n]);
    } else {
      assert Keys(rs)[b] == x && x !in Ids(rs[..n]);
      assert Keys(rs)[a] == ks[a] && ks[a] in Ids(rs[..n]);
    }
  }
}
