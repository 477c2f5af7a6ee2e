/** The flattening encoder: `Read` collects the entity list depth first and
    `Serialize(Dictionary)` writes it (StackContainer/StackContainer.cs:222-261,
    340-357). */
module Encoder {
  import opened Types
  import opened Wire

  /** Every entry of every dictionary of the arena. */
  function AllEntries(s: seq<Dir>): seq<Entry>
  {
    if s == [] then [] else s[0] + AllEntries(s[1..])
  }

  lemma {:induction false} InAllEntries(s: seq<Dir>, x: nat, i: nat)
    requires x < |s| && i < |s[x]|
    ensures s[x][i] in AllEntries(s)
  {
    if x > 0 {
      InAllEntries(s[1..], x - 1, i);
    }
  }

  /** The container entries of the arena: the only entities the walk recurses on. */
  function SubEntries(s: seq<Dir>): set<Entry>
  {
    set e | e in AllEntries(s) && e.item.Sub?
  }

  /** Container entries the walk has not listed yet; it shrinks on every descent. */
  function Unseen(s: seq<Dir>, es: seq<Entry>): set<Entry>
  {
    SubEntries(s) - set e | e in es
  }

  /** No (name, container) pair is listed twice. */
  predicate NoDuplicateContainers(es: seq<Entry>)
  {
    forall i, j :: 0 <= i < j < |es| && es[i].item.Sub? ==> es[i] != es[j]
  }

  /** Every container entity listed at or after `from` has all its children listed. */
  predicate ClosedFrom(s: seq<Dir>, es: seq<Entry>, from: nat)
    requires Closed(s)
  {
    forall j, e :: from <= j < |es| && es[j].item.Sub? && es[j].item.id < |s| && e in s[es[j].item.id] ==> e in es
  }

  /** Every entity listed at or after `from` is an entry of the store. */
  predicate FromStore(s: seq<Dir>, es: seq<Entry>, from: nat)
  {
    forall j :: from <= j < |es| ==> es[j] in AllEntries(s)
  }

  /** The entries of dictionary `c` from the `i`-th on are all listed. */
  predicate Listed(s: seq<Dir>, c: nat, i: nat, es: seq<Entry>)
    requires c < |s|
  {
    forall k :: i <= k < |s[c]| ==> s[c][k] in es
  }

  /** What a walk from list `es` guarantees of the list `r` it returns. */
  predicate Extends(s: seq<Dir>, es: seq<Entry>, r: seq<Entry>)
    requires Closed(s)
  {
    && es <= r
    && FromStore(s, r, |es|)
    && ClosedFrom(s, r, |es|)
    && (NoDuplicateContainers(es) ==> NoDuplicateContainers(r))
  }

  /** `Read(container, ref entities)` on dictionary `c`. */
  function FlattenDir(s: seq<Dir>, c: nat, es: seq<Entry>): (r: seq<Entry>)
    requires Closed(s) && c < |s|
    ensures Extends(s, es, r)
    ensures Listed(s, c, 0, r)
    decreases Unseen(s, es), 1, 0
  {
    FlattenEntries(s, c, 0, es)
  }

  /** The `foreach` of `Read` from the `i`-th entry of dictionary `c` on: a
      container pair already listed is skipped, any other one is listed and
      walked; a value is always listed. */
  function FlattenEntries(s: seq<Dir>, c: nat, i: nat, es: seq<Entry>): (r: seq<Entry>)
    requires Closed(s) && c < |s| && i <= |s[c]|
    ensures Extends(s, es, r)
    ensures Listed(s, c, i, r)
    decreases Unseen(s, es), 0, |s[c]| - i
  {
    if i == |s[c]| then es
    else
      var x := s[c][i];
      InAllEntries(s, c, i);
      if x.item.Sub? then
        if x in es then
          var r := FlattenEntries(s, c, i + 1, es);
          PrefixMembers(es, r);
          r
        else
          assert x in Unseen(s, es) && x !in Unseen(s, es + [x]);
          assert Unseen(s, es + [x]) <= Unseen(s, es);
          var walked := FlattenDir(s, x.item.id, es + [x]);
          PrefixMembers(es + [x], walked);
          assert Unseen(s, walked) <= Unseen(s, es + [x]);
          var r := FlattenEntries(s, c, i + 1, walked);
          DescentExtends(s, es, x, walked, r);
          r
      else
        assert Unseen(s, es + [x]) == Unseen(s, es);
        var r := FlattenEntries(s, c, i + 1, es + [x]);
        ValueExtends(s, es, x, r);
        r
  }

  lemma ValueExtends(s: seq<Dir>, es: seq<Entry>, x: Entry, r: seq<Entry>)
    requires Closed(s) && x in AllEntries(s) && !x.item.Sub?
    requires Extends(s, es + [x], r)
    ensures Extends(s, es, r) && x in r
  {
    assert r[|es|] == x;
  }

  lemma DescentExtends(s: seq<Dir>, es: seq<Entry>, x: Entry, walked: seq<Entry>, r: seq<Entry>)
    requires Closed(s) && x in AllEntries(s) && x.item.Sub? && x.item.id < |s| && x !in es
    requires Extends(s, es + [x], walked) && Listed(s, x.item.id, 0, walked)
    requires Extends(s, walked, r)
    ensures Extends(s, es, r) && x in r
  {
    PrefixMembers(walked, r);
    assert r[|es|] == x;
    forall j, e | |es| <= j < |r| && r[j].item.Sub? && r[j].item.id < |s| && e in s[r[j].item.id]
      ensures e in r
    {
      if j == |es| {
        var k :| 0 <= k < |s[x.item.id]| && s[x.item.id][k] == e;
        assert e in walked;
      } else if j < |walked| {
        assert walked[j] == r[j];
        assert e in walked;
      }
    }
    if NoDuplicateContainers(es) {
      assert NoDuplicateContainers(es + [x]);
    }
  }

  lemma PrefixMembers(a: seq<Entry>, b: seq<Entry>)
    requires a <= b
    ensures forall e :: e in a ==> e in b
  {
    forall e | e in a ensures e in b {
      var k :| 0 <= k < |a| && a[k] == e;
      assert b[k] == e;
    }
  }

  /** Every container among the entities `es` is a dictionary of `s`. */
  predicate Refers(s: seq<Dir>, es: seq<Entry>)
  {
    forall k :: 0 <= k < |es| && es[k].item.Sub? ==> es[k].item.id < |s|
  }

  /** The entity list `Serialize()` writes: the walk from the root. */
  function Entities(s: seq<Dir>): (r: seq<Entry>)
    requires StoreValid(s)
    ensures Refers(s, r)
  {
    var r := FlattenDir(s, 0, []);
    assert Refers(s, r) by {
      forall k | 0 <= k < |r| && r[k].item.Sub? ensures r[k].item.id < |s| {
        AllEntriesClosed(s, r[k]);
      }
    }
    r
  }

  /** `List.IndexOf`: the first position holding `x`, or -1. */
  function IndexOf(es: seq<Entry>, x: Entry): (r: int)
    ensures -1 <= r < |es|
    ensures r >= 0 ==> es[r] == x && forall j :: 0 <= j < r ==> es[j] != x
    ensures r == -1 <==> x !in es
  {
    if es == [] then -1
    else if es[0] == x then 0
    else
      var k := IndexOf(es[1..], x);
      assert x in es[1..] ==> x in es;
      assert x in es && es[0] != x ==> x in es[1..];
      if k < 0 then -1 else k + 1
  }

  /** The child positions written for container `k` (lines 250-255). */
  function ChildIndices(s: seq<Dir>, es: seq<Entry>, k: nat): (r: seq<int>)
    requires k < |s|
    ensures |r| == |s[k]|
  {
    seq(|s[k]|, j requires 0 <= j < |s[k]| => IndexOf(es, s[k][j]))
  }

  /** The wire form of one entity. */
  function RecordOf(s: seq<Dir>, es: seq<Entry>, x: Entry): (r: Record)
    requires Closed(s) && (x.item.Sub? ==> x.item.id < |s|)
    ensures r.name == x.name && (r.ValueRec? <==> x.item.Data?)
  {
    match x.item
    case Data(b) => ValueRec(x.name, b)
    case Sub(k) => ContainerRec(x.name, ChildIndices(s, es, k))
  }

  /** An entity is written under its name, as a value exactly when it is one,
      with its bytes, or with one child index per entry of its dictionary. */
  lemma RecordOfMeaning(s: seq<Dir>, es: seq<Entry>, x: Entry)
    requires Closed(s) && (x.item.Sub? ==> x.item.id < |s|)
    ensures var r := RecordOf(s, es, x);
      && r.name == x.name && (r.ValueRec? <==> x.item.Data?)
      && (r.ValueRec? ==> x.item == Data(r.data))
      && (r.ContainerRec? ==> |r.kids| == |s[x.item.id]|)
  {
  }

  /** The index written for a child is -1 exactly when the child is not
      listed, and otherwise a position of the list holding that child. */
  lemma ChildIndexMeaning(s: seq<Dir>, es: seq<Entry>, k: nat, j: nat)
    requires k < |s| && j < |s[k]|
    ensures var i := ChildIndices(s, es, k)[j];
      -1 <= i < |es| && (i >= 0 ==> es[i] == s[k][j]) && (i == -1 <==> s[k][j] !in es)
  {
  }

  function Records(s: seq<Dir>, es: seq<Entry>): (r: seq<Record>)
    requires Closed(s) && Refers(s, es)
    ensures |r| == |es|
  {
    seq(|es|, i requires 0 <= i < |es| => RecordOf(s, es, es[i]))
  }

  /** The bytes of `Serialize()`. */
  function SerializeStore(s: seq<Dir>): (r: Bytes)
    requires StoreValid(s)
    ensures |r| >= 4 + 6 * |Entities(s)| && r[..4] == EncInt32(|Entities(s)|)
  {
    EncodeAll(Records(s, Entities(s)))
  }

  lemma {:induction false} AllEntriesClosed(s: seq<Dir>, e: Entry)
    requires Closed(s) && e in AllEntries(s) && e.item.Sub?
    ensures e.item.id < |s|
  {
    var x, i := EntryOrigin(s, e);
  }

  /** Every listed entity is an entry of some dictionary. */
  lemma {:induction false} EntryOrigin(s: seq<Dir>, e: Entry) returns (x: nat, i: nat)
    requires e in AllEntries(s)
    ensures x < |s| && i < |s[x]| && s[x][i] == e
  {
    if e in s[0] {
      x := 0;
      i :| 0 <= i < |s[0]| && s[0][i] == e;
    } else {
      assert e in AllEntries(s[1..]);
      var x', i' := EntryOrigin(s[1..], e);
      x, i := x' + 1, i';
    }
  }

  /** The walk lists each (name, container) pair at most once, every listed
      entity is an entry of the store, and every child index written for a
      container entity lies in range and names that very child. */
  lemma {:induction false} ChildIndicesValid(s: seq<Dir>, i: nat, j: nat)
    requires StoreValid(s)
    requires i < |Entities(s)| && Entities(s)[i].item.Sub?
    requires j < |s[Entities(s)[i].item.id]|
    ensures NoDuplicateContainers(Entities(s))
    ensures exists x, k :: 0 <= x < |s| && 0 <= k < |s[x]| && s[x][k] == Entities(s)[i]
    ensures var es := Entities(s); var kids := ChildIndices(s, es, es[i].item.id);
      0 <= kids[j] < |es| && es[kids[j]] == s[es[i].item.id][j]
  {
    var es := Entities(s);
    var x, k := EntryOrigin(s, es[i]);
    var child := s[es[i].item.id][j];
    assert child in s[es[i].item.id];
    assert child in es;
  }

  /** The walk starts with the root's first entry. */
  lemma FirstEntity(s: seq<Dir>)
    requires StoreValid(s) && |s[0]| > 0
    ensures |Entities(s)| > 0 && Entities(s)[0] == s[0][0]
  {
    var x := s[0][0];
    assert Entities(s) == FlattenEntries(s, 0, 0, []);
    assert [] + [x] == [x];
    if x.item.Sub? {
      var walked := FlattenDir(s, x.item.id, [x]);
      assert Entities(s) == FlattenEntries(s, 0, 1, walked);
      assert [x] <= walked <= Entities(s);
    } else {
      assert Entities(s) == FlattenEntries(s, 0, 1, [x]);
    }
  }

  /** `Read`: appends to the shared list and recurses into each container pair
      not yet listed. */
  method Read(s: seq<Dir>, c: nat, es: seq<Entry>) returns (r: seq<Entry>)
    requires Closed(s) && c < |s|
    ensures r == FlattenDir(s, c, es)
    decreases Unseen(s, es)
  {
    r := es;
    var i := 0;
    while i < |s[c]|
      invariant i <= |s[c]|
      invariant es <= r
      invariant FlattenEntries(s, c, i, r) == FlattenDir(s, c, es)
    {
      var x := s[c][i];
      InAllEntries(s, c, i);
      if x.item.Sub? {
        if x !in r {
          assert Unseen(s, r + [x]) < Unseen(s, es) by {
            PrefixMembers(es, r);
            assert x in Unseen(s, es) && x !in Unseen(s, r + [x]);
          }
          var prefix := r + [x];
          r := Read(s, x.item.id, prefix);
          assert es <= prefix <= r;
        }
      } else {
        r := r + [x];
      }
      i := i + 1;
    }
  }

  /** The `foreach` of lines 251-255: the position of every child in the list. */
  method WriteChildIndices(s: seq<Dir>, es: seq<Entry>, k: nat) returns (kids: seq<int>)
    requires k < |s|
    ensures kids == ChildIndices(s, es, k)
  {
    kids := [];
    var j := 0;
    while j < |s[k]|
      invariant j <= |s[k]|
      invariant kids == ChildIndices(s, es, k)[..j]
    {
      kids := kids + [IndexOf(es, s[k][j])];
      j := j + 1;
    }
  }

  /** One entity of the loop of `Serialize(Dictionary)`: a value's bytes, or a
      container's child indices. */
  method WriteEntity(s: seq<Dir>, es: seq<Entry>, x: Entry) returns (rec: Record)
    requires Closed(s) && (x.item.Sub? ==> x.item.id < |s|)
    ensures rec == RecordOf(s, es, x)
  {
    match x.item {
      case Data(b) =>
        rec := ValueRec(x.name, b);
      case Sub(k) =>
        var kids := WriteChildIndices(s, es, k);
        rec := ContainerRec(x.name, kids);
    }
  }

  /** `Serialize(Dictionary)`: walk, then write the count and every entity. */
  method Serialize(s: seq<Dir>) returns (bytes: Bytes)
    requires StoreValid(s)
    ensures bytes == SerializeStore(s)
  {
    var es := Read(s, 0, []);
    assert es == Entities(s);
    var body := WriteEntities(s, es);
    bytes := EncInt32(|es|) + body;
  }

  /** The loop of `Serialize(Dictionary)` over the walked entities, after the count. */
  method WriteEntities(s: seq<Dir>, es: seq<Entry>) returns (bytes: Bytes)
    requires Closed(s) && Refers(s, es)
    ensures bytes == EncRecords(Records(s, es))
  {
    ghost var recs := Records(s, es);
    bytes := [];
    var i := 0;
    while i < |es|
      invariant i <= |es|
      invariant bytes == EncRecords(recs[..i])
    {
      var rec := WriteEntity(s, es, es[i]);
      assert rec == recs[i];
      EncRecordsPrefix(recs, i);
      bytes := bytes + EncRecord(rec);
      i := i + 1;
    }
    assert recs[..|es|] == recs;
  }

  /** The entities written so far, one more. */
  lemma EncRecordsPrefix(rs: seq<Record>, i: nat)
    requires i < |rs|
    ensures EncRecords(rs[..i + 1]) == EncRecords(rs[..i]) + EncRecord(rs[i])
  {
    assert rs[..i + 1] == rs[..i] + [rs[i]];
    EncRecordsSnoc(rs[..i], rs[i]);
  }

  lemma {:induction false} EncRecordsSnoc(rs: seq<Record>, r: Record)
    ensures EncRecords(rs + [r]) == EncRecords(rs) + EncRecord(r)
  {
    if rs == [] {
      assert [] + [r] == [r];
    } else {
      assert (rs + [r])[1..] == rs[1..] + [r];
      EncRecordsSnoc(rs[1..], r);
    }
  }
}
