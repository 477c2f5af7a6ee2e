/** The structural decoder: `Deserialize(byte[])` reads the entity list and
    `Write` rebuilds the dictionaries from entity 0
    (StackContainer/StackContainer.cs:263-338). */
module Decoder {
  import opened Types
  import opened Wire
  import Dirs

  // ---------------------------------------------------------------- reading the entity list

  /** The inner loop of lines 283-287. */
  method ReadIndices(s: Bytes, n: int) returns (r: Option<(seq<int>, Bytes)>)
    ensures r == ParseInts(s, n, [])
  {
    var acc: seq<int> := [];
    var rest := s;
    var j := 0;
    while j < n
      invariant 0 <= j && (j <= n || j == 0)
      invariant ParseInts(rest, n - j, acc) == ParseInts(s, n, [])
    {
      var v := DecInt32(rest);
      if v.None? {
        return None;
      }
      acc, rest := acc + [v.value.0], v.value.1;
      j := j + 1;
    }
    return Some((acc, rest));
  }

  /** One iteration of the outer loop of lines 272-290. */
  method ReadEntity(s: Bytes) returns (r: Option<(Record, Bytes)>)
    ensures r == ParseRecord(s)
  {
    var name := DecName(s);
    if name.None? {
      return None;
    }
    var isValue := DecBool(name.value.1);
    if isValue.None? {
      return None;
    }
    var count := DecInt32(isValue.value.1);
    if count.None? {
      return None;
    }
    var n, rest := count.value.0, count.value.1;
    if isValue.value.0 {
      if n < 0 || n > |rest| {
        return None;
      }
      return Some((ValueRec(name.value.0, rest[..n]), rest[n..]));
    }
    var kids := ReadIndices(rest, n);
    if kids.None? {
      return None;
    }
    return Some((ContainerRec(name.value.0, kids.value.0), kids.value.1));
  }

  /** One more entity onto `recs`, or the failure that ends the read. */
  method ReadNext(rest: Bytes, left: int, recs: seq<Record>, ghost want: Option<(seq<Record>, Bytes)>) returns (r: Option<(seq<Record>, Bytes)>)
    requires left > 0 && ParseRecords(rest, left, recs) == want
    ensures r.None? ==> want == None
    ensures r.Some? ==> ParseRecords(r.value.1, left - 1, r.value.0) == want
  {
    var e := ReadEntity(rest);
    if e.None? {
      return None;
    }
    ParseRecordsStep(rest, left, recs, e.value.0, e.value.1);
    return Some((recs + [e.value.0], e.value.1));
  }

  /** The outer loop of lines 272-290: `n` entities in a row. */
  method ReadRecords(s: Bytes, n: int) returns (r: Option<(seq<Record>, Bytes)>)
    ensures r == ParseRecords(s, n, [])
  {
    ghost var want := ParseRecords(s, n, []);
    var recs: seq<Record> := [];
    var rest := s;
    var left := n;
    while left > 0
      invariant ParseRecords(rest, left, recs) == want
    {
      var next := ReadNext(rest, left, recs, want);
      if next.None? {
        return None;
      }
      recs, rest := next.value.0, next.value.1;
      left := left - 1;
    }
    return Some((recs, rest));
  }

  /** Lines 271-290: the count, then that many entities. */
  method ReadEntities(s: Bytes) returns (r: Option<seq<Record>>)
    ensures r == ParseAll(s)
  {
    var count := DecInt32(s);
    if count.None? {
      return None;
    }
    var recs := ReadRecords(count.value.1, count.value.0);
    if recs.None? {
      return None;
    }
    return Some(recs.value.0);
  }

  // ---------------------------------------------------------------- rebuilding the tree

  /** Dictionaries `lo` onward have unique keys and refer only forward, inside the arena. */
  predicate Built(s: seq<Dir>, lo: nat)
  {
    forall x :: lo <= x < |s| ==>
      && UniqueNames(s[x])
      && forall i :: 0 <= i < |s[x]| && s[x][i].item.Sub? ==> x < s[x][i].item.id < |s|
  }

  /** What filling dictionary `id` of `out` leaves of it: dictionaries are only
      added, `id` only gains entries at its end, the others are untouched. */
  predicate Grows(out: seq<Dir>, r: seq<Dir>, id: nat)
    requires id < |out|
  {
    && |out| <= |r|
    && (forall x :: 0 <= x < |out| && x != id ==> r[x] == out[x])
    && out[id] <= r[id]
    && (Built(out, id) ==> Built(r, id))
  }

  /** (parent, current) pairs of the calls of `Write` that are still running. */
  type Calls = set<(int, int)>

  function Pending(recs: seq<Record>, calls: Calls): set<(int, int)>
  {
    set a, b | 0 <= a < |recs| && 0 <= b < |recs| && (a, b) !in calls :: (a, b)
  }

  /** `Write(dictionary, entities, parent, cur)` filling dictionary `id` of `out`. */
  function Expand(recs: seq<Record>, parent: int, cur: nat, calls: Calls, out: seq<Dir>, id: nat): (r: Result<seq<Dir>>)
    requires cur < |recs| && id < |out|
    ensures r.Ok? ==> Grows(out, r.value, id)
    decreases Pending(recs, calls), 1, 0
  {
    match recs[cur]
    case ValueRec(_, _) => Ok(out)
    case ContainerRec(_, _) => ExpandKids(recs, parent, cur, 0, calls, out, id)
  }

  /** The `foreach` of `Write` from the `j`-th child index on. A child equal to
      `parent` is skipped; an index out of range fails like `entities[subItem]`;
      a key already present fails like `Dictionary.Add`. A call whose
      (parent, current) pair is already running would repeat itself forever in
      the source; here it fails. */
  function ExpandKids(recs: seq<Record>, parent: int, cur: nat, j: nat, calls: Calls, out: seq<Dir>, id: nat): (r: Result<seq<Dir>>)
    requires cur < |recs| && recs[cur].ContainerRec? && j <= |recs[cur].kids| && id < |out|
    ensures r.Ok? ==> Grows(out, r.value, id)
    decreases Pending(recs, calls), 0, |recs[cur].kids| - j
  {
    var kids := recs[cur].kids;
    if j == |kids| then Ok(out)
    else
      var k := kids[j];
      if k == parent then ExpandKids(recs, parent, cur, j + 1, calls, out, id)
      else if k < 0 || k >= |recs| then Fail
      else
        match recs[k]
        case ValueRec(name, b) =>
          if Dirs.Find(out[id], name).Some? then Fail
          else
            var next := out[id := out[id] + [Entry(name, Data(b))]];
            AddKeepsBuilt(out, id, Entry(name, Data(b)));
            ExpandKids(recs, parent, cur, j + 1, calls, next, id)
        case ContainerRec(name, _) =>
          if (cur, k) in calls then Fail
          else
            assert (cur, k) in Pending(recs, calls) - Pending(recs, calls + {(cur, k)});
            var child := |out|;
            match Expand(recs, cur, k, calls + {(cur, k)}, out + [[]], child)
            case Fail => Fail
            case Ok(filled) =>
              if Dirs.Find(filled[id], name).Some? then Fail
              else
                var next := filled[id := filled[id] + [Entry(name, Sub(child))]];
                assert Built(out, id) ==> Built(out + [[]], id);
                AddKeepsBuilt(filled, id, Entry(name, Sub(child)));
                ExpandKids(recs, parent, cur, j + 1, calls, next, id)
  }

  /** Adding an absent key that refers forward keeps the arena built. */
  lemma AddKeepsBuilt(s: seq<Dir>, id: nat, e: Entry)
    requires id < |s| && Dirs.Find(s[id], e.name).None?
    requires e.item.Sub? ==> id < e.item.id < |s|
    ensures Built(s, id) ==> Built(s[id := s[id] + [e]], id)
  {
    if Built(s, id) {
      var d := s[id] + [e];
      forall i, j | 0 <= i < j < |d| ensures d[i].name != d[j].name {
        if j == |s[id]| {
          assert d[i] == s[id][i];
        }
      }
    }
  }

  /** Every entry of `r` that refers to one of the first `|out|` dictionaries
      is an entry `out` already had, at the same place. */
  ghost predicate OldRefs(out: seq<Dir>, r: seq<Dir>)
  {
    forall x, i :: 0 <= x < |r| && 0 <= i < |r[x]| && r[x][i].item.Sub? && r[x][i].item.id < |out| ==>
      x < |out| && i < |out[x]| && out[x][i] == r[x][i]
  }

  lemma OldRefsTrans(a: seq<Dir>, b: seq<Dir>, c: seq<Dir>)
    requires |a| <= |b| && OldRefs(a, b) && OldRefs(b, c)
    ensures OldRefs(a, c)
  {
  }

  /** Filling a dictionary keeps the arena a tree: each container is created
      empty, filled, and only then added under one key. */
  lemma {:induction false} ExpandTree(recs: seq<Record>, parent: int, cur: nat, calls: Calls, out: seq<Dir>, id: nat)
    requires cur < |recs| && id < |out| && Closed(out) && TreeShaped(out)
    ensures var r := Expand(recs, parent, cur, calls, out, id);
      r.Ok? ==> Closed(r.value) && TreeShaped(r.value) && OldRefs(out, r.value)
    decreases Pending(recs, calls), 1, 0
  {
    if recs[cur].ContainerRec? {
      ExpandKidsTree(recs, parent, cur, 0, calls, out, id);
    }
  }

  lemma {:induction false} ExpandKidsTree(recs: seq<Record>, parent: int, cur: nat, j: nat, calls: Calls, out: seq<Dir>, id: nat)
    requires cur < |recs| && recs[cur].ContainerRec? && j <= |recs[cur].kids| && id < |out|
    requires Closed(out) && TreeShaped(out)
    ensures var r := ExpandKids(recs, parent, cur, j, calls, out, id);
      r.Ok? ==> Closed(r.value) && TreeShaped(r.value) && OldRefs(out, r.value)
    decreases Pending(recs, calls), 0, |recs[cur].kids| - j
  {
    var kids := recs[cur].kids;
    if j < |kids| {
      var k := kids[j];
      if k == parent {
        ExpandKidsTree(recs, parent, cur, j + 1, calls, out, id);
      } else if 0 <= k < |recs| {
        match recs[k]
        case ValueRec(name, b) =>
          if Dirs.Find(out[id], name).None? {
            var next := out[id := out[id] + [Entry(name, Data(b))]];
            Dirs.SameContainersKeepTree(out, id, out[id] + [Entry(name, Data(b))]);
            ExpandKidsTree(recs, parent, cur, j + 1, calls, next, id);
            if ExpandKids(recs, parent, cur, j + 1, calls, next, id).Ok? {
              OldRefsTrans(out, next, ExpandKids(recs, parent, cur, j + 1, calls, next, id).value);
            }
          }
        case ContainerRec(name, _) =>
          if (cur, k) !in calls {
            assert (cur, k) in Pending(recs, calls) - Pending(recs, calls + {(cur, k)});
            var start := out + [[]];
            assert TreeShaped(start) && Closed(start) by {
              assert forall x :: 0 <= x < |out| ==> start[x] == out[x];
            }
            ExpandTree(recs, cur, k, calls + {(cur, k)}, start, |out|);
            var f := Expand(recs, cur, k, calls + {(cur, k)}, start, |out|);
            if f.Ok? && Dirs.Find(f.value[id], name).None? {
              var next := f.value[id := f.value[id] + [Entry(name, Sub(|out|))]];
              AddChildKeeps(out, f.value, id, name);
              ExpandKidsTree(recs, parent, cur, j + 1, calls, next, id);
              if ExpandKids(recs, parent, cur, j + 1, calls, next, id).Ok? {
                OldRefsTrans(out, next, ExpandKids(recs, parent, cur, j + 1, calls, next, id).value);
              }
            }
          }
      }
    }
  }

  /** Once the new child is filled, adding it under its key keeps the arena
      closed and a tree, and refers to the earlier dictionaries only as before. */
  lemma AddChildKeeps(out: seq<Dir>, filled: seq<Dir>, id: nat, name: Name)
    requires id < |out| < |filled| && Closed(out) && Closed(filled) && TreeShaped(filled)
    requires OldRefs(out + [[]], filled)
    ensures var next := filled[id := filled[id] + [Entry(name, Sub(|out|))]];
      Closed(next) && TreeShaped(next) && OldRefs(out, next)
  {
    forall x, i | 0 <= x < |filled| && 0 <= i < |filled[x]| && filled[x][i].item.Sub?
      ensures filled[x][i].item.id != |out|
    {
      if filled[x][i].item.id == |out| {
        assert false;
      }
    }
    AddChildTree(filled, id, name, |out|);
    AddChildOldRefs(out, filled, id, name);
  }

  /** Adding a reference to a dictionary nothing refers to keeps a tree. */
  lemma AddChildTree(filled: seq<Dir>, id: nat, name: Name, child: nat)
    requires id < |filled| && TreeShaped(filled)
    requires forall x, i :: 0 <= x < |filled| && 0 <= i < |filled[x]| && filled[x][i].item.Sub? ==> filled[x][i].item.id != child
    ensures TreeShaped(filled[id := filled[id] + [Entry(name, Sub(child))]])
  {
    var next: seq<Dir> := filled[id := filled[id] + [Entry(name, Sub(child))]];
    forall x: int, i: int, y: int, z: int |
      && 0 <= x < |next| && 0 <= i < |next[x]| && 0 <= y < |next| && 0 <= z < |next[y]|
      && next[x][i].item.Sub? && next[x][i].item == next[y][z].item
      ensures x == y && i == z
    {
      if !(x == id && i == |filled[id]|) {
        assert next[x][i] == filled[x][i];
      }
      if !(y == id && z == |filled[id]|) {
        assert next[y][z] == filled[y][z];
      }
    }
  }

  /** The reference to the new child is not to one of the first `|out|` dictionaries. */
  lemma AddChildOldRefs(out: seq<Dir>, filled: seq<Dir>, id: nat, name: Name)
    requires id < |filled| && |out| < |filled| && OldRefs(out + [[]], filled)
    ensures OldRefs(out, filled[id := filled[id] + [Entry(name, Sub(|out|))]])
  {
    var next: seq<Dir> := filled[id := filled[id] + [Entry(name, Sub(|out|))]];
    forall x, i | 0 <= x < |next| && 0 <= i < |next[x]| && next[x][i].item.Sub? && next[x][i].item.id < |out|
      ensures x < |out| && i < |out[x]| && out[x][i] == next[x][i]
    {
      assert next[x][i] == filled[x][i];
      assert (out + [[]])[x] == out[x];
    }
  }

  /** `Deserialize(byte[])`: the entity list, then `Write(root, entities, 0, 0)`. */
  function DeserializeBytes(bytes: Bytes): (r: Result<seq<Dir>>)
    ensures r.Ok? ==> StoreValid(r.value) && Built(r.value, 0)
  {
    match ParseAll(bytes)
    case None => Fail
    case Some(recs) =>
      if |recs| == 0 then Fail
      else
        var r := Expand(recs, 0, 0, {(0, 0)}, [[]], 0);
        assert Built([[]], 0);
        r
  }

  /** `Write`: fills `out[id]` child by child, recursing into containers. */
  method Write(recs: seq<Record>, parent: int, cur: nat, calls: Calls, out: seq<Dir>, id: nat) returns (r: Result<seq<Dir>>)
    requires cur < |recs| && id < |out|
    ensures r == Expand(recs, parent, cur, calls, out, id)
    decreases Pending(recs, calls)
  {
    if recs[cur].ValueRec? {
      return Ok(out);
    }
    var kids := recs[cur].kids;
    var s := out;
    var j := 0;
    while j < |kids|
      invariant j <= |kids| && id < |s|
      invariant ExpandKids(recs, parent, cur, j, calls, s, id) == Expand(recs, parent, cur, calls, out, id)
    {
      var k := kids[j];
      if k != parent {
        if k < 0 || k >= |recs| {
          return Fail;
        }
        match recs[k] {
          case ValueRec(name, b) =>
            if Dirs.Find(s[id], name).Some? {
              return Fail;
            }
            s := s[id := s[id] + [Entry(name, Data(b))]];
          case ContainerRec(name, _) =>
            if (cur, k) in calls {
              return Fail;
            }
            assert (cur, k) in Pending(recs, calls) - Pending(recs, calls + {(cur, k)});
            var child := |s|;
            var filled := Write(recs, cur, k, calls + {(cur, k)}, s + [[]], child);
            if filled.Fail? || Dirs.Find(filled.value[id], name).Some? {
              return Fail;
            }
            s := filled.value[id := filled.value[id] + [Entry(name, Sub(child))]];
        }
      }
      j := j + 1;
    }
    return Ok(s);
  }

  /** `Deserialize(byte[])`. */
  method Deserialize(bytes: Bytes) returns (r: Result<seq<Dir>>)
    ensures r == DeserializeBytes(bytes)
  {
    var recs := ReadEntities(bytes);
    if recs.None? || |recs.value| == 0 {
      return Fail;
    }
    r := Write(recs.value, 0, 0, {(0, 0)}, [[]], 0);
  }

  /** `new StackContainer(byte[])` with the root's ".." self-entry installed
      before the decoded entries, for example in the dictionary handed to
      `Write`; `Add` fails when the decoded root already has that key. */
  function LoadStore(bytes: Bytes): (r: Result<seq<Dir>>)
    ensures r.Ok? ==> StoreValid(r.value) && |r.value[0]| > 0 && r.value[0][0] == Entry(Parent, Sub(0))
  {
    match DeserializeBytes(bytes)
    case Fail => Fail
    case Ok(t) =>
      if Dirs.Find(t[0], Parent).Some? then Fail
      else
        var root := [Entry(Parent, Sub(0))] + t[0];
        assert UniqueNames(root) by {
          forall i, j | 0 <= i < j < |root| ensures root[i].name != root[j].name {
            if i == 0 {
              Dirs.FindAt(t[0], j - 1);
            } else {
              assert root[i] == t[0][i - 1] && root[j] == t[0][j - 1];
            }
          }
        }
        Ok(t[0 := root])
  }

  /** A loaded store is a tree: decoding builds one, and the root's ".." is
      the only reference to the root. */
  lemma LoadStoreTree(bytes: Bytes)
    requires LoadStore(bytes).Ok?
    ensures TreeShaped(LoadStore(bytes).value)
  {
    var recs := ParseAll(bytes).value;
    ExpandTree(recs, 0, 0, {(0, 0)}, [[]], 0);
    var t: seq<Dir> := DeserializeBytes(bytes).value;
    forall x, i | 0 <= x < |t| && 0 <= i < |t[x]| && t[x][i].item.Sub? ensures t[x][i].item.id != 0 {
      if x == 0 && t[0][i] == Entry(Parent, Sub(0)) {
        assert false;
      }
    }
    PrependRootKeepsTree(t);
  }

  /** Putting the root's ".." in front of a tree that never refers to the
      root keeps it a tree. */
  lemma PrependRootKeepsTree(t: seq<Dir>)
    requires |t| > 0 && TreeShaped(t)
    requires forall x, i :: 0 <= x < |t| && 0 <= i < |t[x]| && t[x][i].item.Sub? ==> t[x][i].item.id != 0
    ensures TreeShaped(t[0 := [Entry(Parent, Sub(0))] + t[0]])
  {
    var r: seq<Dir> := t[0 := [Entry(Parent, Sub(0))] + t[0]];
    forall x: int, i: int, y: int, z: int |
      && 0 <= x < |r| && 0 <= i < |r[x]| && 0 <= y < |r| && 0 <= z < |r[y]|
      && r[x][i].item.Sub? && r[x][i].item == r[y][z].item
      ensures x == y && i == z
    {
      if !(x == 0 && i == 0) {
        assert r[x][i] == t[x][if x == 0 then i - 1 else i];
      }
      if !(y == 0 && z == 0) {
        assert r[y][z] == t[y][if y == 0 then z - 1 else z];
      }
    }
  }

  method Load(bytes: Bytes) returns (r: Result<seq<Dir>>)
    ensures r == LoadStore(bytes)
  {
    r := Deserialize(bytes);
    if r.Ok? {
      if Dirs.Find(r.value[0], Parent).Some? {
        return Fail;
      }
      r := Ok(r.value[0 := [Entry(Parent, Sub(0))] + r.value[0]]);
    }
  }
}
