/** What `Serialize()` followed by `new StackContainer(byte[])` preserves.
    Stores are compared as trees: a dictionary read as its keys in order, each
    with its bytes or, for a container, the tree of that container. */
module RoundTrip {
  import opened Types
  import opened Wire
  import opened Encoder
  import opened Decoder
  import Dirs

  /** A dictionary entry read as a tree; `Cut` stands for a reference that does
      not lead deeper into the store (the root's ".."). */
  datatype Tree = Leaf(data: Bytes) | Node(kids: seq<(Name, Tree)>) | Cut

  /** Dictionary `x` as the sequence of its keys with their trees. */
  function UnfoldDir(s: seq<Dir>, x: nat): (r: seq<(Name, Tree)>)
    requires x < |s|
    ensures |r| == |s[x]|
    ensures forall i :: 0 <= i < |r| ==> r[i].0 == s[x][i].name
    decreases |s| - x, 1
  {
    seq(|s[x]|, i requires 0 <= i < |s[x]| => UnfoldEntry(s, x, s[x][i]))
  }

  function UnfoldEntry(s: seq<Dir>, x: nat, e: Entry): (Name, Tree)
    requires x < |s|
    decreases |s| - x, 0
  {
    match e.item
    case Data(b) => (e.name, Leaf(b))
    case Sub(y) => if x < y < |s| then (e.name, Node(UnfoldDir(s, y))) else (e.name, Cut)
  }

  /** A store as `new StackContainer()` starts it: the root's first entry is
      its ".." self-reference. */
  predicate Shaped(s: seq<Dir>)
  {
    StoreValid(s) && |s[0]| > 0 && s[0][0] == Entry(Parent, Sub(0))
  }

  /** Every count the format writes fits an `Int32`. */
  predicate Fits(s: seq<Dir>)
    requires StoreValid(s)
  {
    && |Entities(s)| < TwoTo31
    && forall x :: 0 <= x < |s| ==>
         && |s[x]| < TwoTo31
         && forall i :: 0 <= i < |s[x]| ==>
              2 * |s[x][i].name| < TwoTo31 && (s[x][i].item.Data? ==> |s[x][i].item.bytes| < TwoTo31)
  }

  /** What decoding dictionary `k` of `s` is expected to give: its tree, less
      the root's ".." entry, which decoding skips as the parent. */
  function Expected(s: seq<Dir>, k: nat): seq<(Name, Tree)>
    requires Shaped(s) && k < |s|
  {
    if k == 0 then UnfoldDir(s, 0)[1..] else UnfoldDir(s, k)
  }

  /** The entity list and the records a shaped store is serialized through. */
  predicate Context(s: seq<Dir>, es: seq<Entry>, recs: seq<Record>)
  {
    Shaped(s) && es == Entities(s) && recs == Records(s, es)
  }

  /** The parent index handed to `Write` for entity `p` is a container entity
      referring to an earlier dictionary; at the root both are entity 0. */
  predicate ParentFits(es: seq<Entry>, parent: int, p: nat, k: nat)
  {
    && 0 <= parent < |es|
    && es[parent].item.Sub?
    && if k == 0 then p == 0 && parent == 0 else es[parent].item.id < k
  }

  /** Every running call of `Write` is on an entity of a dictionary no deeper than `k`. */
  predicate CallsBelow(es: seq<Entry>, calls: Calls, k: nat)
  {
    forall c :: c in calls ==> 0 <= c.1 < |es| && es[c.1].item.Sub? && es[c.1].item.id <= k
  }

  /** How many children of dictionary `k` before the `j`-th were skipped as the parent. */
  function Skipped(k: nat, j: nat): nat
  {
    if k == 0 && j > 0 then 1 else 0
  }

  /** A tree depends only on the dictionaries from its own on. */
  lemma {:induction false} UnfoldFrame(a: seq<Dir>, b: seq<Dir>, y: nat)
    requires y < |a| <= |b| && Built(a, y)
    requires forall x :: y <= x < |a| ==> a[x] == b[x]
    ensures UnfoldDir(a, y) == UnfoldDir(b, y)
    decreases |a| - y
  {
    forall i | 0 <= i < |a[y]|
      ensures UnfoldEntry(a, y, a[y][i]) == UnfoldEntry(b, y, b[y][i])
    {
      var e := a[y][i];
      if e.item.Sub? {
        UnfoldFrame(a, b, e.item.id);
      }
    }
  }

  lemma SliceSnoc<T>(xs: seq<T>, n: nat)
    requires n < |xs|
    ensures xs[..n + 1] == xs[..n] + [xs[n]]
  {
  }

  /** Adding an entry at the end of a dictionary adds its tree at the end. */
  lemma UnfoldAppend(out: seq<Dir>, next: seq<Dir>, id: nat, e: Entry)
    requires id < |out| <= |next| && Built(out, id)
    requires next[id] == out[id] + [e]
    requires forall x :: id < x < |out| ==> next[x] == out[x]
    ensures UnfoldDir(next, id) == UnfoldDir(out, id) + [UnfoldEntry(next, id, e)]
  {
    forall i | 0 <= i < |out[id]|
      ensures UnfoldEntry(next, id, next[id][i]) == UnfoldEntry(out, id, out[id][i])
    {
      var f := out[id][i];
      assert next[id][i] == f;
      if f.item.Sub? {
        UnfoldFrame(out, next, f.item.id);
      }
    }
  }

  /** The `j`-th child index written for entity `p` names the `j`-th child,
      and it equals the parent index exactly for the root's ".." entry. */
  lemma ChildFacts(s: seq<Dir>, es: seq<Entry>, recs: seq<Record>, parent: int, p: nat, j: nat)
    requires Context(s, es, recs)
    requires p < |es| && es[p].item.Sub? && es[p].item.id < |s| && j < |s[es[p].item.id]|
    requires ParentFits(es, parent, p, es[p].item.id)
    ensures recs[p].ContainerRec? && |recs[p].kids| == |s[es[p].item.id]|
    ensures var q := recs[p].kids[j];
      && 0 <= q < |es| && es[q] == s[es[p].item.id][j]
      && (q == parent <==> es[p].item.id == 0 && j == 0)
  {
    var k := es[p].item.id;
    ChildIndicesValid(s, p, j);
    FirstEntity(s);
    var q := recs[p].kids[j];
    assert q == IndexOf(es, s[k][j]);
    if k == 0 {
      if j == 0 {
        assert q == 0;
      } else {
        assert s[0][j].name != s[0][0].name;
      }
    } else {
      assert s[k][j] != es[parent];
    }
  }

  /** What decoding the children of entity `p` before the `j`-th left in
      dictionary `id` of `out`: the first trees of the expected ones. */
  predicate Partial(s: seq<Dir>, es: seq<Entry>, recs: seq<Record>, p: nat, j: nat, out: seq<Dir>, id: nat)
  {
    && Context(s, es, recs)
    && p < |es| && es[p].item.Sub? && es[p].item.id < |s| && j <= |s[es[p].item.id]|
    && recs[p].ContainerRec? && |recs[p].kids| == |s[es[p].item.id]|
    && id < |out| && Built(out, id)
    && |out[id]| + Skipped(es[p].item.id, j) == j
    && UnfoldDir(out, id) == Expected(s, es[p].item.id)[..|out[id]|]
  }

  /** The key of the `j`-th child is not yet in the dictionary being filled. */
  lemma FreshName(s: seq<Dir>, es: seq<Entry>, recs: seq<Record>, p: nat, j: nat, out: seq<Dir>, id: nat)
    requires Partial(s, es, recs, p, j, out, id) && j < |s[es[p].item.id]|
    requires es[p].item.id == 0 ==> j > 0
    ensures Dirs.Find(out[id], s[es[p].item.id][j].name).None?
    ensures Expected(s, es[p].item.id)[|out[id]|] == UnfoldEntry(s, es[p].item.id, s[es[p].item.id][j])
  {
    var k := es[p].item.id;
    var off := if k == 0 then 1 else 0;
    forall i | 0 <= i < |out[id]| ensures out[id][i].name != s[k][j].name {
      assert out[id][i].name == UnfoldDir(out, id)[i].0 == s[k][i + off].name;
    }
  }

  /** A value child: its key and bytes are added to the dictionary. */
  lemma ValueStep(s: seq<Dir>, es: seq<Entry>, recs: seq<Record>, parent: int, p: nat, j: nat,
                  calls: Calls, out: seq<Dir>, id: nat) returns (next: seq<Dir>)
    requires Partial(s, es, recs, p, j, out, id) && j < |s[es[p].item.id]|
    requires ParentFits(es, parent, p, es[p].item.id)
    requires s[es[p].item.id][j].item.Data?
    ensures Partial(s, es, recs, p, j + 1, next, id)
    ensures ExpandKids(recs, parent, p, j, calls, out, id) == ExpandKids(recs, parent, p, j + 1, calls, next, id)
  {
    var k := es[p].item.id;
    ChildFacts(s, es, recs, parent, p, j);
    var e := s[k][j];
    FreshName(s, es, recs, p, j, out, id);
    var q := recs[p].kids[j];
    assert recs[q] == RecordOf(s, es, e);
    var f := Entry(e.name, e.item);
    next := out[id := out[id] + [f]];
    AddKeepsBuilt(out, id, f);
    UnfoldAppend(out, next, id, f);
    SliceSnoc(Expected(s, k), |out[id]|);
  }

  /** Adding the filled dictionary of a container child under its key. */
  lemma AttachChild(s: seq<Dir>, es: seq<Entry>, recs: seq<Record>, p: nat, j: nat,
                    out: seq<Dir>, filled: seq<Dir>, id: nat) returns (next: seq<Dir>)
    requires Partial(s, es, recs, p, j, out, id) && j < |s[es[p].item.id]|
    requires s[es[p].item.id][j].item.Sub? && es[p].item.id < s[es[p].item.id][j].item.id < |s|
    requires Dirs.Find(out[id], s[es[p].item.id][j].name).None?
    requires Expected(s, es[p].item.id)[|out[id]|] == UnfoldEntry(s, es[p].item.id, s[es[p].item.id][j])
    requires Grows(out + [[]], filled, |out|)
    requires UnfoldDir(filled, |out|) == UnfoldDir(s, s[es[p].item.id][j].item.id)
    ensures next == filled[id := filled[id] + [Entry(s[es[p].item.id][j].name, Sub(|out|))]]
    ensures Partial(s, es, recs, p, j + 1, next, id)
  {
    var k := es[p].item.id;
    var e := s[k][j];
    var child := |out|;
    var start := out + [[]];
    assert Built(start, child);
    var f := Entry(e.name, Sub(child));
    next := filled[id := filled[id] + [f]];
    assert Built(filled, id) by {
      assert Built(start, id) && Built(filled, child);
      forall x | id <= x < child
        ensures UniqueNames(filled[x]) && forall i :: 0 <= i < |filled[x]| && filled[x][i].item.Sub? ==> x < filled[x][i].item.id < |filled|
      {
        assert filled[x] == start[x];
      }
    }
    AddKeepsBuilt(filled, id, f);
    UnfoldAppend(out, next, id, f);
    UnfoldFrame(filled, next, child);
    SliceSnoc(Expected(s, k), |out[id]|);
  }

  /** The dictionary of a container child, decoded into a fresh dictionary
      at the end of `out`, has the tree of the dictionary it was written from. */
  lemma {:induction false} ChildRebuilt(s: seq<Dir>, es: seq<Entry>, recs: seq<Record>, parent: int, p: nat, j: nat,
                                        calls: Calls, out: seq<Dir>, id: nat) returns (filled: seq<Dir>)
    requires Partial(s, es, recs, p, j, out, id) && j < |s[es[p].item.id]|
    requires ParentFits(es, parent, p, es[p].item.id) && CallsBelow(es, calls, es[p].item.id)
    requires s[es[p].item.id][j].item.Sub? && recs[p].kids[j] != parent
    ensures var q := recs[p].kids[j];
      && 0 <= q < |recs| && recs[q].ContainerRec? && recs[q].name == s[es[p].item.id][j].name && (p, q) !in calls
      && Expand(recs, p, q, calls + {(p, q)}, out + [[]], |out|) == Ok(filled)
    ensures es[p].item.id < s[es[p].item.id][j].item.id < |s|
    ensures Grows(out + [[]], filled, |out|)
    ensures UnfoldDir(filled, |out|) == UnfoldDir(s, s[es[p].item.id][j].item.id)
    ensures Dirs.Find(out[id], s[es[p].item.id][j].name).None?
    ensures Expected(s, es[p].item.id)[|out[id]|] == UnfoldEntry(s, es[p].item.id, s[es[p].item.id][j])
    decreases |s| - es[p].item.id, 0, |s[es[p].item.id]| - j, 0
  {
    var k := es[p].item.id;
    ChildFacts(s, es, recs, parent, p, j);
    FreshName(s, es, recs, p, j, out, id);
    var e := s[k][j];
    var q := recs[p].kids[j];
    assert recs[q] == RecordOf(s, es, e);
    assert k < e.item.id < |s|;
    assert (p, q) !in calls;
    var start := out + [[]];
    assert Built(start, |out|);
    Rebuild(s, es, recs, p, q, calls + {(p, q)}, start, |out|);
    filled := Expand(recs, p, q, calls + {(p, q)}, start, |out|).value;
  }

  /** A container child: a new dictionary is filled from it and added under its key. */
  lemma {:induction false} ContainerStep(s: seq<Dir>, es: seq<Entry>, recs: seq<Record>, parent: int, p: nat, j: nat,
                                         calls: Calls, out: seq<Dir>, id: nat) returns (next: seq<Dir>)
    requires Partial(s, es, recs, p, j, out, id) && j < |s[es[p].item.id]|
    requires ParentFits(es, parent, p, es[p].item.id) && CallsBelow(es, calls, es[p].item.id)
    requires s[es[p].item.id][j].item.Sub? && recs[p].kids[j] != parent
    ensures Partial(s, es, recs, p, j + 1, next, id)
    ensures ExpandKids(recs, parent, p, j, calls, out, id) == ExpandKids(recs, parent, p, j + 1, calls, next, id)
    decreases |s| - es[p].item.id, 0, |s[es[p].item.id]| - j, 1
  {
    var filled := ChildRebuilt(s, es, recs, parent, p, j, calls, out, id);
    next := AttachChild(s, es, recs, p, j, out, filled, id);
  }

  /** Decoding the `j`-th child of entity `p`: skipped when it is the parent,
      otherwise its tree is added to the dictionary being filled. */
  lemma {:induction false} KidStep(s: seq<Dir>, es: seq<Entry>, recs: seq<Record>, parent: int, p: nat, j: nat,
                                   calls: Calls, out: seq<Dir>, id: nat) returns (next: seq<Dir>)
    requires Partial(s, es, recs, p, j, out, id) && j < |s[es[p].item.id]|
    requires ParentFits(es, parent, p, es[p].item.id) && CallsBelow(es, calls, es[p].item.id)
    ensures Partial(s, es, recs, p, j + 1, next, id)
    ensures ExpandKids(recs, parent, p, j, calls, out, id) == ExpandKids(recs, parent, p, j + 1, calls, next, id)
    decreases |s| - es[p].item.id, 0, |s[es[p].item.id]| - j, 2
  {
    var k := es[p].item.id;
    ChildFacts(s, es, recs, parent, p, j);
    next := out;
    if recs[p].kids[j] == parent {
      assert ExpandKids(recs, parent, p, j, calls, out, id) == ExpandKids(recs, parent, p, j + 1, calls, out, id);
    } else if s[k][j].item.Data? {
      next := ValueStep(s, es, recs, parent, p, j, calls, out, id);
    } else {
      next := ContainerStep(s, es, recs, parent, p, j, calls, out, id);
    }
  }

  /** Decoding the children of entity `p` from the `j`-th on completes the
      tree of its dictionary. */
  lemma {:induction false} KidsRebuild(s: seq<Dir>, es: seq<Entry>, recs: seq<Record>, parent: int, p: nat, j: nat,
                                       calls: Calls, out: seq<Dir>, id: nat)
    requires Partial(s, es, recs, p, j, out, id)
    requires ParentFits(es, parent, p, es[p].item.id) && CallsBelow(es, calls, es[p].item.id)
    ensures var r := ExpandKids(recs, parent, p, j, calls, out, id);
      r.Ok? && UnfoldDir(r.value, id) == Expected(s, es[p].item.id)
    decreases |s| - es[p].item.id, 0, |s[es[p].item.id]| - j, 3
  {
    var k := es[p].item.id;
    if j == |s[k]| {
      assert Expected(s, k)[..|out[id]|] == Expected(s, k);
    } else {
      var next := KidStep(s, es, recs, parent, p, j, calls, out, id);
      KidsRebuild(s, es, recs, parent, p, j + 1, calls, next, id);
    }
  }

  /** Decoding entity `p` into an empty dictionary gives the tree of the
      dictionary it was written from. */
  lemma {:induction false} Rebuild(s: seq<Dir>, es: seq<Entry>, recs: seq<Record>, parent: int, p: nat,
                                   calls: Calls, out: seq<Dir>, id: nat)
    requires Context(s, es, recs)
    requires p < |es| && es[p].item.Sub? && es[p].item.id < |s|
    requires ParentFits(es, parent, p, es[p].item.id) && CallsBelow(es, calls, es[p].item.id)
    requires id < |out| && Built(out, id) && out[id] == []
    ensures var r := Expand(recs, parent, p, calls, out, id);
      r.Ok? && UnfoldDir(r.value, id) == Expected(s, es[p].item.id)
    decreases |s| - es[p].item.id, 1, 0, 0
  {
    assert recs[p] == RecordOf(s, es, es[p]);
    KidsRebuild(s, es, recs, parent, p, 0, calls, out, id);
  }

  /** Every record written for a store that fits the format can be read back. */
  lemma RecordsEncodable(s: seq<Dir>)
    requires StoreValid(s) && Fits(s)
    ensures forall r :: r in Records(s, Entities(s)) ==> Encodable(r)
  {
    var es := Entities(s);
    var recs := Records(s, es);
    forall r | r in recs ensures Encodable(r) {
      var i :| 0 <= i < |recs| && recs[i] == r;
      assert es[i] in AllEntries(s);
      var x, k := EntryOrigin(s, es[i]);
    }
  }

  /** `new StackContainer(c.Serialize())` rebuilds the tree `c` held, without
      the root's ".." entry, for every store whose root starts with it. */
  lemma SerializeThenDeserialize(s: seq<Dir>)
    requires Shaped(s) && Fits(s)
    ensures DeserializeBytes(SerializeStore(s)).Ok?
    ensures UnfoldDir(DeserializeBytes(SerializeStore(s)).value, 0) == UnfoldDir(s, 0)[1..]
  {
    var es := Entities(s);
    var recs := Records(s, es);
    RecordsEncodable(s);
    EncodeAllRoundTrip(recs);
    FirstEntity(s);
    assert Built([[]], 0);
    Rebuild(s, es, recs, 0, 0, {(0, 0)}, [[]], 0);
  }

  /** Putting the ".." self-entry in front of a decoded root puts a `Cut` in
      front of its tree. */
  lemma UnfoldPrepend(t: seq<Dir>)
    requires |t| > 0 && Built(t, 0)
    ensures UnfoldDir(t[0 := [Entry(Parent, Sub(0))] + t[0]], 0) == [(Parent, Cut)] + UnfoldDir(t, 0)
  {
    var u := t[0 := [Entry(Parent, Sub(0))] + t[0]];
    forall i | 0 <= i < |t[0]|
      ensures UnfoldEntry(u, 0, u[0][i + 1]) == UnfoldEntry(t, 0, t[0][i])
    {
      var e := t[0][i];
      assert u[0][i + 1] == e;
      if e.item.Sub? {
        UnfoldFrame(t, u, e.item.id);
      }
    }
  }

  /** With the root's ".." reinstalled on loading, `Serialize()` followed by a
      load gives back the whole tree, and a store of the same shape, so the
      round trip can be repeated. */
  lemma SerializeThenLoad(s: seq<Dir>)
    requires Shaped(s) && Fits(s)
    ensures LoadStore(SerializeStore(s)).Ok?
    ensures Shaped(LoadStore(SerializeStore(s)).value)
    ensures UnfoldDir(LoadStore(SerializeStore(s)).value, 0) == UnfoldDir(s, 0)
  {
    SerializeThenDeserialize(s);
    var t := DeserializeBytes(SerializeStore(s)).value;
    UnfoldPrepend(t);
    assert UnfoldDir(s, 0) == [(Parent, Cut)] + UnfoldDir(s, 0)[1..];
  }
}
