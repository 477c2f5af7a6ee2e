/** Three places where StackContainer/StackContainer.cs does not do what it
    evidently means to. For each, the code as written is modelled here next
    to a lemma that exhibits the discrepancy; the rest of the model uses the
    corrected behaviour, whose property is proved where it is defined. */
module Findings {
  import opened Types
  import opened Dirs
  import opened Merge
  import opened Containers
  import opened Wire
  import opened Encoder
  import opened Decoder
  import opened RoundTrip

  // ---------------------------------------------------------------- OpenContainer("..")

  /** `OpenContainer(name, createNew)` as lines 60-84 have it: after a
      successful `Back()` for "..", control falls through to the lookup of
      the key ".." in the container that is now current. */
  function OpenAsWritten(store: seq<Dir>, cursor: seq<nat>, name: Name, createNew: bool): (r: Opened)
    requires StoreValid(store) && CursorIn(store, cursor)
    ensures StoreValid(r.store) && CursorIn(r.store, r.cursor)
  {
    if name == Parent then
      if |cursor| > 1 then Enter(store, cursor[..|cursor| - 1], Parent, createNew)
      else Opened(false, store, cursor)
    else Enter(store, cursor, name, createNew)
  }

  /** One level below the root, ".." as written pops to the root and pushes
      the root again through its own ".." entry: the stack keeps two levels,
      so a later `Back()` still succeeds, where `Open` leaves the root alone. */
  lemma BackFromChildReentersRoot(store: seq<Dir>, c: nat, createNew: bool)
    requires StoreValid(store) && 0 < c < |store| && Find(store[0], Parent) == Some(Sub(0))
    ensures OpenAsWritten(store, [0, c], Parent, createNew) == Opened(true, store, [0, 0])
    ensures Open(store, [0, c], Parent, createNew) == Opened(true, store, [0])
  {
    assert [0, c][..1] == [0];
  }

  /** Deeper down, the container reached by `Back()` has no ".." key: without
      `createNew` the call fails after the stack has already lost a level,
      where `Open` succeeds with the same stack. */
  lemma BackFromDeeperFails(store: seq<Dir>, cursor: seq<nat>)
    requires StoreValid(store) && CursorIn(store, cursor) && |cursor| > 2
    requires Find(store[cursor[|cursor| - 2]], Parent) == None
    ensures OpenAsWritten(store, cursor, Parent, false) == Opened(false, store, cursor[..|cursor| - 1])
    ensures Open(store, cursor, Parent, false) == Opened(true, store, cursor[..|cursor| - 1])
  {
    var up := cursor[..|cursor| - 1];
    assert up[|up| - 1] == cursor[|cursor| - 2];
  }

  /** With `createNew`, the same call adds a container named ".." to the
      parent and descends into it, one level deeper than before the call. */
  lemma BackFromDeeperCreates(store: seq<Dir>, cursor: seq<nat>)
    requires StoreValid(store) && CursorIn(store, cursor) && |cursor| > 2
    requires Find(store[cursor[|cursor| - 2]], Parent) == None
    ensures var r := OpenAsWritten(store, cursor, Parent, true);
      && r.ok && |r.store| == |store| + 1 && r.cursor == cursor[..|cursor| - 1] + [|store|]
      && Find(r.store[cursor[|cursor| - 2]], Parent) == Some(Sub(|store|))
  {
    var up := cursor[..|cursor| - 1];
    assert up[|up| - 1] == cursor[|cursor| - 2];
  }

  /** Root, a child "a" and a grandchild "b": at "b", ".." as written fails. */
  const Nested: seq<Dir> := [[Entry(Parent, Sub(0)), Entry([0x61], Sub(1))], [Entry([0x62], Sub(2))], []]

  lemma NestedBackFails()
    ensures StoreValid(Nested) && CursorIn(Nested, [0, 1, 2])
    ensures OpenAsWritten(Nested, [0, 1, 2], Parent, false) == Opened(false, Nested, [0, 1])
  {
    assert Find(Nested[1], Parent) == None;
    BackFromDeeperFails(Nested, [0, 1, 2]);
    assert [0, 1, 2][..2] == [0, 1];
  }

  // ---------------------------------------------------------------- Join with a container named ""

  /** A run of `Join` as written: it ends with a merge, or it is still going
      after `fuel` nested calls. */
  datatype Run = Done(m: Merged) | OutOfFuel

  /** `Join(destination, source, name, overwrite)` as lines 186-220 have it:
      the empty string, the name of the top-level call, skips opening, so a
      container named "" merges the current level once more. */
  function JoinAsWritten(dst: seq<Dir>, d: nat, src: seq<Dir>, s: nat, name: Name, ow: bool, fuel: nat): (r: Run)
    requires StoreValid(dst) && StoreValid(src) && d < |dst| && s < |src|
    ensures r.Done? ==> StoreValid(r.m.store) && |dst| <= |r.m.store|
    decreases fuel, 0
  {
    if fuel == 0 then OutOfFuel
    else if name == Parent then Done(Merged(true, dst))
    else if name == [] then LevelAsWritten(dst, d, src, s, ow, fuel - 1)
    else if !HasContainer(src[s], name) then Done(Merged(false, dst))
    else
      ChildAfter(src, s, name);
      var c := Find(src[s], name).value.id;
      if HasContainer(dst[d], name) then
        ChildAfter(dst, d, name);
        LevelAsWritten(dst, Find(dst[d], name).value.id, src, c, ow, fuel - 1)
      else
        match CreateIn(dst, d, name)
        case Fail => Done(Merged(false, dst))
        case Ok(created) =>
          CreateKeepsValid(dst, d, name);
          LevelAsWritten(created, |dst|, src, c, ow, fuel - 1)
  }

  /** The values, then the containers, of the current level. */
  function LevelAsWritten(dst: seq<Dir>, d: nat, src: seq<Dir>, s: nat, ow: bool, fuel: nat): (r: Run)
    requires StoreValid(dst) && StoreValid(src) && d < |dst| && s < |src|
    ensures r.Done? ==> StoreValid(r.m.store) && |dst| <= |r.m.store|
    decreases fuel, 2
  {
    var v := MergeValues(dst, d, src, s, ValueNames(src[s]), 0, ow);
    if !v.ok then Done(v)
    else KidsAsWritten(v.store, d, src, s, ContainerNames(src[s]), 0, ow, fuel)
  }

  function KidsAsWritten(dst: seq<Dir>, d: nat, src: seq<Dir>, s: nat, names: seq<Name>, j: nat, ow: bool, fuel: nat): (r: Run)
    requires StoreValid(dst) && StoreValid(src) && d < |dst| && s < |src| && j <= |names|
    ensures r.Done? ==> StoreValid(r.m.store) && |dst| <= |r.m.store|
    decreases fuel, 1, |names| - j
  {
    if j == |names| then Done(Merged(true, dst))
    else
      var m := JoinAsWritten(dst, d, src, s, names[j], ow, fuel);
      if m.OutOfFuel? || !m.m.ok then m
      else KidsAsWritten(m.m.store, d, src, s, names, j + 1, ow, fuel)
  }

  /** A level whose source container holds a container named "" never
      completes a join as written, however deep the calls may go: each run
      fails or is still recursing. */
  lemma {:induction false} EmptyNameNeverJoins(dst: seq<Dir>, d: nat, src: seq<Dir>, s: nat, ow: bool, fuel: nat)
    requires StoreValid(dst) && StoreValid(src) && d < |dst| && s < |src| && HasContainer(src[s], [])
    ensures var r := LevelAsWritten(dst, d, src, s, ow, fuel); !(r.Done? && r.m.ok)
    decreases fuel, 1
  {
    var v := MergeValues(dst, d, src, s, ValueNames(src[s]), 0, ow);
    if v.ok {
      var names := ContainerNames(src[s]);
      ContainerNamesExact(src[s], []);
      var k :| 0 <= k < |names| && names[k] == [];
      EmptyKidNeverJoins(v.store, d, src, s, names, 0, k, ow, fuel);
    }
  }

  lemma {:induction false} EmptyKidNeverJoins(dst: seq<Dir>, d: nat, src: seq<Dir>, s: nat, names: seq<Name>, j: nat, k: nat, ow: bool, fuel: nat)
    requires StoreValid(dst) && StoreValid(src) && d < |dst| && s < |src| && HasContainer(src[s], [])
    requires j <= k < |names| && names[k] == []
    ensures var r := KidsAsWritten(dst, d, src, s, names, j, ow, fuel); !(r.Done? && r.m.ok)
    decreases fuel, 0, |names| - j
  {
    var m := JoinAsWritten(dst, d, src, s, names[j], ow, fuel);
    if j == k {
      if fuel > 0 {
        EmptyNameNeverJoins(dst, d, src, s, ow, fuel - 1);
      }
    } else if m.Done? && m.m.ok {
      EmptyKidNeverJoins(m.m.store, d, src, s, names, j + 1, k, ow, fuel);
    }
  }

  /** A root holding only an empty container named "". */
  const EmptyNamed: seq<Dir> := [[Entry([], Sub(1))], []]

  /** Joining it into an empty store never fails and never ends. */
  lemma {:induction false} EmptyNameDiverges(ow: bool, fuel: nat)
    ensures StoreValid(EmptyNamed)
    ensures LevelAsWritten([[]], 0, EmptyNamed, 0, ow, fuel) == OutOfFuel
    decreases fuel
  {
    assert ValueNames(EmptyNamed[0]) == [] && ContainerNames(EmptyNamed[0]) == [[]];
    assert MergeValues([[]], 0, EmptyNamed, 0, [], 0, ow) == Merged(true, [[]]);
    var m := JoinAsWritten([[]], 0, EmptyNamed, 0, [], ow, fuel);
    if fuel > 0 {
      EmptyNameDiverges(ow, fuel - 1);
      assert m == LevelAsWritten([[]], 0, EmptyNamed, 0, ow, fuel - 1);
    }
    assert KidsAsWritten([[]], 0, EmptyNamed, 0, [[]], 0, ow, fuel) == m;
  }

  lemma CreateEmptyNamed()
    ensures CreateIn([[]], 0, []) == Ok(EmptyNamed)
  {
    var e := Entry([], Sub(1));
    var before: seq<Dir> := [[]];
    var grown: Dir := before[0] + [e];
    assert grown == [e];
    assert |before[0 := grown]| == 1 && before[0 := grown][0] == [e];
    assert before[0 := grown] == [[e]];
    assert [[e]] + [[]] == EmptyNamed;
  }

  /** The empty container "" itself merges without a change. */
  lemma EmptyLevelJoins(ow: bool)
    ensures StoreValid(EmptyNamed)
    ensures MergeLevel(EmptyNamed, 1, EmptyNamed, 1, ow) == Merged(true, EmptyNamed)
  {
    assert ValueNames(EmptyNamed[1]) == [] && ContainerNames(EmptyNamed[1]) == [];
    assert MergeValues(EmptyNamed, 1, EmptyNamed, 1, [], 0, ow) == Merged(true, EmptyNamed);
  }

  lemma EmptyChildJoins(ow: bool)
    ensures StoreValid(EmptyNamed)
    ensures MergeChild([[]], 0, EmptyNamed, 0, [], ow) == Merged(true, EmptyNamed)
  {
    CreateEmptyNamed();
    EmptyLevelJoins(ow);
  }

  /** Treated as any other name, "" is copied like any container. */
  lemma EmptyNameJoins(ow: bool)
    ensures StoreValid(EmptyNamed)
    ensures MergeLevel([[]], 0, EmptyNamed, 0, ow) == Merged(true, EmptyNamed)
  {
    EmptyChildJoins(ow);
    assert ValueNames(EmptyNamed[0]) == [] && ContainerNames(EmptyNamed[0]) == [[]];
    assert MergeValues([[]], 0, EmptyNamed, 0, [], 0, ow) == Merged(true, [[]]);
    assert MergeKids([[]], 0, EmptyNamed, 0, [[]], 0, ow) == MergeKids(EmptyNamed, 0, EmptyNamed, 0, [[]], 1, ow);
  }

  // ---------------------------------------------------------------- reloading a loaded container

  /** `new StackContainer(byte[])` does not put back the root's ".." entry.
      Serializing such a store walks the root's own entries, so the first
      entity is its first key, not the root; when that key is a value, the
      next load finds a value where it expects the root and builds nothing. */
  lemma ReloadLosesRoot(t: seq<Dir>)
    requires StoreValid(t) && Fits(t) && |t[0]| > 0 && t[0][0].item.Data?
    ensures DeserializeBytes(SerializeStore(t)) == Ok([[]])
  {
    var recs := Records(t, Entities(t));
    RecordsEncodable(t);
    EncodeAllRoundTrip(recs);
    FirstEntity(t);
    assert recs[0].ValueRec?;
  }

  /** The first load of a store as the constructor starts it already lacks
      "..": its root holds the other keys, in order, and begins with the
      first of them. */
  lemma FirstReloadDropsParent(s: seq<Dir>)
    requires Shaped(s) && Fits(s) && |s[0]| > 1
    ensures var r := DeserializeBytes(SerializeStore(s));
      && r.Ok? && |r.value[0]| == |s[0]| - 1
      && Find(r.value[0], Parent) == None
      && (forall i :: 0 <= i < |r.value[0]| ==> r.value[0][i].name == s[0][i + 1].name)
      && (s[0][1].item.Data? ==> r.value[0][0] == s[0][1])
  {
    SerializeThenDeserialize(s);
    var t := DeserializeBytes(SerializeStore(s)).value;
    var u := UnfoldDir(t, 0);
    assert u == UnfoldDir(s, 0)[1..];
    forall i | 0 <= i < |t[0]| ensures t[0][i].name == s[0][i + 1].name && t[0][i].name != Parent {
      assert u[i] == UnfoldDir(s, 0)[i + 1];
      assert s[0][0].name == Parent;
    }
    if s[0][1].item.Data? {
      assert u[0] == UnfoldEntry(s, 0, s[0][1]);
      assert u[0] == UnfoldEntry(t, 0, t[0][0]);
    }
  }

  /** A root holding its ".." and the value "a" = [1], as `new StackContainer()`
      followed by `WriteValue("a", new byte[] { 1 })` leaves it. */
  const ValueA: Entry := Entry([0x61], Data([1]))
  const WithParent: seq<Dir> := [[Entry(Parent, Sub(0)), ValueA]]

  /** The literal store above is well formed, its ".." first. */
  lemma WithParentShape()
    ensures Shaped(WithParent)
  {
  }

  /** Walking the root again through ".." lists only "a". */
  lemma WithParentInnerWalk()
    ensures FlattenDir(WithParent, 0, [Entry(Parent, Sub(0))]) == [Entry(Parent, Sub(0)), ValueA]
  {
    var p := Entry(Parent, Sub(0));
    assert [p] + [ValueA] == [p, ValueA];
    assert FlattenEntries(WithParent, 0, 1, [p]) == [p, ValueA];
  }

  /** The walk lists ".." (walking the root once more, which lists "a"), then
      "a" again. */
  lemma WithParentEntities()
    ensures Shaped(WithParent) && Fits(WithParent)
    ensures Entities(WithParent) == [Entry(Parent, Sub(0)), ValueA, ValueA]
  {
    WithParentShape();
    WithParentInnerWalk();
    var p := Entry(Parent, Sub(0));
    assert [] + [p] == [p] && [p, ValueA] + [ValueA] == [p, ValueA, ValueA];
    assert FlattenEntries(WithParent, 0, 1, [p, ValueA]) == [p, ValueA, ValueA];
    assert FlattenEntries(WithParent, 0, 0, []) == [p, ValueA, ValueA];
  }

  /** A root holding a single value, whatever else the arena holds, loads
      back as an empty root. */
  lemma LoneValueReload(t: seq<Dir>)
    requires StoreValid(t) && |t[0]| == 1 && t[0][0].item.Data?
    requires 2 * |t[0][0].name| < TwoTo31 && |t[0][0].item.bytes| < TwoTo31
    ensures DeserializeBytes(SerializeStore(t)) == Ok([[]])
  {
    var e := t[0][0];
    assert [] + [e] == [e];
    assert FlattenEntries(t, 0, 0, []) == FlattenEntries(t, 0, 1, [e]) == [e];
    var recs := Records(t, [e]);
    assert recs == [ValueRec(e.name, e.item.bytes)];
    EncodeAllRoundTrip(recs);
  }

  /** Loading that store and serializing it again loses "a": the first load
      gives a root holding "a" alone, the second an empty root. */
  lemma ReloadTwiceEmpties()
    ensures var t := DeserializeBytes(SerializeStore(WithParent));
      && t.Ok? && t.value[0] == [ValueA]
      && DeserializeBytes(SerializeStore(t.value)) == Ok([[]])
  {
    WithParentEntities();
    FirstReloadDropsParent(WithParent);
    var t := DeserializeBytes(SerializeStore(WithParent)).value;
    assert t[0] == [ValueA];
    LoneValueReload(t);
  }
}
