/** The `StackContainer` class (StackContainer/StackContainer.cs:8-220): a
    store of dictionaries and a stack of open containers, whose top is the
    container every read and write acts on. */
module Containers {
  import opened Types
  import opened Dirs
  import opened Merge
  import Encoder
  import Decoder

  /** The stack of open containers, bottom first: it starts at the root and
      only names dictionaries of the store. */
  predicate CursorIn(store: seq<Dir>, cursor: seq<nat>)
  {
    |cursor| > 0 && cursor[0] == 0 && forall i :: 0 <= i < |cursor| ==> cursor[i] < |store|
  }

  /** The outcome of an `OpenContainer` call: success, then the store and the stack. */
  datatype Opened = Opened(ok: bool, store: seq<Dir>, cursor: seq<nat>)

  /** `OpenContainer(name, createNew)` with ".." meaning one level back: the
      container `name` of the current one is pushed; a missing one is created
      first when `createNew` is set; a value of that name fails either way. */
  function Open(store: seq<Dir>, cursor: seq<nat>, name: Name, createNew: bool): (r: Opened)
    requires StoreValid(store) && CursorIn(store, cursor)
    ensures StoreValid(r.store) && CursorIn(r.store, r.cursor)
    ensures TreeShaped(store) ==> TreeShaped(r.store)
    ensures !r.ok ==> r.store == store && r.cursor == cursor
  {
    if name == Parent then
      if |cursor| > 1 then Opened(true, store, cursor[..|cursor| - 1]) else Opened(false, store, cursor)
    else Enter(store, cursor, name, createNew)
  }

  /** Lines 68-83 of `OpenContainer`: push the container `name` of the current
      one, created first when it is missing and `createNew` is set. */
  function Enter(store: seq<Dir>, cursor: seq<nat>, name: Name, createNew: bool): (r: Opened)
    requires StoreValid(store) && CursorIn(store, cursor)
    ensures StoreValid(r.store) && CursorIn(r.store, r.cursor)
    ensures TreeShaped(store) ==> TreeShaped(r.store)
    ensures var top := cursor[|cursor| - 1];
      r.ok <==> HasContainer(store[top], name) || (createNew && Find(store[top], name).None?)
    ensures !r.ok ==> r.store == store && r.cursor == cursor
    ensures r.ok ==> |r.cursor| == |cursor| + 1 && r.cursor[..|cursor|] == cursor
  {
    var top := cursor[|cursor| - 1];
    match Find(store[top], name)
    case Some(Sub(c)) =>
      ChildInStore(store, top, name);
      Opened(true, store, cursor + [c])
    case Some(Data(_)) => Opened(false, store, cursor)
    case None =>
      if createNew then
        CreateKeepsValid(store, top, name);
        if TreeShaped(store) then
          CreateKeepsTree(store, top, name);
          Opened(true, CreateIn(store, top, name).value, cursor + [|store|])
        else Opened(true, CreateIn(store, top, name).value, cursor + [|store|])
      else Opened(false, store, cursor)
  }

  lemma ChildInStore(s: seq<Dir>, x: nat, n: Name)
    requires StoreValid(s) && x < |s| && HasContainer(s[x], n)
    ensures Find(s[x], n).value.id < |s|
  {
    var k := IndexOfName(s[x], n);
    assert s[x][k].item == Find(s[x], n).value;
  }

  /** Opening fails exactly when ".." is asked for at the root, or `name` is a
      value, or it is missing and `createNew` is off; a failure changes nothing.
      ".." pops exactly one level. A successful open of any other name pushes the container the current
      one holds under `name`, so going back returns to where it was. */
  lemma OpenMeaning(store: seq<Dir>, cursor: seq<nat>, name: Name, createNew: bool)
    requires StoreValid(store) && CursorIn(store, cursor)
    ensures var r := Open(store, cursor, name, createNew); var top := cursor[|cursor| - 1];
      && (r.ok <==> if name == Parent then |cursor| > 1
                    else HasContainer(store[top], name) || (createNew && Find(store[top], name).None?))
      && (!r.ok ==> r.store == store && r.cursor == cursor)
      && (r.ok && name == Parent ==> r.store == store && r.cursor == cursor[..|cursor| - 1])
      && (r.ok && name != Parent ==>
            && r.cursor[..|cursor|] == cursor && |r.cursor| == |cursor| + 1
            && Find(r.store[top], name) == Some(Sub(r.cursor[|cursor|])))
  {
    var r := Open(store, cursor, name, createNew);
    if r.ok && name != Parent {
      assert r.cursor[..|cursor|] == cursor;
    }
  }

  /** Opening with `createNew` is opening, or else creating and then opening. */
  lemma OpenOrCreateSteps(store: seq<Dir>, cursor: seq<nat>, name: Name)
    requires StoreValid(store) && CursorIn(store, cursor) && name != Parent
    ensures var c := CreateIn(store, cursor[|cursor| - 1], name); var o := Open(store, cursor, name, false);
      && (!o.ok ==> o == Opened(false, store, cursor))
      && (c.Ok? ==> StoreValid(c.value) && CursorIn(c.value, cursor))
      && Open(store, cursor, name, true) ==
           if o.ok then o else if c.Fail? then Opened(false, store, cursor) else Open(c.value, cursor, name, false)
  {
    var top := cursor[|cursor| - 1];
    if CreateIn(store, top, name).Ok? {
      CreateKeepsValid(store, top, name);
      var c := CreateIn(store, top, name).value;
      assert HasContainer(c[top], name);
    }
  }

  /** Each view is a valid, tree-shaped store and one of its dictionaries. */
  predicate ViewsValid(views: seq<(seq<Dir>, nat)>)
  {
    forall k :: 0 <= k < |views| ==> StoreValid(views[k].0) && TreeShaped(views[k].0) && views[k].1 < |views[k].0|
  }

  /** The `sources` of `Join(params StackContainer[])` as their stores and current containers. */
  function Views(cs: seq<StackContainer>): (r: seq<(seq<Dir>, nat)>)
    reads set c | c in cs
    requires forall k :: 0 <= k < |cs| ==> cs[k].Valid()
    ensures |r| == |cs|
    ensures forall k :: 0 <= k < |cs| ==> r[k] == (cs[k].store, cs[k].Top())
    ensures ViewsValid(r)
  {
    if cs == [] then [] else [(cs[0].store, cs[0].Top())] + Views(cs[1..])
  }

  /** The stacks of the `sources` of `Join(params StackContainer[])`. */
  function Cursors(cs: seq<StackContainer>): (r: seq<seq<nat>>)
    reads set c | c in cs
    ensures |r| == |cs|
    ensures forall k :: 0 <= k < |cs| ==> r[k] == cs[k].cursor
  {
    if cs == [] then [] else [cs[0].cursor] + Cursors(cs[1..])
  }

  /** The sources still hold the stores of `views`. */
  ghost predicate StoresAre(cs: seq<StackContainer>, views: seq<(seq<Dir>, nat)>)
    reads set c | c in cs
  {
    |cs| == |views| && forall k :: 0 <= k < |cs| ==> cs[k].store == views[k].0
  }

  /** The sources still hold the stacks of `cursors`. */
  ghost predicate StacksAre(cs: seq<StackContainer>, cursors: seq<seq<nat>>)
    reads set c | c in cs
  {
    |cs| == |cursors| && forall k :: 0 <= k < |cs| ==> cs[k].cursor == cursors[k]
  }

  /** The outcome of the first `n` joins of `Join(params StackContainer[])`,
      with `overwrite` off; a failure ends the `foreach`. */
  function JoinedUpTo(dst: seq<Dir>, d: nat, views: seq<(seq<Dir>, nat)>, n: nat): (r: Merged)
    requires StoreValid(dst) && d < |dst| && n <= |views|
    requires ViewsValid(views)
    ensures StoreValid(r.store) && d < |r.store|
  {
    if n == 0 then Merged(true, dst)
    else
      var p := JoinedUpTo(dst, d, views, n - 1);
      if !p.ok then p else MergeLevel(p.store, d, views[n - 1].0, views[n - 1].1, false)
  }

  /** Once a join has failed, the later sources are not joined. */
  lemma {:induction false} FailureStops(dst: seq<Dir>, d: nat, views: seq<(seq<Dir>, nat)>, n: nat, m: nat)
    requires StoreValid(dst) && d < |dst| && n <= m <= |views|
    requires ViewsValid(views)
    requires !JoinedUpTo(dst, d, views, n).ok
    ensures JoinedUpTo(dst, d, views, m) == JoinedUpTo(dst, d, views, n)
    decreases m - n
  {
    if n < m {
      FailureStops(dst, d, views, n, m - 1);
    }
  }

  class StackContainer {
    /** Every dictionary ever created; index 0 is the root. */
    var store: seq<Dir>
    /** `containerTree`, bottom first. */
    var cursor: seq<nat>

    ghost predicate Valid()
      reads this
    {
      StoreValid(store) && TreeShaped(store) && CursorIn(store, cursor)
    }

    /** `currentContainer`: the top of the stack. */
    function Top(): (t: nat)
      reads this
      requires Valid()
      ensures t < |store|
    {
      cursor[|cursor| - 1]
    }

    /** `new StackContainer()`: a root holding itself under "..". */
    constructor ()
      ensures Valid() && store == [[Entry(Parent, Sub(0))]] && cursor == [0]
    {
      store := [[Entry(Parent, Sub(0))]];
      cursor := [0];
    }

    /** The private constructor: a stack holding only the root. */
    constructor Start(start: seq<Dir>)
      requires StoreValid(start) && TreeShaped(start)
      ensures Valid() && store == start && cursor == [0]
    {
      store := start;
      cursor := [0];
    }

    /** `new StackContainer(byte[])`; `null` where the source throws. */
    static method Load(bytes: Bytes) returns (c: StackContainer?)
      ensures c == null <==> Decoder.LoadStore(bytes).Fail?
      ensures c != null ==> fresh(c) && c.Valid() && c.store == Decoder.LoadStore(bytes).value && c.cursor == [0]
    {
      var r := Decoder.Load(bytes);
      if r.Fail? {
        return null;
      }
      Decoder.LoadStoreTree(bytes);
      c := new StackContainer.Start(r.value);
    }

    /** The current container holds a container `name`: exactly when the name
        is among those `GetContainerNames` lists. */
    predicate ContainerExists(name: Name)
      reads this
      requires Valid()
      ensures ContainerExists(name) <==> name in ContainerNames(store[Top()])
    {
      ContainerNamesExact(store[Top()], name);
      HasContainer(store[Top()], name)
    }

    /** The current container holds a value `name`: exactly when the name is
        among those `GetValueNames` lists, and exactly when `ReadValue` finds it. */
    predicate ValueExists(name: Name)
      reads this
      requires Valid()
      ensures ValueExists(name) <==> name in ValueNames(store[Top()])
      ensures ValueExists(name) <==> ReadIn(store[Top()], name).Ok?
    {
      ValueNamesExact(store[Top()], name);
      HasValue(store[Top()], name)
    }

    method OpenContainer(name: Name, createNew: bool) returns (ok: bool)
      requires Valid()
      modifies this
      ensures Valid() && Opened(ok, store, cursor) == Open(old(store), old(cursor), name, createNew)
    {
      if name == Parent {
        ok := Back();
        return;
      }
      if !ContainerExists(name) {
        if !createNew {
          return false;
        }
        ok := CreateContainer(name);
        if !ok {
          return;
        }
      }
      var sub := Find(store[Top()], name).value.id;
      ChildInStore(store, Top(), name);
      cursor := cursor + [sub];
      ok := true;
    }

    /** What `Join` does to enter a container of the destination: it opens it,
        or else creates it and then opens it; the net effect is
        `OpenContainer(name, true)`. */
    method OpenOrCreate(name: Name) returns (ok: bool)
      requires Valid() && name != Parent
      modifies this
      ensures Valid() && Opened(ok, store, cursor) == Open(old(store), old(cursor), name, true)
    {
      ok := TryOpenContainer(name);
      if !ok {
        ok := CreateThenOpen(name);
      }
    }

    /** The second half of that, reached when no container `name` is open to
        enter: `CreateContainer(name)`, then `OpenContainer(name)`. */
    method CreateThenOpen(name: Name) returns (ok: bool)
      requires Valid() && name != Parent && !ContainerExists(name)
      modifies this
      ensures Valid() && Opened(ok, store, cursor) == Open(old(store), old(cursor), name, true)
    {
      OpenOrCreateSteps(store, cursor, name);
      ok := CreateContainer(name);
      if ok {
        ok := OpenContainer(name, false);
      }
    }

    /** `TryOpenContainer(name)`: `OpenContainer(name)` with its failure caught. */
    method TryOpenContainer(name: Name) returns (ok: bool)
      requires Valid()
      modifies this
      ensures Valid() && Opened(ok, store, cursor) == Open(old(store), old(cursor), name, false)
    {
      ok := OpenContainer(name, false);
    }

    /** `Back()`: pops unless only the root is left. */
    method Back() returns (popped: bool)
      requires Valid()
      modifies this
      ensures Valid() && store == old(store)
      ensures popped == (|old(cursor)| > 1)
      ensures cursor == if popped then old(cursor)[..|old(cursor)| - 1] else old(cursor)
    {
      if |cursor| > 1 {
        cursor := cursor[..|cursor| - 1];
        return true;
      }
      return false;
    }

    method BackToRoot()
      requires Valid()
      modifies this
      ensures Valid() && store == old(store) && cursor == [0]
    {
      var popped := Back();
      while popped
        invariant Valid() && store == old(store)
        invariant !popped ==> |cursor| == 1
        decreases |cursor| + (if popped then 1 else 0)
      {
        popped := Back();
      }
      assert cursor == [cursor[0]];
    }

    /** The keys of the containers of the current container, in order. */
    method GetContainerNames() returns (names: seq<Name>)
      requires Valid()
      ensures names == ContainerNames(store[Top()])
    {
      var d := store[Top()];
      names := [];
      var i := 0;
      while i < |d|
        invariant i <= |d|
        invariant names + ContainerNames(d[i..]) == ContainerNames(d)
      {
        assert d[i..][1..] == d[i + 1..];
        if d[i].item.Sub? {
          names := names + [d[i].name];
        }
        i := i + 1;
      }
      assert names + [] == names;
    }

    /** The keys of the values of the current container, in order. */
    method GetValueNames() returns (names: seq<Name>)
      requires Valid()
      ensures names == ValueNames(store[Top()])
    {
      var d := store[Top()];
      names := [];
      var i := 0;
      while i < |d|
        invariant i <= |d|
        invariant names + ValueNames(d[i..]) == ValueNames(d)
      {
        assert d[i..][1..] == d[i + 1..];
        if d[i].item.Data? {
          names := names + [d[i].name];
        }
        i := i + 1;
      }
      assert names + [] == names;
    }

    /** `CreateContainer(name)`: refused when a container has that key, and by
        `Dictionary.Add` when a value has it. */
    method CreateContainer(name: Name) returns (ok: bool)
      requires Valid()
      modifies this
      ensures Valid() && cursor == old(cursor)
      ensures var r := CreateIn(old(store), old(Top()), name);
        ok == r.Ok? && store == if ok then r.value else old(store)
    {
      if ContainerExists(name) {
        return false;
      }
      var top := Top();
      if Find(store[top], name).Some? {
        return false;
      }
      CreateKeepsValid(store, top, name);
      CreateKeepsTree(store, top, name);
      store := store[top := store[top] + [Entry(name, Sub(|store|))]] + [[]];
      ok := true;
    }

    method ReadValue(name: Name) returns (r: Result<Bytes>)
      requires Valid()
      ensures r == ReadIn(store[Top()], name)
    {
      if !ValueExists(name) {
        return Fail;
      }
      r := Ok(Find(store[Top()], name).value.bytes);
    }

    /** `WriteValue(name, value, overwrite)`: a new key is added at the end
        (`Add(name, null)`, which a container key refuses); an existing value
        is replaced unless `overwrite` is off. */
    method WriteValue(name: Name, value: Bytes, overwrite: bool) returns (ok: bool)
      requires Valid()
      modifies this
      ensures Valid() && cursor == old(cursor)
      ensures var r := WriteIn(old(store)[old(Top())], name, value, overwrite);
        ok == r.Ok? && store == if ok then old(store)[old(Top()) := r.value] else old(store)
    {
      var top := Top();
      var d := store[top];
      var k := IndexOfName(d, name);
      if !ValueExists(name) {
        if k >= 0 {
          return false;
        }
        d := d + [Entry(name, Data(value))];
      } else if !overwrite {
        return false;
      } else {
        d := d[k := Entry(name, Data(value))];
      }
      assert d == WriteIn(store[top], name, value, overwrite).value;
      ReplaceKeepsValid(store, top, d);
      WriteKeepsContainers(store[top], name, value, overwrite);
      SameContainersKeepTree(store, top, d);
      store := store[top := d];
      ok := true;
    }

    /** `Delete(name)`: removes the entry of either kind; a missing key fails. */
    method Delete(name: Name) returns (ok: bool)
      requires Valid()
      modifies this
      ensures Valid() && cursor == old(cursor)
      ensures var r := DeleteIn(old(store)[old(Top())], name);
        ok == r.Ok? && store == if ok then old(store)[old(Top()) := r.value] else old(store)
    {
      var top := Top();
      if IndexOfName(store[top], name) < 0 {
        return false;
      }
      var d := Remove(store[top], name);
      assert d == DeleteIn(store[top], name).value;
      ReplaceKeepsValid(store, top, d);
      RemoveKeepsTree(store, top, name);
      store := store[top := d];
      ok := true;
    }

    /** `Serialize()`: back to the root, then the bytes of the whole store. */
    method Serialize() returns (bytes: Bytes)
      requires Valid()
      modifies this
      ensures Valid() && store == old(store) && cursor == [0]
      ensures bytes == Encoder.SerializeStore(store)
    {
      BackToRoot();
      bytes := Encoder.Serialize(store);
    }

    /** `Join(source, overwrite)`: merges the source's current container into
        this one's; on success both stacks are as they were. */
    method Join(source: StackContainer, overwrite: bool) returns (ok: bool)
      requires Valid() && source.Valid() && source != this
      modifies this, source
      ensures Valid() && source.Valid() && source.store == old(source.store)
      ensures Merged(ok, store) == MergeLevel(old(store), old(Top()), old(source.store), old(source.Top()), overwrite)
      ensures ok ==> cursor == old(cursor) && source.cursor == old(source.cursor)
    {
      ok := JoinLevel(this, source, overwrite);
    }

    /** The `i`-th turn of the `foreach` of `Join(params StackContainer[])`,
        with the sources' stores and stacks as they were when it began. */
    method JoinNext(sources: seq<StackContainer>, i: nat, ghost views: seq<(seq<Dir>, nat)>, ghost cursors: seq<seq<nat>>, ghost start: seq<Dir>, ghost d: nat) returns (ok: bool)
      requires Valid() && this !in sources && i < |sources| == |views| == |cursors| && Top() == d
      requires ViewsValid(views) && StoreValid(start) && d < |start|
      requires forall k :: 0 <= k < |sources| ==> CursorIn(views[k].0, cursors[k]) && views[k].1 == cursors[k][|cursors[k]| - 1]
      requires StoresAre(sources, views) && StacksAre(sources, cursors)
      requires Merged(true, store) == JoinedUpTo(start, d, views, i)
      modifies this, sources[i]
      ensures Valid() && StoresAre(sources, views)
      ensures Merged(ok, store) == JoinedUpTo(start, d, views, i + 1)
      ensures ok ==> cursor == old(cursor) && Top() == d && StacksAre(sources, cursors)
    {
      assert sources[i].Valid() && sources[i].Top() == views[i].1;
      ok := JoinLevel(this, sources[i], false);
    }

    /** `Join(params StackContainer[])`: each source in turn, without overwriting. */
    method JoinAll(sources: seq<StackContainer>) returns (ok: bool)
      requires Valid() && this !in sources && forall k :: 0 <= k < |sources| ==> sources[k].Valid()
      modifies this, set c | c in sources
      ensures Valid() && forall k :: 0 <= k < |sources| ==> sources[k].store == old(sources[k].store)
      ensures Merged(ok, store) == JoinedUpTo(old(store), old(Top()), old(Views(sources)), |sources|)
      ensures ok ==> cursor == old(cursor) && forall k :: 0 <= k < |sources| ==> sources[k].cursor == old(sources[k].cursor)
    {
      ghost var views := Views(sources);
      ghost var cursors := Cursors(sources);
      assert forall k :: 0 <= k < |sources| ==> CursorIn(views[k].0, cursors[k]) && views[k].1 == cursors[k][|cursors[k]| - 1];
      ok := JoinEach(sources, views, cursors);
    }

    /** The `foreach` of `Join(params StackContainer[])` over sources whose
        stores and stacks are `views` and `cursors`. */
    method JoinEach(sources: seq<StackContainer>, ghost views: seq<(seq<Dir>, nat)>, ghost cursors: seq<seq<nat>>) returns (ok: bool)
      requires Valid() && this !in sources && |sources| == |views| == |cursors| && ViewsValid(views)
      requires forall k :: 0 <= k < |sources| ==> CursorIn(views[k].0, cursors[k]) && views[k].1 == cursors[k][|cursors[k]| - 1]
      requires StoresAre(sources, views) && StacksAre(sources, cursors)
      modifies this, set c | c in sources
      ensures Valid() && StoresAre(sources, views)
      ensures Merged(ok, store) == JoinedUpTo(old(store), old(Top()), views, |sources|)
      ensures ok ==> cursor == old(cursor) && StacksAre(sources, cursors)
    {
      ghost var start := store;
      ghost var d := Top();
      var i := 0;
      while i < |sources|
        invariant i <= |sources| && Valid() && cursor == old(cursor) && Top() == d
        invariant StoresAre(sources, views) && StacksAre(sources, cursors)
        invariant Merged(true, store) == JoinedUpTo(start, d, views, i)
      {
        ok := JoinNext(sources, i, views, cursors, start, d);
        if !ok {
          FailureStops(start, d, views, i + 1, |sources|);
          return;
        }
        i := i + 1;
      }
      return true;
    }

    /** One pass of the `foreach` over `source.GetValueNames()` in `Join`. */
    static method CopyValue(dst: StackContainer, src: StackContainer, name: Name, ow: bool) returns (ok: bool)
      requires dst != src && dst.Valid() && src.Valid()
      modifies dst
      ensures dst.Valid() && dst.cursor == old(dst.cursor)
      ensures Merged(ok, dst.store) == MergeValue(old(dst.store), old(dst.Top()), src.store, src.Top(), name, ow)
    {
      if !ow && dst.ValueExists(name) {
        return true;
      }
      var b := src.ReadValue(name);
      if b.Fail? {
        return false;
      }
      ok := dst.WriteValue(name, b.value, true);
    }

    /** One turn of the `foreach` over `source.GetValueNames()` in `Join`,
        on the destination's container `d` and the source's container `s`. */
    static method CopyNext(dst: StackContainer, src: StackContainer, values: seq<Name>, i: nat, ow: bool, ghost d: nat, ghost s: nat) returns (ok: bool)
      requires dst != src && dst.Valid() && src.Valid() && i < |values| && dst.Top() == d && src.Top() == s
      modifies dst
      ensures dst.Valid() && dst.cursor == old(dst.cursor)
      ensures MergeValues(old(dst.store), d, src.store, s, values, i, ow)
        == if ok then MergeValues(dst.store, d, src.store, s, values, i + 1, ow) else Merged(false, dst.store)
    {
      ok := CopyValue(dst, src, values[i], ow);
    }

    /** The `foreach` over `source.GetValueNames()` in `Join`. */
    static method JoinValues(dst: StackContainer, src: StackContainer, values: seq<Name>, ow: bool) returns (ok: bool)
      requires dst != src && dst.Valid() && src.Valid()
      modifies dst
      ensures dst.Valid() && dst.cursor == old(dst.cursor)
      ensures Merged(ok, dst.store) == MergeValues(old(dst.store), old(dst.Top()), src.store, src.Top(), values, 0, ow)
    {
      ghost var d, s := dst.Top(), src.Top();
      ghost var goal := MergeValues(dst.store, d, src.store, s, values, 0, ow);
      var i := 0;
      while i < |values|
        invariant i <= |values| && dst.Valid() && dst.cursor == old(dst.cursor)
        invariant MergeValues(dst.store, d, src.store, s, values, i, ow) == goal
      {
        ok := CopyNext(dst, src, values, i, ow, d, s);
        if !ok {
          return;
        }
        i := i + 1;
      }
      return true;
    }

    /** `Join(destination, source, "", overwrite)`: the values of the source's
        current container, then each of its containers. */
    static method JoinLevel(dst: StackContainer, src: StackContainer, ow: bool) returns (ok: bool)
      requires dst != src && dst.Valid() && src.Valid()
      modifies dst, src
      ensures dst.Valid() && src.Valid() && src.store == old(src.store)
      ensures Merged(ok, dst.store) == MergeLevel(old(dst.store), old(dst.Top()), src.store, old(src.Top()), ow)
      ensures ok ==> dst.cursor == old(dst.cursor) && src.cursor == old(src.cursor)
      decreases |src.store| - src.Top(), 2
    {
      var values := src.GetValueNames();
      ok := JoinValues(dst, src, values, ow);
      if !ok {
        return;
      }
      var kids := src.GetContainerNames();
      ok := JoinKids(dst, src, kids, ow);
    }

    /** The `foreach` over `source.GetContainerNames()` in `Join`. */
    static method JoinKids(dst: StackContainer, src: StackContainer, kids: seq<Name>, ow: bool) returns (ok: bool)
      requires dst != src && dst.Valid() && src.Valid()
      modifies dst, src
      ensures dst.Valid() && src.Valid() && src.store == old(src.store)
      ensures Merged(ok, dst.store) == MergeKids(old(dst.store), old(dst.Top()), src.store, old(src.Top()), kids, 0, ow)
      ensures ok ==> dst.cursor == old(dst.cursor) && src.cursor == old(src.cursor)
      decreases |src.store| - src.Top(), 1
    {
      ghost var d, s := dst.Top(), src.Top();
      ghost var goal := MergeKids(dst.store, d, src.store, s, kids, 0, ow);
      var j := 0;
      while j < |kids|
        invariant j <= |kids| && dst.Valid() && src.Valid()
        invariant dst.cursor == old(dst.cursor) && src.store == old(src.store) && src.cursor == old(src.cursor)
        invariant MergeKids(dst.store, d, src.store, s, kids, j, ow) == goal
      {
        ok := JoinChild(dst, src, kids[j], ow);
        if !ok {
          return;
        }
        j := j + 1;
      }
      return true;
    }

    /** `Join(destination, source, name, overwrite)` for a container name: ".."
        is skipped; the source opens `name`; the destination opens it or
        creates and opens it; the two merge one level down and go back. */
    static method JoinChild(dst: StackContainer, src: StackContainer, name: Name, ow: bool) returns (ok: bool)
      requires dst != src && dst.Valid() && src.Valid()
      modifies dst, src
      ensures dst.Valid() && src.Valid() && src.store == old(src.store)
      ensures Merged(ok, dst.store) == MergeChild(old(dst.store), old(dst.Top()), src.store, old(src.Top()), name, ow)
      ensures ok ==> dst.cursor == old(dst.cursor) && src.cursor == old(src.cursor)
      decreases |src.store| - src.Top(), 0
    {
      if name == Parent {
        return true;
      }
      OpenMeaning(src.store, src.cursor, name, false);
      ok := src.OpenContainer(name, false);
      if !ok {
        return;
      }
      ChildCases(dst.store, dst.Top(), src.store, old(src.Top()), name, ow);
      OpenMeaning(dst.store, dst.cursor, name, true);
      ok := dst.OpenOrCreate(name);
      if !ok {
        return;
      }
      ok := JoinLevel(dst, src, ow);
      if !ok {
        return;
      }
      var srcBack := src.Back();
      var dstBack := dst.Back();
      ok := srcBack && dstBack;
    }
  }
}
