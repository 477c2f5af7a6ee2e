/** The merge `Join(destination, source, name, overwrite)` performs between two
    stores (StackContainer/StackContainer.cs:186-220): the values of the
    source's current container are written into the destination's current
    container, then every sub-container is merged into the destination's
    container of the same name, created when missing. */
module Merge {
  import opened Types
  import opened Dirs

  /** Whether a merge ran to the end, and the destination store as it then
      stands: a failure keeps the writes made before it. */
  datatype Merged = Merged(ok: bool, store: seq<Dir>)

  lemma ValueNamesAreValues(d: Dir)
    requires UniqueNames(d)
    ensures forall n :: n in ValueNames(d) <==> HasValue(d, n)
  {
    forall n ensures n in ValueNames(d) <==> HasValue(d, n) {
      ValueNamesExact(d, n);
    }
  }

  lemma ContainerNamesAreContainers(d: Dir)
    requires UniqueNames(d)
    ensures forall n :: n in ContainerNames(d) <==> HasContainer(d, n)
  {
    forall n ensures n in ContainerNames(d) <==> HasContainer(d, n) {
      ContainerNamesExact(d, n);
    }
  }

  /** A container entry other than the root's ".." leads to a later dictionary. */
  lemma ChildAfter(s: seq<Dir>, x: nat, n: Name)
    requires StoreValid(s) && x < |s| && HasContainer(s[x], n) && n != Parent
    ensures x < Find(s[x], n).value.id < |s|
  {
    var k := IndexOfName(s[x], n);
    assert s[x][k].item == Find(s[x], n).value;
  }

  /** Replacing a dictionary by one with unique keys whose containers it
      already held keeps the store valid. */
  lemma ReplaceKeepsValid(s: seq<Dir>, x: nat, d: Dir)
    requires StoreValid(s) && x < |s| && UniqueNames(d)
    requires forall n :: HasContainer(d, n) ==> Find(d, n) == Find(s[x], n)
    ensures StoreValid(s[x := d])
  {
    var r: seq<Dir> := s[x := d];
    forall y: nat, i: nat | 0 <= y < |r| && 0 <= i < |r[y]| && r[y][i].item.Sub?
      ensures r[y][i].item.id < |r|
      ensures y < r[y][i].item.id || (y == 0 && r[y][i] == Entry(Parent, Sub(0)))
    {
      if y == x {
        FindAt(d, i);
        var k := IndexOfName(s[x], d[i].name);
        assert s[x][k] == d[i];
      }
    }
  }

  /** One pass of the `foreach` over `source.GetValueNames()`: without
      `overwrite` a value the destination already holds is kept; otherwise
      `ReadValue` fails on a name that is not a value of the source and
      `WriteValue` fails on a container of that name. */
  function MergeValue(dst: seq<Dir>, d: nat, src: seq<Dir>, s: nat, n: Name, ow: bool): (r: Merged)
    requires StoreValid(dst) && d < |dst| && s < |src|
    ensures StoreValid(r.store) && |r.store| == |dst|
  {
    if !ow && HasValue(dst[d], n) then Merged(true, dst)
    else
      match ReadIn(src[s], n)
      case Fail => Merged(false, dst)
      case Ok(b) =>
        match WriteIn(dst[d], n, b, true)
        case Fail => Merged(false, dst)
        case Ok(nd) =>
          ReplaceKeepsValid(dst, d, nd);
          Merged(true, dst[d := nd])
  }

  /** One value pass succeeds exactly when the destination's value is kept,
      or the name is a value of the source and not a container of the
      destination; it changes only that name of the destination's container,
      to the source's bytes unless the destination's value is kept, and a
      failure changes nothing. */
  lemma MergeValueMeaning(dst: seq<Dir>, d: nat, src: seq<Dir>, s: nat, n: Name, ow: bool)
    requires StoreValid(dst) && d < |dst| && s < |src|
    ensures var r := MergeValue(dst, d, src, s, n, ow);
      && (forall x :: 0 <= x < |dst| && x != d ==> r.store[x] == dst[x])
      && (forall m :: m != n ==> Find(r.store[d], m) == Find(dst[d], m))
      && (r.ok <==> (!ow && HasValue(dst[d], n)) || (HasValue(src[s], n) && !HasContainer(dst[d], n)))
      && (!r.ok ==> r.store == dst)
      && (r.ok ==> Find(r.store[d], n) == if !ow && HasValue(dst[d], n) then Find(dst[d], n) else Find(src[s], n))
  {
  }

  /** The `foreach` over the value names from the `i`-th on, up to the first failure. */
  function MergeValues(dst: seq<Dir>, d: nat, src: seq<Dir>, s: nat, names: seq<Name>, i: nat, ow: bool): (r: Merged)
    requires StoreValid(dst) && d < |dst| && s < |src| && i <= |names|
    ensures StoreValid(r.store) && |r.store| == |dst|
    decreases |names| - i
  {
    if i == |names| then Merged(true, dst)
    else
      var m := MergeValue(dst, d, src, s, names[i], ow);
      if !m.ok then m else MergeValues(m.store, d, src, s, names, i + 1, ow)
  }

  /** When every name is a value of the source, the value pass fails exactly
      when one of them is a container in the destination. */
  lemma {:induction false} MergeValuesFails(dst: seq<Dir>, d: nat, src: seq<Dir>, s: nat, names: seq<Name>, i: nat, ow: bool)
    requires StoreValid(dst) && d < |dst| && s < |src| && i <= |names|
    requires forall k :: i <= k < |names| ==> HasValue(src[s], names[k])
    ensures MergeValues(dst, d, src, s, names, i, ow).ok <==> forall k :: i <= k < |names| ==> !HasContainer(dst[d], names[k])
    decreases |names| - i
  {
    if i < |names| {
      var m := MergeValue(dst, d, src, s, names[i], ow);
      MergeValueMeaning(dst, d, src, s, names[i], ow);
      if m.ok {
        MergeValuesFails(m.store, d, src, s, names, i + 1, ow);
        assert forall k :: i < k < |names| ==> HasContainer(m.store[d], names[k]) == HasContainer(dst[d], names[k]);
      }
    }
  }

  /** The value pass changes only the destination's current container, and
      there only its own names; it keeps every key and every container. */
  lemma {:induction false} MergeValuesKeeps(dst: seq<Dir>, d: nat, src: seq<Dir>, s: nat, names: seq<Name>, i: nat, ow: bool)
    requires StoreValid(dst) && d < |dst| && s < |src| && i <= |names|
    ensures var r := MergeValues(dst, d, src, s, names, i, ow);
      && (forall x :: 0 <= x < |dst| && x != d ==> r.store[x] == dst[x])
      && (forall n :: (forall k :: i <= k < |names| ==> names[k] != n) ==> Find(r.store[d], n) == Find(dst[d], n))
      && (forall n :: Find(dst[d], n).Some? ==> Find(r.store[d], n).Some?)
      && (forall n :: HasContainer(dst[d], n) ==> Find(r.store[d], n) == Find(dst[d], n))
    decreases |names| - i
  {
    if i < |names| {
      var m := MergeValue(dst, d, src, s, names[i], ow);
      MergeValueMeaning(dst, d, src, s, names[i], ow);
      if m.ok {
        MergeValuesKeeps(m.store, d, src, s, names, i + 1, ow);
      }
    }
  }

  /** After a successful value pass each of its names holds the source's
      bytes, or without `overwrite` the destination's own value where it had one. */
  lemma {:induction false} MergeValuesResult(dst: seq<Dir>, d: nat, src: seq<Dir>, s: nat, names: seq<Name>, i: nat, ow: bool)
    requires StoreValid(dst) && d < |dst| && s < |src| && i <= |names|
    requires MergeValues(dst, d, src, s, names, i, ow).ok
    ensures var r := MergeValues(dst, d, src, s, names, i, ow);
      forall k :: i <= k < |names| ==>
        Find(r.store[d], names[k]) == if !ow && HasValue(dst[d], names[k]) then Find(dst[d], names[k]) else Find(src[s], names[k])
    decreases |names| - i
  {
    if i < |names| {
      var m := MergeValue(dst, d, src, s, names[i], ow);
      MergeValueMeaning(dst, d, src, s, names[i], ow);
      MergeValuesResult(m.store, d, src, s, names, i + 1, ow);
      MergeValuesKeeps(m.store, d, src, s, names, i + 1, ow);
      var r := MergeValues(dst, d, src, s, names, i, ow);
      var n := names[i];
      if forall k :: i < k < |names| ==> names[k] != n {
        assert Find(r.store[d], n) == Find(m.store[d], n);
      } else {
        var k :| i < k < |names| && names[k] == n;
        assert HasValue(m.store[d], n);
      }
    }
  }

  /** `Join` on the current containers: values first, then every container. */
  function MergeLevel(dst: seq<Dir>, d: nat, src: seq<Dir>, s: nat, ow: bool): (r: Merged)
    requires StoreValid(dst) && StoreValid(src) && d < |dst| && s < |src|
    ensures StoreValid(r.store) && |dst| <= |r.store|
    decreases |src| - s, 2
  {
    var v := MergeValues(dst, d, src, s, ValueNames(src[s]), 0, ow);
    if !v.ok then v
    else MergeKids(v.store, d, src, s, ContainerNames(src[s]), 0, ow)
  }

  /** The `foreach` over the container names from the `j`-th on, up to the first failure. */
  function MergeKids(dst: seq<Dir>, d: nat, src: seq<Dir>, s: nat, names: seq<Name>, j: nat, ow: bool): (r: Merged)
    requires StoreValid(dst) && StoreValid(src) && d < |dst| && s < |src| && j <= |names|
    ensures StoreValid(r.store) && |dst| <= |r.store|
    decreases |src| - s, 1, |names| - j
  {
    if j == |names| then Merged(true, dst)
    else
      var m := MergeChild(dst, d, src, s, names[j], ow);
      if !m.ok then m
      else MergeKids(m.store, d, src, s, names, j + 1, ow)
  }

  /** `Join(destination, source, name, overwrite)` for one container name:
      ".." is skipped; otherwise the source opens `name` (which fails unless it
      is a container there), the destination opens it or creates it (which
      fails on a value of that name), and the two merge one level down. */
  function MergeChild(dst: seq<Dir>, d: nat, src: seq<Dir>, s: nat, name: Name, ow: bool): (r: Merged)
    requires StoreValid(dst) && StoreValid(src) && d < |dst| && s < |src|
    ensures StoreValid(r.store) && |dst| <= |r.store|
    ensures name == Parent ==> r == Merged(true, dst)
    ensures name != Parent && !HasContainer(src[s], name) ==> !r.ok
    decreases |src| - s, 0
  {
    if name == Parent then Merged(true, dst)
    else if !HasContainer(src[s], name) then Merged(false, dst)
    else
      ChildAfter(src, s, name);
      var c := Find(src[s], name).value.id;
      if HasContainer(dst[d], name) then
        ChildAfter(dst, d, name);
        MergeLevel(dst, Find(dst[d], name).value.id, src, c, ow)
      else
        match CreateIn(dst, d, name)
        case Fail => Merged(false, dst)
        case Ok(created) =>
          CreateKeepsValid(dst, d, name);
          MergeLevel(created, |dst|, src, c, ow)
  }

  /** A `Join` leaves the dictionaries before the destination's current one
      alone, and keeps every key of the current one and every container there. */
  lemma {:induction false} MergeLevelKeeps(dst: seq<Dir>, d: nat, src: seq<Dir>, s: nat, ow: bool)
    requires StoreValid(dst) && StoreValid(src) && d < |dst| && s < |src|
    ensures var r := MergeLevel(dst, d, src, s, ow).store;
      && (forall x :: 0 <= x < d ==> r[x] == dst[x])
      && (forall n :: HasContainer(dst[d], n) ==> Find(r[d], n) == Find(dst[d], n))
      && (forall n :: Find(dst[d], n).Some? ==> Find(r[d], n).Some?)
    decreases |src| - s, 2
  {
    var names := ValueNames(src[s]);
    var v := MergeValues(dst, d, src, s, names, 0, ow);
    MergeValuesKeeps(dst, d, src, s, names, 0, ow);
    if v.ok {
      MergeKidsKeeps(v.store, d, src, s, ContainerNames(src[s]), 0, ow);
    }
  }

  /** From `a` to `b` the dictionaries before `d` stay, every key of `a[d]`
      keeps its item, and every key `b[d]` gains is a container. */
  ghost predicate KeepsFrom(a: seq<Dir>, b: seq<Dir>, d: nat)
    requires d < |a| && d < |b|
  {
    && (forall x :: 0 <= x < d ==> b[x] == a[x])
    && (forall n :: Find(a[d], n).Some? ==> Find(b[d], n) == Find(a[d], n))
    && (forall n :: Find(a[d], n).None? && Find(b[d], n).Some? ==> HasContainer(b[d], n))
  }

  lemma KeepsFromTrans(a: seq<Dir>, b: seq<Dir>, c: seq<Dir>, d: nat)
    requires d < |a| && d < |b| && d < |c|
    requires KeepsFrom(a, b, d) && KeepsFrom(b, c, d)
    ensures KeepsFrom(a, c, d)
  {
    forall n | Find(a[d], n).None? && Find(c[d], n).Some?
      ensures HasContainer(c[d], n)
    {
      if Find(b[d], n).Some? {
        assert Find(c[d], n) == Find(b[d], n);
      }
    }
  }

  /** The container pass leaves earlier dictionaries alone, keeps every key of
      the current one, adds only containers, and on success holds a container
      under each of its names other than "..". */
  lemma {:induction false} MergeKidsKeeps(dst: seq<Dir>, d: nat, src: seq<Dir>, s: nat, names: seq<Name>, j: nat, ow: bool)
    requires StoreValid(dst) && StoreValid(src) && d < |dst| && s < |src| && j <= |names|
    ensures var r := MergeKids(dst, d, src, s, names, j, ow);
      && KeepsFrom(dst, r.store, d)
      && (r.ok ==> forall k :: j <= k < |names| && names[k] != Parent ==> HasContainer(r.store[d], names[k]))
    decreases |src| - s, 1, |names| - j, 1
  {
    if j < |names| {
      var m := MergeChild(dst, d, src, s, names[j], ow);
      MergeChildKeeps(dst, d, src, s, names[j], ow);
      if m.ok {
        MergeKidsAfter(dst, d, src, s, names, j, ow, m.store);
      }
    }
  }

  /** The rest of the container pass after the `j`-th name merged into `mid`. */
  lemma {:induction false} MergeKidsAfter(dst: seq<Dir>, d: nat, src: seq<Dir>, s: nat, names: seq<Name>, j: nat, ow: bool, mid: seq<Dir>)
    requires StoreValid(dst) && StoreValid(src) && d < |dst| && s < |src| && j < |names|
    requires MergeChild(dst, d, src, s, names[j], ow) == Merged(true, mid)
    requires KeepsFrom(dst, mid, d) && (names[j] != Parent ==> HasContainer(mid[d], names[j]))
    ensures var r := MergeKids(mid, d, src, s, names, j + 1, ow);
      && KeepsFrom(dst, r.store, d)
      && (r.ok ==> forall k :: j <= k < |names| && names[k] != Parent ==> HasContainer(r.store[d], names[k]))
    decreases |src| - s, 1, |names| - j, 0
  {
    var r := MergeKids(mid, d, src, s, names, j + 1, ow);
    MergeKidsKeeps(mid, d, src, s, names, j + 1, ow);
    KeepsFromTrans(dst, mid, r.store, d);
  }

  /** Merging one container name leaves earlier dictionaries alone, keeps every
      key of the current one, adds at most a container under that name, and on
      success holds one there. */
  lemma {:induction false} MergeChildKeeps(dst: seq<Dir>, d: nat, src: seq<Dir>, s: nat, name: Name, ow: bool)
    requires StoreValid(dst) && StoreValid(src) && d < |dst| && s < |src|
    ensures var r := MergeChild(dst, d, src, s, name, ow);
      && (forall x :: 0 <= x < d ==> r.store[x] == dst[x])
      && (forall n :: Find(dst[d], n).Some? ==> Find(r.store[d], n) == Find(dst[d], n))
      && (forall n :: Find(dst[d], n).None? && Find(r.store[d], n).Some? ==> n == name && HasContainer(r.store[d], n))
      && (r.ok && name != Parent ==> HasContainer(r.store[d], name))
    decreases |src| - s, 0
  {
    if name != Parent && HasContainer(src[s], name) {
      ChildAfter(src, s, name);
      var c := Find(src[s], name).value.id;
      if HasContainer(dst[d], name) {
        ChildAfter(dst, d, name);
        MergeLevelKeeps(dst, Find(dst[d], name).value.id, src, c, ow);
      } else if CreateIn(dst, d, name).Ok? {
        CreateKeepsValid(dst, d, name);
        MergeLevelKeeps(CreateIn(dst, d, name).value, |dst|, src, c, ow);
      }
    }
  }

  /** The ways one container name merges. */
  lemma ChildCases(dst: seq<Dir>, d: nat, src: seq<Dir>, s: nat, name: Name, ow: bool)
    requires StoreValid(dst) && StoreValid(src) && d < |dst| && s < |src|
    requires HasContainer(src[s], name) && name != Parent
    ensures var c := Find(src[s], name).value.id; var m := MergeChild(dst, d, src, s, name, ow);
      && s < c < |src|
      && (HasContainer(dst[d], name) ==>
            d < Find(dst[d], name).value.id < |dst| && m == MergeLevel(dst, Find(dst[d], name).value.id, src, c, ow))
      && (HasValue(dst[d], name) ==> m == Merged(false, dst))
      && (Find(dst[d], name).None? ==>
            StoreValid(CreateIn(dst, d, name).value) && m == MergeLevel(CreateIn(dst, d, name).value, |dst|, src, c, ow))
  {
    ChildAfter(src, s, name);
    if HasContainer(dst[d], name) {
      ChildAfter(dst, d, name);
    }
    if Find(dst[d], name).None? {
      CreateKeepsValid(dst, d, name);
    }
  }

  /** A container name of the source that is a value in the destination makes
      the container pass fail. */
  lemma {:induction false} MergeKidsClash(dst: seq<Dir>, d: nat, src: seq<Dir>, s: nat, names: seq<Name>, j: nat, ow: bool, k: nat)
    requires StoreValid(dst) && StoreValid(src) && d < |dst| && s < |src| && j <= k < |names|
    requires names[k] != Parent && HasValue(dst[d], names[k])
    ensures !MergeKids(dst, d, src, s, names, j, ow).ok
    decreases |names| - j
  {
    var m := MergeChild(dst, d, src, s, names[j], ow);
    MergeChildKeeps(dst, d, src, s, names[j], ow);
    if j < k && m.ok {
      MergeKidsClash(m.store, d, src, s, names, j + 1, ow, k);
    }
  }

  /** `Join` fails when a value of the source's container is a container of
      the destination's, or a container of the source's (other than "..") is a
      value of the destination's. */
  lemma MergeLevelClash(dst: seq<Dir>, d: nat, src: seq<Dir>, s: nat, ow: bool, n: Name)
    requires StoreValid(dst) && StoreValid(src) && d < |dst| && s < |src|
    requires (HasValue(src[s], n) && HasContainer(dst[d], n))
          || (n != Parent && HasContainer(src[s], n) && HasValue(dst[d], n))
    ensures !MergeLevel(dst, d, src, s, ow).ok
  {
    ValueNamesAreValues(src[s]);
    ContainerNamesAreContainers(src[s]);
    var names := ValueNames(src[s]);
    MergeValuesFails(dst, d, src, s, names, 0, ow);
    var v := MergeValues(dst, d, src, s, names, 0, ow);
    if v.ok {
      MergeValuesKeeps(dst, d, src, s, names, 0, ow);
      assert n !in names;
      var kids := ContainerNames(src[s]);
      var k :| 0 <= k < |kids| && kids[k] == n;
      MergeKidsClash(v.store, d, src, s, kids, 0, ow, k);
    }
  }

  /** After a successful `Join`, every value of the source's container is in the
      destination's (the source's bytes, or with `overwrite` off the
      destination's own value where it had one), every container of the
      source's other than ".." is a container of the destination's, and every
      key the destination had is still there. */
  lemma MergeLevelResult(dst: seq<Dir>, d: nat, src: seq<Dir>, s: nat, ow: bool)
    requires StoreValid(dst) && StoreValid(src) && d < |dst| && s < |src|
    requires MergeLevel(dst, d, src, s, ow).ok
    ensures var r := MergeLevel(dst, d, src, s, ow).store;
      && (forall n :: HasValue(src[s], n) ==>
            Find(r[d], n) == if !ow && HasValue(dst[d], n) then Find(dst[d], n) else Find(src[s], n))
      && (forall n :: HasContainer(src[s], n) && n != Parent ==> HasContainer(r[d], n))
      && (forall n :: Find(dst[d], n).Some? ==> Find(r[d], n).Some?)
  {
    ValueNamesAreValues(src[s]);
    ContainerNamesAreContainers(src[s]);
    var v := MergeValues(dst, d, src, s, ValueNames(src[s]), 0, ow);
    MergeValuesKeeps(dst, d, src, s, ValueNames(src[s]), 0, ow);
    MergeValuesResult(dst, d, src, s, ValueNames(src[s]), 0, ow);
    MergeKidsKeeps(v.store, d, src, s, ContainerNames(src[s]), 0, ow);
  }

  /** After a successful `Join`, a value of the destination's current
      container that the source's does not hold keeps its bytes. */
  lemma MergeLevelKeepsValues(dst: seq<Dir>, d: nat, src: seq<Dir>, s: nat, ow: bool)
    requires StoreValid(dst) && StoreValid(src) && d < |dst| && s < |src|
    requires MergeLevel(dst, d, src, s, ow).ok
    ensures var r := MergeLevel(dst, d, src, s, ow).store;
      forall n :: HasValue(dst[d], n) && !HasValue(src[s], n) ==> Find(r[d], n) == Find(dst[d], n)
  {
    ValueNamesAreValues(src[s]);
    var v := MergeValues(dst, d, src, s, ValueNames(src[s]), 0, ow);
    MergeValuesKeeps(dst, d, src, s, ValueNames(src[s]), 0, ow);
    MergeKidsKeeps(v.store, d, src, s, ContainerNames(src[s]), 0, ow);
  }
}
