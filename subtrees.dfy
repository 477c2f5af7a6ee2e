/** What `Join` does below the current containers. `Join(destination,
    source, name, overwrite)` (StackContainer/StackContainer.cs:186-220)
    recurses into every container of the source, so every dictionary the
    source reaches by a chain of container names is merged into the
    destination's dictionary at the same chain of names, created where
    missing. In a store that is a tree (`TreeShaped`, which every public
    operation keeps) the merges of two sibling containers touch disjoint
    dictionaries, so each one survives the rest of the loop. */
module Subtrees {
  import opened Types
  import opened Dirs
  import opened Merge

  /** The dictionary reached from `x` by opening the containers named by `p`
      in turn, as a chain of `OpenContainer` calls does; ".." is not followed. */
  function Walk(s: seq<Dir>, x: nat, p: seq<Name>): (r: Option<nat>)
    ensures r.Some? ==> r.value < |s|
    decreases |p|
  {
    if x >= |s| then None
    else if p == [] then Some(x)
    else if p[0] == Parent || !HasContainer(s[x], p[0]) then None
    else Walk(s, Find(s[x], p[0]).value.id, p[1..])
  }

  /** Some chain of container names leads from `x` to `y`. */
  ghost predicate Reaches(s: seq<Dir>, x: nat, y: nat)
  {
    exists p :: Walk(s, x, p) == Some(y)
  }

  /** `y` lies under the container `name` of `r[d]`. */
  ghost predicate BelowChild(r: seq<Dir>, d: nat, name: Name, y: nat)
  {
    d < |r| && name != Parent && HasContainer(r[d], name) && Reaches(r, Find(r[d], name).value.id, y)
  }

  /** `y` lies under the container of `r[d]` named by one of `names[j..]`. */
  ghost predicate BelowKid(r: seq<Dir>, d: nat, names: seq<Name>, j: nat, y: nat)
  {
    exists k :: j <= k < |names| && BelowChild(r, d, names[k], y)
  }

  /** `b` grew from `a`: it has every dictionary of `a`, every key each of
      them had, and every container there, still referring to the same dictionary. */
  ghost predicate Extends(a: seq<Dir>, b: seq<Dir>)
  {
    && |a| <= |b|
    && (forall x, n :: 0 <= x < |a| && Find(a[x], n).Some? ==> Find(b[x], n).Some?)
    && (forall x, n :: 0 <= x < |a| && HasContainer(a[x], n) ==> Find(b[x], n) == Find(a[x], n))
  }

  /** `a` and `b` hold the same containers under the same keys. */
  ghost predicate SameContainers(a: seq<Dir>, b: seq<Dir>)
  {
    && |a| == |b|
    && (forall x, n :: 0 <= x < |a| && HasContainer(a[x], n) ==> Find(b[x], n) == Find(a[x], n))
    && (forall x, n :: 0 <= x < |b| && HasContainer(b[x], n) ==> Find(a[x], n) == Find(b[x], n))
  }

  lemma ExtendsTrans(a: seq<Dir>, b: seq<Dir>, c: seq<Dir>)
    requires Extends(a, b) && Extends(b, c)
    ensures Extends(a, c)
  {
  }

  /** Walking never goes back: the references of a valid store point forward. */
  lemma {:induction false} WalkForward(s: seq<Dir>, x: nat, p: seq<Name>)
    requires StoreValid(s) && Walk(s, x, p).Some?
    ensures x <= Walk(s, x, p).value
    ensures p != [] ==> x < Walk(s, x, p).value
    decreases |p|
  {
    if p != [] {
      ChildAfter(s, x, p[0]);
      WalkForward(s, Find(s[x], p[0]).value.id, p[1..]);
    }
  }

  /** A walk ends with its last step: the dictionary one name short of the
      end holds the container reached under the last name. */
  lemma {:induction false} WalkLast(s: seq<Dir>, x: nat, p: seq<Name>)
    requires p != [] && Walk(s, x, p).Some?
    ensures var z := Walk(s, x, p[..|p| - 1]); var n := p[|p| - 1];
      && z.Some? && n != Parent && HasContainer(s[z.value], n)
      && Find(s[z.value], n).value.id == Walk(s, x, p).value
    decreases |p|
  {
    if |p| > 1 {
      var c := Find(s[x], p[0]).value.id;
      WalkLast(s, c, p[1..]);
      assert p[1..][..|p| - 2] == p[..|p| - 1][1..];
    }
  }

  lemma StepReaches(s: seq<Dir>, x: nat, n: Name, y: nat)
    requires x < |s| && n != Parent && HasContainer(s[x], n) && Reaches(s, Find(s[x], n).value.id, y)
    ensures Reaches(s, x, y)
  {
    var p :| Walk(s, Find(s[x], n).value.id, p) == Some(y);
    assert ([n] + p)[1..] == p;
    assert Walk(s, x, [n] + p) == Some(y);
  }

  /** A walk through `a` is the same walk through any store that extends it. */
  lemma {:induction false} WalkExtends(a: seq<Dir>, b: seq<Dir>, x: nat, p: seq<Name>)
    requires Extends(a, b) && Walk(a, x, p).Some?
    ensures Walk(b, x, p) == Walk(a, x, p)
    decreases |p|
  {
    if p != [] {
      WalkExtends(a, b, Find(a[x], p[0]).value.id, p[1..]);
    }
  }

  lemma {:induction false} SameWalks(a: seq<Dir>, b: seq<Dir>, x: nat, p: seq<Name>)
    requires SameContainers(a, b)
    ensures Walk(b, x, p) == Walk(a, x, p)
    decreases |p|
  {
    if p != [] && x < |a| {
      if HasContainer(a[x], p[0]) {
        SameWalks(a, b, Find(a[x], p[0]).value.id, p[1..]);
      }
    }
  }

  /** A walk from `x` is unchanged from `a` to `b` when every dictionary of
      `a` that `b` reaches from `x` is unchanged. */
  lemma {:induction false} WalkUnchanged(a: seq<Dir>, b: seq<Dir>, x: nat, p: seq<Name>)
    requires StoreValid(a) && x < |a| <= |b|
    requires forall y :: 0 <= y < |a| && Reaches(b, x, y) ==> b[y] == a[y]
    ensures Walk(b, x, p) == Walk(a, x, p)
    decreases |p|
  {
    assert Walk(b, x, []) == Some(x);
    if p != [] && p[0] != Parent && HasContainer(a[x], p[0]) {
      ChildAfter(a, x, p[0]);
      var c := Find(a[x], p[0]).value.id;
      forall y | 0 <= y < |a| && Reaches(b, c, y) ensures b[y] == a[y] {
        StepReaches(b, x, p[0], y);
      }
      WalkUnchanged(a, b, c, p[1..]);
    }
  }

  /** In a tree two walks that end at the same dictionary start one above the other. */
  lemma {:induction false} WalksMeet(s: seq<Dir>, a: nat, b: nat, p: seq<Name>, q: seq<Name>)
    requires TreeShaped(s) && Walk(s, a, p).Some? && Walk(s, a, p) == Walk(s, b, q)
    ensures Reaches(s, a, b) || Reaches(s, b, a)
    decreases |p| + |q|
  {
    if p == [] {
      assert Walk(s, b, q) == Some(a);
    } else if q == [] {
      assert Walk(s, a, p) == Some(b);
    } else {
      WalkLast(s, a, p);
      WalkLast(s, b, q);
      var z1 := Walk(s, a, p[..|p| - 1]).value;
      var z2 := Walk(s, b, q[..|q| - 1]).value;
      var i1 := IndexOfName(s[z1], p[|p| - 1]);
      var i2 := IndexOfName(s[z2], q[|q| - 1]);
      assert s[z1][i1].item == s[z2][i2].item;
      WalksMeet(s, a, b, p[..|p| - 1], q[..|q| - 1]);
    }
  }

  /** A container of a dictionary does not reach a sibling container. */
  lemma NotBelowSibling(s: seq<Dir>, x: nat, n1: Name, n2: Name)
    requires StoreValid(s) && TreeShaped(s) && x < |s|
    requires n1 != n2 && n1 != Parent && n2 != Parent && HasContainer(s[x], n1) && HasContainer(s[x], n2)
    ensures !Reaches(s, Find(s[x], n1).value.id, Find(s[x], n2).value.id)
  {
    var c1 := Find(s[x], n1).value.id;
    var c2 := Find(s[x], n2).value.id;
    var i2 := IndexOfName(s[x], n2);
    ChildAfter(s, x, n1);
    forall p | Walk(s, c1, p).Some? ensures Walk(s, c1, p).value != c2 {
      if p == [] {
        assert s[x][IndexOfName(s[x], n1)].item != s[x][i2].item;
      } else {
        WalkLast(s, c1, p);
        var z := Walk(s, c1, p[..|p| - 1]).value;
        WalkForward(s, c1, p[..|p| - 1]);
        var k := IndexOfName(s[z], p[|p| - 1]);
        assert s[z][k].item == Sub(Walk(s, c1, p).value) && s[x][i2].item == Sub(c2);
      }
    }
  }

  /** Two containers of one dictionary of a tree reach no dictionary in common. */
  lemma Disjoint(s: seq<Dir>, x: nat, n1: Name, n2: Name, y: nat)
    requires StoreValid(s) && TreeShaped(s) && x < |s|
    requires n1 != n2 && n1 != Parent && n2 != Parent && HasContainer(s[x], n1) && HasContainer(s[x], n2)
    ensures !(Reaches(s, Find(s[x], n1).value.id, y) && Reaches(s, Find(s[x], n2).value.id, y))
  {
    var c1 := Find(s[x], n1).value.id;
    var c2 := Find(s[x], n2).value.id;
    if Reaches(s, c1, y) && Reaches(s, c2, y) {
      var p :| Walk(s, c1, p) == Some(y);
      var q :| Walk(s, c2, q) == Some(y);
      WalksMeet(s, c1, c2, p, q);
      NotBelowSibling(s, x, n1, n2);
      NotBelowSibling(s, x, n2, n1);
    }
  }

  lemma BelowChildExtends(a: seq<Dir>, b: seq<Dir>, d: nat, name: Name, y: nat)
    requires Extends(a, b) && BelowChild(a, d, name, y)
    ensures BelowChild(b, d, name, y)
  {
    var p :| Walk(a, Find(a[d], name).value.id, p) == Some(y);
    WalkExtends(a, b, Find(a[d], name).value.id, p);
  }

  /** The value loop changes only the destination's current dictionary and
      leaves its container entries where they were. */
  lemma {:induction false} ValuesFrame(dst: seq<Dir>, d: nat, src: seq<Dir>, s: nat, names: seq<Name>, i: nat, ow: bool)
    requires StoreValid(dst) && d < |dst| && s < |src| && i <= |names|
    ensures var r := MergeValues(dst, d, src, s, names, i, ow).store;
      && (forall x :: 0 <= x < |dst| && x != d ==> r[x] == dst[x])
      && (forall k :: 0 <= k < |r[d]| && r[d][k].item.Sub? ==> k < |dst[d]| && r[d][k] == dst[d][k])
    decreases |names| - i
  {
    if i < |names| {
      var m := MergeValue(dst, d, src, s, names[i], ow);
      if m.ok && m.store != dst {
        var b := ReadIn(src[s], names[i]).value;
        WriteKeepsContainers(dst[d], names[i], b, true);
      }
      if m.ok {
        ValuesFrame(m.store, d, src, s, names, i + 1, ow);
      }
    }
  }

  /** So the value loop keeps the store a tree with the same containers. */
  lemma ValuesTree(dst: seq<Dir>, d: nat, src: seq<Dir>, s: nat, names: seq<Name>, ow: bool)
    requires StoreValid(dst) && TreeShaped(dst) && d < |dst| && s < |src|
    ensures var r := MergeValues(dst, d, src, s, names, 0, ow).store;
      TreeShaped(r) && SameContainers(dst, r) && Extends(dst, r)
  {
    var r: seq<Dir> := MergeValues(dst, d, src, s, names, 0, ow).store;
    ValuesFrame(dst, d, src, s, names, 0, ow);
    MergeValuesKeeps(dst, d, src, s, names, 0, ow);
    SameContainersKeepTree(dst, d, r[d]);
    assert r == dst[d := r[d]];
    forall x, n | 0 <= x < |r| && HasContainer(r[x], n) ensures Find(dst[x], n) == Find(r[x], n) {
      if x == d {
        var k := IndexOfName(r[d], n);
        FindAt(dst[d], k);
      }
    }
  }

  /** A merge only grows the destination, keeps it a tree, and changes only
      dictionaries reachable from the destination's current one. */
  lemma {:induction false} LevelFrame(dst: seq<Dir>, d: nat, src: seq<Dir>, s: nat, ow: bool)
    requires StoreValid(dst) && StoreValid(src) && TreeShaped(dst) && d < |dst| && s < |src|
    ensures var r := MergeLevel(dst, d, src, s, ow).store;
      && Extends(dst, r) && TreeShaped(r)
      && forall y :: 0 <= y < |dst| && r[y] != dst[y] ==> Reaches(r, d, y)
    decreases |src| - s, 2
  {
    var names := ValueNames(src[s]);
    var v := MergeValues(dst, d, src, s, names, 0, ow);
    ValuesFrame(dst, d, src, s, names, 0, ow);
    ValuesTree(dst, d, src, s, names, ow);
    var r := MergeLevel(dst, d, src, s, ow).store;
    if v.ok {
      var kids := ContainerNames(src[s]);
      KidsFrame(v.store, d, src, s, kids, 0, ow);
      ExtendsTrans(dst, v.store, r);
      forall y | 0 <= y < |dst| && r[y] != dst[y] ensures Reaches(r, d, y) {
        if y == d {
          assert Walk(r, d, []) == Some(d);
        } else {
          assert r[y] != v.store[y];
          var k :| 0 <= k < |kids| && BelowChild(r, d, kids[k], y);
          StepReaches(r, d, kids[k], y);
        }
      }
    } else {
      assert Walk(r, d, []) == Some(d);
    }
  }

  /** The container loop only grows the destination, keeps it a tree, and
      changes, besides the current dictionary, only dictionaries under one of
      the containers it merges. */
  lemma {:induction false} KidsFrame(m: seq<Dir>, d: nat, src: seq<Dir>, s: nat, names: seq<Name>, j: nat, ow: bool)
    requires StoreValid(m) && StoreValid(src) && TreeShaped(m) && d < |m| && s < |src| && j <= |names|
    ensures var r := MergeKids(m, d, src, s, names, j, ow).store;
      && Extends(m, r) && TreeShaped(r)
      && forall y :: 0 <= y < |m| && y != d && r[y] != m[y] ==> BelowKid(r, d, names, j, y)
    decreases |src| - s, 1, |names| - j
  {
    if j < |names| {
      var m1 := MergeChild(m, d, src, s, names[j], ow);
      ChildFrame(m, d, src, s, names[j], ow);
      var r := MergeKids(m, d, src, s, names, j, ow).store;
      if m1.ok {
        KidsFrame(m1.store, d, src, s, names, j + 1, ow);
        ExtendsTrans(m, m1.store, r);
        forall y | 0 <= y < |m| && y != d && r[y] != m[y] ensures BelowKid(r, d, names, j, y) {
          if m1.store[y] != m[y] {
            BelowChildExtends(m1.store, r, d, names[j], y);
            assert BelowChild(r, d, names[j], y);
          } else {
            var k :| j + 1 <= k < |names| && BelowChild(r, d, names[k], y);
          }
        }
      } else {
        forall y | 0 <= y < |m| && y != d && r[y] != m[y] ensures BelowKid(r, d, names, j, y) {
          assert BelowChild(r, d, names[j], y);
        }
      }
    }
  }

  /** Merging one container changes, besides the current dictionary, only
      dictionaries under the destination's container of that name. */
  lemma {:induction false} ChildFrame(m: seq<Dir>, d: nat, src: seq<Dir>, s: nat, name: Name, ow: bool)
    requires StoreValid(m) && StoreValid(src) && TreeShaped(m) && d < |m| && s < |src|
    ensures var r := MergeChild(m, d, src, s, name, ow).store;
      && Extends(m, r) && TreeShaped(r)
      && forall y :: 0 <= y < |m| && y != d && r[y] != m[y] ==> BelowChild(r, d, name, y)
    decreases |src| - s, 0
  {
    if name != Parent && HasContainer(src[s], name) {
      ChildAfter(src, s, name);
      var c := Find(src[s], name).value.id;
      var r := MergeChild(m, d, src, s, name, ow).store;
      if HasContainer(m[d], name) {
        ChildAfter(m, d, name);
        var e := Find(m[d], name).value.id;
        LevelFrame(m, e, src, c, ow);
        MergeLevelKeeps(m, e, src, c, ow);
        assert r[d] == m[d];
      } else if CreateIn(m, d, name).Ok? {
        CreateKeepsValid(m, d, name);
        CreateKeepsTree(m, d, name);
        var created := CreateIn(m, d, name).value;
        LevelFrame(created, |m|, src, c, ow);
        MergeLevelKeeps(created, |m|, src, c, ow);
        assert Extends(m, created);
        ExtendsTrans(m, created, r);
        assert r[d] == created[d];
      }
    }
  }

  /** After merging `src` at `s` into `dst` at `d`, giving `r`: where the
      path `p` leads in the source, it leads in `r` too, and each value of the
      source's dictionary there is in `r`'s, with the source's bytes or,
      without `overwrite`, the destination's own value at that path. */
  ghost predicate MergedAt(dst: seq<Dir>, d: nat, src: seq<Dir>, s: nat, ow: bool, r: seq<Dir>, p: seq<Name>)
  {
    var sx := Walk(src, s, p);
    var dx := Walk(dst, d, p);
    var rx := Walk(r, d, p);
    sx.Some? ==>
      && rx.Some?
      && forall n :: HasValue(src[sx.value], n) ==>
           Find(r[rx.value], n) == if !ow && dx.Some? && HasValue(dst[dx.value], n) then Find(dst[dx.value], n) else Find(src[sx.value], n)
  }

  /** A successful merge does its work at every path of the source. */
  lemma {:induction false} LevelBelow(dst: seq<Dir>, d: nat, src: seq<Dir>, s: nat, ow: bool)
    requires StoreValid(dst) && StoreValid(src) && TreeShaped(dst) && d < |dst| && s < |src|
    requires MergeLevel(dst, d, src, s, ow).ok
    ensures forall p :: MergedAt(dst, d, src, s, ow, MergeLevel(dst, d, src, s, ow).store, p)
    decreases |src| - s, 2
  {
    var r := MergeLevel(dst, d, src, s, ow).store;
    var names := ValueNames(src[s]);
    var v := MergeValues(dst, d, src, s, names, 0, ow).store;
    var kids := ContainerNames(src[s]);
    ValuesFrame(dst, d, src, s, names, 0, ow);
    ValuesTree(dst, d, src, s, names, ow);
    ContainerNamesDistinct(src[s]);
    ContainerNamesAreContainers(src[s]);
    KidsBelow(v, d, src, s, kids, 0, ow);
    MergeLevelResult(dst, d, src, s, ow);
    forall p ensures MergedAt(dst, d, src, s, ow, r, p) {
      if p != [] && Walk(src, s, p).Some? {
        var k :| 0 <= k < |kids| && kids[k] == p[0];
        assert p == [kids[k]] + p[1..];
        ValuesPath(dst, v, r, d, src, s, ow, p);
      }
    }
  }

  /** Below the current dictionary, the value loop changed nothing, so a path
      merged into the store it left is merged into the original store. */
  lemma ValuesPath(dst: seq<Dir>, v: seq<Dir>, r: seq<Dir>, d: nat, src: seq<Dir>, s: nat, ow: bool, p: seq<Name>)
    requires StoreValid(dst) && d < |dst| && p != []
    requires SameContainers(dst, v) && forall x :: 0 <= x < |dst| && x != d ==> v[x] == dst[x]
    requires MergedAt(v, d, src, s, ow, r, p)
    ensures MergedAt(dst, d, src, s, ow, r, p)
  {
    SameWalks(dst, v, d, p);
    if Walk(dst, d, p).Some? {
      WalkForward(dst, d, p);
    }
  }

  /** The container loop does its work at every path below each of its names. */
  lemma {:induction false} KidsBelow(m: seq<Dir>, d: nat, src: seq<Dir>, s: nat, names: seq<Name>, j: nat, ow: bool)
    requires StoreValid(m) && StoreValid(src) && TreeShaped(m) && d < |m| && s < |src| && j <= |names|
    requires NoRepeats(names) && MergeKids(m, d, src, s, names, j, ow).ok
    ensures forall k, q :: j <= k < |names| ==> MergedAt(m, d, src, s, ow, MergeKids(m, d, src, s, names, j, ow).store, [names[k]] + q)
    decreases |src| - s, 1, |names| - j
  {
    if j < |names| {
      var m1 := MergeChild(m, d, src, s, names[j], ow).store;
      var r := MergeKids(m1, d, src, s, names, j + 1, ow).store;
      ChildFrame(m, d, src, s, names[j], ow);
      MergeChildKeeps(m, d, src, s, names[j], ow);
      KidsFrame(m1, d, src, s, names, j + 1, ow);
      KidsBelow(m1, d, src, s, names, j + 1, ow);
      if names[j] != Parent {
        ChildBelow(m, d, src, s, names[j], ow);
      }
      forall k, q | j <= k < |names| ensures MergedAt(m, d, src, s, ow, r, [names[k]] + q) {
        if k == j {
          FirstKid(m, m1, r, d, src, s, ow, names, j, q);
        } else {
          LaterKid(m, m1, r, d, src, s, ow, names, j, k, q);
        }
      }
    }
  }

  /** The child merged first survives the rest of the loop, which works
      under the other names. */
  lemma FirstKid(m: seq<Dir>, m1: seq<Dir>, r: seq<Dir>, d: nat, src: seq<Dir>, s: nat, ow: bool, names: seq<Name>, j: nat, q: seq<Name>)
    requires StoreValid(m1) && StoreValid(r) && TreeShaped(r) && d < |m1| && j < |names| && NoRepeats(names)
    requires Extends(m1, r)
    requires forall y :: 0 <= y < |m1| && y != d && r[y] != m1[y] ==> BelowKid(r, d, names, j + 1, y)
    requires names[j] != Parent ==> MergedAt(m, d, src, s, ow, m1, [names[j]] + q)
    ensures MergedAt(m, d, src, s, ow, r, [names[j]] + q)
  {
    var p := [names[j]] + q;
    if Walk(src, s, p).Some? {
      assert p[1..] == q;
      var rx := Walk(m1, d, p).value;
      WalkExtends(m1, r, d, p);
      WalkForward(m1, d, p);
      var c := Find(m1[d], names[j]).value.id;
      WalkExtends(m1, r, c, q);
      assert Reaches(r, c, rx);
      if r[rx] != m1[rx] {
        var k :| j + 1 <= k < |names| && BelowChild(r, d, names[k], rx);
        Disjoint(r, d, names[j], names[k], rx);
      }
    }
  }

  /** A later child's path is untouched by the merge of the `j`-th child. */
  lemma LaterKid(m: seq<Dir>, m1: seq<Dir>, r: seq<Dir>, d: nat, src: seq<Dir>, s: nat, ow: bool, names: seq<Name>, j: nat, k: nat, q: seq<Name>)
    requires StoreValid(m) && StoreValid(m1) && TreeShaped(m1) && d < |m| && j < k < |names| && NoRepeats(names)
    requires Extends(m, m1)
    requires forall y :: 0 <= y < |m| && y != d && m1[y] != m[y] ==> BelowChild(m1, d, names[j], y)
    requires forall n :: Find(m[d], n).Some? ==> Find(m1[d], n) == Find(m[d], n)
    requires forall n :: Find(m[d], n).None? && Find(m1[d], n).Some? ==> n == names[j]
    requires MergedAt(m1, d, src, s, ow, r, [names[k]] + q)
    ensures MergedAt(m, d, src, s, ow, r, [names[k]] + q)
  {
    var p := [names[k]] + q;
    assert p[1..] == q;
    if names[k] != Parent && HasContainer(m[d], names[k]) {
      ChildAfter(m, d, names[k]);
      var c := Find(m[d], names[k]).value.id;
      forall y | 0 <= y < |m| && Reaches(m1, c, y) ensures m1[y] == m[y] {
        var w :| Walk(m1, c, w) == Some(y);
        WalkForward(m1, c, w);
        if m1[y] != m[y] {
          Disjoint(m1, d, names[k], names[j], y);
        }
      }
      WalkUnchanged(m, m1, c, q);
      if Walk(m, c, q).Some? {
        assert Reaches(m1, c, Walk(m, c, q).value);
      }
    } else {
      assert names[k] != names[j];
      assert Walk(m, d, p) == None;
      assert Walk(m1, d, p) == None;
    }
  }

  /** Merging one container does its work at every path below that name. */
  lemma {:induction false} ChildBelow(m: seq<Dir>, d: nat, src: seq<Dir>, s: nat, name: Name, ow: bool)
    requires StoreValid(m) && StoreValid(src) && TreeShaped(m) && d < |m| && s < |src| && name != Parent
    requires MergeChild(m, d, src, s, name, ow).ok
    ensures forall q :: MergedAt(m, d, src, s, ow, MergeChild(m, d, src, s, name, ow).store, [name] + q)
    decreases |src| - s, 0
  {
    ChildAfter(src, s, name);
    var c := Find(src[s], name).value.id;
    var r := MergeChild(m, d, src, s, name, ow).store;
    if HasContainer(m[d], name) {
      ChildAfter(m, d, name);
      var e := Find(m[d], name).value.id;
      LevelBelow(m, e, src, c, ow);
      MergeLevelKeeps(m, e, src, c, ow);
      assert r[d] == m[d];
      forall q ensures MergedAt(m, d, src, s, ow, r, [name] + q) {
        assert ([name] + q)[1..] == q;
        assert MergedAt(m, e, src, c, ow, r, q);
      }
    } else {
      CreateKeepsValid(m, d, name);
      CreateKeepsTree(m, d, name);
      var created := CreateIn(m, d, name).value;
      LevelBelow(created, |m|, src, c, ow);
      MergeLevelKeeps(created, |m|, src, c, ow);
      assert r[d] == created[d];
      forall q ensures MergedAt(m, d, src, s, ow, r, [name] + q) {
        assert ([name] + q)[1..] == q;
        assert MergedAt(created, |m|, src, c, ow, r, q);
        assert created[|m|] == [];
        assert q != [] ==> Walk(created, |m|, q) == None;
      }
    }
  }

  /** After merging `src` at `s` into `dst` at `d`, giving `r`: where the
      path `p` leads in the destination, each value there that the source
      does not hold at the same path keeps its bytes. */
  ghost predicate KeptAt(dst: seq<Dir>, d: nat, src: seq<Dir>, s: nat, r: seq<Dir>, p: seq<Name>)
  {
    var dx := Walk(dst, d, p);
    var sx := Walk(src, s, p);
    dx.Some? && dx.value < |r| ==>
      forall n :: HasValue(dst[dx.value], n) && !(sx.Some? && HasValue(src[sx.value], n)) ==>
        Find(r[dx.value], n) == Find(dst[dx.value], n)
  }

  /** A successful merge leaves alone, at every path of the destination, the
      values the source does not hold there. */
  lemma {:induction false} LevelKept(dst: seq<Dir>, d: nat, src: seq<Dir>, s: nat, ow: bool)
    requires StoreValid(dst) && StoreValid(src) && TreeShaped(dst) && d < |dst| && s < |src|
    requires MergeLevel(dst, d, src, s, ow).ok
    ensures forall p :: KeptAt(dst, d, src, s, MergeLevel(dst, d, src, s, ow).store, p)
    decreases |src| - s, 2
  {
    var r := MergeLevel(dst, d, src, s, ow).store;
    var names := ValueNames(src[s]);
    var v := MergeValues(dst, d, src, s, names, 0, ow).store;
    var kids := ContainerNames(src[s]);
    ValuesFrame(dst, d, src, s, names, 0, ow);
    ValuesTree(dst, d, src, s, names, ow);
    ContainerNamesDistinct(src[s]);
    ContainerNamesAreContainers(src[s]);
    KidsKept(v, d, src, s, kids, 0, ow);
    KidsFrame(v, d, src, s, kids, 0, ow);
    MergeLevelKeepsValues(dst, d, src, s, ow);
    forall p ensures KeptAt(dst, d, src, s, r, p) {
      if p != [] {
        if p[0] in kids {
          var k :| 0 <= k < |kids| && kids[k] == p[0];
          assert p == [kids[k]] + p[1..];
        }
        ValuesKept(dst, v, r, d, src, s, kids, p);
      }
    }
  }

  /** Below the current dictionary, the value loop changed nothing, so a path
      kept from the store it left is kept from the original store. */
  lemma ValuesKept(dst: seq<Dir>, v: seq<Dir>, r: seq<Dir>, d: nat, src: seq<Dir>, s: nat, kids: seq<Name>, p: seq<Name>)
    requires StoreValid(dst) && StoreValid(r) && TreeShaped(r) && d < |dst| && s < |src| && p != []
    requires SameContainers(dst, v) && forall x :: 0 <= x < |dst| && x != d ==> v[x] == dst[x]
    requires Extends(v, r)
    requires forall y :: 0 <= y < |v| && y != d && r[y] != v[y] ==> BelowKid(r, d, kids, 0, y)
    requires p[0] in kids ==> KeptAt(v, d, src, s, r, p)
    requires p[0] !in kids ==> !HasContainer(src[s], p[0])
    ensures KeptAt(dst, d, src, s, r, p)
  {
    SameWalks(dst, v, d, p);
    if Walk(dst, d, p).Some? {
      WalkForward(dst, d, p);
      if p[0] !in kids {
        OtherKidKept(dst, v, r, d, kids, p);
      }
    }
  }

  /** A path of the destination under a container the source lacks leads to
      a dictionary the container loop does not change. */
  lemma OtherKidKept(dst: seq<Dir>, v: seq<Dir>, r: seq<Dir>, d: nat, kids: seq<Name>, p: seq<Name>)
    requires StoreValid(r) && TreeShaped(r) && d < |dst| == |v| && p != [] && p[0] !in kids
    requires Walk(dst, d, p).Some? && Walk(v, d, p) == Walk(dst, d, p) && d < Walk(dst, d, p).value
    requires v[Walk(dst, d, p).value] == dst[Walk(dst, d, p).value]
    requires Extends(v, r)
    requires forall y :: 0 <= y < |v| && y != d && r[y] != v[y] ==> BelowKid(r, d, kids, 0, y)
    ensures r[Walk(dst, d, p).value] == dst[Walk(dst, d, p).value]
  {
    var dx := Walk(dst, d, p).value;
    WalkExtends(v, r, d, p);
    var c := Find(v[d], p[0]).value.id;
    assert Walk(r, c, p[1..]) == Some(dx);
    if r[dx] != v[dx] {
      var k :| 0 <= k < |kids| && BelowChild(r, d, kids[k], dx);
      Disjoint(r, d, p[0], kids[k], dx);
    }
  }

  /** The container loop leaves alone, below each of its names, the values the
      source does not hold. */
  lemma {:induction false} KidsKept(m: seq<Dir>, d: nat, src: seq<Dir>, s: nat, names: seq<Name>, j: nat, ow: bool)
    requires StoreValid(m) && StoreValid(src) && TreeShaped(m) && d < |m| && s < |src| && j <= |names|
    requires NoRepeats(names) && MergeKids(m, d, src, s, names, j, ow).ok
    ensures forall k, q :: j <= k < |names| ==> KeptAt(m, d, src, s, MergeKids(m, d, src, s, names, j, ow).store, [names[k]] + q)
    decreases |src| - s, 1, |names| - j
  {
    if j < |names| {
      var m1 := MergeChild(m, d, src, s, names[j], ow).store;
      var r := MergeKids(m1, d, src, s, names, j + 1, ow).store;
      ChildFrame(m, d, src, s, names[j], ow);
      KidsFrame(m1, d, src, s, names, j + 1, ow);
      KidsKept(m1, d, src, s, names, j + 1, ow);
      if names[j] != Parent {
        ChildKept(m, d, src, s, names[j], ow);
      }
      forall k, q | j <= k < |names| ensures KeptAt(m, d, src, s, r, [names[k]] + q) {
        var p := [names[k]] + q;
        assert p[1..] == q;
        if Walk(m, d, p).Some? {
          WalkForward(m, d, p);
          ExtendsTrans(m, m1, r);
          WalkExtends(m, m1, d, p);
          WalkExtends(m, r, d, p);
          if k == j {
            FirstKidKept(m1, r, d, names, j, p);
          } else {
            LaterKidKept(m, m1, d, names, j, k, p);
          }
        }
      }
    }
  }

  /** Below the `j`-th name, the rest of the loop changes nothing. */
  lemma FirstKidKept(m1: seq<Dir>, r: seq<Dir>, d: nat, names: seq<Name>, j: nat, p: seq<Name>)
    requires StoreValid(r) && TreeShaped(r) && d < |m1| <= |r| && j < |names| && NoRepeats(names)
    requires p != [] && p[0] == names[j] && Walk(r, d, p).Some? && d < Walk(r, d, p).value < |m1|
    requires forall y :: 0 <= y < |m1| && y != d && r[y] != m1[y] ==> BelowKid(r, d, names, j + 1, y)
    ensures r[Walk(r, d, p).value] == m1[Walk(r, d, p).value]
  {
    var dx := Walk(r, d, p).value;
    var c := Find(r[d], p[0]).value.id;
    assert Walk(r, c, p[1..]) == Some(dx);
    if r[dx] != m1[dx] {
      var k :| j + 1 <= k < |names| && BelowChild(r, d, names[k], dx);
      Disjoint(r, d, names[j], names[k], dx);
    }
  }

  /** Below a later name, the merge of the `j`-th name changes nothing. */
  lemma LaterKidKept(m: seq<Dir>, m1: seq<Dir>, d: nat, names: seq<Name>, j: nat, k: nat, p: seq<Name>)
    requires StoreValid(m1) && TreeShaped(m1) && d < |m| <= |m1| && j < k < |names| && NoRepeats(names)
    requires p != [] && p[0] == names[k] && Walk(m1, d, p).Some? && d < Walk(m1, d, p).value < |m|
    requires forall y :: 0 <= y < |m| && y != d && m1[y] != m[y] ==> BelowChild(m1, d, names[j], y)
    ensures m1[Walk(m1, d, p).value] == m[Walk(m1, d, p).value]
  {
    var dx := Walk(m1, d, p).value;
    var c := Find(m1[d], p[0]).value.id;
    assert Walk(m1, c, p[1..]) == Some(dx);
    if m1[dx] != m[dx] {
      Disjoint(m1, d, names[k], names[j], dx);
    }
  }

  /** Merging one container leaves alone, below that name, the values the
      source does not hold. */
  lemma {:induction false} ChildKept(m: seq<Dir>, d: nat, src: seq<Dir>, s: nat, name: Name, ow: bool)
    requires StoreValid(m) && StoreValid(src) && TreeShaped(m) && d < |m| && s < |src| && name != Parent
    requires MergeChild(m, d, src, s, name, ow).ok
    ensures forall q :: KeptAt(m, d, src, s, MergeChild(m, d, src, s, name, ow).store, [name] + q)
    decreases |src| - s, 0
  {
    ChildAfter(src, s, name);
    var c := Find(src[s], name).value.id;
    var r := MergeChild(m, d, src, s, name, ow).store;
    if HasContainer(m[d], name) {
      ChildAfter(m, d, name);
      var e := Find(m[d], name).value.id;
      LevelKept(m, e, src, c, ow);
      forall q ensures KeptAt(m, d, src, s, r, [name] + q) {
        assert ([name] + q)[1..] == q;
        assert KeptAt(m, e, src, c, r, q);
      }
    } else {
      forall q ensures KeptAt(m, d, src, s, r, [name] + q) {
        assert Walk(m, d, [name] + q) == None;
      }
    }
  }

  /** `Join` at every depth: a successful merge keeps every dictionary the
      destination reached by a path, with all its keys; and every dictionary
      the source reaches by a path from its current container is matched in
      the destination at the same path, holding each of the source's values
      (the destination's own where it had one and `overwrite` is off); and
      every value of the destination at a path where the source does not
      hold it keeps its bytes. */
  lemma JoinDeep(dst: seq<Dir>, d: nat, src: seq<Dir>, s: nat, ow: bool)
    requires StoreValid(dst) && StoreValid(src) && TreeShaped(dst) && d < |dst| && s < |src|
    requires MergeLevel(dst, d, src, s, ow).ok
    ensures var r := MergeLevel(dst, d, src, s, ow).store;
      && Extends(dst, r) && TreeShaped(r)
      && (forall p :: Walk(dst, d, p).Some? ==> Walk(r, d, p) == Walk(dst, d, p))
      && (forall p :: MergedAt(dst, d, src, s, ow, r, p))
      && (forall p :: KeptAt(dst, d, src, s, r, p))
  {
    var r := MergeLevel(dst, d, src, s, ow).store;
    LevelFrame(dst, d, src, s, ow);
    LevelBelow(dst, d, src, s, ow);
    LevelKept(dst, d, src, s, ow);
    forall p | Walk(dst, d, p).Some? ensures Walk(r, d, p) == Walk(dst, d, p) {
      WalkExtends(dst, r, d, p);
    }
  }

  /** The key "p" and the key "v1" of the example below. */
  const KeyP: Name := [0x70]
  const KeyV1: Name := [0x76, 0x31]

  /** A fresh root. */
  function FreshRoot(): (s: seq<Dir>)
    ensures StoreValid(s) && TreeShaped(s) && |s| == 1 && Find(s[0], KeyP) == None
  {
    [[Entry(Parent, Sub(0))]]
  }

  /** A root holding the container "p", which holds the value "v1" = [1]. */
  function NestedSource(): (s: seq<Dir>)
    ensures StoreValid(s) && |s| == 2
    ensures ValueNames(s[0]) == [] && ContainerNames(s[0]) == [Parent, KeyP] && Find(s[0], KeyP) == Some(Sub(1))
    ensures ValueNames(s[1]) == [KeyV1] && ContainerNames(s[1]) == [] && Find(s[1], KeyV1) == Some(Data([1]))
  {
    [[Entry(Parent, Sub(0)), Entry(KeyP, Sub(1))], [Entry(KeyV1, Data([1]))]]
  }

  /** One level down, the example merges "v1" into the created "p". */
  lemma NestedInner()
    ensures CreateIn(FreshRoot(), 0, KeyP).Ok? && StoreValid(CreateIn(FreshRoot(), 0, KeyP).value)
    ensures MergeLevel(CreateIn(FreshRoot(), 0, KeyP).value, 1, NestedSource(), 1, false).ok
  {
    var created := CreateIn(FreshRoot(), 0, KeyP).value;
    CreateKeepsValid(FreshRoot(), 0, KeyP);
    var mv := MergeValue(created, 1, NestedSource(), 1, KeyV1, false);
    assert created[1] == [];
    assert mv.ok;
    assert MergeValues(created, 1, NestedSource(), 1, [KeyV1], 0, false) == MergeValues(mv.store, 1, NestedSource(), 1, [KeyV1], 1, false);
  }

  /** Joining a root holding the container "p" with the value "v1" = [1]
      into a fresh root leaves "p"/"v1" = [1] in the destination. */
  lemma NestedJoin()
    ensures var r := MergeLevel(FreshRoot(), 0, NestedSource(), 0, false);
      && r.ok && Walk(r.store, 0, [KeyP]).Some?
      && Find(r.store[Walk(r.store, 0, [KeyP]).value], KeyV1) == Some(Data([1]))
  {
    var dst := FreshRoot();
    var src := NestedSource();
    NestedInner();
    var inner := MergeLevel(CreateIn(dst, 0, KeyP).value, 1, src, 1, false);
    ChildCases(dst, 0, src, 0, KeyP, false);
    assert MergeChild(dst, 0, src, 0, KeyP, false) == inner;
    assert MergeKids(dst, 0, src, 0, [Parent, KeyP], 1, false) == MergeKids(inner.store, 0, src, 0, [Parent, KeyP], 2, false);
    assert MergeLevel(dst, 0, src, 0, false) == MergeKids(dst, 0, src, 0, [Parent, KeyP], 0, false);
    JoinDeep(dst, 0, src, 0, false);
    assert MergedAt(dst, 0, src, 0, false, MergeLevel(dst, 0, src, 0, false).store, [KeyP]);
    assert Walk(src, 0, [KeyP]) == Some(1) && Walk(dst, 0, [KeyP]) == None;
  }
}
