/** One dictionary of the store: lookups, the edits `CreateContainer`,
    `WriteValue` and `Delete` make to the current container, and the reads
    `ContainerExists`, `ValueExists`, `ReadValue`, `GetContainerNames` and
    `GetValueNames` (StackContainer/StackContainer.cs:55-177). */
module Dirs {
  import opened Types

  /** Position of the entry keyed `n`, or -1 (the dictionary's hash lookup). */
  function IndexOfName(d: Dir, n: Name): (r: int)
    ensures -1 <= r < |d|
    ensures r >= 0 ==> d[r].name == n && forall j :: 0 <= j < r ==> d[j].name != n
    ensures r == -1 ==> forall j :: 0 <= j < |d| ==> d[j].name != n
  {
    if d == [] then -1
    else if d[0].name == n then 0
    else
      var k := IndexOfName(d[1..], n);
      if k < 0 then -1 else k + 1
  }

  /** What the dictionary holds under key `n`. */
  function Find(d: Dir, n: Name): Option<Item>
  {
    var k := IndexOfName(d, n);
    if k < 0 then None else Some(d[k].item)
  }

  predicate HasContainer(d: Dir, n: Name)
  {
    Find(d, n).Some? && Find(d, n).value.Sub?
  }

  predicate HasValue(d: Dir, n: Name)
  {
    Find(d, n).Some? && Find(d, n).value.Data?
  }

  lemma FindAt(d: Dir, i: nat)
    requires UniqueNames(d) && i < |d|
    ensures Find(d, d[i].name) == Some(d[i].item)
  {
    var k := IndexOfName(d, d[i].name);
    assert k >= 0 && !(k < i) && !(i < k);
  }

  lemma FindAppend(d: Dir, e: Entry, m: Name)
    requires IndexOfName(d, e.name) < 0
    ensures Find(d + [e], m) == if m == e.name then Some(e.item) else Find(d, m)
  {
    var d' := d + [e];
    var k := IndexOfName(d', m);
    if m == e.name {
      assert d'[|d|].name == m;
      assert k == |d|;
    } else {
      var k0 := IndexOfName(d, m);
      if k0 >= 0 {
        assert d'[k0].name == m;
        assert k == k0;
      } else {
        assert k == -1;
      }
    }
  }

  /** The dictionary without its entry keyed `n` (`Dictionary.Remove`). */
  function Remove(d: Dir, n: Name): (r: Dir)
    requires IndexOfName(d, n) >= 0
    ensures |r| == |d| - 1
    ensures multiset(r) == multiset(d) - multiset{d[IndexOfName(d, n)]}
  {
    var k := IndexOfName(d, n);
    assert d == d[..k] + [d[k]] + d[k + 1..];
    d[..k] + d[k + 1..]
  }

  lemma {:induction false} FindRemove(d: Dir, n: Name, m: Name)
    requires UniqueNames(d) && IndexOfName(d, n) >= 0
    ensures UniqueNames(Remove(d, n))
    ensures Find(Remove(d, n), m) == if m == n then None else Find(d, m)
  {
    var k := IndexOfName(d, n);
    var r := Remove(d, n);
    assert forall j :: 0 <= j < |r| ==> r[j] == (if j < k then d[j] else d[j + 1]);
    var kr := IndexOfName(r, m);
    if m == n {
      assert kr == -1;
    } else {
      var kd := IndexOfName(d, m);
      if kd < 0 {
        assert kr == -1;
      } else if kd < k {
        assert r[kd].name == m;
        assert kr == kd;
      } else {
        assert kd != k;
        assert r[kd - 1].name == m;
        assert forall j :: 0 <= j < kd - 1 ==> r[j].name != m;
        assert kr == kd - 1;
      }
    }
  }

  lemma {:induction false} FindReplace(d: Dir, n: Name, x: Item, m: Name)
    requires IndexOfName(d, n) >= 0
    ensures Find(d[IndexOfName(d, n) := Entry(n, x)], m) == if m == n then Some(x) else Find(d, m)
  {
    var k := IndexOfName(d, n);
    var r := d[k := Entry(n, x)];
    var kr := IndexOfName(r, m);
    var kd := IndexOfName(d, m);
    if m == n {
      assert r[k].name == m;
      assert forall j :: 0 <= j < k ==> r[j].name != m;
      assert kr == k;
    } else if kd >= 0 {
      assert r[kd].name == m;
      assert kr == kd;
    } else {
      assert kr == -1;
    }
  }

  /** `CreateContainer(name)` on container `c`: a new empty dictionary at the
      end of the arena, added under `name` (lines 124-133). The explicit check
      refuses an existing container, `Dictionary.Add` an existing value. */
  function CreateIn(s: seq<Dir>, c: nat, name: Name): (r: Result<seq<Dir>>)
    requires c < |s|
    ensures r.Ok? <==> Find(s[c], name) == None
    ensures r.Ok? ==> |r.value| == |s| + 1 && r.value[|s|] == []
    ensures r.Ok? ==> Find(r.value[c], name) == Some(Sub(|s|))
    ensures r.Ok? ==> forall m :: m != name ==> Find(r.value[c], m) == Find(s[c], m)
    ensures r.Ok? ==> forall x :: 0 <= x < |s| && x != c ==> r.value[x] == s[x]
    ensures r.Ok? ==> r.value[c] == s[c] + [Entry(name, Sub(|s|))]
  {
    if Find(s[c], name).Some? then Fail
    else
      var e := Entry(name, Sub(|s|));
      assert forall m :: Find(s[c] + [e], m) == if m == name then Some(e.item) else Find(s[c], m) by {
        forall m ensures Find(s[c] + [e], m) == if m == name then Some(e.item) else Find(s[c], m) {
          FindAppend(s[c], e, m);
        }
      }
      Ok(s[c := s[c] + [e]] + [[]])
  }

  lemma {:induction false} CreateKeepsValid(s: seq<Dir>, c: nat, name: Name)
    requires StoreValid(s) && c < |s| && CreateIn(s, c, name).Ok?
    ensures StoreValid(CreateIn(s, c, name).value)
  {
    var r := CreateIn(s, c, name).value;
    assert r[c] == s[c] + [Entry(name, Sub(|s|))];
    forall x, i | 0 <= x < |r| && 0 <= i < |r[x]| && r[x][i].item.Sub?
      ensures r[x][i].item.id < |r|
      ensures r[x][i].name != Parent ==> x < r[x][i].item.id
    {
      if x == c && i == |s[c]| {
      } else {
        assert x < |s| && i < |s[x]| && r[x][i] == s[x][i];
      }
    }
    forall x | 0 <= x < |r| ensures UniqueNames(r[x]) {
      if x == c {
        forall i, j | 0 <= i < j < |r[c]| ensures r[c][i].name != r[c][j].name {
          if j == |s[c]| {
            assert r[c][i] == s[c][i];
            FindAt(s[c], i);
          }
        }
      }
    }
  }

  /** Creating a container keeps the store a tree: the new dictionary hangs
      only under the new key. */
  lemma CreateKeepsTree(s: seq<Dir>, c: nat, name: Name)
    requires StoreValid(s) && TreeShaped(s) && c < |s| && CreateIn(s, c, name).Ok?
    ensures TreeShaped(CreateIn(s, c, name).value)
  {
    var r: seq<Dir> := CreateIn(s, c, name).value;
    forall x: int, i: int, y: int, j: int |
      && 0 <= x < |r| && 0 <= i < |r[x]| && 0 <= y < |r| && 0 <= j < |r[y]|
      && r[x][i].item.Sub? && r[x][i].item == r[y][j].item
      ensures x == y && i == j
    {
      var added := x == c && i == |s[c]|;
      var added' := y == c && j == |s[c]|;
      if !added {
        assert x < |s| && i < |s[x]| && r[x][i] == s[x][i];
      }
      if !added' {
        assert y < |s| && j < |s[y]| && r[y][j] == s[y][j];
      }
    }
  }

  /** Replacing a dictionary by one whose containers are the old entries at
      the same places keeps the store a tree. */
  lemma SameContainersKeepTree(s: seq<Dir>, x: nat, d: Dir)
    requires TreeShaped(s) && x < |s|
    requires forall i :: 0 <= i < |d| && d[i].item.Sub? ==> i < |s[x]| && d[i] == s[x][i]
    ensures TreeShaped(s[x := d])
  {
    var r: seq<Dir> := s[x := d];
    forall y: int, i: int, z: int, j: int |
      && 0 <= y < |r| && 0 <= i < |r[y]| && 0 <= z < |r| && 0 <= j < |r[z]|
      && r[y][i].item.Sub? && r[y][i].item == r[z][j].item
      ensures y == z && i == j
    {
      assert r[y][i] == s[y][i] && r[z][j] == s[z][j];
    }
  }

  /** Removing an entry keeps the store a tree. */
  lemma RemoveKeepsTree(s: seq<Dir>, x: nat, n: Name)
    requires TreeShaped(s) && x < |s| && IndexOfName(s[x], n) >= 0
    ensures TreeShaped(s[x := Remove(s[x], n)])
  {
    var k := IndexOfName(s[x], n);
    var d := Remove(s[x], n);
    var r: seq<Dir> := s[x := d];
    assert forall i :: 0 <= i < |d| ==> d[i] == s[x][if i < k then i else i + 1];
    forall y: int, i: int, z: int, j: int |
      && 0 <= y < |r| && 0 <= i < |r[y]| && 0 <= z < |r| && 0 <= j < |r[z]|
      && r[y][i].item.Sub? && r[y][i].item == r[z][j].item
      ensures y == z && i == j
    {
      var i' := if y == x && k <= i then i + 1 else i;
      var j' := if z == x && k <= j then j + 1 else j;
      assert r[y][i] == s[y][i'] && r[z][j] == s[z][j'];
    }
  }

  /** `WriteValue(name, value, overwrite)` (lines 153-161): a missing key is
      added at the end (`Add(name, null)` then the indexer); a key holding a
      container makes `Add` throw; a key holding a value is replaced in place
      when `overwrite` is set and refused otherwise. */
  function WriteIn(d: Dir, name: Name, b: Bytes, overwrite: bool): (r: Result<Dir>)
    ensures r.Ok? <==> !HasContainer(d, name) && (overwrite || !HasValue(d, name))
    ensures r.Ok? ==> Find(r.value, name) == Some(Data(b))
    ensures r.Ok? ==> forall m :: m != name ==> Find(r.value, m) == Find(d, m)
    ensures r.Ok? && UniqueNames(d) ==> UniqueNames(r.value)
    ensures r.Ok? ==> |r.value| == |d| + (if Find(d, name) == None then 1 else 0)
  {
    var k := IndexOfName(d, name);
    if k < 0 then
      var e := Entry(name, Data(b));
      assert forall m :: Find(d + [e], m) == if m == name then Some(e.item) else Find(d, m) by {
        forall m ensures Find(d + [e], m) == if m == name then Some(e.item) else Find(d, m) {
          FindAppend(d, e, m);
        }
      }
      Ok(d + [e])
    else if d[k].item.Sub? || !overwrite then Fail
    else
      var r := d[k := Entry(name, Data(b))];
      assert forall m :: Find(r, m) == if m == name then Some(Data(b)) else Find(d, m) by {
        forall m ensures Find(r, m) == if m == name then Some(Data(b)) else Find(d, m) {
          FindReplace(d, name, Data(b), m);
        }
      }
      assert forall j :: 0 <= j < |r| ==> r[j].name == d[j].name;
      Ok(r)
  }

  /** A write leaves every container entry where it was and adds none. */
  lemma WriteKeepsContainers(d: Dir, name: Name, b: Bytes, overwrite: bool)
    requires WriteIn(d, name, b, overwrite).Ok?
    ensures var r := WriteIn(d, name, b, overwrite).value;
      forall i :: 0 <= i < |r| && r[i].item.Sub? ==> i < |d| && r[i] == d[i]
  {
  }

  /** `ReadValue(name)` (lines 140-146): fails unless `name` holds a value. */
  function ReadIn(d: Dir, name: Name): (r: Result<Bytes>)
    ensures r.Ok? <==> HasValue(d, name)
    ensures r.Ok? ==> Find(d, name) == Some(Data(r.value))
  {
    match Find(d, name)
    case Some(Data(b)) => Ok(b)
    case _ => Fail
  }

  /** `Delete(name)` (lines 171-177): removes the entry of either kind. */
  function DeleteIn(d: Dir, name: Name): (r: Result<Dir>)
    ensures r.Ok? <==> Find(d, name).Some?
    ensures r.Ok? ==> |r.value| == |d| - 1
    ensures r.Ok? && UniqueNames(d) ==> UniqueNames(r.value) && Find(r.value, name) == None
    ensures r.Ok? && UniqueNames(d) ==> forall m :: m != name ==> Find(r.value, m) == Find(d, m)
  {
    if IndexOfName(d, name) < 0 then Fail
    else
      var r := Remove(d, name);
      assert UniqueNames(d) ==> UniqueNames(r) && forall m :: Find(r, m) == if m == name then None else Find(d, m) by {
        if UniqueNames(d) {
          FindRemove(d, name, name);
          forall m ensures Find(r, m) == if m == name then None else Find(d, m) {
            FindRemove(d, name, m);
          }
        }
      }
      Ok(r)
  }

  /** The keys in enumeration order. */
  function Keys(d: Dir): (r: seq<Name>)
    ensures |r| == |d| && forall i :: 0 <= i < |d| ==> r[i] == d[i].name
  {
    if d == [] then [] else [d[0].name] + Keys(d[1..])
  }

  /** A write puts a new key last and leaves an existing key where it was,
      so the enumeration order of the other keys is unchanged. */
  lemma WriteOrder(d: Dir, name: Name, b: Bytes, overwrite: bool)
    requires WriteIn(d, name, b, overwrite).Ok?
    ensures var r := WriteIn(d, name, b, overwrite).value;
      Keys(r) == if Find(d, name) == None then Keys(d) + [name] else Keys(d)
    ensures Find(d, name).Some? ==> WriteIn(d, name, b, overwrite).value[IndexOfName(d, name)] == Entry(name, Data(b))
  {
    var k := IndexOfName(d, name);
    var r := WriteIn(d, name, b, overwrite).value;
    if k < 0 {
      assert r == d + [Entry(name, Data(b))];
      KeysAppend(d, Entry(name, Data(b)));
    } else {
      assert r == d[k := Entry(name, Data(b))];
      KeysReplace(d, k, Entry(name, Data(b)));
    }
  }

  lemma KeysAppend(d: Dir, e: Entry)
    ensures Keys(d + [e]) == Keys(d) + [e.name]
  {
    assert forall i :: 0 <= i < |d| ==> (d + [e])[i] == d[i];
  }

  lemma KeysReplace(d: Dir, k: nat, e: Entry)
    requires k < |d| && d[k].name == e.name
    ensures Keys(d[k := e]) == Keys(d)
  {
  }

  /** A delete takes the key out and keeps the others in their order. */
  lemma DeleteOrder(d: Dir, name: Name)
    requires DeleteIn(d, name).Ok?
    ensures var k := IndexOfName(d, name);
      Keys(DeleteIn(d, name).value) == Keys(d)[..k] + Keys(d)[k + 1..]
  {
    var k := IndexOfName(d, name);
    var r := DeleteIn(d, name).value;
    assert r == d[..k] + d[k + 1..];
    assert Keys(r) == Keys(d)[..k] + Keys(d)[k + 1..];
  }

  /** Keys of the entries holding containers, in enumeration order. */
  function ContainerNames(d: Dir): (r: seq<Name>)
    ensures |r| <= |d|
    ensures forall n :: n in r <==> exists i :: 0 <= i < |d| && d[i].name == n && d[i].item.Sub?
  {
    if d == [] then []
    else
      var rest := ContainerNames(d[1..]);
      assert forall i :: 1 <= i < |d| ==> d[i] == d[1..][i - 1];
      if d[0].item.Sub? then [d[0].name] + rest else rest
  }

  /** No key is listed twice. */
  predicate NoRepeats(ns: seq<Name>)
  {
    forall a, b :: 0 <= a < b < |ns| ==> ns[a] != ns[b]
  }

  /** In a dictionary with unique keys each container key is listed once. */
  lemma {:induction false} ContainerNamesDistinct(d: Dir)
    requires UniqueNames(d)
    ensures NoRepeats(ContainerNames(d))
  {
    if d != [] {
      var t := d[1..];
      assert forall i :: 0 <= i < |t| ==> t[i] == d[i + 1];
      ContainerNamesDistinct(t);
      var rest := ContainerNames(t);
      if d[0].item.Sub? {
        var ns := ContainerNames(d);
        assert ns == [d[0].name] + rest;
        assert d[0].name !in rest;
        forall a, b | 0 <= a < b < |ns| ensures ns[a] != ns[b] {
          assert ns[b] == rest[b - 1];
          if a > 0 {
            assert ns[a] == rest[a - 1];
          }
        }
      }
    }
  }

  /** Keys of the entries holding values, in enumeration order. */
  function ValueNames(d: Dir): (r: seq<Name>)
    ensures |r| <= |d|
    ensures forall n :: n in r <==> exists i :: 0 <= i < |d| && d[i].name == n && d[i].item.Data?
  {
    if d == [] then []
    else
      var rest := ValueNames(d[1..]);
      assert forall i :: 1 <= i < |d| ==> d[i] == d[1..][i - 1];
      if d[0].item.Data? then [d[0].name] + rest else rest
  }

  /** In a dictionary with unique keys the listing names exactly the containers. */
  lemma ContainerNamesExact(d: Dir, n: Name)
    requires UniqueNames(d)
    ensures n in ContainerNames(d) <==> HasContainer(d, n)
  {
    if n in ContainerNames(d) {
      var i :| 0 <= i < |d| && d[i].name == n && d[i].item.Sub?;
      FindAt(d, i);
    }
    if HasContainer(d, n) {
      var k := IndexOfName(d, n);
      assert d[k].name == n && d[k].item.Sub?;
    }
  }

  /** In a dictionary with unique keys the listing names exactly the values. */
  lemma ValueNamesExact(d: Dir, n: Name)
    requires UniqueNames(d)
    ensures n in ValueNames(d) <==> HasValue(d, n)
  {
    if n in ValueNames(d) {
      var i :| 0 <= i < |d| && d[i].name == n && d[i].item.Data?;
      FindAt(d, i);
    }
    if HasValue(d, n) {
      var k := IndexOfName(d, n);
      assert d[k].name == n && d[k].item.Data?;
    }
  }

  /** After a successful `WriteValue(n, b)`, `ReadValue(n)` returns `b`, and
      every other key reads as before. */
  lemma WriteThenRead(d: Dir, n: Name, b: Bytes, overwrite: bool, m: Name)
    requires WriteIn(d, n, b, overwrite).Ok?
    ensures ReadIn(WriteIn(d, n, b, overwrite).value, n) == Ok(b)
    ensures m != n ==> ReadIn(WriteIn(d, n, b, overwrite).value, m) == ReadIn(d, m)
  {
  }
}
