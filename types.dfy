/** The data model of a StackContainer store.

    A C# StackContainer keeps a tree of `Dictionary<string, object>` whose
    values are either `byte[]` (a value) or another dictionary (a container).
    Dictionaries are references, and a fresh root holds a reference to itself
    under the name "..". Here every dictionary is a `Dir` in an arena
    (`seq<Dir>`), addressed by its index; index 0 is the root. A dictionary is
    an insertion-ordered list of entries. */
module Types {

  newtype uint8 = x: int | 0 <= x < 0x100
  newtype uint16 = x: int | 0 <= x < 0x1_0000

  /** A C# string: a sequence of UTF-16 code units. */
  type Name = seq<uint16>
  type Bytes = seq<uint8>

  /** The name "..". */
  const Parent: Name := [0x2E, 0x2E]

  /** What a dictionary slot holds: a byte array or a reference to a container. */
  datatype Item = Data(bytes: Bytes) | Sub(id: nat)

  /** One key/value pair of a dictionary. For containers, equality is that of
      the C# `KeyValuePair<string, object>`: same key, same reference. Byte
      arrays are compared by content here, by reference in C#. */
  datatype Entry = Entry(name: Name, item: Item)

  type Dir = seq<Entry>

  /** One entity of the flat list written to the byte buffer: a value with its
      bytes, or a container with the list positions of its children. */
  datatype Record = ValueRec(name: Name, data: Bytes) | ContainerRec(name: Name, kids: seq<int>)

  datatype Option<T> = None | Some(value: T)

  /** Every exception of the source is one failure outcome. */
  datatype Result<T> = Ok(value: T) | Fail

  /** No two entries of a dictionary have the same key. */
  predicate UniqueNames(d: Dir)
  {
    forall i, j :: 0 <= i < j < |d| ==> d[i].name != d[j].name
  }

  /** Every container reference points into the arena. */
  predicate Closed(s: seq<Dir>)
  {
    forall x, i :: 0 <= x < |s| && 0 <= i < |s[x]| && s[x][i].item.Sub? ==> s[x][i].item.id < |s|
  }

  /** Every container reference points to a later index, except the root's
      ".." entry referring to the root itself: the only back edge a store
      built through the public operations can hold. */
  predicate Ordered(s: seq<Dir>)
  {
    forall x, i :: 0 <= x < |s| && 0 <= i < |s[x]| && s[x][i].item.Sub? ==>
      x < s[x][i].item.id || (x == 0 && s[x][i] == Entry(Parent, Sub(0)))
  }

  /** No two entries refer to the same dictionary: every dictionary hangs
      under at most one key of one dictionary, since the public operations
      create each container under a single key and never copy a reference. */
  predicate TreeShaped(s: seq<Dir>)
  {
    forall x, i, y, j ::
      (0 <= x < |s| && 0 <= i < |s[x]| && 0 <= y < |s| && 0 <= j < |s[y]| &&
       s[x][i].item.Sub? && s[x][i].item == s[y][j].item) ==> x == y && i == j
  }

  /** The invariant of every store the model builds. */
  predicate StoreValid(s: seq<Dir>)
  {
    && |s| > 0
    && Closed(s)
    && Ordered(s)
    && (forall x :: 0 <= x < |s| ==> UniqueNames(s[x]))
  }
}
