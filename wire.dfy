/** The byte layout `Serialize` writes with a `BinaryWriter` over
    `Encoding.Unicode` and `Deserialize` reads back with a `BinaryReader`
    (StackContainer/StackContainer.cs:228-259, 267-292):

      entity count       Int32, four bytes little-endian
      per entity:
        name             7-bit-varint byte count, then UTF-16LE code units
        is value         one byte, non-zero read as true
        value            Int32 byte count, then the bytes
        container        Int32 child count, then one Int32 index per child

    Readers consume a prefix of the remaining input and return the rest, the
    way a stream position advances. */
module Wire {
  import opened Types

  const TwoTo31: int := 0x8000_0000
  const TwoTo32: int := 0x1_0000_0000

  predicate IsInt32(n: int)
  {
    -TwoTo31 <= n < TwoTo31
  }

  /** A 32-bit pattern read as a signed C# `int`. */
  function ToInt32(v: int): (r: int)
    ensures IsInt32(r) && (r - v) % TwoTo32 == 0
  {
    var u := v % TwoTo32;
    if u < TwoTo31 then u else u - TwoTo32
  }

  /** How many items a count read from the stream stands for: none when it
      is zero or negative. */
  function Count(n: int): nat
  {
    if n <= 0 then 0 else n
  }

  // ---------------------------------------------------------------- Int32

  /** `BinaryWriter.Write(int)`: the low 32 bits, little-endian. */
  function EncInt32(n: int): (r: Bytes)
    ensures |r| == 4
  {
    var u := n % TwoTo32;
    [(u % 0x100) as uint8, (u / 0x100 % 0x100) as uint8, (u / 0x1_0000 % 0x100) as uint8, (u / 0x100_0000) as uint8]
  }

  /** `BinaryReader.ReadInt32`; fewer than four bytes left is a failure. */
  function DecInt32(s: Bytes): (r: Option<(int, Bytes)>)
    ensures r.Some? <==> |s| >= 4
    ensures r.Some? ==> IsInt32(r.value.0) && r.value.1 == s[4..]
  {
    if |s| < 4 then None
    else Some((ToInt32(s[0] as int + 0x100 * s[1] as int + 0x1_0000 * s[2] as int + 0x100_0000 * s[3] as int), s[4..]))
  }

  /** The four bytes put back together give the low 32 bits. */
  lemma Int32Bytes(n: int)
    ensures var e := EncInt32(n);
      e[0] as int + 0x100 * e[1] as int + 0x1_0000 * e[2] as int + 0x100_0000 * e[3] as int == n % TwoTo32
  {
    var u := n % TwoTo32;
    var b0, b1, b2, b3 := u % 0x100, u / 0x100 % 0x100, u / 0x1_0000 % 0x100, u / 0x100_0000;
    assert u == b0 + 0x100 * (u / 0x100);
    assert u / 0x100 == b1 + 0x100 * (u / 0x1_0000);
    assert u / 0x1_0000 == b2 + 0x100 * b3;
  }

  lemma Int32RoundTrip(n: int, rest: Bytes)
    requires IsInt32(n)
    ensures DecInt32(EncInt32(n) + rest) == Some((n, rest))
  {
    var e := EncInt32(n);
    Int32Bytes(n);
    assert (e + rest)[..4] == e && (e + rest)[4..] == rest;
  }

  // ---------------------------------------------------------------- Boolean

  /** `BinaryWriter.Write(bool)`: one byte, non-zero exactly for true. */
  function EncBool(b: bool): (r: Bytes)
    ensures |r| == 1 && (r[0] != 0 <==> b)
  {
    [if b then 1 else 0]
  }

  /** `BinaryReader.ReadBoolean`: any non-zero byte is true. */
  function DecBool(s: Bytes): (r: Option<(bool, Bytes)>)
    ensures r.Some? <==> |s| >= 1
    ensures r.Some? ==> r.value.1 == s[1..] && (r.value.0 <==> s[0] != 0)
  {
    if |s| < 1 then None else Some((s[0] != 0, s[1..]))
  }

  // ---------------------------------------------------------------- 7-bit length

  /** `Write7BitEncodedInt`: seven bits per byte, low group first, high bit set
      on every byte but the last. */
  function Enc7Bit(n: nat): (r: Bytes)
    ensures |r| > 0 && (|r| == 1 <==> n < 0x80)
  {
    if n < 0x80 then [n as uint8] else [(n % 0x80 + 0x80) as uint8] + Enc7Bit(n / 0x80)
  }

  /** The high bit marks every byte but the last, so a reader knows where the
      number ends. */
  lemma {:induction false} Enc7BitShape(n: nat)
    ensures var r := Enc7Bit(n); r[|r| - 1] < 0x80 && forall i :: 0 <= i < |r| - 1 ==> r[i] >= 0x80
  {
    if n >= 0x80 {
      var r, t := Enc7Bit(n), Enc7Bit(n / 0x80);
      Enc7BitShape(n / 0x80);
      assert forall i :: 1 <= i < |r| ==> r[i] == t[i - 1];
    }
  }

  /** `Read7BitEncodedInt` as .NET Framework implements it, once `count` bytes
      have been read: a sixth byte is a format error, and any fifth byte below
      0x80 is accepted. The sum of the groups is unbounded here; the caller
      keeps its low 32 bits, as the C# shifts do. */
  function Dec7Bit(s: Bytes, count: nat): (r: Option<(nat, Bytes)>)
    decreases |s|
  {
    if count >= 5 || |s| == 0 then None
    else if s[0] < 0x80 then Some((s[0] as nat, s[1..]))
    else match Dec7Bit(s[1..], count + 1)
      case None => None
      case Some((v, r)) => Some(((s[0] - 0x80) as nat + 0x80 * v, r))
  }

  /** Largest group sum plus one that fits in the bytes left after `count`. */
  function Capacity(count: nat): nat
    decreases 5 - count
  {
    if count >= 5 then 1 else 0x80 * Capacity(count + 1)
  }

  lemma {:induction false} SevenBitRoundTrip(n: nat, count: nat, rest: Bytes)
    requires count < 5 && n < Capacity(count)
    ensures Dec7Bit(Enc7Bit(n) + rest, count) == Some((n, rest))
    decreases n
  {
    var e := Enc7Bit(n) + rest;
    if n < 0x80 {
      assert e[1..] == rest;
    } else {
      assert count + 1 < 5;
      assert n / 0x80 < Capacity(count + 1);
      SevenBitRoundTrip(n / 0x80, count + 1, rest);
      assert e[1..] == Enc7Bit(n / 0x80) + rest;
    }
  }

  // ---------------------------------------------------------------- strings

  /** `Encoding.Unicode.GetBytes` of a well-formed UTF-16 name: each code
      unit low byte first. .NET writes an unpaired surrogate as U+FFFD; this
      function writes it unchanged. */
  function Utf16(n: Name): (r: Bytes)
    ensures |r| == 2 * |n|
  {
    if n == [] then [] else [(n[0] % 0x100) as uint8, (n[0] / 0x100) as uint8] + Utf16(n[1..])
  }

  /** `Encoding.Unicode.GetString` of an even number of bytes. */
  function Utf16Decode(s: Bytes): (r: Name)
    requires |s| % 2 == 0
    ensures 2 * |r| == |s|
  {
    if s == [] then [] else [(s[0] as int + 0x100 * s[1] as int) as uint16] + Utf16Decode(s[2..])
  }

  lemma {:induction false} Utf16RoundTrip(n: Name)
    ensures Utf16Decode(Utf16(n)) == n
  {
    if n != [] {
      Utf16RoundTrip(n[1..]);
      assert Utf16(n)[2..] == Utf16(n[1..]);
    }
  }

  /** `BinaryWriter.Write(string)`: byte count, then the UTF-16LE bytes. */
  function EncName(n: Name): (r: Bytes)
    ensures |r| > 2 * |n| && r[|r| - 2 * |n|..] == Utf16(n)
  {
    Enc7Bit(2 * |n|) + Utf16(n)
  }

  /** `BinaryReader.ReadString`: a negative count is an error, a short read is
      an error, an odd byte count is refused. */
  function DecName(s: Bytes): (r: Option<(Name, Bytes)>)
  {
    match Dec7Bit(s, 0)
    case None => None
    case Some((v, r)) =>
      var len := ToInt32(v);
      if len < 0 || len > |r| || len % 2 != 0 then None
      else Some((Utf16Decode(r[..len]), r[len..]))
  }

  lemma NameRoundTrip(n: Name, rest: Bytes)
    requires 2 * |n| < TwoTo31
    ensures DecName(EncName(n) + rest) == Some((n, rest))
  {
    assert Capacity(0) == 0x8_0000_0000 by {
      assert Capacity(4) == 0x80;
    }
    var t := Utf16(n) + rest;
    var len := 2 * |n|;
    assert EncName(n) + rest == Enc7Bit(len) + t;
    SevenBitRoundTrip(len, 0, t);
    assert Dec7Bit(EncName(n) + rest, 0) == Some((len, t));
    assert ToInt32(len) == len;
    Utf16RoundTrip(n);
    assert t[..len] == Utf16(n) && t[len..] == rest;
  }

  // ---------------------------------------------------------------- entities

  function EncInts(ks: seq<int>): (r: Bytes)
    ensures |r| == 4 * |ks|
  {
    if ks == [] then [] else EncInt32(ks[0]) + EncInts(ks[1..])
  }

  /** One entity as the writer loop emits it (lines 236-256). */
  function EncRecord(r: Record): (e: Bytes)
    ensures |e| >= 6
  {
    EncName(r.name) + EncBool(r.ValueRec?) +
    match r
    case ValueRec(_, b) => EncInt32(|b|) + b
    case ContainerRec(_, ks) => EncInt32(|ks|) + EncInts(ks)
  }

  function EncRecords(rs: seq<Record>): (r: Bytes)
    ensures |r| >= 6 * |rs|
  {
    if rs == [] then [] else EncRecord(rs[0]) + EncRecords(rs[1..])
  }

  /** The whole buffer: the entity count, then every entity. */
  function EncodeAll(rs: seq<Record>): (r: Bytes)
    ensures |r| >= 4 + 6 * |rs| && r[..4] == EncInt32(|rs|)
  {
    EncInt32(|rs|) + EncRecords(rs)
  }

  /** `n` child indices (lines 283-287); a count of zero or less reads none. */
  function ParseInts(s: Bytes, n: int, acc: seq<int>): (r: Option<(seq<int>, Bytes)>)
    ensures r.Some? ==> |r.value.0| == |acc| + Count(n) && |r.value.1| <= |s|
    decreases n
  {
    if n <= 0 then Some((acc, s))
    else match DecInt32(s)
      case None => None
      case Some((k, r)) => ParseInts(r, n - 1, acc + [k])
  }

  /** One entity (lines 274-289). `ReadBytes` with a negative count throws; a
      short read is a failure here. */
  function ParseRecord(s: Bytes): (r: Option<(Record, Bytes)>)
  {
    match DecName(s)
    case None => None
    case Some((name, r1)) =>
      match DecBool(r1)
      case None => None
      case Some((isValue, r2)) =>
        match DecInt32(r2)
        case None => None
        case Some((n, r3)) =>
          if isValue then
            if n < 0 || n > |r3| then None else Some((ValueRec(name, r3[..n]), r3[n..]))
          else
            match ParseInts(r3, n, [])
            case None => None
            case Some((ks, r4)) => Some((ContainerRec(name, ks), r4))
  }

  /** `n` entities (lines 272-290); a count of zero or less reads none. */
  function ParseRecords(s: Bytes, n: int, acc: seq<Record>): (r: Option<(seq<Record>, Bytes)>)
    ensures r.Some? ==> |r.value.0| == |acc| + Count(n)
    decreases n
  {
    if n <= 0 then Some((acc, s))
    else match ParseRecord(s)
      case None => None
      case Some((rec, r)) => ParseRecords(r, n - 1, acc + [rec])
  }

  /** One entity read leaves one fewer to read. */
  lemma ParseRecordsStep(s: Bytes, n: int, acc: seq<Record>, rec: Record, rest: Bytes)
    requires n > 0 && ParseRecord(s) == Some((rec, rest))
    ensures ParseRecords(s, n, acc) == ParseRecords(rest, n - 1, acc + [rec])
  {
  }

  /** The entity list of a buffer (lines 267-292); trailing bytes are ignored. */
  function ParseAll(s: Bytes): (r: Option<seq<Record>>)
    ensures r.Some? ==> DecInt32(s).Some? && |r.value| == Count(DecInt32(s).value.0)
  {
    match DecInt32(s)
    case None => None
    case Some((n, r)) =>
      match ParseRecords(r, n, [])
      case None => None
      case Some((rs, _)) => Some(rs)
  }

  // ---------------------------------------------------------------- readers take a prefix

  /** `rest` is what is left of `s` once a prefix has been read. */
  predicate Suffix(rest: Bytes, s: Bytes)
  {
    |rest| <= |s| && rest == s[|s| - |rest|..]
  }

  lemma SuffixTrans(a: Bytes, b: Bytes, c: Bytes)
    requires Suffix(a, b) && Suffix(b, c)
    ensures Suffix(a, c)
  {
    assert c[|c| - |b|..][|b| - |a|..] == c[|c| - |a|..];
  }

  /** A 7-bit number takes one to five bytes from the front, counting the
      bytes read before. */
  lemma {:induction false} Dec7BitPrefix(s: Bytes, count: nat)
    requires Dec7Bit(s, count).Some?
    ensures var rest := Dec7Bit(s, count).value.1;
      Suffix(rest, s) && |rest| < |s| && count + |s| - |rest| <= 5
    decreases |s|
  {
    var rest := Dec7Bit(s, count).value.1;
    if s[0] >= 0x80 {
      Dec7BitPrefix(s[1..], count + 1);
      SuffixTrans(rest, s[1..], s);
    }
  }

  /** A string takes its prefix and its code units from the front. */
  lemma DecNamePrefix(s: Bytes)
    requires DecName(s).Some?
    ensures var (name, rest) := DecName(s).value;
      Suffix(rest, s) && |rest| + 2 * |name| < |s|
  {
    var (v, r) := Dec7Bit(s, 0).value;
    Dec7BitPrefix(s, 0);
    var len := ToInt32(v);
    SuffixTrans(r[len..], r, s);
  }

  /** `n` child indices take exactly four bytes each from the front (none for
      a count of zero or less), keep what was read before and are 32-bit values;
      they are missing exactly when fewer bytes are left. */
  lemma {:induction false} ParseIntsShape(s: Bytes, n: int, acc: seq<int>)
    ensures ParseInts(s, n, acc).Some? <==> |s| >= 4 * Count(n)
    ensures ParseInts(s, n, acc).Some? ==> var (ks, rest) := ParseInts(s, n, acc).value;
      && ks[..|acc|] == acc && rest == s[4 * Count(n)..]
      && forall k :: k in ks[|acc|..] ==> IsInt32(k)
    decreases n
  {
    if n > 0 && |s| >= 4 {
      var (k, r) := DecInt32(s).value;
      ParseIntsShape(r, n - 1, acc + [k]);
      if ParseInts(s, n, acc).Some? {
        var ks := ParseInts(s, n, acc).value.0;
        assert ks[..|acc| + 1] == acc + [k];
        assert ks[..|acc|] == ks[..|acc| + 1][..|acc|];
        assert ks[|acc|..] == [k] + ks[|acc| + 1..];
        assert r[4 * Count(n - 1)..] == s[4 * Count(n)..];
      }
    }
  }

  /** An entity takes at least six bytes from the front. */
  lemma ParseRecordPrefix(s: Bytes)
    requires ParseRecord(s).Some?
    ensures var rest := ParseRecord(s).value.1; Suffix(rest, s) && |rest| + 6 <= |s|
  {
    var (name, r1) := DecName(s).value;
    DecNamePrefix(s);
    var (isValue, r2) := DecBool(r1).value;
    var (n, r3) := DecInt32(r2).value;
    SuffixTrans(r2, r1, s);
    SuffixTrans(r3, r2, s);
    if isValue {
      assert ParseRecord(s) == Some((ValueRec(name, r3[..n]), r3[n..]));
      SuffixTrans(r3[n..], r3, s);
    } else {
      var ks := ParseInts(r3, n, []);
      assert ParseRecord(s) == Some((ContainerRec(name, ks.value.0), ks.value.1));
      ParseIntsShape(r3, n, []);
      SuffixTrans(ks.value.1, r3, s);
    }
  }

  /** What the format can carry: every count fits an `Int32`. */
  predicate Encodable(r: Record)
  {
    && 2 * |r.name| < TwoTo31
    && match r
       case ValueRec(_, b) => |b| < TwoTo31
       case ContainerRec(_, ks) => |ks| < TwoTo31 && forall k :: k in ks ==> IsInt32(k)
  }

  lemma {:induction false} IntsRoundTrip(ks: seq<int>, acc: seq<int>, rest: Bytes)
    requires forall k :: k in ks ==> IsInt32(k)
    ensures ParseInts(EncInts(ks) + rest, |ks|, acc) == Some((acc + ks, rest))
  {
    if ks == [] {
      assert acc + ks == acc && EncInts(ks) + rest == rest;
    } else {
      assert EncInts(ks) + rest == EncInt32(ks[0]) + (EncInts(ks[1..]) + rest);
      Int32RoundTrip(ks[0], EncInts(ks[1..]) + rest);
      IntsRoundTrip(ks[1..], acc + [ks[0]], rest);
      assert acc + [ks[0]] + ks[1..] == acc + ks;
    }
  }

  /** The name and the flag of an entity read back. */
  lemma HeadRoundTrip(name: Name, isValue: bool, tail: Bytes)
    requires 2 * |name| < TwoTo31
    ensures DecName(EncName(name) + EncBool(isValue) + tail) == Some((name, EncBool(isValue) + tail))
    ensures DecBool(EncBool(isValue) + tail) == Some((isValue, tail))
  {
    var flagged := EncBool(isValue) + tail;
    assert EncName(name) + EncBool(isValue) + tail == EncName(name) + flagged;
    NameRoundTrip(name, flagged);
    assert flagged[1..] == tail;
  }

  lemma ValueRoundTrip(name: Name, b: Bytes, rest: Bytes)
    requires Encodable(ValueRec(name, b))
    ensures ParseRecord(EncRecord(ValueRec(name, b)) + rest) == Some((ValueRec(name, b), rest))
  {
    var tail := EncInt32(|b|) + (b + rest);
    assert EncRecord(ValueRec(name, b)) + rest == EncName(name) + EncBool(true) + tail;
    HeadRoundTrip(name, true, tail);
    Int32RoundTrip(|b|, b + rest);
    assert (b + rest)[..|b|] == b && (b + rest)[|b|..] == rest;
  }

  lemma ContainerRoundTrip(name: Name, ks: seq<int>, rest: Bytes)
    requires Encodable(ContainerRec(name, ks))
    ensures ParseRecord(EncRecord(ContainerRec(name, ks)) + rest) == Some((ContainerRec(name, ks), rest))
  {
    var tail := EncInt32(|ks|) + (EncInts(ks) + rest);
    assert EncRecord(ContainerRec(name, ks)) + rest == EncName(name) + EncBool(false) + tail;
    HeadRoundTrip(name, false, tail);
    Int32RoundTrip(|ks|, EncInts(ks) + rest);
    IntsRoundTrip(ks, [], rest);
    assert [] + ks == ks;
  }

  lemma RecordRoundTrip(r: Record, rest: Bytes)
    requires Encodable(r)
    ensures ParseRecord(EncRecord(r) + rest) == Some((r, rest))
  {
    match r
    case ValueRec(name, b) => ValueRoundTrip(name, b, rest);
    case ContainerRec(name, ks) => ContainerRoundTrip(name, ks, rest);
  }

  lemma EncRecordsCons(rs: seq<Record>, rest: Bytes)
    requires rs != []
    ensures EncRecords(rs) + rest == EncRecord(rs[0]) + (EncRecords(rs[1..]) + rest)
  {
  }

  /** Reading the first of several written entities leaves the others. */
  lemma FirstRecordRoundTrip(rs: seq<Record>, acc: seq<Record>, rest: Bytes)
    requires rs != [] && Encodable(rs[0])
    ensures ParseRecords(EncRecords(rs) + rest, |rs|, acc) == ParseRecords(EncRecords(rs[1..]) + rest, |rs[1..]|, acc + [rs[0]])
  {
    var later := EncRecords(rs[1..]) + rest;
    EncRecordsCons(rs, rest);
    RecordRoundTrip(rs[0], later);
    ParseRecordsStep(EncRecords(rs) + rest, |rs|, acc, rs[0], later);
  }

  lemma AppendFirst(acc: seq<Record>, rs: seq<Record>)
    requires rs != []
    ensures acc + [rs[0]] + rs[1..] == acc + rs
  {
  }

  lemma {:induction false} RecordsRoundTrip(rs: seq<Record>, acc: seq<Record>, rest: Bytes)
    requires forall r :: r in rs ==> Encodable(r)
    ensures ParseRecords(EncRecords(rs) + rest, |rs|, acc) == Some((acc + rs, rest))
  {
    if rs == [] {
      assert acc + rs == acc && EncRecords(rs) + rest == rest;
    } else {
      FirstRecordRoundTrip(rs, acc, rest);
      RecordsRoundTrip(rs[1..], acc + [rs[0]], rest);
      AppendFirst(acc, rs);
    }
  }

  /** Reading back a written buffer gives the entity list that was written. */
  lemma EncodeAllRoundTrip(rs: seq<Record>)
    requires |rs| < TwoTo31 && forall r :: r in rs ==> Encodable(r)
    ensures ParseAll(EncodeAll(rs)) == Some(rs)
  {
    Int32RoundTrip(|rs|, EncRecords(rs));
    assert DecInt32(EncodeAll(rs)) == Some((|rs|, EncRecords(rs)));
    RecordsRoundTrip(rs, [], []);
    assert EncRecords(rs) + [] == EncRecords(rs);
    assert [] + rs == rs;
  }
}
